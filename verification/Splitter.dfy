/**
 * The request parser on immutable bytes: one stage per parse state, each of which scans from a cursor and either
 * runs out of bytes, fails, or goes on to the next stage (src/http.c:649-848). `p` is the start of the
 * unconsumed block and `r` the cursor; running out leaves `r` at the end of the bytes.
 */
module Splitter {
  import opened Bytes
  import opened Numbers
  import opened Requests
  import UrlCoding

  datatype Outcome =
    | More(phase: Phase, p: nat, req: Request)
    | Fail(status: nat, req: Request)
    | Done(req: Request, headEnd: nat)

  datatype HeaderOutcome = Kept(req: Request) | Bad(req: Request)

  function StageMethod(b: seq<byte>, p: nat, r: nat, q: Request): Outcome
    requires p <= r <= |b|
  {
    var e := Find(b, SP, r);
    if e == |b| then More(ReqMethod, p, q)
    else
      match MethodOf(b[p..e])
      case None => Fail(HTTP_501_NOT_IMPLEMENTED, q.(verb := GET))
      case Some(m) => StagePath(b, e + 1, e + 1, q.(verb := m))
  }

  /** The decoded path and query of a request target that starts at offset `at`. */
  function SplitTarget(raw: seq<byte>, at: nat, q: Request): Request
  {
    var s := Find(raw, QUESTION, 0);
    var path := At(at, CString(UrlCoding.Decode(raw[..s])));
    if s == |raw| then q.(path := path)
    else q.(path := path, query := At(at + s + 1, CString(UrlCoding.Decode(raw[s + 1..]))))
  }

  function StagePath(b: seq<byte>, p: nat, r: nat, q: Request): Outcome
    requires p <= r <= |b|
  {
    var e := Find(b, SP, r);
    if e == |b| then More(ReqPath, p, q)
    else if !AllPrint(b[p..e]) then Fail(HTTP_400_BAD_REQUEST, q)
    else
      var q' := SplitTarget(b[p..e], p, q);
      if AttemptedTraversal(q'.path.text) then Fail(HTTP_400_BAD_REQUEST, q')
      else StageVersion(b, e + 1, e + 1, q')
  }

  function StageVersion(b: seq<byte>, p: nat, r: nat, q: Request): Outcome
    requires p <= r <= |b|
  {
    var e := Find(b, CR, r);
    if e == |b| then More(ReqVersion, p, q)
    else if !(HTTP_SLASH <= b[p..e]) then Fail(HTTP_400_BAD_REQUEST, q)
    else
      match VersionOf(b[p + 5..e])
      case None => Fail(HTTP_505_VERSION_NOT_SUPPORTED, q)
      case Some(v) => StageVersionLf(b, e + 1, q.(version := v))
  }

  function StageVersionLf(b: seq<byte>, r: nat, q: Request): Outcome
    requires r <= |b|
  {
    if r == |b| then More(ReqVersionLf, r, q)
    else if b[r] != LF then Fail(HTTP_400_BAD_REQUEST, q)
    else StageHead(b, r + 1, r + 1, q)
  }

  /** The first offset at or after `i` that holds neither a space nor a tab. */
  function SkipBlanks(line: seq<byte>, i: nat): (j: nat)
    requires i <= |line|
    ensures i <= j <= |line|
    ensures j < |line| ==> line[j] != SP && line[j] != HT
    ensures forall k :: i <= k < j ==> line[k] == SP || line[k] == HT
    decreases |line| - i
  {
    if i < |line| && (line[i] == SP || line[i] == HT) then SkipBlanks(line, i + 1) else i
  }

  /** Stores a recognised field (src/http.c:193-237). The last field of a name wins. */
  function StoreField(field: Field, value: Text, q: Request): HeaderOutcome
    requires value.At?
  {
    match field
    case Cookie => Kept(q.(cookies := value))
    case Range => Kept(q.(range := value))
    case IfModifiedSince => Kept(q.(modifiedSince := value))
    case ContentType => Kept(q.(mimetype := value))
    case ContentDisposition => Kept(q.(disposition := value))
    case ContentLength =>
      var q' := q.(contentLen := ReadLong(value.text).value);
      if IsNumber(value.text) && q'.contentLen >= 0 then Kept(q') else Bad(q')
  }

  /** One header line, without its CR, that starts at offset `at`. */
  function ProcessHeader(line: seq<byte>, at: nat, q: Request): HeaderOutcome
  {
    var colon := Find(CString(line), COLON, 0);
    if colon == |CString(line)| then Bad(q)
    else
      var h := MatchHeader(line[..colon], 0);
      var v := SkipBlanks(line, colon + 1);
      if h == |HEADERS| then Kept(q)
      else StoreField(HEADERS[h].1, At(at + v, CString(line[v..])), q)
  }

  function StageHead(b: seq<byte>, p: nat, r: nat, q: Request): Outcome
    requires p <= r <= |b|
    decreases |b| - r, 1
  {
    var e := Find(b, CR, r);
    if e == |b| then More(ReqHead, p, q)
    else if e == p then StageHeadLf(b, p, e + 1, q)
    else
      match ProcessHeader(b[p..e], p, q)
      case Bad(q') => Fail(HTTP_400_BAD_REQUEST, q')
      case Kept(q') => StageHeadLf(b, e + 1, e + 1, q')
  }

  function StageHeadLf(b: seq<byte>, p: nat, r: nat, q: Request): Outcome
    requires p <= r <= |b|
    decreases |b| - r, 2
  {
    if r == |b| then More(ReqHeadLf, p, q)
    else if b[r] != LF then Fail(HTTP_400_BAD_REQUEST, q)
    else if r == p then StageHead(b, r + 1, r + 1, q)
    else Done(q, r + 1)
  }

  // One turn of the header loop.

  lemma HeadStep(b: seq<byte>, p: nat, r: nat, q: Request)
    requires p <= r <= |b|
    ensures var e := Find(b, CR, r);
            StageHead(b, p, r, q) ==
            if e == |b| then More(ReqHead, p, q)
            else if e == p then StageHeadLf(b, p, e + 1, q)
            else
              match ProcessHeader(b[p..e], p, q)
              case Bad(q') => Fail(HTTP_400_BAD_REQUEST, q')
              case Kept(q') => StageHeadLf(b, e + 1, e + 1, q')
  {
  }

  lemma HeadLfStep(b: seq<byte>, p: nat, r: nat, q: Request)
    requires p <= r <= |b|
    ensures StageHeadLf(b, p, r, q) ==
            if r == |b| then More(ReqHeadLf, p, q)
            else if b[r] != LF then Fail(HTTP_400_BAD_REQUEST, q)
            else if r == p then StageHead(b, r + 1, r + 1, q)
            else Done(q, r + 1)
  {
  }

  /** The `switch` on the saved parse state. */
  function Resume(phase: Phase, p: nat, r: nat, q: Request, b: seq<byte>): Outcome
    requires p <= r <= |b|
  {
    match phase
    case New => StageMethod(b, 0, 0, q)
    case ReqMethod => StageMethod(b, p, r, q)
    case ReqPath => StagePath(b, p, r, q)
    case ReqVersion => StageVersion(b, p, r, q)
    case ReqVersionLf => StageVersionLf(b, r, q)
    case ReqHead => StageHead(b, p, r, q)
    case ReqHeadLf => StageHeadLf(b, p, r, q)
  }

  function Parse(b: seq<byte>): Outcome { Resume(New, 0, 0, BLANK, b) }

  lemma ParseStarts(b: seq<byte>)
    ensures Parse(b) == Resume(New, 0, 0, BLANK, b)
  {
  }

  lemma {:induction false} HeadFailures(b: seq<byte>, p: nat, r: nat, q: Request, lf: bool)
    requires p <= r <= |b|
    ensures var o := if lf then StageHeadLf(b, p, r, q) else StageHead(b, p, r, q);
            o.Fail? ==> o.status == HTTP_400_BAD_REQUEST
    decreases |b| - r, lf
  {
    hide ProcessHeader;
    if lf {
      if r < |b| && b[r] == LF && r == p {
        HeadFailures(b, r + 1, r + 1, q, false);
      }
    } else {
      var e := Find(b, CR, r);
      if e < |b| {
        if e == p {
          HeadFailures(b, p, e + 1, q, true);
        } else if ProcessHeader(b[p..e], p, q).Kept? {
          HeadFailures(b, e + 1, e + 1, ProcessHeader(b[p..e], p, q).req, true);
        }
      }
    }
  }

  /** A request that does not parse is answered with one of three error statuses, and then the connection ends. */
  lemma FailuresAreErrors(b: seq<byte>)
    ensures Parse(b).Fail? ==>
              Parse(b).status in {HTTP_400_BAD_REQUEST, HTTP_501_NOT_IMPLEMENTED, HTTP_505_VERSION_NOT_SUPPORTED}
  {
    hide StageHead, AttemptedTraversal, SplitTarget, MethodOf, VersionOf, AllPrint;
    forall r: nat, q | r <= |b|
      ensures StageHead(b, r, r, q).Fail? ==> StageHead(b, r, r, q).status == HTTP_400_BAD_REQUEST
    {
      HeadFailures(b, r, r, q, false);
    }
  }

  // ----- Chunking -----

  /** What the outcome `o` on the bytes `b` becomes once `c` has been read as well. */
  function Continue(o: Outcome, b: seq<byte>, c: seq<byte>): Outcome
    requires o.More? ==> o.p <= |b|
  {
    match o
    case More(phase, p, q) => Resume(phase, p, |b|, q, b + c)
    case Fail(_, _) => o
    case Done(_, _) => o
  }

  /** The bounds the outcome keeps, and where it saves its cursor. */
  ghost predicate InBounds(o: Outcome, b: seq<byte>)
  {
    match o
    case More(phase, p, _) => phase != New && p <= |b| && (phase == ReqVersionLf ==> p == |b|)
    case Fail(_, _) => true
    case Done(_, n) => 0 < n <= |b|
  }

  lemma FindExtends(b: seq<byte>, c: seq<byte>, x: byte, i: nat)
    requires i <= |b|
    ensures Find(b + c, x, i) == if Find(b, x, i) < |b| then Find(b, x, i) else Find(b + c, x, |b|)
  {
    var f := Find(b, x, i);
    if f < |b| {
      FindIs(b + c, x, i, f);
    } else {
      FindIs(b + c, x, i, Find(b + c, x, |b|));
    }
  }

  lemma SliceStays(b: seq<byte>, c: seq<byte>, p: nat, e: nat)
    requires p <= e <= |b|
    ensures (b + c)[p..e] == b[p..e]
  {
  }

  lemma VersionToken(b: seq<byte>, p: nat, e: nat)
    requires p + 5 <= e <= |b|
    ensures b[p + 5..e] == b[p..e][5..]
  {
  }

  lemma MethodExtends(b: seq<byte>, c: seq<byte>, p: nat, r: nat, q: Request)
    requires p <= r <= |b|
    ensures var o := StageMethod(b, p, r, q);
            InBounds(o, b) && StageMethod(b + c, p, r, q) == Continue(o, b, c)
  {
    hide StagePath, MethodOf, Find;
    FindExtends(b, c, SP, r);
    var e := Find(b, SP, r);
    if e < |b| {
      SliceStays(b, c, p, e);
      if MethodOf(b[p..e]).Some? {
        PathExtends(b, c, e + 1, e + 1, q.(verb := MethodOf(b[p..e]).value));
      }
    }
  }

  lemma PathExtends(b: seq<byte>, c: seq<byte>, p: nat, r: nat, q: Request)
    requires p <= r <= |b|
    ensures var o := StagePath(b, p, r, q);
            InBounds(o, b) && StagePath(b + c, p, r, q) == Continue(o, b, c)
  {
    hide StageVersion, SplitTarget, AttemptedTraversal, Find;
    FindExtends(b, c, SP, r);
    var e := Find(b, SP, r);
    if e < |b| {
      SliceStays(b, c, p, e);
      VersionExtends(b, c, e + 1, e + 1, SplitTarget(b[p..e], p, q));
    }
  }

  lemma VersionExtends(b: seq<byte>, c: seq<byte>, p: nat, r: nat, q: Request)
    requires p <= r <= |b|
    ensures var o := StageVersion(b, p, r, q);
            InBounds(o, b) && StageVersion(b + c, p, r, q) == Continue(o, b, c)
  {
    hide StageVersionLf, VersionOf, Find;
    FindExtends(b, c, CR, r);
    var e := Find(b, CR, r);
    if e < |b| {
      SliceStays(b, c, p, e);
      if HTTP_SLASH <= b[p..e] {
        VersionToken(b, p, e);
        VersionToken(b + c, p, e);
        var v := VersionOf(b[p..e][5..]);
        if v.Some? {
          VersionLfExtends(b, c, e + 1, q.(version := v.value));
        }
      }
    }
  }

  lemma VersionLfExtends(b: seq<byte>, c: seq<byte>, r: nat, q: Request)
    requires r <= |b|
    ensures var o := StageVersionLf(b, r, q);
            InBounds(o, b) && StageVersionLf(b + c, r, q) == Continue(o, b, c)
  {
    hide StageHead;
    if r < |b| && b[r] == LF {
      HeadExtends(b, c, r + 1, r + 1, q);
    }
  }

  lemma {:induction false} HeadExtends(b: seq<byte>, c: seq<byte>, p: nat, r: nat, q: Request)
    requires p <= r <= |b|
    ensures var o := StageHead(b, p, r, q);
            InBounds(o, b) && StageHead(b + c, p, r, q) == Continue(o, b, c)
    decreases |b| - r, 1
  {
    hide StageHeadLf, ProcessHeader, Find;
    FindExtends(b, c, CR, r);
    var e := Find(b, CR, r);
    if e < |b| {
      SliceStays(b, c, p, e);
      if e == p {
        HeadLfExtends(b, c, p, e + 1, q);
      } else if ProcessHeader(b[p..e], p, q).Kept? {
        HeadLfExtends(b, c, e + 1, e + 1, ProcessHeader(b[p..e], p, q).req);
      }
    }
  }

  lemma {:induction false} HeadLfExtends(b: seq<byte>, c: seq<byte>, p: nat, r: nat, q: Request)
    requires p <= r <= |b|
    ensures var o := StageHeadLf(b, p, r, q);
            InBounds(o, b) && StageHeadLf(b + c, p, r, q) == Continue(o, b, c)
    decreases |b| - r, 2
  {
    hide StageHead;
    if r == |b| {
      assert Continue(StageHeadLf(b, p, r, q), b, c) == Resume(ReqHeadLf, p, |b|, q, b + c);
    } else if b[r] == LF && r == p {
      HeadExtends(b, c, r + 1, r + 1, q);
      assert StageHeadLf(b + c, p, r, q) == StageHead(b + c, r + 1, r + 1, q);
    } else {
      assert (b + c)[r] == b[r];
    }
  }

  /** Reading more bytes never changes what was concluded, and resuming from the saved state loses nothing. */
  lemma ResumeExtends(phase: Phase, p: nat, r: nat, q: Request, b: seq<byte>, c: seq<byte>)
    requires p <= r <= |b|
    ensures var o := Resume(phase, p, r, q, b);
            InBounds(o, b) && Resume(phase, p, r, q, b + c) == Continue(o, b, c)
  {
    hide StageMethod, StagePath, StageVersion, StageVersionLf, StageHead, StageHeadLf;
    match phase
    case New => MethodExtends(b, c, 0, 0, q);
    case ReqMethod => MethodExtends(b, c, p, r, q);
    case ReqPath => PathExtends(b, c, p, r, q);
    case ReqVersion => VersionExtends(b, c, p, r, q);
    case ReqVersionLf => VersionLfExtends(b, c, r, q);
    case ReqHead => HeadExtends(b, c, p, r, q);
    case ReqHeadLf => HeadLfExtends(b, c, p, r, q);
  }

  lemma ParseExtends(b: seq<byte>, c: seq<byte>)
    ensures InBounds(Parse(b), b)
    ensures Parse(b + c) == Continue(Parse(b), b, c)
  {
    hide StageMethod;
    ResumeExtends(New, 0, 0, BLANK, b, c);
  }

  /** A head that was complete stays the same head whatever follows it. */
  lemma DoneIsStable(b: seq<byte>, n: nat)
    requires n <= |b|
    requires Parse(b[..n]).Done?
    ensures Parse(b) == Parse(b[..n])
  {
    hide Parse, Resume;
    var head, rest := b[..n], b[n..];
    assert head + rest == b;
    ParseExtends(head, rest);
  }

  // ----- The 4096-byte buffer -----

  function Buffered(stream: seq<byte>): seq<byte>
  {
    stream[..Min(|stream|, HTTP_BUFSZ)]
  }

  /** What one read of everything that has arrived concludes; a full buffer without a complete head is 431. */
  function Receive(stream: seq<byte>): Outcome
  {
    var o := Parse(Buffered(stream));
    if o.More? && |stream| >= HTTP_BUFSZ then Fail(HTTP_431_REQUEST_HEADER_FIELDS_TOO_LARGE, o.req) else o
  }

  lemma ReceiveOfBuffer(b: seq<byte>)
    requires |b| <= HTTP_BUFSZ
    ensures Receive(b) ==
            if Parse(b).More? && |b| == HTTP_BUFSZ then Fail(HTTP_431_REQUEST_HEADER_FIELDS_TOO_LARGE, Parse(b).req)
            else Parse(b)
  {
    assert Buffered(b) == b;
  }

  lemma RejectionsAreErrors(stream: seq<byte>)
    ensures Receive(stream).Fail? ==> StatusIsError(Receive(stream).status)
  {
    hide Parse;
    FailuresAreErrors(Buffered(stream));
  }

  /** A rejection stands whatever follows. */
  lemma FailStaysFail(b: seq<byte>, more: seq<byte>)
    requires Receive(b).Fail?
    ensures Receive(b + more) == Receive(b)
  {
    hide Parse;
    var now, all := Buffered(b), Buffered(b + more);
    if |b| >= HTTP_BUFSZ {
      assert all == now;
    } else {
      assert now == b && all == b + all[|b|..];
      ParseExtends(b, all[|b|..]);
    }
  }

  /** The state of a reception: the bytes in the buffer and the outcome so far. */
  datatype Reception = Reception(buf: seq<byte>, outcome: Outcome)

  ghost predicate Consistent(s: Reception)
  {
    && |s.buf| <= HTTP_BUFSZ
    && InBounds(s.outcome, s.buf)
    && (s.outcome.More? ==> |s.buf| < HTTP_BUFSZ)
  }

  /** One read of `chunk` (or of what fits of it), then a run of the parser from where it stopped. */
  function ReadChunk(s: Reception, chunk: seq<byte>): (s': Reception)
    requires Consistent(s)
  {
    if !s.outcome.More? then s
    else
      var got := chunk[..Min(|chunk|, HTTP_BUFSZ - |s.buf|)];
      var buf := s.buf + got;
      var o := Resume(s.outcome.phase, s.outcome.p, |s.buf|, s.outcome.req, buf);
      Reception(buf, if o.More? && |buf| == HTTP_BUFSZ then Fail(HTTP_431_REQUEST_HEADER_FIELDS_TOO_LARGE, o.req) else o)
  }

  lemma ReadChunkConsistent(s: Reception, chunk: seq<byte>)
    requires Consistent(s)
    ensures Consistent(ReadChunk(s, chunk))
  {
    hide Resume;
    if s.outcome.More? {
      var got := chunk[..Min(|chunk|, HTTP_BUFSZ - |s.buf|)];
      ResumeExtends(s.outcome.phase, s.outcome.p, |s.buf|, s.outcome.req, s.buf + got, []);
    }
  }

  /** Everything a connection has delivered, read chunk by chunk, starting with nothing read. */
  ghost function ReadAll(chunks: seq<seq<byte>>): (s: Reception)
    ensures Consistent(s)
  {
    if chunks == [] then
      Reception([], Parse([]))
    else
      var before := ReadAll(chunks[..|chunks| - 1]);
      ReadChunkConsistent(before, chunks[|chunks| - 1]);
      ReadChunk(before, chunks[|chunks| - 1])
  }

  lemma ReceiveStep(stream: seq<byte>, chunk: seq<byte>, s: Reception)
    requires Consistent(s)
    requires s.outcome == Receive(stream)
    requires s.outcome.More? ==> s.buf == stream
    ensures var s' := ReadChunk(s, chunk);
            s'.outcome == Receive(stream + chunk) && (s'.outcome.More? ==> s'.buf == stream + chunk)
  {
    hide Resume;
    var b := Buffered(stream);
    var all := Buffered(stream + chunk);
    if s.outcome.More? {
      var got := chunk[..Min(|chunk|, HTTP_BUFSZ - |stream|)];
      assert all == stream + got && b == stream;
      ParseExtends(stream, got);
    } else if |stream| >= HTTP_BUFSZ {
      assert all == b;
    } else {
      assert b == stream && all == stream + all[|stream|..];
      ParseExtends(stream, all[|stream|..]);
    }
  }

  lemma StartOfStream()
    ensures Receive([]) == Parse([])
  {
    assert Buffered([]) == [];
  }

  /**
   * Chunking independence: however the stream is cut into reads, the parser ends in the same outcome as when the
   * whole stream is read at once: the same error, the same saved state and block offset (its cursor being at the end
   * of the bytes read), or the same request and the same end of the head.
   */
  lemma {:induction false} ChunkingIndependence(chunks: seq<seq<byte>>)
    ensures ReadAll(chunks).outcome == Receive(Flatten(chunks))
    ensures ReadAll(chunks).outcome.More? ==> ReadAll(chunks).buf == Flatten(chunks)
  {
    hide Receive, ReadChunk, Consistent;
    if chunks == [] {
      StartOfStream();
    } else {
      var init, last := chunks[..|chunks| - 1], chunks[|chunks| - 1];
      ChunkingIndependence(init);
      assert chunks == init + [last];
      FlattenSnoc(init, last);
      ReceiveStep(Flatten(init), last, ReadAll(init));
    }
  }
}
