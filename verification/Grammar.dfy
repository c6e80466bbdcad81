/**
 * The request head as a grammar, written without reference to the parser's states: a request line, header lines and
 * an empty line (sections 3 and 5 of RFC 9112, with the deviations of src/http.c:649-848). The parser accepts exactly
 * the heads of this grammar and reads off exactly what they hold.
 */
module Grammar {
  import opened Bytes
  import opened Requests
  import opened Splitter
  import UrlCoding

  datatype Head = Head(token: seq<byte>, target: seq<byte>, version: seq<byte>, lines: seq<seq<byte>>)

  function PrintLines(lines: seq<seq<byte>>): seq<byte>
  {
    if lines == [] then [] else lines[0] + CRLF + PrintLines(lines[1..])
  }

  function RequestLine(h: Head): seq<byte>
  {
    h.token + [SP] + h.target + [SP] + HTTP_SLASH + h.version + CRLF
  }

  function Print(h: Head): seq<byte>
  {
    RequestLine(h) + PrintLines(h.lines) + CRLF
  }

  /** The request a run of header lines builds; `at` is the offset of the first of them. */
  function BuildLines(lines: seq<seq<byte>>, at: nat, q: Request): HeaderOutcome
  {
    if lines == [] then Kept(q)
    else
      match ProcessHeader(lines[0], at, q)
      case Bad(q') => Bad(q')
      case Kept(q') => BuildLines(lines[1..], at + |lines[0]| + 2, q')
  }

  /** Method, path, query and version of the request line. */
  function BuildLine(h: Head): Request
    requires MethodOf(h.token).Some? && VersionOf(h.version).Some?
  {
    SplitTarget(h.target, |h.token| + 1, BLANK.(verb := MethodOf(h.token).value))
      .(version := VersionOf(h.version).value)
  }

  predicate GoodLines(lines: seq<seq<byte>>)
  {
    forall i :: 0 <= i < |lines| ==> lines[i] != [] && CR !in lines[i]
  }

  predicate GoodRequestLine(h: Head)
  {
    && MethodOf(h.token).Some?
    && VersionOf(h.version).Some?
    && SP !in h.target && AllPrint(h.target)
    && !AttemptedTraversal(BuildLine(h).path.text)
  }

  /** `h` is a head that holds the request `q`. */
  predicate Holds(h: Head, q: Request)
  {
    && GoodRequestLine(h)
    && GoodLines(h.lines)
    && BuildLines(h.lines, |RequestLine(h)|, BuildLine(h)) == Kept(q)
  }

  // ----- Every head of the grammar is accepted -----

  lemma FindInPrint(b: seq<byte>, p: nat, part: seq<byte>, c: byte)
    requires p + |part| < |b|
    requires b[p..p + |part|] == part && c !in part && b[p + |part|] == c
    ensures Find(b, c, p) == p + |part|
  {
    forall k | p <= k < p + |part|
      ensures b[k] != c
    {
      assert b[k] == part[k - p];
    }
    FindIs(b, c, p, p + |part|);
  }

  lemma OneLineAccepted(b: seq<byte>, p: nat, line: seq<byte>, q: Request, kept: Request)
    requires p + |line| + 2 <= |b| && b[p..p + |line| + 2] == line + CRLF
    requires line != [] && CR !in line && ProcessHeader(line, p, q) == Kept(kept)
    ensures StageHead(b, p, p, q) == StageHead(b, p + |line| + 2, p + |line| + 2, kept)
  {
    hide ProcessHeader;
    var n := |line|;
    var part := b[p..p + n + 2];
    assert b[p..p + n] == part[..n] == line;
    assert b[p + n] == part[n] == CR && b[p + n + 1] == part[n + 1] == LF;
    FindInPrint(b, p, line, CR);
    assert StageHead(b, p, p, q) == StageHeadLf(b, p + n + 1, p + n + 1, kept);
  }

  lemma EmptyLineAccepted(b: seq<byte>, p: nat, q: Request)
    requires p + 2 <= |b| && b[p] == CR && b[p + 1] == LF
    ensures StageHead(b, p, p, q) == Done(q, p + 2)
  {
    FindIs(b, CR, p, p);
    assert StageHeadLf(b, p, p + 1, q) == Done(q, p + 2);
  }

  lemma PrefixParts(b: seq<byte>, p: nat, part: seq<byte>, tail: seq<byte>)
    requires p <= |b| && part + tail <= b[p..]
    ensures p + |part| <= |b| && b[p..p + |part|] == part && tail <= b[p + |part|..]
  {
    var rest, n := b[p..], |part|;
    assert b[p..p + n] == rest[..n] == (part + tail)[..n];
    assert b[p + n..] == rest[n..] && tail == (part + tail)[n..];
  }

  lemma {:induction false} LinesAccepted(b: seq<byte>, p: nat, lines: seq<seq<byte>>, q: Request, q': Request)
    requires p <= |b| && PrintLines(lines) + CRLF <= b[p..]
    requires GoodLines(lines) && BuildLines(lines, p, q) == Kept(q')
    ensures StageHead(b, p, p, q) == Done(q', p + |PrintLines(lines)| + 2)
    decreases |lines|
  {
    hide ProcessHeader, StageHead;
    var rest := b[p..];
    if lines == [] {
      assert b[p] == rest[0] && b[p + 1] == rest[1];
      EmptyLineAccepted(b, p, q);
    } else {
      var n := |lines[0]| + 2;
      var tail := PrintLines(lines[1..]) + CRLF;
      assert PrintLines(lines) + CRLF == (lines[0] + CRLF) + tail;
      PrefixParts(b, p, lines[0] + CRLF, tail);
      var kept := ProcessHeader(lines[0], p, q).req;
      OneLineAccepted(b, p, lines[0], q, kept);
      LinesAccepted(b, p + n, lines[1..], kept, q');
    }
  }

  lemma TokensHaveNoSpace(token: seq<byte>)
    requires MethodOf(token).Some?
    ensures SP !in token
  {
  }

  lemma VersionsHaveNoCr(token: seq<byte>)
    requires VersionOf(token).Some?
    ensures CR !in token && |token| == 3
  {
  }

  /** A good request line ends at `e3` with CR LF and is cut by spaces at `e1` and `e2`. */
  ghost predicate CutAt(b: seq<byte>, h: Head, e1: nat, e2: nat, e3: nat)
  {
    && e1 < e2 < e3 && e3 + 1 < |b|
    && Find(b, SP, 0) == e1 && b[0..e1] == h.token
    && Find(b, SP, e1 + 1) == e2 && b[e1 + 1..e2] == h.target
    && Find(b, CR, e2 + 1) == e3 && b[e2 + 1..e3] == HTTP_SLASH + h.version
    && b[e3 + 1] == LF
  }

  lemma PartOf(b: seq<byte>, p: nat, part: seq<byte>, c: byte, rest: seq<byte>)
    requires p <= |b| && part + [c] + rest <= b[p..]
    ensures var e := p + |part|;
            && e + |rest| < |b|
            && b[p..e] == part && b[e] == c && rest <= b[e + 1..]
  {
    var e := p + |part|;
    var whole := part + [c] + rest;
    assert b[p..e] == b[p..][..|part|] == whole[..|part|];
    assert b[e] == b[p..][|part|] == whole[|part|];
    assert b[e + 1..] == b[p..][|part| + 1..];
    assert rest == whole[|part| + 1..];
  }

  lemma RequestLineParts(h: Head)
    ensures RequestLine(h) == h.token + [SP] + (h.target + [SP] + (HTTP_SLASH + h.version + [CR] + [LF]))
  {
  }

  /** Where the parts of a printed request line lie. */
  lemma Slices(h: Head, b: seq<byte>)
    requires RequestLine(h) <= b && |h.version| == 3
    ensures var e1 := |h.token|;
            var e2 := e1 + 1 + |h.target|;
            && |RequestLine(h)| == e2 + 11
            && b[0..e1] == h.token && b[e1] == SP
            && b[e1 + 1..e2] == h.target && b[e2] == SP
            && b[e2 + 1..e2 + 9] == HTTP_SLASH + h.version && b[e2 + 9] == CR && b[e2 + 10] == LF
  {
    var full := HTTP_SLASH + h.version;
    var e1 := |h.token|;
    var e2 := e1 + 1 + |h.target|;
    var rest2 := full + [CR] + [LF];
    var rest1 := h.target + [SP] + rest2;
    RequestLineParts(h);
    hide RequestLine;
    assert b[0..] == b;
    PartOf(b, 0, h.token, SP, rest1);
    PartOf(b, e1 + 1, h.target, SP, rest2);
    PartOf(b, e2 + 1, full, CR, [LF]);
    assert [LF] <= b[e2 + 10..];
    assert b[e2 + 10] == b[e2 + 10..][0];
  }

  lemma Layout(h: Head, b: seq<byte>)
    requires GoodRequestLine(h) && RequestLine(h) <= b
    ensures var e1 := |h.token|;
            var e2 := e1 + 1 + |h.target|;
            CutAt(b, h, e1, e2, e2 + 9) && |RequestLine(h)| == e2 + 11
  {
    hide BuildLine, AttemptedTraversal, MethodOf, VersionOf, RequestLine;
    var full := HTTP_SLASH + h.version;
    var e1 := |h.token|;
    var e2 := e1 + 1 + |h.target|;
    TokensHaveNoSpace(h.token);
    VersionsHaveNoCr(h.version);
    Slices(h, b);
    FindInPrint(b, 0, h.token, SP);
    FindInPrint(b, e1 + 1, h.target, SP);
    FindInPrint(b, e2 + 1, full, CR);
  }

  lemma LayoutConverse(h: Head, b: seq<byte>, e1: nat, e2: nat, e3: nat)
    requires CutAt(b, h, e1, e2, e3)
    ensures RequestLine(h) == b[..e3 + 2]
  {
    var full := HTTP_SLASH + h.version;
    assert b[e3..e3 + 2] == CRLF;
    assert b[..e3 + 2] == b[0..e1] + [SP] + b[e1 + 1..e2] + [SP] + b[e2 + 1..e3] + b[e3..e3 + 2];
    assert RequestLine(h) == h.token + [SP] + h.target + [SP] + full + CRLF;
  }

  lemma RequestLineStages(h: Head, b: seq<byte>, e1: nat, e2: nat, e3: nat)
    requires CutAt(b, h, e1, e2, e3) && GoodRequestLine(h)
    ensures Parse(b) == StageHead(b, e3 + 2, e3 + 2, BuildLine(h))
  {
    hide StageHead, SplitTarget, AttemptedTraversal, MethodOf, VersionOf, Find;
    var full := HTTP_SLASH + h.version;
    var q1 := BLANK.(verb := MethodOf(h.token).value);
    var q2 := SplitTarget(h.target, e1 + 1, q1);
    assert b[e2 + 6..e3] == full[5..] == h.version;
    assert StageVersion(b, e2 + 1, e2 + 1, q2) == StageVersionLf(b, e3 + 1, BuildLine(h));
    assert q2.path == BuildLine(h).path;
    assert StagePath(b, e1 + 1, e1 + 1, q1) == StageVersion(b, e2 + 1, e2 + 1, q2);
  }

  lemma RequestLineAccepted(h: Head, b: seq<byte>)
    requires GoodRequestLine(h) && RequestLine(h) <= b
    ensures Parse(b) == StageHead(b, |RequestLine(h)|, |RequestLine(h)|, BuildLine(h))
  {
    hide Parse, StageHead, GoodRequestLine, BuildLine;
    var e2 := |h.token| + 1 + |h.target|;
    Layout(h, b);
    RequestLineStages(h, b, |h.token|, e2, e2 + 9);
  }

  lemma HeadAccepted(h: Head, q: Request, b: seq<byte>)
    requires Holds(h, q) && Print(h) <= b
    ensures Parse(b) == Done(q, |Print(h)|)
  {
    hide Parse, StageHead;
    var n := |RequestLine(h)|;
    var tail := PrintLines(h.lines) + CRLF;
    assert Print(h) == RequestLine(h) + tail;
    assert RequestLine(h) <= b;
    RequestLineAccepted(h, b);
    assert tail == Print(h)[n..] <= b[n..];
    LinesAccepted(b, n, h.lines, BuildLine(h), q);
  }

  // ----- Every accepted head is a head of the grammar -----

  lemma OneLineOf(b: seq<byte>, p: nat, q: Request) returns (e: nat, kept: Request)
    requires p <= |b| && StageHead(b, p, p, q).Done? && !(p < |b| && b[p] == CR)
    ensures p < e && e + 2 <= |b| && b[p..e + 2] == b[p..e] + CRLF && CR !in b[p..e]
    ensures ProcessHeader(b[p..e], p, q) == Kept(kept)
    ensures StageHead(b, p, p, q) == StageHead(b, e + 2, e + 2, kept)
  {
    hide ProcessHeader;
    e := Find(b, CR, p);
    kept := ProcessHeader(b[p..e], p, q).req;
    assert StageHead(b, p, p, q) == StageHeadLf(b, e + 1, e + 1, kept);
  }

  lemma {:induction false} LinesOf(b: seq<byte>, p: nat, q: Request) returns (lines: seq<seq<byte>>)
    requires p <= |b| && StageHead(b, p, p, q).Done?
    ensures var n := StageHead(b, p, p, q).headEnd;
            p <= n <= |b| && b[p..n] == PrintLines(lines) + CRLF
    ensures GoodLines(lines) && BuildLines(lines, p, q) == Kept(StageHead(b, p, p, q).req)
    decreases |b| - p
  {
    hide ProcessHeader, PrintLines;
    if p < |b| && b[p] == CR {
      assert StageHead(b, p, p, q) == StageHeadLf(b, p, p + 1, q);
      assert b[p..p + 2] == [] + CRLF;
      NoLines();
      lines := [];
    } else {
      hide StageHead;
      var e, kept := OneLineOf(b, p, q);
      var rest := LinesOf(b, e + 2, kept);
      var n := StageHead(b, p, p, q).headEnd;
      lines := [b[p..e]] + rest;
      assert lines[1..] == rest;
      OneMoreLine(b[p..e], rest);
      assert b[p..n] == b[p..e + 2] + b[e + 2..n];
    }
  }

  lemma NoLines()
    ensures PrintLines([]) == []
  {
  }

  lemma OneMoreLine(line: seq<byte>, rest: seq<seq<byte>>)
    ensures PrintLines([line] + rest) + CRLF == (line + CRLF) + (PrintLines(rest) + CRLF)
  {
    assert ([line] + rest)[1..] == rest;
    assert (line + CRLF + PrintLines(rest)) + CRLF == (line + CRLF) + (PrintLines(rest) + CRLF);
  }

  lemma MethodPart(b: seq<byte>) returns (e: nat)
    requires Parse(b).Done?
    ensures e < |b| && e == Find(b, SP, 0) && MethodOf(b[0..e]).Some?
    ensures Parse(b) == StagePath(b, e + 1, e + 1, BLANK.(verb := MethodOf(b[0..e]).value))
  {
    hide StagePath, MethodOf, Find;
    e := Find(b, SP, 0);
  }

  lemma TargetPart(b: seq<byte>, p: nat, q: Request) returns (e: nat)
    requires p <= |b| && StagePath(b, p, p, q).Done?
    ensures p <= e < |b| && e == Find(b, SP, p) && AllPrint(b[p..e])
    ensures !AttemptedTraversal(SplitTarget(b[p..e], p, q).path.text)
    ensures StagePath(b, p, p, q) == StageVersion(b, e + 1, e + 1, SplitTarget(b[p..e], p, q))
  {
    hide StageVersion, AttemptedTraversal, SplitTarget, Find, AllPrint;
    e := Find(b, SP, p);
  }

  lemma VersionPart(b: seq<byte>, p: nat, q: Request) returns (e: nat)
    requires p <= |b| && StageVersion(b, p, p, q).Done?
    ensures p + 5 <= e < |b| && e == Find(b, CR, p)
    ensures b[p..e] == HTTP_SLASH + b[p + 5..e] && VersionOf(b[p + 5..e]).Some?
    ensures StageVersion(b, p, p, q) == StageVersionLf(b, e + 1, q.(version := VersionOf(b[p + 5..e]).value))
  {
    hide StageVersionLf, VersionOf, Find;
    e := Find(b, CR, p);
    VersionToken(b, p, e);
    TokenIs(b[p..e]);
  }

  lemma RequestLineOf(b: seq<byte>) returns (h: Head, e1: nat, e2: nat, e3: nat)
    requires Parse(b).Done?
    ensures h.lines == [] && CutAt(b, h, e1, e2, e3) && GoodRequestLine(h)
  {
    hide Parse, StagePath, StageVersion, StageVersionLf, AttemptedTraversal, SplitTarget, MethodOf, VersionOf, Find,
         AllPrint, BuildLine, GoodRequestLine;
    e1 := MethodPart(b);
    var q1 := BLANK.(verb := MethodOf(b[0..e1]).value);
    e2 := TargetPart(b, e1 + 1, q1);
    var q2 := SplitTarget(b[e1 + 1..e2], e1 + 1, q1);
    e3 := VersionPart(b, e2 + 1, q2);
    h := Head(b[0..e1], b[e1 + 1..e2], b[e2 + 6..e3], []);
    LfPart(b, e3 + 1, q2.(version := VersionOf(h.version).value));
    NoSpaceBefore(b, e1 + 1, e2);
    LineIsGood(h);
  }

  lemma LfPart(b: seq<byte>, r: nat, q: Request)
    requires r <= |b| && StageVersionLf(b, r, q).Done?
    ensures r < |b| && b[r] == LF
  {
  }

  lemma NoSpaceBefore(b: seq<byte>, p: nat, e: nat)
    requires p <= |b| && e == Find(b, SP, p)
    ensures SP !in b[p..e]
  {
  }

  lemma LineIsGood(h: Head)
    requires MethodOf(h.token).Some? && VersionOf(h.version).Some? && SP !in h.target && AllPrint(h.target)
    requires !AttemptedTraversal(SplitTarget(h.target, |h.token| + 1, BLANK.(verb := MethodOf(h.token).value)).path.text)
    ensures GoodRequestLine(h)
  {
    hide SplitTarget, AttemptedTraversal, MethodOf, VersionOf, AllPrint;
  }

  lemma TokenIs(token: seq<byte>)
    requires HTTP_SLASH <= token
    ensures token == HTTP_SLASH + token[5..]
  {
  }

  lemma HeadOf(b: seq<byte>) returns (h: Head)
    requires Parse(b).Done?
    ensures Holds(h, Parse(b).req) && Print(h) <= b && |Print(h)| == Parse(b).headEnd
  {
    hide Parse, StageHead, BuildLines, SplitTarget, AttemptedTraversal, MethodOf, VersionOf, AllPrint;
    var h0, e1, e2, e3 := RequestLineOf(b);
    RequestLineStages(h0, b, e1, e2, e3);
    LayoutConverse(h0, b, e1, e2, e3);
    var n := |RequestLine(h0)|;
    var lines := LinesOf(b, n, BuildLine(h0));
    h := h0.(lines := lines);
    assert RequestLine(h) == RequestLine(h0) && BuildLine(h) == BuildLine(h0);
    var e := Parse(b).headEnd;
    assert b[..e] == b[..n] + b[n..e] && b[..e] <= b;
    assert Print(h) == RequestLine(h) + (PrintLines(lines) + CRLF);
  }

  /** The parser accepts exactly the heads of the grammar, ends where they end, and reads what they hold. */
  lemma AcceptsExactlyTheGrammar(b: seq<byte>, q: Request, n: nat)
    ensures Parse(b) == Done(q, n) <==> exists h :: Holds(h, q) && Print(h) <= b && |Print(h)| == n
  {
    hide Parse, Holds, Print;
    if Parse(b) == Done(q, n) {
      var h := HeadOf(b);
    }
    if h :| Holds(h, q) && Print(h) <= b && |Print(h)| == n {
      HeadAccepted(h, q, b);
    }
  }

  // ----- What is printed is what is read -----

  lemma {:induction false} EncodeIsPrintable(s: seq<byte>, keep: byte -> bool, i: nat)
    requires forall c: byte :: keep(c) ==> IsPrint(c) && c != SP
    requires i < |UrlCoding.Encode(s, keep)|
    ensures var c := UrlCoding.Encode(s, keep)[i];
            IsPrint(c) && c != SP && (c == QUESTION ==> keep(QUESTION))
    decreases |s|
  {
    var e := UrlCoding.Encode(s, keep);
    var n := if s[0] != PERCENT && keep(s[0]) then 1 else 3;
    var rest := UrlCoding.Encode(s[1..], keep);
    if i >= n {
      assert e[i] == rest[i - n];
      EncodeIsPrintable(s[1..], keep, i - n);
    }
  }

  /** The printed form of a request target; `keep` says which bytes go out unescaped. */
  function PrintTarget(path: seq<byte>, query: Option<seq<byte>>, keep: byte -> bool, keepQ: byte -> bool): seq<byte>
  {
    UrlCoding.Encode(path, keep) + if query.Some? then [QUESTION] + UrlCoding.Encode(query.value, keepQ) else []
  }

  /** The first raw `?` splits the target; an escaped one does not. */
  lemma SplitAtQuestion(p: seq<byte>, e: seq<byte>, at: nat, q: Request)
    requires QUESTION !in p
    ensures SplitTarget(p + ([QUESTION] + e), at, q) ==
            q.(path := At(at, CString(UrlCoding.Decode(p))),
               query := At(at + |p| + 1, CString(UrlCoding.Decode(e))))
  {
    hide UrlCoding.Decode, CString, Find;
    QuestionAt(p, e);
  }

  lemma QuestionAt(p: seq<byte>, e: seq<byte>)
    requires QUESTION !in p
    ensures var target := p + ([QUESTION] + e);
            Find(target, QUESTION, 0) == |p| && target[..|p|] == p && target[|p| + 1..] == e
  {
    var target := p + ([QUESTION] + e);
    assert forall k :: 0 <= k < |p| ==> target[k] == p[k];
    FindIs(target, QUESTION, 0, |p|);
  }

  lemma SplitWithoutQuestion(p: seq<byte>, at: nat, q: Request)
    requires QUESTION !in p
    ensures SplitTarget(p, at, q) == q.(path := At(at, CString(UrlCoding.Decode(p))))
  {
    hide UrlCoding.Decode, CString;
    FindIs(p, QUESTION, 0, |p|);
    assert p[..|p|] == p;
  }

  lemma EncodedIsPrintable(s: seq<byte>, keep: byte -> bool)
    requires forall c: byte :: keep(c) ==> IsPrint(c) && c != SP
    ensures var e := UrlCoding.Encode(s, keep);
            AllPrint(e) && SP !in e && (!keep(QUESTION) ==> QUESTION !in e)
  {
    hide UrlCoding.Encode;
    var e := UrlCoding.Encode(s, keep);
    forall i | 0 <= i < |e|
      ensures IsPrint(e[i]) && e[i] != SP && (!keep(QUESTION) ==> e[i] != QUESTION)
    {
      EncodeIsPrintable(s, keep, i);
    }
  }

  /**
   * Path and query are split at the first raw `?` and each is decoded once, so escaping both and joining them with
   * `?` loses nothing (sections 2.1 and 2.4 of RFC 3986). The query may itself hold raw question marks.
   */
  lemma TargetRoundTrip(path: seq<byte>, query: Option<seq<byte>>, keep: byte -> bool, keepQ: byte -> bool,
                        at: nat, q: Request)
    requires forall c: byte :: keep(c) ==> IsPrint(c) && c != SP
    requires forall c: byte :: keepQ(c) ==> IsPrint(c) && c != SP
    requires !keep(QUESTION)
    requires NUL !in path && (query.Some? ==> NUL !in query.value)
    ensures var target := PrintTarget(path, query, keep, keepQ);
            && AllPrint(target) && SP !in target
            && SplitTarget(target, at, q) ==
               (var q' := q.(path := At(at, path));
                if query.None? then q'
                else q'.(query := At(at + |UrlCoding.Encode(path, keep)| + 1, query.value)))
  {
    hide UrlCoding.Encode, UrlCoding.Decode, CString, SplitTarget;
    var p := UrlCoding.Encode(path, keep);
    EncodedIsPrintable(path, keep);
    UrlCoding.DecodeInvertsEncode(path, keep);
    CStringOfNulFree(path);
    if query.Some? {
      EncodedIsPrintable(query.value, keepQ);
      UrlCoding.DecodeInvertsEncode(query.value, keepQ);
      CStringOfNulFree(query.value);
      SplitAtQuestion(p, UrlCoding.Encode(query.value, keepQ), at, q);
    } else {
      assert PrintTarget(path, query, keep, keepQ) == p;
      SplitWithoutQuestion(p, at, q);
    }
  }

  lemma LowerOf(name: seq<byte>, i: nat)
    requires i < |HEADERS| && Lower(name) == HEADERS[i].0
    ensures MatchHeader(name, 0) == i
    ensures COLON !in name && NUL !in name
  {
    assert |name| == |HEADERS[i].0|;
    forall k | 0 <= k < |name|
      ensures name[k] != COLON && name[k] != NUL
    {
      assert Lower(name)[k] == LowerByte(name[k]) == HEADERS[i].0[k];
    }
    var w := Lower(name);
    assert |HEADERS[0].0| == 6 && |HEADERS[1].0| == 5 && |HEADERS[2].0| == 17;
    assert |HEADERS[3].0| == 14 && |HEADERS[4].0| == 12 && |HEADERS[5].0| == 19;
    assert MatchHeader(name, i) == i;
    if i > 0 { assert MatchHeader(name, i - 1) == i; }
    if i > 1 { assert MatchHeader(name, i - 2) == i; }
    if i > 2 { assert MatchHeader(name, i - 3) == i; }
    if i > 3 { assert MatchHeader(name, i - 4) == i; }
    if i > 4 { assert MatchHeader(name, i - 5) == i; }
  }

  /** A recognised field line is stored with its value, whatever the case of its name and the blanks before the value. */
  lemma FieldLineRoundTrip(name: seq<byte>, i: nat, blanks: seq<byte>, value: seq<byte>, at: nat, q: Request)
    requires i < |HEADERS| && Lower(name) == HEADERS[i].0
    requires forall k :: 0 <= k < |blanks| ==> blanks[k] == SP || blanks[k] == HT
    requires NUL !in value && (value == [] || (value[0] != SP && value[0] != HT))
    ensures var line := name + [COLON] + blanks + value;
            ProcessHeader(line, at, q) ==
            StoreField(HEADERS[i].1, At(at + |name| + 1 + |blanks|, value), q)
  {
    hide MatchHeader, CString, StoreField;
    var line := name + [COLON] + blanks + value;
    LowerOf(name, i);
    assert NUL !in line;
    CStringOfNulFree(line);
    FindIs(line, COLON, 0, |name|);
    assert line[..|name|] == name;
    var v := |name| + 1 + |blanks|;
    SkipBlanksIs(line, |name| + 1, v);
    assert line[v..] == value;
    CStringOfNulFree(value);
  }

  lemma SkipBlanksIs(line: seq<byte>, i: nat, j: nat)
    requires i <= j <= |line|
    requires forall k :: i <= k < j ==> line[k] == SP || line[k] == HT
    requires j == |line| || (line[j] != SP && line[j] != HT)
    ensures SkipBlanks(line, i) == j
  {
  }
}
