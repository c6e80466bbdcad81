/**
 * A client connection: the 4096-byte request buffer, the saved parse state and the captured fields, as src/http.c
 * keeps them, with the parser that works in place on the buffer. Captured strings are offsets into the buffer.
 */
module Clients {
  import opened Bytes
  import opened Numbers
  import opened Requests
  import opened Splitter
  import opened Sockets
  import opened Pipeline
  import UrlCoding
  import Cookies
  import Ranges

  /** A `char*` into the request buffer, or NULL. */
  datatype Ptr = Null | To(off: nat)

  datatype Captured = Captured(
    path: Ptr, query: Ptr, cookies: Ptr, range: Ptr, mimetype: Ptr, disposition: Ptr, modifiedSince: Ptr)

  const NOTHING := Captured(Null, Null, Null, Null, Null, Null, Null)

  datatype State = Read | Serve | PrepareResponse | Send | SendFile | Finished

  /** How a parse stage ends: on to the next stage, out of bytes, or in error. */
  datatype Stage = Advance | NeedMore | Failed

  /** What a read means for the parser: bytes to look at, nothing for now, no room left, or no peer left. */
  datatype Fill = Parseable | WouldBlock | BufferFull | HungUp

  /** How one turn of the reception loop ends. */
  datatype Turn = ReadAgain | Blocked | Complete | Rejected

  /** The string a pointer captures, as C reads it. */
  function TextAt(p: Ptr, b: seq<byte>): Text
  {
    if p.Null? || p.off > |b| then Absent else At(p.off, CStringAt(b, p.off))
  }

  /** The string `p` captures ends before `limit`. */
  predicate EndsBefore(p: Ptr, b: seq<byte>, limit: nat)
  {
    p.To? ==> p.off < limit <= |b| && Find(b, NUL, p.off) < limit
  }

  /** Where the string that `p` captures ends. */
  function End(p: Ptr, b: seq<byte>): nat
  {
    if p.To? && p.off <= |b| then Find(b, NUL, p.off) else 0
  }

  /** The strings that `p` and `q` capture, with their NULs, do not share a byte. */
  predicate NoOverlap(p: Ptr, q: Ptr, b: seq<byte>)
  {
    p.To? && q.To? ==> End(p, b) < q.off || End(q, b) < p.off
  }

  /** Where strings keep their ends, overlaps do not change. */
  lemma OverlapsStay(c: Captured, b: seq<byte>, b': seq<byte>)
    requires CookiesApart(c, b) && End(c.cookies, b') == End(c.cookies, b)
    requires End(c.path, b') == End(c.path, b) && End(c.query, b') == End(c.query, b)
    requires End(c.range, b') == End(c.range, b) && End(c.mimetype, b') == End(c.mimetype, b)
    requires End(c.disposition, b') == End(c.disposition, b) && End(c.modifiedSince, b') == End(c.modifiedSince, b)
    ensures CookiesApart(c, b')
  {
    hide End;
  }

  /** The one string that is cut up later, the cookies, shares no byte with any other. */
  ghost predicate CookiesApart(c: Captured, b: seq<byte>)
  {
    && NoOverlap(c.cookies, c.path, b) && NoOverlap(c.cookies, c.query, b) && NoOverlap(c.cookies, c.range, b)
    && NoOverlap(c.cookies, c.mimetype, b) && NoOverlap(c.cookies, c.disposition, b) && NoOverlap(c.cookies, c.modifiedSince, b)
  }

  /** Every captured string ends before `limit`, and none shares a byte with the cookies. */
  ghost predicate AllEndBefore(c: Captured, b: seq<byte>, limit: nat)
  {
    && CookiesApart(c, b)
    && EndsBefore(c.path, b, limit) && EndsBefore(c.query, b, limit) && EndsBefore(c.cookies, b, limit)
    && EndsBefore(c.range, b, limit) && EndsBefore(c.mimetype, b, limit) && EndsBefore(c.disposition, b, limit)
    && EndsBefore(c.modifiedSince, b, limit)
  }

  /** The request that the fields and the buffer contents represent. */
  ghost function ViewOf(verb: Method, version: Version, len: int, c: Captured, b: seq<byte>): Request
  {
    Request(verb, version, TextAt(c.path, b), TextAt(c.query, b), len, TextAt(c.cookies, b), TextAt(c.range, b),
            TextAt(c.mimetype, b), TextAt(c.disposition, b), TextAt(c.modifiedSince, b))
  }

  lemma PtrFrame(p: Ptr, b: seq<byte>, b': seq<byte>, limit: nat)
    requires limit <= |b| == |b'| && b[..limit] == b'[..limit] && EndsBefore(p, b, limit)
    ensures EndsBefore(p, b', limit) && TextAt(p, b') == TextAt(p, b)
    ensures End(p, b') == End(p, b)
  {
    if p.To? {
      CStringAtFrame(b, b', p.off, limit);
    }
  }

  /** Writing at or after `limit` disturbs no captured string that ends before it. */
  lemma ViewFrame(verb: Method, version: Version, len: int, c: Captured, b: seq<byte>, b': seq<byte>, limit: nat)
    requires limit <= |b| == |b'| && b[..limit] == b'[..limit] && AllEndBefore(c, b, limit)
    ensures AllEndBefore(c, b', limit)
    ensures ViewOf(verb, version, len, c, b') == ViewOf(verb, version, len, c, b)
  {
    hide TextAt, EndsBefore, End, CookiesApart;
    PtrFrame(c.path, b, b', limit);
    PtrFrame(c.query, b, b', limit);
    PtrFrame(c.cookies, b, b', limit);
    PtrFrame(c.range, b, b', limit);
    PtrFrame(c.mimetype, b, b', limit);
    PtrFrame(c.disposition, b, b', limit);
    PtrFrame(c.modifiedSince, b, b', limit);
    OverlapsStay(c, b, b');
  }

  /** Writing within `lo..hi` disturbs no captured string that lies outside. */
  lemma PtrOutside(p: Ptr, b: seq<byte>, b': seq<byte>, lo: nat, hi: nat, limit: nat)
    requires |b| == |b'| && lo <= hi < |b| && EndsBefore(p, b, limit)
    requires forall k :: 0 <= k < lo || hi < k < |b| ==> b'[k] == b[k]
    requires p.To? ==> End(p, b) < lo || hi < p.off
    ensures EndsBefore(p, b', limit) && TextAt(p, b') == TextAt(p, b)
  {
    if p.To? {
      if hi < p.off {
        CStringAtLater(b, b', p.off);
      } else {
        assert b[..lo] == b'[..lo];
        CStringAtFrame(b, b', p.off, lo);
      }
    }
  }

  /** A string that starts at `v` or later shares nothing with what ends before `p <= v`. */
  lemma LaterIsApart(x: Ptr, b: seq<byte>, p: nat, v: nat)
    requires EndsBefore(x, b, p) && p <= v
    ensures NoOverlap(x, To(v), b) && NoOverlap(To(v), x, b)
  {
  }

  lemma EndsThere(b: seq<byte>, v: nat, limit: nat)
    requires v < limit <= |b| && Find(b, NUL, v) < limit
    ensures EndsBefore(To(v), b, limit) && TextAt(To(v), b) == At(v, CStringAt(b, v))
  {
  }

  lemma AllApartFrom(c: Captured, b: seq<byte>, p: nat, v: nat)
    requires AllEndBefore(c, b, p) && p <= v < |b|
    ensures forall x :: x in {c.path, c.query, c.cookies, c.range, c.mimetype, c.disposition, c.modifiedSince} ==>
              NoOverlap(x, To(v), b) && NoOverlap(To(v), x, b)
  {
    hide NoOverlap, EndsBefore;
    LaterIsApart(c.path, b, p, v);
    LaterIsApart(c.query, b, p, v);
    LaterIsApart(c.cookies, b, p, v);
    LaterIsApart(c.range, b, p, v);
    LaterIsApart(c.mimetype, b, p, v);
    LaterIsApart(c.disposition, b, p, v);
    LaterIsApart(c.modifiedSince, b, p, v);
  }

  /** Cutting up the cookies where they stand, and forgetting where that was, disturbs no other captured string. */
  lemma CookiesGivenUp(verb: Method, version: Version, len: int, c: Captured, b: seq<byte>, b': seq<byte>, limit: nat)
    requires c.cookies.To? && AllEndBefore(c, b, limit) && |b| == |b'|
    requires forall k :: 0 <= k < c.cookies.off || End(c.cookies, b) < k < |b| ==> b'[k] == b[k]
    ensures AllEndBefore(c.(cookies := Null), b', limit)
    ensures ViewOf(verb, version, len, c.(cookies := Null), b') == ViewOf(verb, version, len, c, b).(cookies := Absent)
  {
    hide TextAt, EndsBefore, End;
    var lo := c.cookies.off;
    EndsWithin(c.cookies, b, limit);
    var hi := End(c.cookies, b);
    PtrOutside(c.path, b, b', lo, hi, limit);
    PtrOutside(c.query, b, b', lo, hi, limit);
    PtrOutside(c.range, b, b', lo, hi, limit);
    PtrOutside(c.mimetype, b, b', lo, hi, limit);
    PtrOutside(c.disposition, b, b', lo, hi, limit);
    PtrOutside(c.modifiedSince, b, b', lo, hi, limit);
    NothingCaptured(b');
  }

  lemma EndsWithin(p: Ptr, b: seq<byte>, limit: nat)
    requires p.To? && EndsBefore(p, b, limit)
    ensures p.off <= End(p, b) < limit <= |b|
  {
  }

  lemma NothingCaptured(b: seq<byte>)
    ensures TextAt(Null, b) == Absent && forall limit: nat :: EndsBefore(Null, b, limit)
  {
  }

  lemma EndsMonotone(c: Captured, b: seq<byte>, p: nat, p': nat)
    requires AllEndBefore(c, b, p) && p <= p' <= |b|
    ensures AllEndBefore(c, b, p')
  {
  }

  lemma PrintHasNoNul(s: seq<byte>)
    requires AllPrint(s)
    ensures forall k :: 0 <= k < |s| ==> s[k] != NUL
  {
  }

  /** What a read of `got` does to the balance of consumed and pending bytes. */
  lemma KeepsTheBytes(taken: seq<byte>, taken': seq<byte>, consumed: seq<byte>, pending: seq<byte>,
                      got: seq<byte>, pending': seq<byte>)
    requires taken <= taken' && got + pending' == pending + taken'[|taken|..]
    ensures taken == consumed + pending ==> taken' == (consumed + got) + pending'
  {
    if taken == consumed + pending {
      assert taken' == taken + taken'[|taken|..] == consumed + (pending + taken'[|taken|..]);
      assert (consumed + got) + pending' == consumed + (got + pending');
    }
  }

  lemma ReadingKeepsTheBytes(taken: seq<byte>, taken': seq<byte>, consumed: seq<byte>, pending: seq<byte>,
                             pending': seq<byte>)
    requires taken <= taken' && pending' == pending + taken'[|taken|..]
    ensures taken == consumed + pending ==> taken' == consumed + pending'
  {
    if taken == consumed + pending {
      assert taken' == taken + taken'[|taken|..] == (consumed + pending) + taken'[|taken|..];
    }
  }

  lemma SliceOfSlice(b: seq<byte>, p: nat, e: nat, n: nat)
    requires p + n <= e <= |b|
    ensures b[p..p + n] == b[p..e][..n]
  {
  }

  lemma TailOfSlice(b: seq<byte>, p: nat, e: nat, n: nat)
    requires p + n <= e <= |b|
    ensures b[p + n..e] == b[p..e][n..]
  {
  }

  /** `FindDots` is determined by what it promises. */
  lemma FindDotsIs(s: seq<byte>, i: nat, j: nat)
    requires i <= j <= |s|
    requires forall k :: i <= k < j && k + 1 < |s| ==> !(s[k] == DOT && s[k + 1] == DOT)
    requires j == |s| || (j + 1 < |s| && s[j] == DOT && s[j + 1] == DOT)
    ensures FindDots(s, i) == j
  {
  }

  lemma DrainThenRead(drained: seq<byte>, pending: seq<byte>, direct: seq<byte>)
    requires pending == [] || direct == []
    ensures (drained + direct) + pending == (drained + pending) + direct
  {
    assert drained + [] == drained;
  }

  lemma CookiesAreThere(c: Captured, b: seq<byte>, limit: nat)
    requires c.cookies.To? && AllEndBefore(c, b, limit)
    ensures c.cookies.off <= Find(b, NUL, c.cookies.off) < limit <= |b|
  {
  }

  lemma CaptureReads(verb: Method, version: Version, len: int, c: Captured, b: seq<byte>)
    requires c.cookies.To? ==> c.cookies.off <= |b|
    ensures ViewOf(verb, version, len, c, b).cookies ==
            if c.cookies.Null? then Absent else At(c.cookies.off, CStringAt(b, c.cookies.off))
  {
  }

  lemma StringThere(b: seq<byte>, at: nat)
    requires at <= |b| && Find(b, NUL, at) < |b|
    ensures var t := CStringAt(b, at);
            at + |t| == Find(b, NUL, at) && b[at..at + |t|] == t && NUL !in t && b[at + |t|] == NUL
  {
  }

  /** The cookies of a request: none when the header is missing or malformed. */
  function CookiesOf(q: Request): seq<Cookies.Pair>
  {
    if q.cookies.At? then Cookies.PairsOf(q.cookies.text) else []
  }

  // ----- Hangups -----

  /** Reading on after the bytes `b`: they do not decide the request, and an error or the end comes before what does. */
  ghost predicate HangsUpLater(script: seq<ReadEvent>, b: seq<byte>)
    decreases |script|
  {
    && Receive(b).More? && script != []
    && match script[0]
       case Breaks => true
       case Ends => true
       case Blocks => false
       case Arrives(data) => HangsUpLater(script[1..], b + data)
  }

  /**
   * When a call ends in a hangup, in terms of what the socket will say and what is buffered. A request of which nothing
   * is parsed yet (`fresh`) is not parsed before the socket was asked once: an error or the end of file at once makes
   * the server forget even a request that is complete in the buffer (src/http.c:624-643). A full buffer asks for nothing.
   */
  ghost predicate HangsUp(script: seq<ReadEvent>, b: seq<byte>, fresh': bool)
  {
    if !fresh' then HangsUpLater(script, b)
    else
      && |b| < HTTP_BUFSZ && script != []
      && match script[0]
         case Breaks => true
         case Ends => true
         case Blocks => HangsUpLater(script[1..], b)
         case Arrives(data) => HangsUpLater(script[1..], b + data)
  }

  /**
   * The first `n` things the socket says are bytes, none of which decide the request before the next thing it says is an
   * error or the end.
   */
  ghost predicate EndsBeforeDecided(script: seq<ReadEvent>, b: seq<byte>, n: int)
  {
    && 0 <= n < |script| && (script[n].Breaks? || script[n].Ends?)
    && (forall k :: 0 <= k < n ==> script[k].Arrives?)
    && (forall k :: 0 <= k <= n ==> Receive(b + Incoming(script[..k])).More?)
  }

  /** Reading on ends in a hangup exactly if the peer is gone before the request is decided. */
  lemma {:induction false} HangsUpLaterIff(script: seq<ReadEvent>, b: seq<byte>)
    ensures HangsUpLater(script, b) <==> exists n :: EndsBeforeDecided(script, b, n)
    decreases |script|
  {
    hide Receive;
    assert b + Incoming(script[..0]) == b;
    if script == [] || !Receive(b).More? {
    } else if script[0].Arrives? {
      var rest, b' := script[1..], b + script[0].data;
      HangsUpLaterIff(rest, b');
      forall n | 0 <= n < |rest|
        ensures EndsBeforeDecided(script, b, n + 1) <==> EndsBeforeDecided(rest, b', n)
      {
        EndsOneLater(script, b, n);
      }
      if n :| EndsBeforeDecided(script, b, n) {
        assert EndsBeforeDecided(rest, b', n - 1);
      }
    } else if script[0].Breaks? || script[0].Ends? {
      assert EndsBeforeDecided(script, b, 0);
    }
  }

  lemma EndsOneLater(script: seq<ReadEvent>, b: seq<byte>, n: nat)
    requires n + 1 < |script| && script[0].Arrives? && Receive(b).More?
    ensures EndsBeforeDecided(script, b, n + 1) <==> EndsBeforeDecided(script[1..], b + script[0].data, n)
  {
    hide Receive;
    var rest := script[1..];
    assert script[..0] == [] && b + [] == b;
    forall k | 1 <= k <= n + 1
      ensures b + Incoming(script[..k]) == (b + script[0].data) + Incoming(rest[..k - 1])
    {
      assert script[..k][1..] == rest[..k - 1];
    }
    forall k | 0 <= k <= n
      ensures (b + script[0].data) + Incoming(rest[..k]) == b + Incoming(script[..k + 1])
    {
      assert script[..k + 1][1..] == rest[..k];
    }
  }

  /** A complete buffered request is dropped exactly if the next thing the socket says is an error or the end. */
  lemma CompleteRequestDropped(script: seq<ReadEvent>, b: seq<byte>)
    requires Receive(b).Done?
    ensures HangsUp(script, b, true) <==> |b| < HTTP_BUFSZ && script != [] && (script[0].Breaks? || script[0].Ends?)
  {
    if |b| < HTTP_BUFSZ && script != [] && script[0].Arrives? {
      DoneStaysDone(b, script[0].data);
    }
  }

  lemma DoneStaysDone(b: seq<byte>, more: seq<byte>)
    requires Receive(b).Done? && |b| < HTTP_BUFSZ
    ensures Receive(b + more) == Receive(b)
  {
    hide Parse;
    var all := Buffered(b + more);
    assert Buffered(b) == b && all == b + all[|b|..];
    ParseExtends(b, all[|b|..]);
  }

  /** One read of a request that is being parsed. */
  lemma HangsUpStep(script: seq<ReadEvent>, b: seq<byte>, max: nat)
    requires |b| + max == HTTP_BUFSZ
    ensures max == 0 || !Receive(b).More? || script == [] || script[0].Blocks? ==> !HangsUpLater(script, b)
    ensures max > 0 && Receive(b).More? && script != [] && (script[0].Breaks? || script[0].Ends?) ==> HangsUpLater(script, b)
    ensures max > 0 && script != [] && script[0].Arrives? && |script[0].data| <= max && Receive(b).More? ==>
              HangsUpLater(script, b) == HangsUpLater(AfterRead(script, max), b + script[0].data)
    ensures max > 0 && script != [] && script[0].Arrives? && |script[0].data| > max ==>
              !HangsUpLater(script, b) && !HangsUpLater(script[1..], b + script[0].data)
              && !HangsUpLater(AfterRead(script, max), b + script[0].data[..max])
  {
    hide Parse;
  }

  class Client {
    const buf: array<byte>
    var headersLen: nat
    var state: State
    var phase: Phase
    var parseBlk: nat
    var parseIter: Ptr
    var verb: Method
    var version: Version
    var contentLen: int
    var ptrs: Captured
    var payload: nat
    var payloadPos: nat
    var payloadLen: nat
    var status: nat
    var cookies: seq<Cookies.Stored>

    /** The bytes of the current transaction that were read into the buffer, as they arrived. */
    ghost var seen: seq<byte>
    /** The request, as it was when its head was complete. */
    ghost var parsed: Request
    /** What this connection has consumed so far. */
    ghost var history: seq<Exchange>

    ghost predicate Sized()
      reads this`headersLen, this`seen
    {
      buf.Length == HTTP_BUFSZ && headersLen == |seen| <= HTTP_BUFSZ
    }

    /** From `p` on the buffer still holds what was read; everything captured ends before `p`. */
    ghost predicate Live(p: nat)
      reads this`headersLen, this`seen, this`ptrs, buf
    {
      && Sized()
      && p <= headersLen
      && (forall k :: p <= k < headersLen ==> buf[k] == seen[k])
      && AllEndBefore(ptrs, buf[..], p)
    }

    ghost function View(): Request
      reads this`verb, this`version, this`contentLen, this`ptrs, buf
    {
      ViewOf(verb, version, contentLen, ptrs, buf[..])
    }

    /** Nothing is parsed yet; bytes of a pipelined request may already be there. */
    ghost predicate Idle()
      reads this, buf
    {
      && Live(0)
      && phase == New && parseBlk == 0 && parseIter == Null
      && ptrs == NOTHING && verb == {} && version == Http11 && contentLen == 0
    }

    /** The saved state is the one the pure parser reaches on the bytes read so far. */
    ghost predicate Suspended(p: nat, r: Ptr)
      reads this, buf
    {
      && Live(p)
      && phase != New && r == To(|seen|)
      && Parse(seen) == More(phase, p, View())
    }

    /** The cookies of the request that is served, as lookups find them. */
    ghost function CookiePairs(): seq<Cookies.Pair>
      reads this`parsed
    {
      CookiesOf(parsed)
    }

    /**
     * What the fields capture is the request: every string ends before the payload, and reads as it was parsed. Once
     * the cookies were looked up, the header is given up for the pairs that are stored in it.
     */
    ghost predicate Intact()
      reads this`verb, this`version, this`contentLen, this`ptrs, this`parsed, this`payload, this`cookies, buf
    {
      && AllEndBefore(ptrs, buf[..], payload)
      && (if cookies == [] && View() == parsed then true
          else
            && parsed.cookies.At? && ptrs.cookies.Null? && View() == parsed.(cookies := Absent)
            && Cookies.AllRead(cookies, CookiePairs(), buf[..], payload))
    }

    /** The head is complete, the captured strings hold its request, and the payload bytes are as they arrived. */
    ghost predicate HasRequest()
      reads this`headersLen, this`seen, this`parsed, this`payload, this`payloadLen, this`payloadPos, buf
      reads this`verb, this`version, this`contentLen, this`ptrs, this`cookies
    {
      && Sized()
      && Parse(seen) == Done(parsed, payload)
      && payload + payloadLen == |seen|
      && payloadPos <= payloadLen
      && (forall k :: payload <= k < |seen| ==> buf[k] == seen[k])
      && Intact()
    }

    ghost predicate Valid()
      reads this, buf
    {
      if state == Read then
        && status == HTTP_X_RESP_STATUS_UNSET && payloadPos == 0 && cookies == []
        && (Idle() || (Suspended(parseBlk, parseIter) && |seen| < HTTP_BUFSZ))
      else HasRequest()
    }

    /** The bytes read from the socket that no request head and no payload read has consumed yet. */
    ghost function Pending(): seq<byte>
      requires Valid()
      reads this, buf
    {
      if state == Read then seen else seen[payload + payloadPos..]
    }

    /** Every byte read from the socket was consumed, in order and once, or is still pending. */
    ghost predicate Conserved(sock: Socket)
      reads this, buf, sock
    {
      && Valid()
      && GoodHistory(history)
      && (state != Read ==> history != [])
      && sock.taken == Consumed(history) + Pending()
    }

    /** `for (; !parse_past_end(r) && *r != c; r++);` */
    method Scan(p: nat, r: nat, c: byte) returns (e: nat)
      requires Live(p) && p <= r <= |seen|
      ensures e == Find(seen, c, r)
    {
      e := r;
      while e < headersLen && buf[e] != c
        invariant r <= e <= headersLen
        invariant forall k :: r <= k < e ==> seen[k] != c
      {
        e := e + 1;
      }
      FindIs(seen, c, r, e);
    }

    /** HTTP_PS_REQ_METHOD (src/http.c:655-695). */
    method ParseMethod(p: nat, r: nat) returns (out: Stage, e: nat)
      requires Live(p) && p <= r <= |seen|
      modifies this`verb, this`status, this`phase
      ensures out.Failed? || Live(if out.Advance? then e else p)
      ensures out.Advance? ==> e <= |seen| && old(StageMethod(seen, p, r, View())) == StagePath(seen, e, e, View())
      ensures out.NeedMore? ==> phase == ReqMethod && old(StageMethod(seen, p, r, View())) == More(phase, p, View())
      ensures out.Failed? ==> old(StageMethod(seen, p, r, View())) == Fail(status, View())
      ensures !out.Failed? ==> status == old(status)
    {
      hide StagePath, AllEndBefore, TextAt, Find;
      e := Scan(p, r, SP);
      if e == headersLen {
        phase := ReqMethod;
        return NeedMore, e;
      }
      assert buf[p..e] == seen[p..e];
      var token := buf[p..e];
      if token == GET_TOKEN {
        verb := GET;
      } else if token == PUT_TOKEN {
        verb := PUT;
      } else if token == HEAD_TOKEN {
        verb := HEAD;
      } else if token == POST_TOKEN {
        verb := POST;
      } else if token == DELETE_TOKEN {
        verb := DELETE;
      } else {
        status := HTTP_501_NOT_IMPLEMENTED;
        verb := GET;
        return Failed, e;
      }
      EndsMonotone(ptrs, buf[..], p, e + 1);
      return Advance, e + 1;
    }

    /** The check for printable bytes and the search for the first `?` in the request target. */
    method FindQuestion(p: nat, e: nat) returns (good: bool, s: nat)
      requires Live(p) && p <= e <= |seen|
      ensures good <==> AllPrint(seen[p..e])
      ensures good ==> s == p + Find(seen[p..e], QUESTION, 0)
    {
      hide AllEndBefore, Find;
      ghost var raw := seen[p..e];
      s := e;
      var q := p;
      while q < e
        invariant p <= q <= e && p <= s <= e
        invariant forall k :: 0 <= k < q - p ==> IsPrint(raw[k])
        invariant forall k :: 0 <= k < (if s < e then s else q) - p ==> raw[k] != QUESTION
        invariant s < e ==> s < q && raw[s - p] == QUESTION
      {
        assert buf[q] == seen[q] == raw[q - p];
        if !IsPrint(buf[q]) {
          return false, s;
        }
        if s == e && buf[q] == QUESTION {
          s := q;
        }
        q := q + 1;
      }
      FindIs(raw, QUESTION, 0, s - p);
      return true, s;
    }

    /** Points the path at `p` and, when there is a query, the query behind `s`. */
    method PointAtTarget(p: nat, s: nat, e: nat)
      requires p <= s <= e < buf.Length && AllEndBefore(ptrs, buf[..], p)
      requires Find(buf[..], NUL, p) <= e && (s < e ==> Find(buf[..], NUL, s + 1) <= e)
      modifies this`ptrs
      ensures AllEndBefore(ptrs, buf[..], e + 1)
      ensures var q := old(View()).(path := At(p, CStringAt(buf[..], p)));
              View() == if s < e then q.(query := At(s + 1, CStringAt(buf[..], s + 1))) else q
    {
      hide Find, CStringAt, NoOverlap, EndsBefore;
      AllApartFrom(ptrs, buf[..], p, p);
      if s < e {
        AllApartFrom(ptrs, buf[..], p, s + 1);
      }
      EndsMonotone(ptrs, buf[..], p, e + 1);
      EndsThere(buf[..], p, e + 1);
      ptrs := ptrs.(path := To(p));
      if s < e {
        EndsThere(buf[..], s + 1, e + 1);
        ptrs := ptrs.(query := To(s + 1));
      }
    }

    /** Cuts the target that ends at `e` at its `?` (at `s`, or `s == e`), decodes both parts and captures them. */
    method CaptureTarget(p: nat, s: nat, e: nat)
      requires Live(p) && p <= s <= e < |seen|
      requires AllPrint(seen[p..e]) && s == p + Find(seen[p..e], QUESTION, 0)
      modifies this`ptrs, buf
      ensures Live(e + 1)
      ensures View() == old(SplitTarget(seen[p..e], p, View()))
      ensures View().path == At(p, CStringAt(buf[..], p)) && Find(buf[..], NUL, p) < buf.Length
    {
      hide UrlCoding.Decode, CString, Find, CStringAt, AllEndBefore, ViewOf, AllPrint;
      ghost var before := buf[..];
      ghost var raw := seen[p..e];
      assert before[p..e] == raw;
      SliceOfSlice(before, p, e, s - p);
      if s < e {
        TailOfSlice(before, p, e, s + 1 - p);
      }
      PrintHasNoNul(raw);
      UrlCoding.DecodeTarget(buf, p, s, e);
      assert buf[..p] == before[..p];
      ViewFrame(verb, version, contentLen, ptrs, before, buf[..], p);
      PointAtTarget(p, s, e);
    }

    /** `attempted_path_traversal` on the string at `p`. */
    method PathTraverses(p: nat) returns (yes: bool)
      requires p <= buf.Length && Find(buf[..], NUL, p) < buf.Length
      ensures yes <==> AttemptedTraversal(CStringAt(buf[..], p))
    {
      ghost var path := CStringAt(buf[..], p);
      StringThere(buf[..], p);
      assert forall k :: 0 <= k < |path| ==> buf[p + k] == path[k];
      var d := FirstDots(p, path);
      if buf[d] == NUL {
        return false;
      }
      return (buf[d + 2] == NUL || buf[d + 2] == SLASH) && (d == p || buf[d - 1] == SLASH);
    }

    /** `strstr(path, "..")`, with the offset of the NUL for "none". */
    method FirstDots(p: nat, ghost path: seq<byte>) returns (d: nat)
      requires p + |path| < buf.Length && buf[p + |path|] == NUL && NUL !in path
      requires forall k :: 0 <= k < |path| ==> buf[p + k] == path[k]
      ensures p <= d <= p + |path| && d - p == FindDots(path, 0) && (buf[d] == NUL <==> d == p + |path|)
    {
      hide FindDots;
      d := p;
      while buf[d] != NUL && !(buf[d] == DOT && buf[d + 1] == DOT)
        invariant p <= d <= p + |path|
        invariant forall k :: 0 <= k < d - p && k + 1 < |path| ==> !(path[k] == DOT && path[k + 1] == DOT)
        decreases p + |path| - d
      {
        assert buf[p + (d - p)] == path[d - p];
        d := d + 1;
      }
      assert d - p < |path| ==> buf[p + (d - p)] == path[d - p];
      assert d - p + 1 < |path| ==> buf[p + (d - p + 1)] == path[d - p + 1];
      FindDotsIs(path, 0, d - p);
    }

    /** HTTP_PS_REQ_PATH (src/http.c:697-729). */
    method ParsePath(p: nat, r: nat) returns (out: Stage, e: nat)
      requires Live(p) && p <= r <= |seen|
      modifies this`ptrs, this`status, this`phase, buf
      ensures out.Failed? || Live(if out.Advance? then e else p)
      ensures out.Advance? ==> e <= |seen| && old(StagePath(seen, p, r, View())) == StageVersion(seen, e, e, View())
      ensures out.NeedMore? ==> phase == ReqPath && old(StagePath(seen, p, r, View())) == More(phase, p, View())
      ensures out.Failed? ==> old(StagePath(seen, p, r, View())) == Fail(status, View())
      ensures !out.Failed? ==> status == old(status)
    {
      hide StageVersion, AllEndBefore, AllPrint, Find, AttemptedTraversal, SplitTarget, TextAt;
      e := Scan(p, r, SP);
      if e == headersLen {
        phase := ReqPath;
        return NeedMore, e;
      }
      var good, s := FindQuestion(p, e);
      if !good {
        status := HTTP_400_BAD_REQUEST;
        return Failed, e;
      }
      CaptureTarget(p, s, e);
      var bad := PathTraverses(p);
      if bad {
        status := HTTP_400_BAD_REQUEST;
        return Failed, e;
      }
      return Advance, e + 1;
    }

    /** HTTP_PS_REQ_VERSION (src/http.c:731-757). */
    method ParseVersion(p: nat, r: nat) returns (out: Stage, e: nat)
      requires Live(p) && p <= r <= |seen|
      modifies this`version, this`status, this`phase
      ensures out.Failed? || Live(if out.Advance? then e else p)
      ensures out.Advance? ==> e <= |seen| && old(StageVersion(seen, p, r, View())) == StageVersionLf(seen, e, View())
      ensures out.NeedMore? ==> phase == ReqVersion && old(StageVersion(seen, p, r, View())) == More(phase, p, View())
      ensures out.Failed? ==> old(StageVersion(seen, p, r, View())) == Fail(status, View())
      ensures !out.Failed? ==> status == old(status)
    {
      hide StageVersionLf, AllEndBefore, TextAt, Find;
      e := Scan(p, r, CR);
      if e == headersLen {
        phase := ReqVersion;
        return NeedMore, e;
      }
      LiveSlice(p, e);
      if e - p < 5 || buf[p..p + 5] != HTTP_SLASH {
        if e - p >= 5 {
          SliceOfSlice(buf[..], p, e, 5);
        }
        status := HTTP_400_BAD_REQUEST;
        return Failed, e;
      }
      SliceOfSlice(buf[..], p, e, 5);
      TailOfSlice(buf[..], p, e, 5);
      TailOfSlice(seen, p, e, 5);
      if buf[p + 5..e] == ONE_ONE {
        version := Http11;
      } else if buf[p + 5..e] == ONE_ZERO {
        version := Http10;
      } else {
        status := HTTP_505_VERSION_NOT_SUPPORTED;
        return Failed, e;
      }
      EndsMonotone(ptrs, buf[..], p, e + 1);
      return Advance, e + 1;
    }

    /** HTTP_PS_REQ_VERSION_LF (src/http.c:759-770). */
    method ParseVersionLf(r: nat) returns (out: Stage, e: nat)
      requires Live(r)
      modifies this`status, this`phase
      ensures out.Failed? || Live(if out.Advance? then e else r)
      ensures out.Advance? ==> e <= |seen| && old(StageVersionLf(seen, r, View())) == StageHead(seen, e, e, View())
      ensures out.NeedMore? ==>
                r == |seen| && phase == ReqVersionLf && old(StageVersionLf(seen, r, View())) == More(phase, r, View())
      ensures out.Failed? ==> old(StageVersionLf(seen, r, View())) == Fail(status, View())
      ensures !out.Failed? ==> status == old(status)
    {
      hide StageHead, AllEndBefore, TextAt;
      e := r;
      if r == headersLen {
        phase := ReqVersionLf;
        return NeedMore, r;
      }
      if buf[r] != LF {
        status := HTTP_400_BAD_REQUEST;
        return Failed, r;
      }
      EndsMonotone(ptrs, buf[..], r, r + 1);
      return Advance, r + 1;
    }

    /** The table search of src/http.c:800-807: lengths first, then the names regardless of case. */
    method MatchField(p: nat, s: nat) returns (i: nat)
      requires p <= s <= buf.Length
      ensures i == MatchHeader(buf[p..s], 0)
    {
      i := 0;
      while i < |HEADERS| && !(s - p == |HEADERS[i].0| && Lower(buf[p..s]) == HEADERS[i].0)
        invariant 0 <= i <= |HEADERS|
        invariant MatchHeader(buf[p..s], 0) == MatchHeader(buf[p..s], i)
      {
        i := i + 1;
      }
    }

    /** `strchr(p, ':')` on the string that ends at `e` or before; returns the offset of its NUL when there is none. */
    method FindColon(p: nat, e: nat) returns (q: nat)
      requires p <= e < buf.Length && buf[e] == NUL
      ensures var name := CString(buf[p..e]);
              q == p + Find(name, COLON, 0) && q <= e && (q == p + |name| <==> buf[q] == NUL)
    {
      ghost var line := buf[p..e];
      q := p;
      while buf[q] != NUL && buf[q] != COLON
        invariant p <= q <= e
        invariant forall k :: 0 <= k < q - p ==> line[k] != NUL && line[k] != COLON
        decreases e - q
      {
        assert line[q - p] == buf[q];
        q := q + 1;
      }
      var n := |CString(line)|;
      assert q - p <= n;
      assert q < e ==> line[q - p] == buf[q];
      FindIs(CString(line), COLON, 0, q - p);
    }

    /** `for (q++; *q == ' ' || *q == '\t'; q++);` */
    method SkipToValue(p: nat, q: nat, e: nat) returns (v: nat)
      requires p <= q <= e < buf.Length && buf[e] == NUL
      ensures v == p + SkipBlanks(buf[p..e], q - p)
    {
      v := q;
      while buf[v] == SP || buf[v] == HT
        invariant q <= v <= e
        invariant SkipBlanks(buf[p..e], q - p) == SkipBlanks(buf[p..e], v - p)
        decreases e - v
      {
        v := v + 1;
      }
    }

    /** The handlers of the header table (src/http.c:193-237) on the value at `v`. */
    method StoreHeader(field: Field, p: nat, v: nat, limit: nat) returns (ok: bool)
      requires p <= v < limit <= buf.Length && Find(buf[..], NUL, v) < limit
      requires AllEndBefore(ptrs, buf[..], p)
      modifies this`ptrs, this`contentLen, this`status
      ensures AllEndBefore(ptrs, buf[..], limit)
      ensures StoreField(field, At(v, CStringAt(buf[..], v)), old(View())) == if ok then Kept(View()) else Bad(View())
      ensures status == if ok then old(status) else HTTP_400_BAD_REQUEST
    {
      hide Find, CStringAt, IsNumber, ReadLong, NoOverlap, EndsBefore;
      AllApartFrom(ptrs, buf[..], p, v);
      EndsMonotone(ptrs, buf[..], p, limit);
      EndsThere(buf[..], v, limit);
      match field {
        case Cookie => ptrs := ptrs.(cookies := To(v));
        case Range => ptrs := ptrs.(range := To(v));
        case IfModifiedSince => ptrs := ptrs.(modifiedSince := To(v));
        case ContentType => ptrs := ptrs.(mimetype := To(v));
        case ContentDisposition => ptrs := ptrs.(disposition := To(v));
        case ContentLength =>
          var value := CStringAt(buf[..], v);
          contentLen := ReadLong(value).value;
          if !IsNumber(value) || contentLen < 0 {
            status := HTTP_400_BAD_REQUEST;
            return false;
          }
      }
      return true;
    }

    /**
     * Cuts the header line `buf[p..e]` into its name, which ends at `s`, and its value, which starts at `v`
     * (src/http.c:787-799); `i` is the table index of the name.
     */
    method CutHeader(p: nat, e: nat, ghost line: seq<byte>) returns (found: bool, i: nat, v: nat)
      requires p <= e < buf.Length && buf[p..e] == line
      modifies buf
      ensures forall k :: 0 <= k < p || e < k < buf.Length ==> buf[k] == old(buf[k])
      ensures buf[..p] == old(buf[..p])
      ensures var colon := Find(CString(line), COLON, 0);
              && found == (colon < |CString(line)|)
              && (found ==>
                    && i == MatchHeader(line[..colon], 0)
                    && p <= v == p + SkipBlanks(line, colon + 1) <= e
                    && CStringAt(buf[..], v) == CString(line[v - p..])
                    && Find(buf[..], NUL, v) <= e)
    {
      hide Find, CStringAt, CString, MatchHeader, SkipBlanks;
      buf[e] := NUL;
      assert buf[p..e] == line;
      var s := FindColon(p, e);
      assert s == p + Find(CString(line), COLON, 0);
      if buf[s] == NUL {
        return false, 0, e;
      }
      SliceOfSlice(buf[..], p, e, s - p);
      assert buf[p..s] == line[..s - p];
      i := MatchField(p, s);
      v := SkipToValue(p, s + 1, e);
      EndName(p, s, v, e, line);
      found := true;
    }

    /** Ends the name at `s`; the value stays. */
    method EndName(p: nat, s: nat, v: nat, e: nat, ghost line: seq<byte>)
      requires p <= s < v <= e < buf.Length && buf[p..e] == line && buf[e] == NUL
      modifies buf
      ensures forall k :: 0 <= k < p || e < k < buf.Length ==> buf[k] == old(buf[k])
      ensures CStringAt(buf[..], v) == CString(line[v - p..]) && Find(buf[..], NUL, v) <= e
    {
      hide Find, CStringAt, CString;
      TailOfSlice(buf[..], p, e, v - p);
      ghost var value := buf[v..e];
      buf[s] := NUL;
      assert buf[v..e] == value;
      CStringAtIs(buf[..], v, value);
    }

    lemma LiveSlice(p: nat, e: nat)
      requires Live(p) && p <= e <= |seen|
      ensures buf.Length == HTTP_BUFSZ && |seen| <= HTTP_BUFSZ
      ensures buf[p..e] == seen[p..e] && AllEndBefore(ptrs, buf[..], p)
      ensures Sized() && forall k :: p <= k < |seen| ==> buf[k] == seen[k]
    {
      hide AllEndBefore;
    }

    /** One header line `buf[p..e]` (src/http.c:781-808). */
    method ParseHeaderLine(p: nat, e: nat) returns (ok: bool)
      requires Live(p) && p <= e < |seen|
      modifies this`ptrs, this`contentLen, this`status, buf
      ensures ok ==> Live(e + 1)
      ensures old(ProcessHeader(seen[p..e], p, View())) == if ok then Kept(View()) else Bad(View())
      ensures status == if ok then old(status) else HTTP_400_BAD_REQUEST
    {
      hide Find, CStringAt, CString, AllEndBefore, ViewOf, StoreField, MatchHeader, SkipBlanks, ProcessHeader;
      ghost var before := buf[..];
      ghost var line, q := seen[p..e], View();
      LiveSlice(p, e);
      hide Live;
      var found, i, v := CutHeader(p, e, line);
      ViewStays(before, p);
      CutIsProcessed(line, p, found, i, v, if found then CStringAt(buf[..], v) else [], q);
      if !found {
        status := HTTP_400_BAD_REQUEST;
        return false;
      }
      ok := StoreFound(i, p, v, e + 1);
      LiveAgain(e + 1);
    }

    /** What becomes of a line, in terms of where it was cut. */
    lemma CutIsProcessed(line: seq<byte>, p: nat, found: bool, i: nat, v: nat, text: seq<byte>, q: Request)
      requires var colon := Find(CString(line), COLON, 0);
               && found == (colon < |CString(line)|)
               && (found ==>
                     && i == MatchHeader(line[..colon], 0)
                     && p <= v == p + SkipBlanks(line, colon + 1)
                     && v - p <= |line| && text == CString(line[v - p..]))
      ensures ProcessHeader(line, p, q) ==
              if !found then Bad(q) else if i == |HEADERS| then Kept(q) else StoreField(HEADERS[i].1, At(v, text), q)
    {
      hide Find, CString, StoreField, MatchHeader, SkipBlanks;
    }

    lemma LiveAgain(p: nat)
      requires Sized() && p <= |seen| && (forall k :: p <= k < |seen| ==> buf[k] == seen[k]) && AllEndBefore(ptrs, buf[..], p)
      ensures Live(p)
    {
      hide AllEndBefore;
    }

    lemma ViewStays(before: seq<byte>, limit: nat)
      requires limit <= |before| == buf.Length && before[..limit] == buf[..limit] && AllEndBefore(ptrs, before, limit)
      ensures AllEndBefore(ptrs, buf[..], limit) && View() == ViewOf(verb, version, contentLen, ptrs, before)
    {
      hide AllEndBefore, ViewOf;
      ViewFrame(verb, version, contentLen, ptrs, before, buf[..], limit);
    }

    /** The handler of table entry `i`, if the name was found there. */
    method StoreFound(i: nat, p: nat, v: nat, limit: nat) returns (ok: bool)
      requires i <= |HEADERS| && p <= v < limit <= buf.Length && Find(buf[..], NUL, v) < limit
      requires AllEndBefore(ptrs, buf[..], p)
      modifies this`ptrs, this`contentLen, this`status
      ensures AllEndBefore(ptrs, buf[..], limit)
      ensures (if i == |HEADERS| then Kept(old(View())) else StoreField(HEADERS[i].1, At(v, CStringAt(buf[..], v)), old(View())))
              == if ok then Kept(View()) else Bad(View())
      ensures status == if ok then old(status) else HTTP_400_BAD_REQUEST
    {
      hide Find, CStringAt, AllEndBefore, ViewOf, StoreField;
      ok := true;
      if i < |HEADERS| {
        ok := StoreHeader(HEADERS[i].1, p, v, limit);
      } else {
        EndsMonotone(ptrs, buf[..], p, limit);
      }
    }

    /**
     * HTTP_PS_REQ_HEAD and HTTP_PS_REQ_HEAD_LF with the jump between them (src/http.c:772-833); `lf` says at which of
     * the two it is entered. `goal` is what the pure parser says of the bytes read.
     */
    method ParseHeads(p0: nat, r0: nat, lf0: bool, ghost goal: Outcome) returns (out: Stage, p: nat)
      requires Live(p0) && p0 <= r0 <= |seen|
      requires goal == if lf0 then StageHeadLf(seen, p0, r0, View()) else StageHead(seen, p0, r0, View())
      modifies this`ptrs, this`contentLen, this`status, this`phase, buf
      ensures out.Failed? || Live(p)
      ensures out.NeedMore? ==> phase != New && goal == More(phase, p, View())
      ensures out.Advance? ==> goal == Done(View(), p)
      ensures out.Failed? ==> goal == Fail(status, View())
      ensures !out.Failed? ==> status == old(status)
    {
      hide ProcessHeader, AllEndBefore, ViewOf, Find, StageHead, StageHeadLf;
      p := p0;
      var r, lf := r0, lf0;
      while true
        invariant Live(p) && p <= r <= |seen| && status == old(status)
        invariant goal == if lf then StageHeadLf(seen, p, r, View()) else StageHead(seen, p, r, View())
        decreases |seen| - r, lf
      {
        if lf {
          HeadLfStep(seen, p, r, View());
          if r == headersLen {
            phase := ReqHeadLf;
            return NeedMore, p;
          }
          if buf[r] != LF {
            status := HTTP_400_BAD_REQUEST;
            return Failed, p;
          }
          EndsMonotone(ptrs, buf[..], p, r + 1);
          if r != p {
            return Advance, r + 1;
          }
          p, r, lf := r + 1, r + 1, false;
        } else {
          var e := Scan(p, r, CR);
          HeadStep(seen, p, r, View());
          if e == headersLen {
            phase := ReqHead;
            return NeedMore, p;
          }
          if e != p {
            var ok := ParseHeaderLine(p, e);
            if !ok {
              return Failed, p;
            }
            p := e + 1;
          }
          r, lf := e + 1, true;
        }
      }
    }

    /** The `switch` on the parse state with its fallthroughs (src/http.c:649-839). */
    method ParseBuffered(p0: nat, r0: nat, ghost goal: Outcome) returns (out: Stage, p: nat)
      requires Live(p0) && p0 <= r0 <= |seen|
      requires phase == New ==> Live(0)
      requires goal == Resume(phase, p0, r0, View(), seen)
      modifies this`verb, this`version, this`ptrs, this`contentLen, this`status, this`phase, buf
      ensures out.Failed? || Live(p)
      ensures out.NeedMore? ==> phase != New && goal == More(phase, p, View())
      ensures out.Advance? ==> goal == Done(View(), p)
      ensures out.Failed? ==> goal == Fail(status, View())
      ensures !out.Failed? ==> status == old(status)
    {
      hide StageMethod, StagePath, StageVersion, StageVersionLf, StageHead, StageHeadLf, AllEndBefore, ViewOf;
      var r := r0;
      p := p0;
      var at := phase;
      if at == New {
        p, r, at := 0, 0, ReqMethod;
      }
      if at == ReqMethod {
        out, r := ParseMethod(p, r);
        if !out.Advance? {
          return out, p;
        }
        p, at := r, ReqPath;
      }
      if at == ReqPath {
        out, r := ParsePath(p, r);
        if !out.Advance? {
          return out, p;
        }
        p, at := r, ReqVersion;
      }
      if at == ReqVersion {
        out, r := ParseVersion(p, r);
        if !out.Advance? {
          return out, p;
        }
        p, at := r, ReqVersionLf;
      }
      if at == ReqVersionLf {
        EndsMonotone(ptrs, buf[..], p, r);
        p := r;
        out, r := ParseVersionLf(p);
        if !out.Advance? {
          return out, p;
        }
        p, at := r, ReqHead;
      }
      out, p := ParseHeads(p, r, at == ReqHeadLf, goal);
    }

    lemma IdleIsBlank()
      requires Idle()
      ensures View() == BLANK
    {
    }

    method Store(data: seq<byte>)
      requires Sized() && headersLen + |data| <= HTTP_BUFSZ
      modifies this`headersLen, this`seen, buf
      ensures Sized() && seen == old(seen) + data
      ensures forall k :: 0 <= k < |old(seen)| ==> buf[k] == old(buf[k])
      ensures forall k :: |old(seen)| <= k < |seen| ==> buf[k] == seen[k]
    {
      var n := headersLen;
      forall k | 0 <= k < |data| {
        buf[n + k] := data[k];
      }
      headersLen := n + |data|;
      seen := seen + data;
    }

    /** The `read` of read_more together with what it means for the saved parse. */
    method ReadMore(data: seq<byte>, ghost p: nat, ghost r: Ptr)
      requires headersLen + |data| <= HTTP_BUFSZ
      requires Idle() || Suspended(p, r)
      modifies this`headersLen, this`seen, buf
      ensures seen == old(seen) + data
      ensures View() == old(View())
      ensures old(Idle()) ==> Idle()
      ensures !old(Idle()) ==> Live(p) && r.off <= |seen| && Parse(seen) == Resume(phase, p, r.off, View(), seen)
    {
      hide Parse, Resume, AllEndBefore, ViewOf, InBounds;
      ghost var before := buf[..];
      ghost var limit := if Idle() then 0 else p;
      Store(data);
      assert buf[..limit] == before[..limit];
      ViewFrame(verb, version, contentLen, ptrs, before, buf[..], limit);
      if !old(Idle()) {
        ParseExtends(old(seen), data);
      }
    }

    /** The parse of this transaction is untouched, or stands where the pure parser stands on `seen`. */
    ghost predicate Midway(p: nat, r: Ptr)
      reads this, buf
    {
      if r.Null? then Idle() && p == 0 else Suspended(p, r)
    }

    /** The part of kitserv_http_recv_request up to the `switch` (src/http.c:611-647). */
    method FillBuffer(sock: Socket, p: nat, r: Ptr) returns (fill: Fill)
      requires Midway(p, r) && status == HTTP_X_RESP_STATUS_UNSET && sock.Valid()
      modifies this`headersLen, this`seen, this`status, buf, sock
      ensures old(sock.taken) <= sock.taken && seen == old(seen) + sock.taken[|old(sock.taken)|..]
      ensures sock.taken + Incoming(sock.script) == old(sock.taken + Incoming(sock.script))
      ensures sock.Valid() && old(sock.asked) <= sock.asked && (fill.WouldBlock? ==> old(sock.asked) < sock.asked)
      ensures fill.HungUp? ==> seen == old(seen) && |seen| < HTTP_BUFSZ && (r.To? ==> Suspended(p, r))
      ensures fill.Parseable? ==>
                && Live(p) && (if r.Null? then 0 else r.off) <= |seen|
                && (r.Null? ==> Idle())
                && Parse(seen) == Resume(phase, p, if r.Null? then 0 else r.off, View(), seen)
      ensures fill.WouldBlock? ==> Suspended(p, r) && |seen| < HTTP_BUFSZ
      ensures fill.BufferFull? ==> Suspended(p, r) && |seen| == HTTP_BUFSZ
      ensures (fill.WouldBlock? ==> sock.last.Again?) && (fill.HungUp? ==> sock.last.Error? || sock.last.Zero?)
      ensures old(HangsUp(sock.script, seen, r.Null?)) ==
              (fill.HungUp? || (fill.Parseable? && HangsUpLater(sock.script, seen)))
      ensures status == if fill.BufferFull? then HTTP_431_REQUEST_HEADER_FIELDS_TOO_LARGE
                        else if fill.HungUp? then HTTP_X_HANGUP
                        else HTTP_X_RESP_STATUS_UNSET
      ensures Remaining(sock.script) + |sock.taken| <= old(Remaining(sock.script) + |sock.taken|)
      ensures fill.Parseable? ==> r.Null? || Remaining(sock.script) < old(Remaining(sock.script))
    {
      hide HangsUpLater,
           Parse, Resume, AllEndBefore, ViewOf, Socket.Valid, Remaining, Incoming;
      if r.Null? {
        IdleIsBlank();
      }
      HangsUpStep(sock.script, seen, HTTP_BUFSZ - headersLen);
      ReceiveOfBuffer(seen);
      var rc := sock.Read(HTTP_BUFSZ - headersLen);
      if rc.Got? {
        ReadMore(rc.data, p, r);
      } else if rc.Error? || (rc.Zero? && headersLen < HTTP_BUFSZ) {
        status := HTTP_X_HANGUP;
        return HungUp;
      } else if r.To? && r.off >= headersLen {
        if rc.Again? {
          return WouldBlock;
        }
        status := HTTP_431_REQUEST_HEADER_FIELDS_TOO_LARGE;
        return BufferFull;
      }
      if r.Null? {
        ParseStarts(seen);
      }
      return Parseable;
    }

    /** The head ends at `p`; what follows is payload (src/http.c:841-843). */
    method HandOver(p: nat)
      requires Live(p) && Parse(seen) == Done(View(), p) && cookies == []
      modifies this`payload, this`payloadLen, this`payloadPos, this`parsed, this`state
      ensures HasRequest() && parsed == View() == old(View()) && payload == p && payloadPos == 0 && state == Serve
    {
      hide Parse, AllEndBefore, ViewOf;
      payload := p;
      payloadLen := headersLen - p;
      payloadPos := 0;
      parsed := View();
      state := Serve;
    }

    /** The parsing that a read allows. */
    method ParseTurn(p0: nat, r0: nat) returns (turn: Turn, p: nat)
      requires Live(p0) && r0 <= |seen| && p0 <= r0 && (phase == New ==> Live(0))
      requires Parse(seen) == Resume(phase, p0, r0, View(), seen) && cookies == [] && status == HTTP_X_RESP_STATUS_UNSET
      modifies this`verb, this`version, this`ptrs, this`contentLen, this`status, this`phase, this`payload,
               this`payloadLen, this`payloadPos, this`parsed, this`state, buf
      ensures turn.ReadAgain? || turn.Complete? || turn.Rejected?
      ensures turn.ReadAgain? ==> Suspended(p, To(headersLen))
      ensures turn.Complete? ==> HasRequest() && parsed == View() && Receive(seen) == Done(View(), payload)
      ensures turn.Rejected? ==> status != HTTP_X_HANGUP && Receive(seen) == Fail(status, View())
      ensures !turn.Rejected? ==> status == HTTP_X_RESP_STATUS_UNSET
      ensures payloadPos == if turn.Complete? then 0 else old(payloadPos)
      ensures state == if turn.Complete? then Serve else old(state)
    {
      hide Parse, Resume, Receive, AllEndBefore, ViewOf;
      var out;
      out, p := ParseBuffered(p0, r0, Parse(seen));
      if out.NeedMore? {
        return ReadAgain, p;
      }
      ReceiveOfBuffer(seen);
      if out.Failed? {
        FailuresAreErrors(seen);
        return Rejected, p;
      }
      HandOver(p);
      return Complete, p;
    }

    /** One read and the parsing it allows. */
    method TakeTurn(sock: Socket, p0: nat, r0: Ptr) returns (turn: Turn, p: nat, r: Ptr)
      requires Midway(p0, r0) && status == HTTP_X_RESP_STATUS_UNSET && cookies == [] && sock.Valid()
      modifies this, buf, sock
      ensures cookies == []
      ensures old(sock.taken) <= sock.taken && seen == old(seen) + sock.taken[|old(sock.taken)|..]
      ensures sock.taken + Incoming(sock.script) == old(sock.taken + Incoming(sock.script))
      ensures sock.Valid() && old(sock.asked) <= sock.asked && (turn.Blocked? ==> old(sock.asked) < sock.asked)
      ensures Remaining(sock.script) + |sock.taken| <= old(Remaining(sock.script) + |sock.taken|)
      ensures turn.ReadAgain? ==> Midway(p, r) && r.To?
      ensures turn.ReadAgain? ==> r0.Null? || Remaining(sock.script) < old(Remaining(sock.script))
      ensures turn.Blocked? ==>
                && Suspended(parseBlk, parseIter) && |seen| < HTTP_BUFSZ
                && Receive(seen) == More(phase, parseBlk, View()) && parseIter == To(|seen|)
      ensures turn.Complete? ==> HasRequest() && parsed == View() && Receive(seen) == Done(View(), payload)
      ensures turn.Blocked? ==> sock.last.Again?
      ensures old(HangsUp(sock.script, seen, r0.Null?)) ==
              if turn.ReadAgain? then HangsUpLater(sock.script, seen) else turn.Rejected? && status == HTTP_X_HANGUP
      ensures turn.Rejected? && status == HTTP_X_HANGUP ==> sock.last.Error? || sock.last.Zero?
      ensures turn.Rejected? && status == HTTP_X_HANGUP ==>
                |seen| < HTTP_BUFSZ && (Receive(seen).More? || (r0.Null? && seen == old(seen)))
      ensures !turn.Blocked? ==> parseIter == old(parseIter)
      ensures turn.Rejected? && status != HTTP_X_HANGUP ==> Receive(seen) == Fail(status, View())
      ensures !turn.Rejected? ==> status == HTTP_X_RESP_STATUS_UNSET
      ensures payloadPos == if turn.Complete? then 0 else old(payloadPos)
      ensures state == if turn.Complete? then Serve else old(state)
      ensures history == old(history)
    {
      hide HangsUp, HangsUpLater,
           HasRequest, Parse, Resume, Receive, AllEndBefore, ViewOf, Socket.Valid, Remaining, Incoming;
      p, r := p0, r0;
      var fill := FillBuffer(sock, p, r);
      if !fill.Parseable? {
        ReceiveOfBuffer(seen);
        if fill.WouldBlock? {
          parseBlk, parseIter := p, r;
          return Blocked, p, r;
        }
        return Rejected, p, r;
      }
      turn, p := ParseTurn(p, if r.Null? then 0 else r.off);
      HangsUpStep(sock.script, seen, HTTP_BUFSZ - |seen|);
      if turn.ReadAgain? {
        r := To(headersLen);
      }
    }

    /** The head just completed becomes part of the history; what was pending splits into it and the payload. */
    ghost method RecordHead()
      requires HasRequest() && state == Serve && payloadPos == 0
      modifies this`history
      ensures history == old(history) + [Exchange(seen[..payload], parsed, [])]
      ensures HasRequest() && View() == old(View())
      ensures Consumed(history) + Pending() == Consumed(old(history)) + seen
      ensures GoodHistory(old(history)) ==> GoodHistory(history)
    {
      hide Parse, Consumed, Intact, View;
      var x := Exchange(seen[..payload], parsed, []);
      HeadStandsAlone(seen, parsed, payload);
      ConsumedSnoc(history, x);
      assert seen == seen[..payload] + seen[payload..];
      history := history + [x];
    }

    /** The reception loop: turns until the socket blocks, the head is complete or the request is rejected. */
    method ReceiveHead(sock: Socket) returns (turn: Turn)
      requires Valid() && state == Read && sock.Valid()
      modifies this, buf, sock
      ensures old(sock.taken) <= sock.taken && seen == old(seen) + sock.taken[|old(sock.taken)|..]
      ensures sock.taken + Incoming(sock.script) == old(sock.taken + Incoming(sock.script))
      ensures sock.Valid() && old(sock.asked) <= sock.asked && (turn.Blocked? ==> old(sock.asked) < sock.asked)
      ensures Remaining(sock.script) + |sock.taken| <= old(Remaining(sock.script) + |sock.taken|)
      ensures !turn.ReadAgain? && payloadPos == 0 && cookies == [] && history == old(history)
      ensures state == if turn.Complete? then Serve else Read
      ensures turn.Blocked? ==>
                && Suspended(parseBlk, parseIter) && |seen| < HTTP_BUFSZ
                && Receive(seen) == More(phase, parseBlk, View()) && parseIter == To(|seen|)
      ensures turn.Complete? ==> HasRequest() && parsed == View() && Receive(seen) == Done(View(), payload)
      ensures turn.Blocked? ==> sock.last.Again?
      ensures turn.Rejected? && status == HTTP_X_HANGUP <==> old(HangsUp(sock.script, seen, parseIter.Null?))
      ensures turn.Rejected? && status == HTTP_X_HANGUP ==> sock.last.Error? || sock.last.Zero?
      ensures turn.Rejected? && status == HTTP_X_HANGUP ==>
                |seen| < HTTP_BUFSZ && (Receive(seen).More? || (old(parseIter).Null? && seen == old(seen)))
      ensures !turn.Blocked? ==> parseIter == old(parseIter)
      ensures turn.Rejected? && status != HTTP_X_HANGUP ==> Receive(seen) == Fail(status, View())
      ensures !turn.Rejected? ==> status == HTTP_X_RESP_STATUS_UNSET
    {
      hide HangsUpLater,
           Parse, Receive, AllEndBefore, ViewOf, Socket.Valid, Remaining, Incoming, View, HasRequest, Live;
      var p, r := parseBlk, parseIter;
      turn := ReadAgain;
      while turn.ReadAgain?
        invariant state == if turn.Complete? then Serve else Read
        invariant turn.Rejected? || status == HTTP_X_RESP_STATUS_UNSET
        invariant payloadPos == 0 && cookies == [] && history == old(history)
        invariant turn.ReadAgain? ==> Midway(p, r)
        invariant turn.Blocked? ==>
                    && Suspended(parseBlk, parseIter) && |seen| < HTTP_BUFSZ
                    && Receive(seen) == More(phase, parseBlk, View()) && parseIter == To(|seen|)
        invariant turn.Complete? ==> HasRequest() && parsed == View() && Receive(seen) == Done(View(), payload)
        invariant turn.Blocked? ==> sock.last.Again?
        invariant old(HangsUp(sock.script, seen, parseIter.Null?)) ==
                  if turn.ReadAgain? then HangsUp(sock.script, seen, r.Null?)
                  else turn.Rejected? && status == HTTP_X_HANGUP
        invariant turn.Rejected? && status == HTTP_X_HANGUP ==> sock.last.Error? || sock.last.Zero?
        invariant turn.Rejected? && status == HTTP_X_HANGUP ==>
                  |seen| < HTTP_BUFSZ && (Receive(seen).More? || (old(parseIter).Null? && seen == old(seen)))
        invariant !turn.Blocked? ==> parseIter == old(parseIter)
        invariant turn.ReadAgain? && r.Null? ==> old(parseIter).Null? && seen == old(seen)
        invariant turn.Rejected? && status != HTTP_X_HANGUP ==> Receive(seen) == Fail(status, View())
        invariant sock.taken + Incoming(sock.script) == old(sock.taken + Incoming(sock.script))
        invariant old(sock.taken) <= sock.taken && seen == old(seen) + sock.taken[|old(sock.taken)|..]
        invariant sock.Valid() && old(sock.asked) <= sock.asked && (turn.Blocked? ==> old(sock.asked) < sock.asked)
        invariant Remaining(sock.script) + |sock.taken| <= old(Remaining(sock.script) + |sock.taken|)
        decreases turn.ReadAgain?, Remaining(sock.script), r.Null?
      {
        turn, p, r := TakeTurn(sock, p, r);
      }
    }

    /**
     * `kitserv_http_recv_request`. It reads until the socket would block or the head is complete, resuming where the
     * last call stopped. Unless the peer hung up, its result is what the pure parser concludes from all the bytes of
     * this transaction, however they were split into reads and calls. It gives up waiting only when the socket says so:
     * a registration that is edge-triggered (src/kitserv.c:244) will report the next arrival.
     */
    method RecvRequest(sock: Socket) returns (ok: bool)
      requires Valid() && state == Read && sock.Valid()
      modifies this, buf, sock
      ensures old(sock.taken) <= sock.taken && seen == old(seen) + sock.taken[|old(sock.taken)|..]
      ensures sock.taken + Incoming(sock.script) == old(sock.taken + Incoming(sock.script))
      ensures ok ==> Valid()
      ensures ok && state == Read ==> Receive(seen) == More(phase, parseBlk, View()) && parseIter == To(|seen|)
      ensures ok && state != Read ==> state == Serve && Receive(seen) == Done(View(), payload) && payloadPos == 0
      ensures ok && state != Read ==> parsed == View() && status == HTTP_X_RESP_STATUS_UNSET
      ensures !ok && status != HTTP_X_HANGUP ==> Receive(seen) == Fail(status, View())
      ensures sock.Valid() && old(sock.asked) <= sock.asked
      ensures ok && state == Read ==> sock.last.Again? && old(sock.asked) < sock.asked
      ensures !ok && status == HTTP_X_HANGUP ==> sock.last.Error? || sock.last.Zero?
      ensures !ok && status == HTTP_X_HANGUP ==>
                |seen| < HTTP_BUFSZ && (Receive(seen).More? || (old(parseIter).Null? && seen == old(seen)))
      ensures !ok ==> parseIter == old(parseIter)
      ensures !ok && status == HTTP_X_HANGUP <==> old(HangsUp(sock.script, seen, parseIter.Null?))
      ensures Remaining(sock.script) + |sock.taken| <= old(Remaining(sock.script) + |sock.taken|)
      ensures history == if ok && state != Read then old(history) + [Exchange(seen[..payload], parsed, [])] else old(history)
      ensures old(GoodHistory(history)) ==> GoodHistory(history)
      ensures ok && state != Read ==> AllEndBefore(ptrs, buf[..], payload)
      ensures ok && old(Conserved(sock)) ==> Conserved(sock)
      ensures !ok && old(Conserved(sock)) ==> sock.taken == Consumed(history) + seen
    {
      hide HangsUp, HangsUpLater,
           Parse, Receive, AllEndBefore, ViewOf, Socket.Valid, Remaining, Incoming, View, Live, GoodHistory, Consumed;
      ghost var taken, consumed, pending := sock.taken, Consumed(history), seen;
      var turn := ReceiveHead(sock);
      ReadingKeepsTheBytes(taken, sock.taken, consumed, pending, seen);
      if turn.Complete? {
        RecordHead();
      }
      return !turn.Rejected?;
    }

    /** A request is being served. */
    ghost predicate Serving()
      reads this, buf
    {
      && HasRequest() && state != Read
      && history != [] && GoodHistory(history) && history[|history| - 1].req == parsed
    }

    /** What is handed out of the buffer is the front of what is pending. */
    lemma FrontOfPending(n: nat)
      requires HasRequest() && payloadPos + n <= payloadLen
      ensures payload + payloadLen == |seen| <= buf.Length
      ensures buf[payload + payloadPos..payload + payloadPos + n] + seen[payload + payloadPos + n..] ==
              seen[payload + payloadPos..]
    {
      hide Parse, Intact;
      var from := payload + payloadPos;
      assert buf[from..from + n] == seen[from..from + n];
    }

    /** The bytes that were read too far with the head, as many as wanted (src/api.c:95-101). */
    method DrainBuffered(out: array<byte>, nbytes: nat) returns (written: nat)
      requires HasRequest() && state != Read && nbytes <= out.Length && out != buf
      modifies this`payloadPos, out
      ensures HasRequest() && written <= nbytes
      ensures out[..written] + Pending() == old(Pending())
      ensures written == nbytes || Pending() == []
    {
      hide Parse, Intact;
      var rc := payloadLen - payloadPos;
      written := 0;
      if rc > 0 {
        written := if nbytes > rc then rc else nbytes;
        FrontOfPending(written);
        PutAt(out, 0, buf[payload + payloadPos..payload + payloadPos + written]);
        payloadPos := payloadPos + written;
      }
    }

    /**
     * Both sources of payload bytes: what was read too far with the head comes first, then the socket. `got` ends up in
     * `out`. When the socket breaks (`broke`) the call fails, and the caller is not told of what it got.
     */
    method FetchPayload(sock: Socket, out: array<byte>, nbytes: nat) returns (rc: int, ghost got: seq<byte>, ghost broke: bool)
      requires HasRequest() && state != Read && nbytes <= out.Length && out != buf && sock.Valid()
      modifies this`payloadPos, this`status, sock, out
      ensures HasRequest() && |got| <= nbytes && out[..|got|] == got
      ensures sock.Valid() && old(sock.asked) <= sock.asked && old(sock.taken) <= sock.taken
      ensures got + Pending() == old(Pending()) + sock.taken[|old(sock.taken)|..]
      ensures Pending() != [] ==> sock.taken == old(sock.taken)
      ensures broke ==> rc == -1 && |got| < nbytes && sock.last.Error?
      ensures !broke ==> rc == if got == [] && nbytes > 0 then -1 else |got|
      ensures status == if broke then HTTP_X_HANGUP else old(status)
      ensures Remaining(sock.script) + |Pending()| <= old(Remaining(sock.script) + |Pending()|)
    {
      hide HasRequest, Incoming, Remaining, Socket.Valid;
      var written := DrainBuffered(out, nbytes);
      ghost var drained, left := out[..written], Pending();
      rc, got, broke := ReadDirect(sock, out, written, nbytes - written);
      DrainThenRead(drained, left, sock.taken[|old(sock.taken)|..]);
    }

    /**
     * `kitserv_api_read_payload`, with the bytes it takes entered into the history. A call that fails half-way has taken
     * them as well, although it does not say so.
     */
    method ReadPayload(sock: Socket, out: array<byte>, nbytes: nat) returns (rc: int, ghost got: seq<byte>, ghost broke: bool)
      requires Serving() && nbytes <= out.Length && out != buf && sock.Valid()
      modifies this`payloadPos, this`status, this`history, sock, out
      ensures Serving() && |got| <= nbytes && out[..|got|] == got
      ensures sock.Valid() && old(sock.asked) <= sock.asked && old(sock.taken) <= sock.taken
      ensures got + Pending() == old(Pending()) + sock.taken[|old(sock.taken)|..]
      ensures history == ReadBody(old(history), got)
      ensures Pending() != [] ==> sock.taken == old(sock.taken)
      ensures broke ==> rc == -1 && |got| < nbytes && sock.last.Error?
      ensures !broke ==> rc == if got == [] && nbytes > 0 then -1 else |got|
      ensures status == if broke then HTTP_X_HANGUP else old(status)
      ensures Remaining(sock.script) + |Pending()| <= old(Remaining(sock.script) + |Pending()|)
      ensures old(Conserved(sock)) ==> Conserved(sock)
    {
      hide HasRequest, Consumed, Incoming, Remaining, ReadBody, GoodHistory, Parsed, Sized, Idle, Suspended, Socket.Valid,
           Conserved, Serving, Valid, Pending;
      ServingIsValid();
      ghost var taken, consumed, pending := sock.taken, Consumed(history), Pending();
      ConservedWhileServing(sock);
      rc, got, broke := FetchPayload(sock, out, nbytes);
      ServingGoesOn();
      RecordBody(got);
      ServingIsValid();
      KeepsTheBytes(taken, sock.taken, consumed, pending, got, Pending());
      ConservedWhileServing(sock);
    }

    lemma ServingIsValid()
      requires Serving()
      ensures Valid() && HasRequest() && state != Read && history != [] && GoodHistory(history)
      ensures history[|history| - 1].req == parsed
    {
      hide HasRequest, GoodHistory;
    }

    lemma ServingGoesOn()
      requires HasRequest() && state != Read && history != [] && GoodHistory(history) && history[|history| - 1].req == parsed
      ensures Serving()
    {
      hide HasRequest, GoodHistory;
    }

    lemma ConservedWhileServing(sock: Socket)
      requires Serving()
      ensures Valid() && (Conserved(sock) <==> sock.taken == Consumed(history) + Pending())
    {
      hide HasRequest, GoodHistory, Consumed;
    }

    /** Payload that was handed out enters the history. */
    ghost method RecordBody(got: seq<byte>)
      requires Serving()
      modifies this`history
      ensures Serving() && Pending() == old(Pending())
      ensures history == ReadBody(old(history), got) && Consumed(history) == Consumed(old(history)) + got
    {
      hide HasRequest, Consumed, ReadBody, GoodHistory, Parsed;
      ReadBodyConsumes(history, got);
      history := ReadBody(history, got);
    }

    /** What is copied into the caller's buffer. */
    static method PutAt(out: array<byte>, at: nat, data: seq<byte>)
      requires at + |data| <= out.Length
      modifies out
      ensures out[..at + |data|] == old(out[..at]) + data
      ensures forall k :: 0 <= k < at ==> out[k] == old(out[k])
    {
      forall k | 0 <= k < |data| {
        out[at + k] := data[k];
      }
      assert out[..at] == old(out[..at]);
    }

    /** The loop of kitserv_api_read_payload over the socket (src/api.c:103-125); `got` is what `out` holds at the end. */
    method ReadDirect(sock: Socket, out: array<byte>, written0: nat, left0: nat)
      returns (rc: int, ghost got: seq<byte>, ghost broke: bool)
      requires written0 + left0 <= out.Length && sock.Valid()
      modifies this`status, sock, out
      ensures written0 <= |got| <= written0 + left0 && got == out[..|got|]
      ensures sock.Valid() && old(sock.asked) <= sock.asked && old(sock.taken) <= sock.taken
      ensures got == old(out[..written0]) + sock.taken[|old(sock.taken)|..]
      ensures left0 == 0 ==> sock.taken == old(sock.taken)
      ensures broke ==> rc == -1 && |got| < written0 + left0 && sock.last.Error?
      ensures !broke ==> rc == if got == [] && written0 + left0 > 0 then -1 else |got|
      ensures status == if broke then HTTP_X_HANGUP else old(status)
      ensures Remaining(sock.script) + |sock.taken| <= old(Remaining(sock.script) + |sock.taken|)
    {
      hide Incoming, Remaining, AfterRead, Socket.Valid;
      var written, left := written0, left0;
      got, broke := out[..written], false;
      while left > 0
        invariant written0 <= written && written + left == written0 + left0
        invariant !broke && |got| == written && got == out[..written]
        invariant sock.Valid() && old(sock.asked) <= sock.asked && old(sock.taken) <= sock.taken
        invariant got == old(out[..written0]) + sock.taken[|old(sock.taken)|..]
        invariant status == old(status)
        invariant Remaining(sock.script) + |sock.taken| <= old(Remaining(sock.script) + |sock.taken|)
      {
        var r := sock.Read(left);
        match r {
          case Again =>
            rc := if written > 0 then written else -1;
            return;
          case Error =>
            status, broke := HTTP_X_HANGUP, true;
            rc := -1;
            return;
          case Zero =>
            rc := if written > 0 then written else -1;
            return;
          case Got(data) =>
            PutAt(out, written, data);
            written := written + |data|;
            left := left - |data|;
            got := got + data;
        }
      }
      rc := written;
    }

    // ----- Lookups in the header values -----

    /** `kitserv_http_parse_cookies` in the buffer: only the bytes of the cookie header change. */
    method ParseCookies()
      requires HasRequest() && ptrs.cookies.To?
      modifies this`ptrs, this`cookies, buf
      ensures HasRequest() && ptrs == old(ptrs).(cookies := Null)
      ensures View() == old(View()).(cookies := Absent)
      ensures Cookies.AllRead(cookies, CookiePairs(), buf[..], payload)
      ensures forall k :: payload <= k < buf.Length ==> buf[k] == old(buf[k])
    {
      hide Parse, AllEndBefore, ViewOf, Cookies.ParseCookies, Cookies.AllRead, Find, CStringAt, EndsBefore;
      ghost var before := buf[..];
      var at := ptrs.cookies.off;
      CookiesAreThere(ptrs, before, payload);
      ghost var text := CStringAt(before, at);
      CaptureReads(verb, version, contentLen, ptrs, before);
      StringThere(before, at);
      var ok, cs := Cookies.ParseInPlace(buf, at, text);
      CookiesGivenUp(verb, version, contentLen, ptrs, before, buf[..], payload);
      ptrs := ptrs.(cookies := Null);
      if ok {
        Cookies.LimitGrows(cs, CookiePairs(), buf[..], at + |text| + 1, payload);
        cookies := cs;
      } else {
        Cookies.NothingRead(buf[..], payload);
        cookies := [];
      }
    }

    /**
     * `kitserv_api_get_request_cookie_n`: the value of the first pair with this name, wherever it stands. The first
     * lookup cuts the header to pieces, but no lookup changes what later ones find, any other captured string, or a byte
     * of the payload.
     */
    method GetCookie(key: seq<byte>, keylen: int) returns (value: Option<nat>)
      requires HasRequest() && NUL !in key
      modifies this`ptrs, this`cookies, buf
      ensures HasRequest() && (View() == old(View()) || View() == old(View()).(cookies := Absent))
      ensures forall k :: payload <= k < buf.Length ==> buf[k] == old(buf[k])
      ensures value.Some? <==> keylen == |key| && key != [] && Cookies.Lookup(CookiePairs(), key).Some?
      ensures value.Some? ==>
                value.value < payload <= buf.Length && Cookies.Lookup(CookiePairs(), key) == Some(CStringAt(buf[..], value.value))
      ensures value.Some? <==> keylen == |key| > 0 && exists i :: 0 <= i < |CookiePairs()| && CookiePairs()[i].key == key
      ensures value.Some? ==>
                exists i :: Cookies.FirstNamed(CookiePairs(), key, i) && CookiePairs()[i].value == CStringAt(buf[..], value.value)
    {
      hide HasRequest, View, CookiePairs, CStringAt, Cookies.AllRead, Cookies.Lookup;
      if keylen <= 0 {
        return None;
      }
      if ptrs.cookies.To? {
        ParseCookies();
      }
      CookiesAreRead();
      Cookies.LookupIsFirst(CookiePairs(), key);
      value := FindCookie(key, keylen);
    }

    lemma CookiesAreRead()
      requires HasRequest() && ptrs.cookies.Null?
      ensures Cookies.AllRead(cookies, CookiePairs(), buf[..], payload)
    {
      hide Parse, Cookies.PairsOf, Cookies.AllRead, Find, AllEndBefore, ViewOf;
      CaptureReads(verb, version, contentLen, ptrs, buf[..]);
      if cookies == [] && View() == parsed {
        Cookies.NothingRead(buf[..], payload);
      }
    }

    method FindCookie(key: seq<byte>, keylen: int) returns (value: Option<nat>)
      requires Cookies.AllRead(cookies, CookiePairs(), buf[..], payload) && keylen > 0
      ensures value.Some? <==> keylen == |key| && key != [] && Cookies.Lookup(CookiePairs(), key).Some?
      ensures value.Some? ==>
                value.value < payload <= buf.Length && Cookies.Lookup(CookiePairs(), key) == Some(CStringAt(buf[..], value.value))
    {
      hide CookiePairs, CStringAt, Find;
      var i := 0;
      while i < |cookies|
        invariant 0 <= i <= |cookies|
        invariant keylen == |key| ==> Cookies.Lookup(CookiePairs(), key) == Cookies.Lookup(CookiePairs()[i..], key)
      {
        ghost var pairs := CookiePairs();
        assert Cookies.Reads(cookies[i], pairs[i], buf[..], payload);
        if keylen == cookies[i].keylen && key == CStringAt(buf[..], cookies[i].key) {
          return Some(cookies[i].value);
        }
        assert pairs[i..][1..] == pairs[i + 1..];
        i := i + 1;
      }
      assert CookiePairs()[|cookies|..] == [];
      return None;
    }

    /** `kitserv_http_parse_range` on the captured header; the buffer ends as it began. */
    method GetRange() returns (r: Option<Ranges.Bounds>)
      requires HasRequest()
      modifies buf
      ensures HasRequest() && View() == old(View()) && buf[..] == old(buf[..])
      ensures r == if parsed.range.At? then Ranges.ParseRange(parsed.range.text) else None
    {
      hide Parse, Ranges.ParseRange, Find;
      if ptrs.range.Null? {
        return None;
      }
      ghost var before := buf[..];
      r := Ranges.ParseRangeInPlace(buf, ptrs.range.off);
      assert buf[..] == before;
    }

    /** Moves a request that is being served on to another step; nothing about its bytes changes. */
    method Enter(next: State, newStatus: nat, ghost sock: Socket)
      requires next != Read
      modifies this`state, this`status
      ensures state == next && status == newStatus
      ensures old(Serving()) ==> Serving() && Pending() == old(Pending())
      ensures old(Serving() && Conserved(sock)) ==> Conserved(sock)
    {
      hide HasRequest, GoodHistory;
      state, status := next, newStatus;
    }

    /** `memmove` of `n` bytes from `from` to the start of the buffer. */
    method MoveToFront(from: nat, n: nat)
      requires from + n <= buf.Length
      modifies buf
      ensures forall k :: 0 <= k < n ==> buf[k] == old(buf[from + k])
    {
      forall k | 0 <= k < n {
        buf[k] := buf[from + k];
      }
    }

    /**
     * `kitserv_http_finalize_transaction`: the bytes nobody consumed move to the front of the buffer and become the
     * start of the next request.
     */
    method Finalize()
      requires HasRequest() && state != Read
      modifies this, buf
      ensures Valid() && state == Read && Idle()
      ensures seen == Pending() == old(Pending()) && history == old(history)
      ensures 0 <= old(payloadLen - payloadPos) < HTTP_BUFSZ
    {
      hide Parse, Intact, Find;
      InBoundsOfParse();
      MoveToFront(payload + payloadPos, payloadLen - payloadPos);
      seen := seen[payload + payloadPos..];
      headersLen := payloadLen - payloadPos;
      Cleanup();
    }

    /**
     * Pipelining: the requests of a connection are the iterated pure parse of everything the peer sends, read or
     * still to come, given how much payload each handler read.
     */
    lemma RequestsAreTheIteratedParse(sock: Socket)
      requires Conserved(sock)
      ensures RequestsOf(sock.taken + Incoming(sock.script), Bodies(history)) == Parsed(history)
    {
      hide Parse, Consumed, Incoming, RequestsOf, GoodHistory, Valid;
      var rest := Pending() + Incoming(sock.script);
      assert sock.taken + Incoming(sock.script) == Consumed(history) + rest;
      HistoryIsIteratedParse(history, rest);
    }

    /** While a request is served, what the fields capture is that request, all of it before the payload. */
    lemma CapturesTheRequest()
      requires HasRequest()
      ensures AllEndBefore(ptrs, buf[..], payload)
      ensures verb == parsed.verb && version == parsed.version && contentLen == parsed.contentLen
      ensures View() == parsed || View() == parsed.(cookies := Absent)
      ensures ptrs.cookies.To? ==> View() == parsed
    {
      hide Parse, AllEndBefore, CStringAt;
    }

    lemma NothingToBalance(sock: Socket)
      requires Valid() && state == Read && seen == [] && history == [] && sock.taken == []
      ensures Conserved(sock) && GoodHistory(history)
    {
    }

    lemma InBoundsOfParse()
      requires HasRequest()
      ensures payload > 0
    {
      hide Parse;
      ParseExtends(seen, []);
    }

    /** `cleanup_client`, which zeroes the transaction. */
    method Cleanup()
      modifies this`state, this`phase, this`parseBlk, this`parseIter, this`verb, this`version, this`contentLen,
               this`ptrs, this`payload, this`payloadPos, this`payloadLen, this`status, this`cookies
      ensures state == Read && phase == New && parseBlk == 0 && parseIter == Null
      ensures ptrs == NOTHING && verb == {} && version == Http11 && contentLen == 0
      ensures payload == 0 && payloadPos == 0 && payloadLen == 0 && status == HTTP_X_RESP_STATUS_UNSET
      ensures cookies == []
    {
      state, phase, parseBlk, parseIter := Read, New, 0, Null;
      ptrs, verb, version, contentLen := NOTHING, {}, Http11, 0;
      payload, payloadPos, payloadLen, status, cookies := 0, 0, 0, HTTP_X_RESP_STATUS_UNSET, [];
    }

    /** `kitserv_http_create_client_struct`. */
    constructor ()
      ensures Valid() && Idle() && seen == [] && history == [] && fresh(buf)
      ensures state == Read && buf.Length == HTTP_BUFSZ
    {
      buf := new byte[HTTP_BUFSZ];
      headersLen, seen, parsed, history := 0, [], BLANK, [];
      state, phase, parseBlk, parseIter := Read, New, 0, Null;
      ptrs, verb, version, contentLen := NOTHING, {}, Http11, 0;
      payload, payloadPos, payloadLen, status, cookies := 0, 0, 0, HTTP_X_RESP_STATUS_UNSET, [];
    }

    /** `kitserv_http_reset_client`: fresh for another connection. */
    method Reset()
      requires buf.Length == HTTP_BUFSZ
      modifies this
      ensures Valid() && Idle() && seen == [] && history == []
    {
      headersLen, seen, history := 0, [], [];
      Cleanup();
    }
  }
}
