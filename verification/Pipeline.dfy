/** What a connection has consumed, request by request, and why it is the iterated parse of the stream. */
module Pipeline {
  import opened Bytes
  import opened Requests
  import opened Splitter
  import Grammar

  /** One transaction: the bytes of its head, the request they hold, and the payload bytes the handler has read. */
  datatype Exchange = Exchange(head: seq<byte>, req: Request, body: seq<byte>)

  /** Every byte the transactions consumed, in order. */
  function Consumed(h: seq<Exchange>): seq<byte>
  {
    if h == [] then [] else h[0].head + h[0].body + Consumed(h[1..])
  }

  predicate GoodHistory(h: seq<Exchange>)
  {
    forall i :: 0 <= i < |h| ==> Parse(h[i].head) == Done(h[i].req, |h[i].head|)
  }

  /**
   * The requests of a stream when the i-th handler reads `bodies[i]` bytes of payload: parse a head, skip the head and
   * the payload, and start again.
   */
  function RequestsOf(stream: seq<byte>, bodies: seq<nat>): seq<Request>
  {
    if bodies == [] then []
    else
      match Parse(stream)
      case More(_, _, _) => []
      case Fail(_, _) => []
      case Done(q, n) =>
        if n + bodies[0] > |stream| then [q]
        else [q] + RequestsOf(stream[n + bodies[0]..], bodies[1..])
  }

  function Bodies(h: seq<Exchange>): seq<nat> { seq(|h|, i requires 0 <= i < |h| => |h[i].body|) }

  function Parsed(h: seq<Exchange>): seq<Request> { seq(|h|, i requires 0 <= i < |h| => h[i].req) }

  /** Pipelining: whatever came after them, the parsed requests are the iterated pure parse of the whole stream. */
  lemma {:induction false} HistoryIsIteratedParse(h: seq<Exchange>, rest: seq<byte>)
    requires GoodHistory(h)
    ensures RequestsOf(Consumed(h) + rest, Bodies(h)) == Parsed(h)
  {
    hide Parse, RequestsOf, Consumed, Bodies, Parsed;
    FirstOfHistory(h);
    if h == [] {
      NoRequests(Consumed(h) + rest);
    } else {
      var x, later := h[0], h[1..];
      var tail := Consumed(later) + rest;
      HistoryIsIteratedParse(later, rest);
      OneRequest(x, tail, Bodies(later));
      assert Consumed(h) + rest == x.head + (x.body + tail);
    }
  }

  lemma FirstOfHistory(h: seq<Exchange>)
    ensures h == [] ==> Bodies(h) == [] && Parsed(h) == []
    ensures h != [] ==>
              && Consumed(h) == h[0].head + h[0].body + Consumed(h[1..])
              && Bodies(h) == [|h[0].body|] + Bodies(h[1..]) && Parsed(h) == [h[0].req] + Parsed(h[1..])
  {
    hide Bodies, Parsed;
    if h == [] {
      NoBodies();
    } else {
      FirstBody(h);
      FirstParsed(h);
    }
  }

  lemma NoBodies()
    ensures Bodies([]) == [] && Parsed([]) == []
  {
  }

  lemma FirstBody(h: seq<Exchange>)
    requires h != []
    ensures Bodies(h) == [|h[0].body|] + Bodies(h[1..])
  {
    assert forall i :: 0 <= i < |h| - 1 ==> h[1..][i] == h[i + 1];
  }

  lemma FirstParsed(h: seq<Exchange>)
    requires h != []
    ensures Parsed(h) == [h[0].req] + Parsed(h[1..])
  {
    assert forall i :: 0 <= i < |h| - 1 ==> h[1..][i] == h[i + 1];
  }

  lemma NoRequests(stream: seq<byte>)
    ensures RequestsOf(stream, []) == []
  {
  }

  /** The stream of one transaction and what follows it. */
  lemma OneRequest(x: Exchange, tail: seq<byte>, bodies: seq<nat>)
    requires Parse(x.head) == Done(x.req, |x.head|)
    ensures RequestsOf(x.head + (x.body + tail), [|x.body|] + bodies) == [x.req] + RequestsOf(tail, bodies)
  {
    hide Parse;
    var stream := x.head + (x.body + tail);
    assert stream[..|x.head|] == x.head;
    DoneIsStable(stream, |x.head|);
    assert stream[|x.head| + |x.body|..] == tail;
    assert ([|x.body|] + bodies)[1..] == bodies;
  }

  /** Head and payload of the i-th transaction follow what those before it consumed. */
  lemma {:induction false} ExchangeAt(h: seq<Exchange>, i: nat)
    requires i < |h|
    ensures Consumed(h[..i]) + h[i].head + h[i].body <= Consumed(h)
  {
    if i > 0 {
      ExchangeAt(h[1..], i - 1);
      var x := h[0].head + h[0].body;
      assert h[..i][1..] == h[1..][..i - 1] && h[..i][0] == h[0];
      assert Consumed(h[..i]) + h[i].head + h[i].body == x + (Consumed(h[1..][..i - 1]) + h[i].head + h[i].body);
    } else {
      assert h[..i] == [] && [] + h[0].head + h[0].body == h[0].head + h[0].body;
    }
  }

  lemma {:induction false} ConsumedSnoc(h: seq<Exchange>, x: Exchange)
    ensures Consumed(h + [x]) == Consumed(h) + x.head + x.body
  {
    if h == [] {
      assert [x][1..] == [];
    } else {
      assert (h + [x])[0] == h[0] && (h + [x])[1..] == h[1..] + [x];
      ConsumedSnoc(h[1..], x);
    }
  }

  /** Appending `more` to the payload of the last transaction. */
  function ReadBody(h: seq<Exchange>, more: seq<byte>): seq<Exchange>
    requires h != []
  {
    var x := h[|h| - 1];
    h[..|h| - 1] + [x.(body := x.body + more)]
  }

  lemma ReadBodyConsumes(h: seq<Exchange>, more: seq<byte>)
    requires h != [] && GoodHistory(h)
    ensures Consumed(ReadBody(h, more)) == Consumed(h) + more
    ensures GoodHistory(ReadBody(h, more)) && Parsed(ReadBody(h, more)) == Parsed(h)
    ensures |ReadBody(h, more)| == |h| && ReadBody(h, more)[|h| - 1].req == h[|h| - 1].req
    ensures ReadBody(h, more)[|h| - 1].body == h[|h| - 1].body + more && ReadBody(h, more)[..|h| - 1] == h[..|h| - 1]
  {
    hide Consumed, Parse;
    var init, x := h[..|h| - 1], h[|h| - 1];
    assert h == init + [x];
    ConsumedSnoc(init, x);
    ConsumedSnoc(init, x.(body := x.body + more));
    assert Consumed(init) + x.head + (x.body + more) == Consumed(init) + x.head + x.body + more;
  }

  /** A head found at the front of a longer stream is a head on its own: nothing after it was needed to find it. */
  lemma HeadStandsAlone(b: seq<byte>, q: Request, n: nat)
    requires Parse(b) == Done(q, n)
    ensures 0 < n <= |b| && Parse(b[..n]) == Done(q, n)
  {
    hide Parse, Grammar.Holds, Grammar.Print;
    ParseExtends(b, []);
    Grammar.AcceptsExactlyTheGrammar(b, q, n);
    var h :| Grammar.Holds(h, q) && Grammar.Print(h) <= b && |Grammar.Print(h)| == n;
    assert Grammar.Print(h) == b[..n];
    Grammar.HeadAccepted(h, q, b[..n]);
  }
}
