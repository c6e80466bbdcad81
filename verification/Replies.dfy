/**
 * The responses of a connection as the peer gets them: what each promises, what follows its head, which request it
 * answers, and what its handler made of it.
 */
module Replies {
  import opened Bytes
  import opened Requests
  import opened Headers
  import opened Sending
  import opened Responses
  import opened Handlers
  import Pipeline
  import L = Lifecycle

  /**
   * A response that was sent. `request` is what it answers: the request, or what was parsed of one that was rejected. It
   * began with the status `status0` when the descriptors `before` had been closed and the handlings up to `first` had
   * been used; `runs` are what its handler did, `out` what became of that. `counts` are what the writes took of its three
   * buffers, and `sent` is what went out of its file.
   */
  datatype Reply = Reply(
    parsed: bool, request: Request, before: seq<int>, status0: nat, first: nat, runs: seq<seq<Deed>>, out: Outcome,
    counts: seq<nat>, sent: seq<byte>)

  /** What the handler made of the response. */
  function DraftOf(r: Reply): Draft { ShapeRuns(Begin(r.before, r.status0), r.runs) }

  /** An answer to HEAD. */
  predicate HeadOnly(r: Reply) { r.request.verb == HEAD }

  /** The length the head announces. It does not depend on the method: HEAD announces what GET would. */
  function Length(r: Reply): int { Promised(r.out.fd, r.out.pos, r.out.end, |r.out.body|) }

  /** The announced bytes, as far as the body or the file has them. */
  function Window(r: Reply): seq<byte>
  {
    Available(if r.out.fd == FD_DISABLE then r.out.body else if r.out.fd > 0 then r.out.file else [],
              r.out.pos, if Length(r) >= 0 then Length(r) else 0)
  }

  /** What is announced is there. */
  predicate Sendable(r: Reply) { Length(r) == |Window(r)| }

  /** What is to be sent of the body. */
  function BodyPart(r: Reply): seq<byte>
  {
    if r.out.fd == FD_DISABLE && !HeadOnly(r) && r.out.pos <= |r.out.body| then r.out.body[r.out.pos..] else []
  }

  /** What is to follow the head. */
  function Payload(r: Reply): seq<byte> { BodyPart(r) + r.sent }

  /**
   * The framing promise (section 8.6 of RFC 9110, section 6.3 of RFC 9112): what follows the head is as long as
   * announced exactly when it is there, and then it is that. Nothing follows the head of an answer to HEAD.
   */
  ghost predicate Framed(r: Reply)
  {
    if HeadOnly(r) then Payload(r) == []
    else (Sendable(r) <==> |Payload(r)| == Length(r)) && (Sendable(r) ==> Payload(r) == Window(r))
  }

  /** The response is what becomes of what its handler did, or of a rejection. */
  ghost predicate Made(texts: Texts, r: Reply)
  {
    && r.out == OutcomeOf(DraftOf(r), texts, r.request.path)
    && (if r.parsed then r.status0 == HTTP_X_RESP_STATUS_UNSET else r.runs == [] && StatusIsError(r.status0))
  }

  /** Fields and empty line. */
  function Block(r: Reply): seq<byte> { PrintFields(FieldsOf(DraftOf(r), r.out)) + CRLF }

  /** Start line, fields and empty line. */
  function Head(texts: Texts, r: Reply): seq<byte> { texts.startLine(r.request.version, r.out.status) + Block(r) }

  // ----- What is on the wire -----

  /** The three buffers of a response, before any of it is sent. */
  function Whole(texts: Texts, r: Reply): Transmission
  {
    Transmission([], [texts.startLine(r.request.version, r.out.status), Block(r), BodyPart(r)])
  }

  /** The writes took the buffers piece by piece, until the bookkeeping left nothing pending. */
  ghost predicate Written(texts: Texts, r: Reply)
  {
    Legal(Whole(texts, r), r.counts) && Flatten(Run(Whole(texts, r), r.counts).bufs) == []
  }

  /** What is on the wire of a response. */
  function Wired(texts: Texts, r: Reply): seq<byte>
  {
    (if Legal(Whole(texts, r), r.counts) then Run(Whole(texts, r), r.counts).wire else []) + r.sent
  }

  function OnWire(texts: Texts, rs: seq<Reply>): seq<byte>
  {
    if rs == [] then [] else OnWire(texts, rs[..|rs| - 1]) + Wired(texts, rs[|rs| - 1])
  }

  /** What is meant to be on the wire. */
  function MeantOnWire(texts: Texts, rs: seq<Reply>): seq<byte>
  {
    if rs == [] then []
    else MeantOnWire(texts, rs[..|rs| - 1]) + (Head(texts, rs[|rs| - 1]) + Payload(rs[|rs| - 1]))
  }

  /** Every partial write of the response was one that the bookkeeping gets right. */
  predicate SentSafely(texts: Texts, r: Reply)
  {
    Legal(Whole(texts, r), r.counts) && AllSafe(Whole(texts, r), r.counts)
  }

  lemma OnWireSnoc(texts: Texts, rs: seq<Reply>, r: Reply)
    ensures OnWire(texts, rs + [r]) == OnWire(texts, rs) + Wired(texts, r)
  {
    hide Wired;
    assert (rs + [r])[..|rs|] == rs;
  }

  /** A response arrives as it is meant exactly if every partial write was safe; otherwise some of it is missing. */
  lemma WiredAsMeantIff(texts: Texts, r: Reply)
    requires Written(texts, r)
    ensures Wired(texts, r) == Head(texts, r) + Payload(r) <==> SentSafely(texts, r)
    ensures !SentSafely(texts, r) ==> |Wired(texts, r)| < |Head(texts, r) + Payload(r)|
    ensures |Wired(texts, r)| <= |Head(texts, r) + Payload(r)|
  {
    hide Run, AllSafe, Legal, Flatten, Block, BodyPart;
    var t := Whole(texts, r);
    RunConserves(t, r.counts);
    SentAllIffSafe(t, r.counts);
    FlattenThree(t.bufs[0], t.bufs[1], t.bufs[2]);
    assert t.bufs == [t.bufs[0], t.bufs[1], t.bufs[2]];
    assert [] + Flatten(t.bufs) == Head(texts, r) + BodyPart(r);
    assert Head(texts, r) + Payload(r) == (Head(texts, r) + BodyPart(r)) + r.sent;
  }

  /**
   * The peer gets the responses as they are meant, one after the other, exactly if every partial write of each of them
   * was one that the bookkeeping gets right.
   */
  lemma {:induction false} OnWireAsMeantIff(texts: Texts, rs: seq<Reply>)
    requires forall i :: 0 <= i < |rs| ==> Written(texts, rs[i])
    ensures OnWire(texts, rs) == MeantOnWire(texts, rs) <==> forall i :: 0 <= i < |rs| ==> SentSafely(texts, rs[i])
    ensures |OnWire(texts, rs)| <= |MeantOnWire(texts, rs)|
  {
    hide Wired, Head, Payload, Written, SentSafely;
    if rs != [] {
      var front, r := rs[..|rs| - 1], rs[|rs| - 1];
      assert forall i :: 0 <= i < |front| ==> front[i] == rs[i];
      OnWireAsMeantIff(texts, front);
      WiredAsMeantIff(texts, r);
      assert (forall i :: 0 <= i < |rs| ==> SentSafely(texts, rs[i])) <==>
             (forall i :: 0 <= i < |front| ==> SentSafely(texts, front[i])) && SentSafely(texts, r);
      SumsEqual(OnWire(texts, front), MeantOnWire(texts, front), Wired(texts, r), Head(texts, r) + Payload(r));
    }
  }

  lemma SumsEqual(a: seq<byte>, a': seq<byte>, b: seq<byte>, b': seq<byte>)
    requires |a| <= |a'| && |b| <= |b'|
    ensures a + b == a' + b' <==> a == a' && b == b'
  {
    if a + b == a' + b' {
      assert |a| == |a'|;
      assert a == (a + b)[..|a|] == a';
      assert b == (a + b)[|a|..] == b';
    }
  }

  /** A request with another method, but the same handler, gets the same head: HEAD announces what GET would. */
  lemma HeadAnnouncesTheSame(texts: Texts, r: Reply, r': Reply)
    requires Made(texts, r) && Made(texts, r') && r.parsed == r'.parsed
    requires r'.request == r.request.(verb := r'.request.verb)
    requires r'.before == r.before && r'.status0 == r.status0 && r'.runs == r.runs
    ensures Head(texts, r') == Head(texts, r) && Length(r') == Length(r) && Window(r') == Window(r)
  {
    hide OutcomeOf, FieldsOf, PrintFields, ShapeRuns, Available;
  }

  /** A completed file transfer is framed. */
  lemma FileIsFramed(r: Reply)
    requires r.out.fd > 0 && !HeadOnly(r) && Delivers(r.out.file, r.out.pos, r.out.end, r.sent)
    ensures Framed(r)
  {
    hide Delivers;
    var file, pos, end := r.out.file, r.out.pos, r.out.end;
    FileFraming(file, pos, end, r.sent);
    assert Payload(r) == r.sent;
    AvailableBounds(file, pos, if Length(r) >= 0 then Length(r) else 0);
  }

  /** A body sent from its start offset on is framed, and so is a head without anything behind it. */
  lemma OthersAreFramed(r: Reply)
    requires r.sent == [] && (HeadOnly(r) || r.out.fd < 0 || (r.out.fd == FD_DISABLE && r.out.pos <= |r.out.body|))
    ensures Framed(r)
  {
    assert Payload(r) == BodyPart(r);
  }

  /** The response was sent to its end: of the body what it starts at, of the file its window, as far as it goes. */
  ghost predicate Delivered(r: Reply)
  {
    && (r.out.fd == FD_DISABLE && !HeadOnly(r) ==> r.out.pos <= |r.out.body|)
    && (if r.out.fd > 0 && !HeadOnly(r) then Delivers(r.out.file, r.out.pos, r.out.end, r.sent) else r.sent == [])
  }

  lemma DeliveredIsFramed(r: Reply)
    requires Delivered(r)
    ensures Framed(r)
  {
    hide Framed, Delivers;
    if r.out.fd > 0 && !HeadOnly(r) {
      FileIsFramed(r);
    } else {
      OthersAreFramed(r);
    }
  }

  /** Exactly the answers to HEAD have nothing behind their head; what follows any other is as long as announced. */
  lemma ContentByMethod(r: Reply, token: seq<byte>)
    requires Delivered(r) && MethodOf(token) == Some(r.request.verb)
    ensures token == Ascii("HEAD") ==> Payload(r) == []
    ensures token != Ascii("HEAD") ==>
              (Sendable(r) <==> |Payload(r)| == Length(r)) && (Sendable(r) ==> Payload(r) == Window(r))
    ensures Length(r) == if r.out.fd != 0 then r.out.end - r.out.pos + 1 else |r.out.body| - r.out.pos
  {
    hide MethodOf, Delivered, Payload, Sendable, Ascii, Window;
    MethodsByName(token);
    DeliveredIsFramed(r);
  }

  // ----- Descriptors -----

  /** The response closes its descriptor at its end: one of a file that can be sent to the end of the window. */
  predicate ClosesFile(r: Reply)
  {
    r.out.fd > 0 && !HeadOnly(r) && ReachesTheEnd(|r.out.file|, r.out.pos, r.out.end)
  }

  /** The descriptors closed up to the end of a response. */
  function After(r: Reply): seq<int> { r.out.closed + if ClosesFile(r) then [r.out.fd] else [] }

  /** The descriptors closed before response `i`, and by all responses. */
  function Before(rs: seq<Reply>, i: nat): seq<int>
    requires i <= |rs|
  {
    if i == 0 then [] else After(rs[i - 1])
  }

  function ClosedBy(rs: seq<Reply>): seq<int> { Before(rs, |rs|) }

  /**
   * The fate of the descriptor that a handler left to be sent. From then to the end of its response it is closed once if
   * an error takes its place, unless 507 is closed in its stead; and if it is sent, exactly if the response is not to
   * HEAD and the transfer is not cut short by the end of the file. Otherwise it is never closed.
   */
  lemma DescriptorClosedIff(texts: Texts, r: Reply)
    requires Made(texts, r) && DraftOf(r).fd > 0
    ensures var d := DraftOf(r);
            After(r) == d.closed +
            if Substituted(d) && !d.keepBody then [FdThen(d)]
            else if !HeadOnly(r) && ReachesTheEnd(|d.file|, d.pos, d.end) then [FdThen(d)]
            else []
    ensures FdThen(DraftOf(r)) != DraftOf(r).fd ==> FdThen(DraftOf(r)) == 507
  {
    hide ShapeRuns, NeededRoom;
  }

  /** A file that is sent as it was made: its descriptor is closed once exactly if the transfer reaches its end. */
  lemma SentFileClosedIff(texts: Texts, r: Reply)
    requires Made(texts, r) && DraftOf(r).fd > 0 && !Substituted(DraftOf(r))
    ensures var d := DraftOf(r);
            After(r) == d.closed + [d.fd] <==>
            !HeadOnly(r) && (GoodWindow(|d.file|, d.pos, d.end) || d.pos > d.end + 1)
    ensures var d := DraftOf(r);
            After(r) != d.closed + [d.fd] ==> After(r) == d.closed
  {
    hide ShapeRuns, NeededRoom;
    DescriptorClosedIff(texts, r);
  }

  /** Descriptors that stay open: after HEAD, and when the file ends before the window does. */
  lemma ForgottenDescriptors(texts: Texts, r: Reply)
    requires Made(texts, r) && DraftOf(r).fd > 0 && !Substituted(DraftOf(r))
    ensures HeadOnly(r) ==> After(r) == DraftOf(r).closed
    ensures |DraftOf(r).file| <= DraftOf(r).end && DraftOf(r).pos <= DraftOf(r).end ==> After(r) == DraftOf(r).closed
  {
    hide ShapeRuns, NeededRoom;
    DescriptorClosedIff(texts, r);
  }

  // ----- The record of a connection -----

  function AnswerOf(r: Reply): L.Answer { L.Answer(r.parsed, r.request.version, r.out.status) }

  /** Every completed head is one of the requests, and every finished response is one of the replies. */
  ghost predicate Logged(run: seq<L.Visit>, replies: seq<Reply>, reqs: seq<Request>)
  {
    && |reqs| == |L.Versions(run)| && (forall i :: 0 <= i < |reqs| ==> reqs[i].version == L.Versions(run)[i])
    && |replies| == |L.Answered(run)| && (forall i :: 0 <= i < |replies| ==> AnswerOf(replies[i]) == L.Answered(run)[i])
  }

  /** Every reply is what becomes of what its handler did, and the descriptors are closed one response after the other. */
  ghost predicate AllMade(texts: Texts, replies: seq<Reply>)
  {
    && (forall i :: 0 <= i < |replies| ==> Delivered(replies[i]) && Made(texts, replies[i]) && Written(texts, replies[i]))
    && (forall i :: 0 <= i < |replies| ==> replies[i].before == Before(replies, i))
  }

  /** A reply to a request is at the place of that request. */
  ghost predicate Paired(replies: seq<Reply>, reqs: seq<Request>)
  {
    forall i :: 0 <= i < |replies| && replies[i].parsed ==> i < |reqs| && replies[i].request == reqs[i]
  }

  /** The visits of a run, the replies and the requests belong together. */
  ghost predicate Records(texts: Texts, run: seq<L.Visit>, replies: seq<Reply>, reqs: seq<Request>)
  {
    Logged(run, replies, reqs) && AllMade(texts, replies) && Paired(replies, reqs)
  }

  // ----- Handlers and payload -----

  /** How many handlings had been used before reply `i`, and by all replies. */
  function UsedBefore(rs: seq<Reply>, i: nat): nat
    requires i <= |rs|
  {
    if i == 0 then 0 else rs[i - 1].first + |rs[i - 1].runs|
  }

  function UsedBy(rs: seq<Reply>): nat { UsedBefore(rs, |rs|) }

  /** The handler of the reply did what the plan says; a rejection has none. */
  ghost predicate Served(plan: seq<Handling>, breaks: bool, r: Reply)
  {
    if r.parsed then Followed(plan, Setting(r.request, breaks), r.first, Begin(r.before, r.status0), r.runs, true) else r.runs == []
  }

  /**
   * Run `j` of the handler of the reply did what the plan says. It left the status unset, so that the handler was called
   * again, unless it is the last one, which set a status or in which no handler was involved.
   */
  predicate InTurn(plan: seq<Handling>, breaks: bool, r: Reply, j: nat)
    requires j < |r.runs|
  {
    && DidAll(HandlingAt(plan, r.first + j).calls, r.runs[j], Setting(r.request, breaks))
    && (!HandlingAt(plan, r.first + j).final && ShapeRuns(Begin(r.before, r.status0), r.runs[..j + 1]).status == 0
        <==> j < |r.runs| - 1)
  }

  ghost predicate CalledInTurn(plan: seq<Handling>, breaks: bool, r: Reply)
  {
    r.runs != [] && forall j :: 0 <= j < |r.runs| ==> InTurn(plan, breaks, r, j)
  }

  lemma InTurnMeans(plan: seq<Handling>, breaks: bool, r: Reply, j: nat)
    requires CalledInTurn(plan, breaks, r) && j < |r.runs|
    ensures var h := if r.first + j < |plan| then plan[r.first + j] else Handling([SetStatus(404)], true);
            && |r.runs[j]| == |h.calls|
            && (forall k :: 0 <= k < |h.calls| ==> Did(h.calls[k], r.runs[j][k], Setting(r.request, breaks)))
            && (j < |r.runs| - 1 <==> !h.final && ShapeRuns(Begin(r.before, r.status0), r.runs[..j + 1]).status == 0)
  {
    hide ShapeRuns, Did;
    assert InTurn(plan, breaks, r, j);
  }

  lemma ServedIsFollowed(plan: seq<Handling>, breaks: bool, r: Reply)
    requires r.parsed && Served(plan, breaks, r)
    ensures Followed(plan, Setting(r.request, breaks), r.first, Begin(r.before, r.status0), r.runs, true) && r.runs != []
  {
    hide DidAll, ShapeRuns;
  }

  lemma ServedIsInTurn(plan: seq<Handling>, breaks: bool, r: Reply)
    requires r.parsed && Served(plan, breaks, r)
    ensures CalledInTurn(plan, breaks, r)
  {
    hide DidAll, ShapeRuns, HandlingAt, Followed;
    ServedIsFollowed(plan, breaks, r);
    forall j | 0 <= j < |r.runs|
      ensures InTurn(plan, breaks, r, j)
    {
      CalledAgainIff(plan, Setting(r.request, breaks), r.first, Begin(r.before, r.status0), r.runs, true, j);
    }
  }

  /** Each reply continues the plan where the one before it stopped. */
  ghost predicate AllServed(plan: seq<Handling>, breaks: bool, rs: seq<Reply>)
  {
    && (forall i :: 0 <= i < |rs| ==> Served(plan, breaks, rs[i]))
    && (forall i :: 0 <= i < |rs| ==> rs[i].first == UsedBefore(rs, i))
  }

  /** What the handler of a reply took is the payload that its transaction consumed. */
  ghost predicate AllTook(rs: seq<Reply>, h: seq<Pipeline.Exchange>)
  {
    forall i :: 0 <= i < |rs| && rs[i].parsed ==> i < |h| && h[i].body == TakenIn(rs[i].runs)
  }

  lemma OneMoreServed(plan: seq<Handling>, breaks: bool, rs: seq<Reply>, r: Reply)
    requires AllServed(plan, breaks, rs) && Served(plan, breaks, r) && r.first == UsedBy(rs)
    ensures AllServed(plan, breaks, rs + [r]) && UsedBy(rs + [r]) == UsedBy(rs) + |r.runs|
  {
    hide Served;
    forall i | 0 <= i < |rs| + 1
      ensures (rs + [r])[i].first == UsedBefore(rs + [r], i)
    {
      assert UsedBefore(rs + [r], i) == UsedBefore(rs, i);
    }
  }

  lemma RecordsNothing(texts: Texts)
    ensures Records(texts, [], [], [])
  {
  }

  lemma RecordsVisit(texts: Texts, run: seq<L.Visit>, v: L.Visit, replies: seq<Reply>, reqs: seq<Request>)
    requires Records(texts, run, replies, reqs) && !v.ReadComplete? && !v.FileDone?
    ensures Records(texts, run + [v], replies, reqs)
  {
    hide L.Versions, L.Answered, L.Replay, AllMade, Paired;
    L.CountsSnoc(run, v);
    assert L.Versions(run) + [] == L.Versions(run) && L.Answered(run) + [] == L.Answered(run);
  }

  lemma RecordsHead(texts: Texts, run: seq<L.Visit>, replies: seq<Reply>, reqs: seq<Request>, q: Request)
    requires Records(texts, run, replies, reqs)
    ensures Records(texts, run + [L.ReadComplete(q.version)], replies, reqs + [q])
  {
    hide L.Versions, L.Answered, L.Replay, AllMade;
    L.CountsSnoc(run, L.ReadComplete(q.version));
    assert L.Answered(run) + [] == L.Answered(run);
  }

  lemma RecordsReply(texts: Texts, run: seq<L.Visit>, keep: bool, replies: seq<Reply>, reqs: seq<Request>, r: Reply)
    requires Records(texts, run, replies, reqs) && L.Replay(run) == Some(L.SendingFile(AnswerOf(r)))
    requires Delivered(r) && Made(texts, r) && Written(texts, r) && r.before == ClosedBy(replies)
    requires r.parsed ==> reqs != [] && r.request == reqs[|reqs| - 1]
    ensures Records(texts, run + [L.FileDone(keep)], replies + [r], reqs)
  {
    hide L.Versions, L.Answered, L.Replay, AllMade;
    if r.parsed {
      L.OneIsOpen(run);
    }
    L.CountsSnoc(run, L.FileDone(keep));
    assert L.Versions(run) + [] == L.Versions(run);
    OneMoreMade(texts, replies, r);
  }

  lemma OneMoreMade(texts: Texts, replies: seq<Reply>, r: Reply)
    requires AllMade(texts, replies) && Delivered(r) && Made(texts, r) && Written(texts, r) && r.before == ClosedBy(replies)
    ensures AllMade(texts, replies + [r])
  {
    hide Delivered, Made, Written, After;
    forall i | 0 <= i < |replies| + 1
      ensures (replies + [r])[i].before == Before(replies + [r], i)
    {
      assert Before(replies + [r], i) == Before(replies, i);
    }
  }

  /**
   * The i-th reply of a connection answers its i-th request, under its version, with what its handler made of it. Only
   * the last reply can be without a request; it is the error that rejects what came after the last request. At most one
   * request is not answered yet.
   */
  lemma RepliesAnswerRequests(texts: Texts, run: seq<L.Visit>, replies: seq<Reply>, reqs: seq<Request>, i: nat)
    requires Records(texts, run, replies, reqs) && L.Replay(run).Some? && i < |replies|
    ensures if replies[i].parsed then i < |reqs| && replies[i].request == reqs[i]
            else i == |replies| - 1 == |reqs| && StatusIsError(replies[i].status0)
    ensures Delivered(replies[i]) && Framed(replies[i]) && Made(texts, replies[i]) && Written(texts, replies[i])
    ensures |reqs| <= |replies| + 1
    ensures i < |replies| - 1 ==> !StatusIsError(replies[i].out.status) && replies[i].request.version != Http10
  {
    L.ResponsesFollowRequests(run);
    hide L.Versions, L.Answered, L.Replay, Delivered, Framed, Written, OutcomeOf;
    DeliveredIsFramed(replies[i]);
  }

  /** A rejection is sent under its own status, whatever its text. */
  lemma RejectionKeepsStatus(texts: Texts, r: Reply)
    requires Made(texts, r) && !r.parsed
    ensures r.out.status == r.status0 && DraftOf(r) == Begin(r.before, r.status0)
  {
    hide NeededRoom;
  }
}
