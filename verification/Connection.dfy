/**
 * One connection as a worker serves it: kitserv_http_serve_client (src/http.c:1429-1497) over the real steps, with the
 * socket, the handlers and the files decided by an adversary.
 */
module Connections {
  import opened Bytes
  import opened Requests
  import opened Headers
  import opened Numbers
  import opened Sockets
  import opened Pipeline
  import opened Clients
  import opened Sending
  import opened Responses
  import opened Handlers
  import opened Replies
  import L = Lifecycle

  datatype Flow = GoOn | Alive | Gone

  class Connection {
    const client: Client
    const resp: Response
    const sock: Socket
    const wire: Wire
    const texts: Texts
    var handlings: seq<Handling>

    /** The visits so far and the responses sent so far. */
    ghost var run: seq<L.Visit>
    ghost var replies: seq<Reply>

    /** What handlers will do, run by run, for whatever is asked. */
    ghost const plan: seq<Handling>

    /** What the handler of the current request has done, run by run. */
    ghost var runs: seq<seq<Deed>>

    // The response being sent: what it is to the peer, the counts written so far, and what was on the wire when its file
    // began.
    ghost var reply: Reply
    ghost var counts: seq<nat>
    ghost var fileMark: seq<byte>

    ghost predicate Base()
      reads resp, resp.block, resp.block.buf
    {
      && client.buf.Length == HTTP_BUFSZ && client.buf != resp.block.buf
      && resp.Valid()
      && (forall p, s :: |texts.errorBody(p, s)| <= INT64_MAX)
    }

    /** The reply rejects what was read after the last request, under the parser's status. */
    ghost predicate Rejects(r: Reply)
      reads client`seen
    {
      Splitter.Receive(client.seen) == Splitter.Fail(r.status0, r.request)
    }

    /** The socket can break. */
    ghost function MayBreak(): bool { Breaks in sock.input }

    /** What the handler of the current request works on. */
    ghost function Now(): Setting
      reads client`parsed
    {
      Setting(client.parsed, MayBreak())
    }

    /** How many handlings were used so far. */
    ghost function Used(): nat
      reads this`replies, this`runs
    {
      UsedBy(replies) + |runs|
    }

    /** Every reply has the handlings that the plan has for it, and the payload that its handler took. */
    ghost predicate Planned()
      reads this`handlings, this`replies, this`runs, client`history
    {
      && handlings == Rest(plan, Used()) && AllServed(plan, MayBreak(), replies) && AllTook(replies, client.history)
    }

    /** The visits, the replies and the requests read from the peer belong together. */
    ghost predicate Recorded(parsed: bool)
      reads this`run, this`replies, this`handlings, this`runs, client`history, client`seen
    {
      && Records(texts, run, replies, Pipeline.Parsed(client.history))
      && (replies != [] && !replies[|replies| - 1].parsed ==> !parsed && Rejects(replies[|replies| - 1]))
      && Planned()
    }

    /** Where the run has led. */
    ghost predicate At(s: L.Stage)
      reads this`run
    {
      L.Replay(run) == Some(s)
    }

    /** Nothing is being sent: all that was sent are the replies. */
    ghost predicate Quiet()
      reads this`replies, resp.block`ended, wire`sent
    {
      !resp.block.ended && wire.sent == OnWire(texts, replies)
    }

    /** The answer that the current request is to get. */
    ghost function Ans(parsed: bool): L.Answer
      reads client`version, client`status
    {
      L.Answer(parsed, client.version, client.status)
    }

    /** A request is being answered, or what was read is being rejected under the parser's status. */
    ghost predicate Parsed(parsed: bool)
      reads client, client.buf
    {
      if parsed then client.Serving()
      else
        && StatusIsError(client.status) && GoodHistory(client.history)
        && Splitter.Receive(client.seen) == Splitter.Fail(client.status, client.View())
    }

    /** The request that is answered, or what was parsed of it. */
    ghost function Asked(parsed: bool): Request
      reads client, client.buf
    {
      if parsed then client.parsed else client.View()
    }

    /** The response as the handler of the current request has made it, since the descriptors of all earlier ones. */
    ghost function Drafting(parsed: bool): Draft
      reads this`replies, this`runs, client`status
    {
      ShapeRuns(Begin(ClosedBy(replies), if parsed then HTTP_X_RESP_STATUS_UNSET else client.status), runs)
    }

    ghost predicate Shaped(parsed: bool)
      reads this`replies, this`runs, client`status, resp, resp.block`fields
    {
      resp.Drafted(client.status) == Drafting(parsed)
    }

    /**
     * The handler of the current request has done what the plan has for it, and has taken the payload; `over` says that
     * the request has moved on. A rejection has no handler.
     */
    ghost predicate Attended(parsed: bool, over: bool)
      reads this`replies, this`runs, client`history, client`parsed
    {
      if parsed then
        && |client.history| == |replies| + 1 && client.history[|replies|].body == TakenIn(runs)
        && Followed(plan, Now(), UsedBy(replies), Begin(ClosedBy(replies), HTTP_X_RESP_STATUS_UNSET), runs, over)
      else runs == []
    }

    ghost predicate InRead()
      reads this`run, this`replies, this`runs, client, client.buf, resp, resp.block, resp.block.buf, wire
    {
      && Base() && client.state == Read && client.Valid() && GoodHistory(client.history)
      && resp.Blank() && resp.closed == ClosedBy(replies) && Quiet() && At(L.Reading) && runs == []
    }

    /** While a request is served. */
    ghost predicate Handled()
      reads this`run, this`replies, client, client.buf, resp, resp.block, resp.block.buf, wire
    {
      && Base() && client.state == Serve && Parsed(true) && Quiet() && At(L.Serving(client.version))
      && |client.history| == |replies| + 1
    }

    ghost predicate InServe()
      reads this`run, this`replies, this`runs, client, client.buf, resp, resp.block, resp.block.buf, wire
    {
      Handled() && client.status == HTTP_X_RESP_STATUS_UNSET && Shaped(true) && Attended(true, false)
    }

    ghost predicate InPrepare(parsed: bool)
      reads this`run, this`replies, this`runs, client, client.buf, resp, resp.block, resp.block.buf, wire
    {
      && Base() && client.state == PrepareResponse && Parsed(parsed) && Quiet() && At(L.Preparing(Ans(parsed)))
      && Shaped(parsed) && Attended(parsed, true)
    }

    /** The response is to the current request, and what becomes of what its handler did. */
    ghost predicate About(parsed: bool)
      reads this`reply, this`replies, this`runs, client, client.buf
    {
      && reply.parsed == parsed && reply.request == Asked(parsed) && (!parsed ==> reply.status0 == client.status)
      && client.verb == reply.request.verb && client.version == reply.request.version
      && client.status == reply.out.status && reply.before == ClosedBy(replies) && Made(texts, reply)
      && reply.first == UsedBy(replies) && reply.runs == runs
    }

    /** The response holds what it is to send. */
    ghost predicate Held()
      reads this`reply, resp`body, resp`fd, resp`file, resp`end, resp`closed
    {
      && resp.body == reply.out.body && resp.fd == reply.out.fd && resp.file == reply.out.file
      && resp.end == reply.out.end && resp.closed == reply.out.closed
    }

    /** The counts written so far account for what is on the wire and for what is pending. */
    ghost predicate Sent()
      reads this`replies, this`reply, this`counts, resp.vecs, wire`sent
    {
      && GoodVecs(resp.vecs) && Legal(Whole(texts, reply), counts)
      && Slices(resp.vecs) == Run(Whole(texts, reply), counts).bufs
      && wire.sent == OnWire(texts, replies) + Run(Whole(texts, reply), counts).wire
    }

    /** A body range that starts behind the body can never be sent (src/http.c:1283-1290, 1320-1326). */
    ghost predicate Stuck()
      reads this`reply
    {
      reply.out.fd == FD_DISABLE && !HeadOnly(reply) && reply.out.pos > |reply.out.body|
    }

    /** A part of the response was sent; of one that is stuck, none. */
    ghost predicate Underway()
      reads this`replies, this`reply, this`counts, resp.vecs, wire`sent
    {
      if Stuck() then TooLong(resp.vecs) && wire.sent == OnWire(texts, replies) else Sent()
    }

    /** All buffers of the response are done, and `fileMark` is where its file begins. */
    ghost predicate HeadSent()
      reads this`replies, this`reply, this`counts, this`fileMark
    {
      && !Stuck() && Legal(Whole(texts, reply), counts) && Flatten(Run(Whole(texts, reply), counts).bufs) == []
      && fileMark == OnWire(texts, replies) + Run(Whole(texts, reply), counts).wire
    }

    ghost predicate InSend(parsed: bool)
      reads this, client, client.buf, resp, resp.block, resp.block.buf, resp.vecs, wire
    {
      && Base() && client.state == Send && Parsed(parsed) && At(L.Sending(Ans(parsed)))
      && About(parsed) && Attended(parsed, true) && Held() && resp.pos == reply.out.pos && Underway()
    }

    /** The file has been sent up to the position reached. */
    ghost predicate FileSent()
      reads this`fileMark, this`reply, resp, wire
    {
      if resp.fd > 0 && !HeadOnly(reply) then resp.Transferred(resp.file, reply.out.pos, fileMark, wire)
      else wire.sent == fileMark
    }

    ghost predicate InFile(parsed: bool)
      reads this, client, client.buf, resp, resp.block, resp.block.buf, wire
    {
      && Base() && client.state == State.SendFile && Parsed(parsed) && At(L.SendingFile(Ans(parsed)))
      && About(parsed) && Attended(parsed, true) && Held() && HeadSent() && FileSent()
    }

    ghost predicate InFinish()
      reads this, client, client.buf, resp, resp.block, resp.block.buf, wire
    {
      && Base() && client.state == State.Finished && Parsed(true) && At(L.Finishing)
      && wire.sent == OnWire(texts, replies) && resp.closed == ClosedBy(replies) && runs == []
    }

    ghost predicate Inv(parsed: bool)
      reads this, client, client.buf, resp, resp.block, resp.block.buf, resp.vecs, wire
    {
      match client.state
      case Read => InRead() && parsed
      case Serve => InServe() && parsed
      case PrepareResponse => InPrepare(parsed)
      case Send => InSend(parsed)
      case SendFile => InFile(parsed)
      case Finished => InFinish() && parsed
    }

    /**
     * The peer is gone: the socket said so when it was asked for more of a request that is not decided, or of which
     * nothing was parsed yet.
     */
    ghost predicate HungUp()
      reads client, sock
    {
      && client.status == HTTP_X_HANGUP && (sock.last.Error? || sock.last.Zero?)
      && |client.seen| < HTTP_BUFSZ && (Splitter.Receive(client.seen).More? || client.parseIter.Null?)
    }

    /**
     * How a connection ends: the peer hung up, a response could not be prepared, the transfer of a file broke, or the
     * last response was sent. What is on the wire are the replies, and in the one case the part of the response that was
     * sent; the descriptors closed are those that the replies account for. A transfer that broke has closed none beyond
     * what its preparation did, and neither has a preparation that failed, beyond what the error would have replaced.
     */
    ghost predicate Over(parsed: bool, memory: bool)
      reads this, client, client.buf, resp, wire, sock
    {
      && At(L.Closed) && run != []
      && match run[|run| - 1]
         case ReadRejected(_, _) =>
           HungUp() && wire.sent == OnWire(texts, replies) && resp.closed == ClosedBy(replies)
         case PrepareFailed =>
           && Attended(parsed, true) && !CanPrepare(Drafting(parsed), texts, Asked(parsed).path, memory)
           && wire.sent == OnWire(texts, replies)
           && (resp.closed == Drafting(parsed).closed || resp.closed == ClosedThen(Drafting(parsed)))
         case FileBroken =>
           && About(parsed) && Attended(parsed, true) && Held() && HeadSent() && FileSent() && wire.last.Error?
         case FileDone(keep) =>
           !keep && wire.sent == OnWire(texts, replies) && resp.closed == ClosedBy(replies)
         case _ => false
    }

    /** Every byte read from the socket was consumed in order or is pending, and the rest is still to come. */
    ghost predicate Balanced(parsed: bool)
      reads client, client.buf, sock
    {
      && sock.Valid()
      && if parsed then client.Conserved(sock)
         else GoodHistory(client.history) && sock.taken == Consumed(client.history) + client.seen
    }

    /** Bytes and events to come and bytes read but not consumed: what bounds the reading that is still possible. */
    ghost function Measure(parsed: bool): nat
      reads client, client.buf, sock
    {
      if parsed && client.Valid() then Remaining(sock.script) + |client.Pending()| else 0
    }

    /** A freshly accepted connection, on the client and the response of an unused slot. */
    constructor (client: Client, resp: Response, input: seq<ReadEvent>, output: seq<WriteEvent>, handlings: seq<Handling>,
                 texts: Texts)
      requires client.Valid() && client.state == Read && client.seen == [] && client.history == []
      requires client.buf.Length == HTTP_BUFSZ && client.buf != resp.block.buf && resp.Blank()
      requires forall p, s :: |texts.errorBody(p, s)| <= INT64_MAX
      modifies resp`closed
      ensures this.client == client && this.resp == resp && this.texts == texts && fresh(sock) && fresh(wire)
      ensures Inv(true) && Balanced(true) && Recorded(true) && client.state == Read
      ensures sock.input == input && wire.script == output && plan == handlings && run == [] && replies == []
    {
      hide Inv, Balanced, Recorded, Client.Valid, Client.Idle, Client.Sized, Socket.Valid, HeaderBlock.Valid;
      this.client, this.resp, this.texts, this.handlings, plan := client, resp, texts, handlings, handlings;
      sock := new Socket(input);
      wire := new Wire(output);
      run, replies, runs, counts, fileMark := [], [], [], [], [];
      reply := Reply(false, BLANK, [], 0, 0, [], Outcome(0, AsAdded, [], 0, [], 0, 0, []), [], []);
      new;
      resp.closed := [];
      StartsInOrder();
    }

    lemma StartsInOrder()
      requires client.Valid() && client.state == Read && client.seen == [] && client.history == [] && sock.Valid() && sock.taken == []
      requires client.buf.Length == HTTP_BUFSZ && client.buf != resp.block.buf && resp.Blank() && resp.closed == []
      requires forall p, s :: |texts.errorBody(p, s)| <= INT64_MAX
      requires wire.sent == [] && run == [] && replies == [] && runs == [] && handlings == plan
      ensures Inv(true) && Balanced(true) && Recorded(true)
    {
      hide InServe, InPrepare, InSend, InFile, InFinish, Records, Client.Valid, Client.Conserved, HeaderBlock.Valid, GoodHistory,
           Socket.Valid, Rejects;
      client.NothingToBalance(sock);
      RecordsNothing(texts);
      assert Pipeline.Parsed(client.history) == [];
    }

    /**
     * The i-th reply answers the i-th request of the iterated parse of everything the peer sends, with what becomes of
     * what the plan has for it; its handler took the payload behind the head of that request. A reply without a request
     * is the last, and rejects what follows the requests in that stream under the status the parser gives it.
     */
    lemma RepliesInOrder(parsed: bool, i: nat)
      requires Recorded(parsed) && L.Replay(run).Some? && Balanced(parsed) && i < |replies|
      ensures Delivered(replies[i]) && Framed(replies[i]) && Made(texts, replies[i]) && Written(texts, replies[i])
      ensures i < |replies| - 1 ==> replies[i].out.status < 400 && replies[i].request.version == Http11
      ensures var stream, h := Incoming(sock.input), client.history;
              var reqs := RequestsOf(stream, Bodies(h));
              && Consumed(h) <= stream
              && if replies[i].parsed then
                   && i < |reqs| && replies[i].request == reqs[i] && i < |h|
                   && Consumed(h[..i]) + h[i].head + TakenIn(replies[i].runs) <= Consumed(h)
                 else
                   && i == |replies| - 1 == |reqs|
                   && Splitter.Receive(stream[|Consumed(h)|..]) == Splitter.Fail(replies[i].status0, replies[i].request)
                   && replies[i].out.status == replies[i].status0
    {
      hide Splitter.Parse, Splitter.Receive, Consumed, Incoming, RequestsOf, Logged, Delivered, Framed, Made, Written, L.Replay,
           Client.HasRequest, NothingNew, Before, UsedBefore, Served, Followed;
      RepliesAnswerRequests(texts, run, replies, Pipeline.Parsed(client.history), i);
      var rest := if parsed then client.Pending() else client.seen;
      var stream := sock.taken + Incoming(sock.script);
      assert stream == Consumed(client.history) + (rest + Incoming(sock.script));
      HistoryIsIteratedParse(client.history, rest + Incoming(sock.script));
      if replies[i].parsed {
        ExchangeAt(client.history, i);
      } else {
        assert stream[|Consumed(client.history)|..] == client.seen + Incoming(sock.script);
        Splitter.FailStaysFail(client.seen, Incoming(sock.script));
        RejectionKeepsStatus(texts, replies[i]);
      }
    }

    /**
     * Each reply has the runs that the plan has for it, from where the reply before it stopped, and closes descriptors
     * after that one.
     */
    lemma RepliesFollowThePlan(parsed: bool, i: nat)
      requires Recorded(parsed) && i < |replies|
      ensures if replies[i].parsed then CalledInTurn(plan, MayBreak(), replies[i]) else replies[i].runs == []
      ensures replies[i].parsed ==> replies[i].runs != []
      ensures replies[i].first == (if i == 0 then 0 else replies[i - 1].first + |replies[i - 1].runs|)
      ensures replies[i].before == (if i == 0 then [] else After(replies[i - 1]))
    {
      hide Logged, Paired, AllTook, InTurn, Served, Delivered, Made, Written, After, Rest;
      ServedAt(i);
    }

    lemma ServedAt(i: nat)
      requires AllServed(plan, MayBreak(), replies) && i < |replies|
      ensures if replies[i].parsed then CalledInTurn(plan, MayBreak(), replies[i]) else replies[i].runs == []
    {
      hide CalledInTurn, Followed;
      assert Served(plan, MayBreak(), replies[i]);
      if replies[i].parsed {
        ServedIsInTurn(plan, MayBreak(), replies[i]);
      }
    }

    /**
     * The runs of a reply, one by one: run `j` is of the handling that many behind the reply's first one, and makes its
     * calls; it is followed by another exactly if it is not final and has left the status unset.
     */
    lemma WhatHandlersDid(parsed: bool, i: nat, j: nat)
      requires Recorded(parsed) && i < |replies| && replies[i].parsed && j < |replies[i].runs|
      ensures var r, s := replies[i], Setting(replies[i].request, Breaks in sock.input);
              var h := if r.first + j < |plan| then plan[r.first + j] else Handling([SetStatus(404)], true);
              && |r.runs[j]| == |h.calls| && (forall k :: 0 <= k < |h.calls| ==> Did(h.calls[k], r.runs[j][k], s))
              && (j < |r.runs| - 1 <==>
                  !h.final && ShapeRuns(Begin(r.before, r.status0), r.runs[..j + 1]).status == 0)
    {
      hide Records, AllTook, AllServed, CalledInTurn, ShapeRuns, Did, Rest;
      ServedAt(i);
      InTurnMeans(plan, MayBreak(), replies[i], j);
    }

    /** What is left for the handlers is the plan behind the runs of all replies and of the current request. */
    lemma HandlingsLeft(parsed: bool)
      requires Recorded(parsed)
      ensures var used := |runs| + if replies == [] then 0 else replies[|replies| - 1].first + |replies[|replies| - 1].runs|;
              handlings == if used < |plan| then plan[used..] else []
    {
      hide Records, AllServed, AllTook;
    }

    /** And all of that arrives as it is meant exactly if every partial write was one that the bookkeeping gets right. */
    lemma RepliesArriveIff(parsed: bool)
      requires Recorded(parsed)
      ensures OnWire(texts, replies) == MeantOnWire(texts, replies) <==>
              forall i :: 0 <= i < |replies| ==> SentSafely(texts, replies[i])
    {
      hide Logged, Paired, OnWire, MeantOnWire, Planned, Delivered, Made, Written;
      OnWireAsMeantIff(texts, replies);
    }

    // ----- Steps -----

    /** A visit that neither completes a head nor a response. */
    ghost method Visit(parsed: bool, v: L.Visit)
      requires L.Replay(run).Some? && L.Step(L.Replay(run).value, v).Some? && Recorded(parsed)
      requires !v.ReadComplete? && !v.FileDone?
      modifies this`run
      ensures run == old(run) + [v] && L.Replay(run) == L.Step(L.Replay(old(run)).value, v) && Recorded(parsed)
    {
      hide Records, L.Replay, L.Step, Rejects, Planned;
      L.ReplaySnoc(run, v);
      RecordsVisit(texts, run, v, replies, Pipeline.Parsed(client.history));
      run := run + [v];
    }

    /** On to another step; the bytes of the request, the response and the record of replies are left alone. */
    method Advance(parsed: bool, next: State, status: nat)
      requires next != Read && client.state != Read && (!parsed ==> status == client.status)
      requires Parsed(parsed) && Balanced(parsed)
      modifies client`state, client`status
      ensures client.state == next && client.status == status
      ensures Parsed(parsed) && Balanced(parsed)
      ensures Measure(parsed) == old(Measure(parsed)) && Asked(parsed) == old(Asked(parsed))
    {
      hide Socket.Valid, Client.HasRequest, GoodHistory, Remaining, Consumed, Splitter.Receive;
      client.Enter(next, status, sock);
    }

    // ----- HTTP_STATE_READ -----

    /** The head that was just completed, as transaction `x`, enters the record. */
    ghost method VisitHead(before: seq<Exchange>, x: Exchange)
      requires L.Replay(run) == Some(L.Reading) && Records(texts, run, replies, Pipeline.Parsed(before)) && runs == []
      requires replies != [] ==> replies[|replies| - 1].parsed
      requires handlings == Rest(plan, Used()) && AllServed(plan, MayBreak(), replies) && AllTook(replies, before)
      requires client.history == before + [x] && x.req == client.parsed && x.body == []
      requires client.version == client.parsed.version
      modifies this`run
      ensures run == old(run) + [L.ReadComplete(client.version)] && At(L.Serving(client.version)) && Recorded(true)
      ensures Attended(true, false)
    {
      hide L.Replay, AllServed, AllMade, Paired, L.Versions, L.Answered, Followed;
      L.ReplaySnoc(run, L.ReadComplete(client.version));
      RecordsHead(texts, run, replies, Pipeline.Parsed(before), client.parsed);
      run := run + [L.ReadComplete(client.version)];
      assert Pipeline.Parsed(client.history) == Pipeline.Parsed(before) + [client.parsed];
      L.OneIsOpen(run);
      NothingFollowed(plan, Now(), UsedBy(replies), Begin(ClosedBy(replies), HTTP_X_RESP_STATUS_UNSET));
    }

    /** `kitserv_http_recv_request` and what it means for the connection. */
    method Receive() returns (ok: bool)
      requires InRead() && Balanced(true)
      modifies client, client.buf, sock
      ensures Base() && Quiet() && resp.Blank() && Balanced(ok) && GoodHistory(client.history)
      ensures !ok && client.status == HTTP_X_HANGUP <==>
              old(HangsUp(sock.script, client.seen, client.parseIter.Null?))
      ensures !ok && client.status == HTTP_X_HANGUP ==> HungUp()
      ensures old(sock.asked) <= sock.asked
      ensures ok && client.state == Read ==>
                client.Valid() && client.history == old(client.history) && sock.last.Again? && old(sock.asked) < sock.asked
      ensures ok && client.state != Read ==>
                && client.state == Serve && Parsed(true) && client.status == HTTP_X_RESP_STATUS_UNSET
                && (exists head :: client.history == old(client.history) + [Exchange(head, client.parsed, [])])
                && client.version == client.parsed.version && Measure(true) < old(Measure(true))
      ensures !ok ==>
                && client.history == old(client.history)
                && (client.status == HTTP_X_HANGUP || (Parsed(false) && StatusIsError(client.status)))
    {
      hide Socket.Valid, Remaining, Incoming, Splitter.Parse, Splitter.Receive, GoodHistory, Consumed, HangsUp,
           Client.Intact, OnWire, Client.Live, HeaderBlock.Valid, AllEndBefore, Client.View, ClosedBy, L.Replay;
      ok := client.RecvRequest(sock);
      if !ok {
        Splitter.RejectionsAreErrors(client.seen);
      } else if client.state != Read {
        client.InBoundsOfParse();
        client.CapturesTheRequest();
      }
    }

    /** Before the first call of a handler, and for a rejection, the response is blank. */
    lemma BlankIsShaped(parsed: bool)
      requires resp.Blank() && resp.closed == ClosedBy(replies) && runs == []
      requires parsed ==> client.status == HTTP_X_RESP_STATUS_UNSET
      ensures Shaped(parsed)
    {
      hide HeaderBlock.Valid;
    }

    /** A rejected request is answered with its error (src/http.c:1448, 1465). */
    method Reject()
      requires Parsed(false) && Balanced(false)
      modifies client`state
      ensures client.state == PrepareResponse && Parsed(false) && Balanced(false)
    {
      hide Socket.Valid, GoodHistory, Consumed, Splitter.Receive;
      client.state := PrepareResponse;
    }

    method DoRead() returns (flow: Flow, parsed: bool)
      requires InRead() && Balanced(true) && Recorded(true)
      modifies this`run, client, client.buf, sock
      ensures Balanced(parsed) && Recorded(parsed)
      ensures if flow.Gone? then forall memory :: Over(parsed, memory) else Inv(parsed)
      ensures flow.Alive? ==> client.state == Read && parsed && sock.last.Again? && old(sock.asked) < sock.asked
      ensures flow.GoOn? ==> if parsed then client.state == Serve && Measure(true) < old(Measure(true))
                             else client.state == PrepareResponse
      ensures flow.Gone? <==> old(HangsUp(sock.script, client.seen, client.parseIter.Null?))
      ensures old(run) < run && old(sock.asked) <= sock.asked
    {
      hide InSend, InFile, InFinish,
           L.Replay, Consumed, Records, Base, Client.Valid, Client.HasRequest, GoodHistory, Remaining, Shaped,
           Response.Blank, Client.Conserved, HangsUp, OnWire, ClosedBy, Splitter.Receive, Client.View, Balanced, Measure,
           Rejects, Parsed, AllServed, AllTook, HungUp, Followed;
      ghost var before := client.history;
      var ok := Receive();
      if ok && client.state == Read {
        Visit(true, L.ReadBlocked);
        return Alive, true;
      }
      if ok {
        ghost var head :| client.history == before + [Exchange(head, client.parsed, [])];
        VisitHead(before, Exchange(head, client.parsed, []));
        BlankIsShaped(true);
        return GoOn, true;
      }
      if client.status == HTTP_X_HANGUP {
        Visit(false, L.ReadRejected(client.version, HTTP_X_HANGUP));
        return Gone, false;
      }
      Visit(false, L.ReadRejected(client.version, client.status));
      Reject();
      BlankIsShaped(false);
      return GoOn, false;
    }

    // ----- HTTP_STATE_SERVE -----

    /** `kitserv_api_read_payload` into a new buffer. */
    method FetchBody(n: nat) returns (ghost did: Deed)
      requires client.Serving() && client.state == Serve && Balanced(true)
      modifies client`payloadPos, client`status, client`history, sock
      ensures client.Serving() && Balanced(true) && old(sock.asked) <= sock.asked
      ensures client.history == ReadBody(old(client.history), TakenBy(did))
      ensures Did(ReadPayload(n), did, Now())
      ensures client.status == if did.Broke? then HTTP_X_HANGUP else old(client.status)
      ensures Measure(true) <= old(Measure(true))
    {
      hide Remaining, Incoming, ReadBody, Client.HasRequest, Client.Conserved, GoodHistory, Consumed, NothingNew;
      var out := new byte[n];
      var rc;
      ghost var got, broke;
      rc, got, broke := client.ReadPayload(sock, out, n);
      did := if broke then Broke(n, got) else Fetched(n, got);
    }

    /** Payload that a handler takes is its own; no earlier reply is concerned. */
    lemma TakingIsRecorded(h: seq<Exchange>, more: seq<byte>)
      requires GoodHistory(h) && |h| == |replies| + 1 && AllTook(replies, h)
      ensures AllTook(replies, ReadBody(h, more)) && Pipeline.Parsed(ReadBody(h, more)) == Pipeline.Parsed(h)
      ensures |ReadBody(h, more)| == |h| && ReadBody(h, more)[|replies|].body == h[|replies|].body + more
    {
      hide GoodHistory, Pipeline.Parsed, TakenIn;
      ReadBodyConsumes(h, more);
    }

    /** Lookups in the headers of the request, which leave all of it but the cookie header as it was. */
    method LookUp(call: ApiCall) returns (ghost did: Deed)
      requires call.GetCookie? || call.GetRange?
      requires client.Serving() && Balanced(true)
      modifies client`ptrs, client`cookies, client.buf
      ensures client.Serving() && Balanced(true) && Did(call, did, Now())
      ensures Measure(true) == old(Measure(true))
    {
      hide Socket.Valid, Remaining, Incoming, Client.HasRequest, Client.View, GoodHistory, Consumed, Ranges.ParseRange,
           CString, CStringAt, Cookies.Lookup, CookiesOf;
      if call.GetCookie? {
        var value := client.GetCookie(CString(call.key), call.keylen);
        did := FoundCookie(call.key, call.keylen,
                           if value.Some? then Some(CStringAt(client.buf[..], value.value)) else None);
      } else {
        var bounds := client.GetRange();
        did := FoundRange(bounds);
      }
    }

    /** `kitserv_http_header_add`; false when the line does not fit. */
    method AddField(field: HeaderField, ghost status: nat) returns (ok: bool)
      requires Base() && !resp.block.ended
      modifies resp.block, resp.block.buf
      ensures Base() && !resp.block.ended
      ensures var d := Shape(old(resp.Drafted(status)), AddHeader(field));
              && resp.Drafted(d.status) == d
              && d.status == if ok then status else HTTP_507_INSUFFICIENT_STORAGE
    {
      hide PrintFields, PrintField;
      assert resp.block.len == |PrintFields(resp.block.fields)|;
      ok := resp.block.Add(field);
    }

    /** The other calls that only shape the response. */
    method ApplyToResponse(call: ApiCall, ghost status: nat)
      requires Base() && !resp.block.ended && !call.AddHeader? && !call.SetStatus?
      modifies resp, resp.block
      ensures Base() && !resp.block.ended
      ensures resp.Drafted(status) == Shape(old(resp.Drafted(status)), call)
    {
      hide PrintFields, PrintField, Promised, GoodWindow;
      match call {
        case WriteBody(text, memory) =>
          var written := resp.WriteBody(text, memory);
        case SendFile(fd, size, content) =>
          resp.SendFile(fd, size, content);
        case SetRange(from, to) =>
          var accepted := resp.SetSendRange(from, to);
        case PreserveHeaders(on) =>
          resp.preserveHeaders := on;
        case PreserveBody(on) =>
          resp.preserveBody := on;
        case ResetHeaders =>
          resp.block.Wipe();
        case ResetBody =>
          resp.body := [];
        case AllowOnly(methods) =>
          resp.allowFlags := methods;
        case _ =>
      }
    }

    /** Payload that is taken enters the record. */
    method TakePayload(n: nat) returns (ghost did: Deed)
      requires client.Serving() && client.state == Serve && Balanced(true) && Recorded(true)
      requires |client.history| == |replies| + 1
      modifies client`payloadPos, client`status, client`history, sock
      ensures client.Serving() && Balanced(true) && Recorded(true) && old(sock.asked) <= sock.asked
      ensures |client.history| == |replies| + 1
      ensures client.history[|replies|].body == old(client.history[|replies|].body) + TakenBy(did)
      ensures Did(ReadPayload(n), did, Now())
      ensures client.status == if did.Broke? then HTTP_X_HANGUP else old(client.status)
      ensures Measure(true) <= old(Measure(true))
    {
      hide Client.Serving, Measure, Balanced, Records, Rejects, AllServed, AllTook, ReadBody, Used, Rest, Did, Pipeline.Parsed,
           TakenBy;
      ghost var h := client.history;
      ServingIsGood(h);
      did := FetchBody(n);
      TakingIsRecorded(h, TakenBy(did));
    }

    lemma OnlyTheStatus(d: Draft, call: ApiCall, deed: Deed)
      requires Did(call, deed, Now())
      ensures call.ReadPayload? || call.GetCookie? || call.GetRange? ==>
                ShapeDeed(d, deed) == if deed.Broke? then d.(status := HTTP_X_HANGUP) else d
      ensures call.SetStatus? ==> ShapeDeed(d, deed) == d.(status := call.status)
      ensures !call.ReadPayload? ==> TakenBy(deed) == []
      ensures !AboutTheRequest(call) ==> deed == Called(call) && ShapeDeed(d, deed) == Shape(d, call)
    {
    }

    /** The calls about the request. */
    predicate AboutTheRequest(call: ApiCall)
    {
      call.ReadPayload? || call.GetCookie? || call.GetRange? || call.SetStatus?
    }

    /** A call about the request leaves the response alone, except for its status. */
    method ApplyToRequest(call: ApiCall) returns (ghost did: Deed)
      requires Handled() && Balanced(true) && Recorded(true) && AboutTheRequest(call)
      modifies client`payloadPos, client`status, client`history, client`state, client`ptrs, client`cookies, client.buf, sock
      ensures Handled() && Balanced(true) && Recorded(true) && Did(call, did, Now())
      ensures resp.Drafted(client.status) == ShapeDeed(old(resp.Drafted(client.status)), did)
      ensures client.history[|replies|].body == old(client.history[|replies|].body) + TakenBy(did)
      ensures Measure(true) <= old(Measure(true)) && old(sock.asked) <= sock.asked
    {
      hide L.Replay, Client.Serving, Client.Valid, Measure, Balanced, Records, Quiet, Response.Valid, Shape, ShapeDeed, Rejects,
           AllServed, AllTook, ReadBody, Used, Rest, OnWire, CookieNamed, RangeAsked, Pipeline.Parsed;
      ghost var d := resp.Drafted(client.status);
      did := Called(call);
      if call.ReadPayload? {
        did := TakePayload(call.n);
      } else if call.SetStatus? {
        Advance(true, Serve, call.status);
      } else {
        did := LookUp(call);
      }
      OnlyTheStatus(d, call, did);
    }

    /** A call about the response leaves the request alone. */
    method ApplyToDraft(call: ApiCall)
      requires Handled() && Balanced(true) && Recorded(true) && !AboutTheRequest(call)
      modifies client`status, client`state, resp, resp.block, resp.block.buf
      ensures Handled() && Balanced(true) && Recorded(true)
      ensures resp.Drafted(client.status) == Shape(old(resp.Drafted(client.status)), call)
      ensures Measure(true) == old(Measure(true))
    {
      hide L.Replay, Client.Serving, Client.Valid, Measure, Balanced, Records, Fits, Response.Valid, Shape, Rejects, OnWire,
           Planned;
      assert resp.block.buf != client.buf;
      if call.AddHeader? {
        var ok := AddField(call.field, client.status);
        if !ok {
          Advance(true, Serve, HTTP_507_INSUFFICIENT_STORAGE);
        }
      } else {
        ApplyToResponse(call, client.status);
      }
    }

    /** One call of the public interface. */
    method Apply(call: ApiCall) returns (ghost did: Deed)
      requires Handled() && Balanced(true) && Recorded(true)
      modifies client`payloadPos, client`status, client`history, client`state, client`ptrs, client`cookies, client.buf,
               resp, resp.block, resp.block.buf, sock
      ensures Handled() && Balanced(true) && Recorded(true) && Did(call, did, Now())
      ensures resp.Drafted(client.status) == ShapeDeed(old(resp.Drafted(client.status)), did)
      ensures client.history[|replies|].body == old(client.history[|replies|].body) + TakenBy(did)
      ensures Measure(true) <= old(Measure(true)) && old(sock.asked) <= sock.asked
    {
      hide Balanced, Recorded, Measure, Shape, Response.Drafted, Base, Parsed, Quiet, L.Replay;
      did := Called(call);
      if AboutTheRequest(call) {
        did := ApplyToRequest(call);
      } else {
        ApplyToDraft(call);
      }
    }

    /** A run of the handler: its calls shape the response one after the other. */
    method RunHandler(todo: seq<ApiCall>) returns (ghost did: seq<Deed>)
      requires Handled() && Balanced(true) && Recorded(true)
      modifies client`payloadPos, client`status, client`history, client`state, client`ptrs, client`cookies, client.buf,
               resp, resp.block, resp.block.buf, sock
      ensures Handled() && Balanced(true) && Recorded(true) && DidAll(todo, did, Now())
      ensures resp.Drafted(client.status) == ShapeAll(old(resp.Drafted(client.status)), did)
      ensures client.history[|replies|].body == old(client.history[|replies|].body) + Taken(did)
      ensures Measure(true) <= old(Measure(true)) && old(sock.asked) <= sock.asked
    {
      hide Base, Parsed, Quiet, L.Replay, Balanced, Recorded, Measure, ShapeDeed, TakenBy, Did, Response.Drafted;
      did := [];
      ghost var d, body := resp.Drafted(client.status), client.history[|replies|].body;
      var i := 0;
      while i < |todo|
        invariant i <= |todo| && Handled() && Balanced(true) && Recorded(true) && DidAll(todo[..i], did, Now())
        invariant resp.Drafted(client.status) == ShapeAll(d, did)
        invariant client.history[|replies|].body == body + Taken(did)
        invariant Measure(true) <= old(Measure(true)) && old(sock.asked) <= sock.asked
      {
        ghost var now := Apply(todo[i]);
        ShapeOneMore(d, did, now);
        did := did + [now];
        i := i + 1;
      }
      assert todo[..i] == todo;
    }

    /** `kitserv_http_serve_request`: a handler that leaves the status unset is called again later. */
    method DoServe() returns (flow: Flow, ghost did: seq<Deed>)
      requires InServe() && Balanced(true) && Recorded(true)
      modifies this`run, this`handlings, this`runs, client`payloadPos, client`status, client`history,
               client`state, client`ptrs, client`cookies, client.buf, resp, resp.block, resp.block.buf, sock
      ensures Inv(true) && Balanced(true) && Recorded(true) && !flow.Gone?
      ensures client.state == if flow.Alive? then Serve else PrepareResponse
      ensures runs == old(runs) + [did] && DidAll(NextHandling(old(handlings)).calls, did, Now())
      ensures flow.Alive? <==> !NextHandling(old(handlings)).final && client.status == HTTP_X_RESP_STATUS_UNSET
      ensures Measure(true) <= old(Measure(true)) && old(sock.asked) <= sock.asked
      ensures old(run) < run
    {
      hide InRead, InSend, InFile, InFinish, L.Replay, Base, Quiet, Balanced, Recorded, Measure, Shaped, Attended, Parsed,
           Response.Drafted, DidAll, ShapeAll, Taken, Rest, Followed, ShapeRuns, TakenIn, ClosedBy, UsedBy, OnWire, NextHandling;
      var handling := NextHandling(handlings);
      ghost var d, body := resp.Drafted(client.status), client.history[|replies|].body;
      RunStarts();
      did := RunHandler(handling.calls);
      RunEnds(did, d, body);
      var over := Concludes(handling, client.status);
      if !over {
        Visit(true, L.ServeWaits);
        return Alive, did;
      }
      Advance(true, PrepareResponse, client.status);
      Visit(true, L.ServeDone(client.status));
      return GoOn, did;
    }

    lemma RunStarts()
      requires Shaped(true) && Attended(true, false)
      ensures resp.Drafted(client.status) == Drafting(true) && client.history[|replies|].body == TakenIn(runs)
      ensures Followed(plan, Now(), UsedBy(replies), Begin(ClosedBy(replies), HTTP_X_RESP_STATUS_UNSET), runs, false)
    {
    }

    /** A run of the handler is over: it is one more of the plan. */
    method RunEnds(ghost did: seq<Deed>, ghost d: Draft, ghost body: seq<byte>)
      requires Recorded(true) && DidAll(NextHandling(handlings).calls, did, Now())
      requires d == Drafting(true) && resp.Drafted(client.status) == ShapeAll(d, did)
      requires |client.history| == |replies| + 1 && body == TakenIn(runs)
      requires client.history[|replies|].body == body + Taken(did)
      requires Followed(plan, Now(), UsedBy(replies), Begin(ClosedBy(replies), HTTP_X_RESP_STATUS_UNSET), runs, false)
      modifies this`handlings, this`runs
      ensures Recorded(true) && runs == old(runs) + [did] && Shaped(true)
      ensures Attended(true, Concludes(NextHandling(old(handlings)), client.status))
    {
      hide Records, Rejects, AllServed, AllTook, DidAll, ShapeAll, Taken, Followed, ShapeRuns, TakenIn, Rest;
      ghost var begin := Begin(ClosedBy(replies), HTTP_X_RESP_STATUS_UNSET);
      ShapeOneMoreRun(begin, runs, did);
      FollowedOneMore(plan, Now(), UsedBy(replies), begin, runs, did);
      RestOneLess(plan, Used());
      if handlings != [] {
        handlings := handlings[1..];
      }
      runs := runs + [did];
    }

    lemma ServingIsGood(h: seq<Exchange>)
      requires client.Serving() && h == client.history
      ensures GoodHistory(h) && h != []
    {
    }

    // ----- HTTP_STATE_PREPARE_RESPONSE -----

    /** The path that an error's text can quote. */
    lemma PathIsAsked(parsed: bool)
      requires Parsed(parsed)
      ensures TextAt(client.ptrs.path, client.buf[..]) == Asked(parsed).path
      ensures client.verb == Asked(parsed).verb && client.version == Asked(parsed).version
    {
      hide GoodHistory, Splitter.Receive, CStringAt;
      if parsed {
        client.CapturesTheRequest();
      }
    }

    /** The response is put together; on success it is due, and nothing of it is sent yet. */
    method AssembleReply(parsed: bool, memory: bool) returns (ok: bool, status: nat)
      requires Base() && Quiet() && Shaped(parsed) && Parsed(parsed) && (!parsed ==> runs == [])
      modifies this`counts, this`reply, resp, resp.block, resp.block.buf, resp.vecs
      ensures Base() && client.buf != resp.block.buf
      ensures ok <==> CanPrepare(Drafting(parsed), texts, Asked(parsed).path, memory)
      ensures ok ==> Underway() && Held() && resp.pos == reply.out.pos && status == reply.out.status
      ensures ok ==>
                && reply.parsed == parsed && reply.request == Asked(parsed) && reply.runs == runs && reply.first == UsedBy(replies)
                && reply.before == ClosedBy(replies) && (!parsed ==> reply.status0 == client.status)
                && client.verb == reply.request.verb && client.version == reply.request.version && Made(texts, reply)
      ensures ok ==> client.status != HTTP_X_HANGUP && (StatusIsError(client.status) ==> status == client.status)
      ensures ok && !parsed ==> status == client.status
      ensures ok ==> DraftOf(reply) == Drafting(parsed)
      ensures !ok ==> resp.closed == Drafting(parsed).closed || resp.closed == ClosedThen(Drafting(parsed))
    {
      hide PrintFields, Legal, Run, OutcomeOf, CanPrepare, ShapeRuns, ClosedBy, UsedBy, FieldsOf, Client.Serving,
           HeaderBlock.Valid, Client.View, ClosedThen, Underway, Response.Loaded, GoodHistory, Splitter.Receive, OnWire, Head,
           CStringAt;
      PathIsAsked(parsed);
      var path := TextAt(client.ptrs.path, client.buf[..]);
      ghost var draft := resp.Drafted(client.status);
      OutcomeCloses(draft, texts, path);
      OnlyWithAPeer(draft, path, memory);
      ok, status := resp.Prepare(client.status, client.verb, client.version, path, texts, memory);
      if ok {
        reply := Reply(parsed, Asked(parsed), ClosedBy(replies),
                       if parsed then HTTP_X_RESP_STATUS_UNSET else client.status,
                       UsedBy(replies), runs, OutcomeOf(draft, texts, path), [], []);
        counts := [];
        NothingSentYet();
      }
    }

    /** A response that was just prepared is due, or stuck. */
    lemma NothingSentYet()
      requires resp.Loaded(client.verb) && resp.block.ended && resp.Became(DraftOf(reply), reply.out)
      requires client.verb == reply.request.verb && resp.start == texts.startLine(reply.request.version, reply.out.status)
      requires wire.sent == OnWire(texts, replies) && counts == []
      ensures Underway()
    {
      hide PrintFields, Legal, Run, OnWire, ShapeRuns, FieldsOf;
      if !Stuck() {
        RunOfNothing(Whole(texts, reply));
        assert OnWire(texts, replies) + [] == OnWire(texts, replies);
      }
    }

    lemma OnlyWithAPeer(d: Draft, path: Text, memory: bool)
      ensures CanPrepare(d, texts, path, memory) ==> d.status != HTTP_X_HANGUP
      ensures StatusIsError(d.status) ==> OutcomeOf(d, texts, path).status == d.status
    {
      hide NeededRoom, PrintFields;
    }

    /** `kitserv_http_prepare_response`. */
    method DoPrepare(parsed: bool, memory: bool) returns (flow: Flow)
      requires InPrepare(parsed) && Balanced(parsed) && Recorded(parsed)
      modifies this`run, this`counts, this`reply,
               client`status, client`state, resp, resp.block, resp.block.buf, resp.vecs
      ensures Balanced(parsed) && Recorded(parsed) && !flow.Alive?
      ensures if flow.Gone? then Over(parsed, memory) else Inv(parsed) && client.state == Send
      ensures flow.GoOn? <==> CanPrepare(old(Drafting(parsed)), texts, old(Asked(parsed)).path, memory)
      ensures flow.GoOn? ==> DraftOf(reply) == old(Drafting(parsed))
      ensures flow.GoOn? ==> Measure(parsed) == old(Measure(parsed))
      ensures old(run) < run
    {
      hide InRead, InServe, InSend, InFile, InFinish,
           L.Replay, Records, Client.Serving, GoodHistory, Base, Balanced, Measure, Underway, OnWire, Made, CanPrepare,
           ClosedBy, UsedBy, Splitter.Receive, Client.View, Held, ShapeRuns, ClosedThen, Parsed, Asked, Shaped,
           HeaderBlock.Valid, Planned, Attended, Whole, Legal, Run, FieldsOf, OutcomeOf;
      RejectionHasNoRuns(parsed);
      var ok, status := AssembleReply(parsed, memory);
      if !ok {
        Visit(parsed, L.PrepareFailed);
        return Gone;
      }
      BeginSend(parsed, status);
      return GoOn;
    }

    /** A response that was put together is sent under its status. */
    method BeginSend(parsed: bool, status: nat)
      requires Base() && client.state == PrepareResponse && Parsed(parsed) && At(L.Preparing(Ans(parsed)))
      requires Attended(parsed, true) && Balanced(parsed) && Recorded(parsed)
      requires Underway() && Held() && resp.pos == reply.out.pos && status == reply.out.status
      requires reply.parsed == parsed && reply.request == Asked(parsed) && reply.runs == runs && reply.first == UsedBy(replies)
      requires reply.before == ClosedBy(replies) && (!parsed ==> reply.status0 == client.status)
      requires client.verb == reply.request.verb && client.version == reply.request.version && Made(texts, reply)
      requires client.status != HTTP_X_HANGUP && (StatusIsError(client.status) ==> status == client.status)
      requires !parsed ==> status == client.status
      modifies this`run, client`status, client`state
      ensures Balanced(parsed) && Recorded(parsed) && InSend(parsed) && client.state == Send
      ensures Measure(parsed) == old(Measure(parsed)) && old(run) < run
    {
      hide L.Replay, Records, Client.Serving, GoodHistory, Base, Balanced, Measure, Underway, Made, ClosedBy, UsedBy,
           Splitter.Receive, Client.View, Held, Planned, Attended, Parsed, Asked;
      Advance(parsed, Send, status);
      Visit(parsed, L.Prepared(status));
    }

    lemma RejectionHasNoRuns(parsed: bool)
      requires Attended(parsed, true)
      ensures !parsed ==> runs == []
    {
    }

    // ----- HTTP_STATE_SEND -----

    /** As much of the buffers as the socket takes; `counts` grows by the partial counts. */
    method Transmit() returns (done: bool)
      requires Underway()
      modifies this`counts, resp.vecs, wire
      ensures Underway() && old(counts) <= counts && old(wire.asked) < wire.asked
      ensures !done ==> !wire.last.Wrote?
      ensures done ==> !Stuck() && Sent() && Flatten(Slices(resp.vecs)) == []
    {
      hide Legal, Run, Flatten, Slices, OnWire, Whole;
      ghost var t, before := Whole(texts, reply), OnWire(texts, replies);
      ghost var more;
      done, more := SendResponse(wire, resp.vecs);
      if !Stuck() {
        RunResumes(before, t, counts, more);
        counts := counts + more;
      }
    }

    lemma NothingOfTheFile()
      requires wire.sent == fileMark && resp.pos == reply.out.pos
      ensures FileSent()
    {
      NothingAvailable(resp.file, reply.out.pos);
      assert fileMark + [] == fileMark;
    }

    /** All buffers are done; the file, if there is one, comes next. */
    method BeginFile(parsed: bool)
      requires Base() && client.state == Send && Parsed(parsed) && At(L.Sending(Ans(parsed))) && About(parsed) && Held()
      requires !Stuck() && Sent() && Flatten(Slices(resp.vecs)) == [] && resp.pos == reply.out.pos
      requires Attended(parsed, true) && Balanced(parsed) && Recorded(parsed)
      modifies this`run, this`fileMark, client`state, client`status
      ensures InFile(parsed) && Balanced(parsed) && Recorded(parsed) && client.state == State.SendFile
      ensures Measure(parsed) == old(Measure(parsed))
      ensures old(run) < run
    {
      hide L.Replay, Records, Client.Serving, GoodHistory, Base, Balanced, Measure, Flatten, FileSent, Made,
           ClosedBy, UsedBy, Splitter.Receive, Client.View, Held, Planned, Attended, Legal, Run, Whole, Slices, OnWire;
      fileMark := wire.sent;
      NothingOfTheFile();
      Advance(parsed, State.SendFile, client.status);
      Visit(parsed, L.SendDone);
    }

    /** `kitserv_http_send_response`: it never fails, it only stops for a while or ends. */
    method DoSend(parsed: bool) returns (flow: Flow)
      requires InSend(parsed) && Balanced(parsed) && Recorded(parsed)
      modifies this`run, this`counts, this`fileMark, client`state, client`status, resp.vecs, wire
      ensures Inv(parsed) && Balanced(parsed) && Recorded(parsed) && !flow.Gone?
      ensures client.state == if flow.Alive? then Send else State.SendFile
      ensures flow.Alive? ==> !wire.last.Wrote?
      ensures Stuck() ==> flow.Alive? && wire.sent == old(wire.sent)
      ensures Measure(parsed) == old(Measure(parsed))
      ensures old(run) < run && old(counts) <= counts && old(wire.asked) < wire.asked
    {
      hide InRead, InServe, InPrepare, InFile, InFinish, L.Replay, Records, Base, Balanced, Measure, Sent, Flatten,
           Planned, Attended, Parsed, About, Held;
      var done := Transmit();
      if done {
        BeginFile(parsed);
        return GoOn;
      }
      Visit(parsed, L.SendWaits);
      return Alive;
    }

    // ----- HTTP_STATE_SEND_FILE -----

    /** The response that was completed with the bytes `sent` of its file enters the record. */
    ghost method Record(parsed: bool, sent: seq<byte>)
      requires L.Replay(run) == Some(L.SendingFile(Ans(parsed))) && Recorded(parsed) && Parsed(parsed) && About(parsed)
      requires Attended(parsed, true) && HeadSent() && wire.sent == fileMark + sent
      requires Delivered(reply.(sent := sent)) && resp.closed == After(reply)
      modifies this`run, this`replies, this`runs
      ensures run == old(run) + [L.FileDone(L.Keeps(Ans(parsed)))]
      ensures At(if L.Keeps(Ans(parsed)) then L.Finishing else L.Closed)
      ensures replies == old(replies) + [reply.(counts := counts, sent := sent)] && runs == [] && Used() == old(Used())
      ensures Recorded(parsed) && wire.sent == OnWire(texts, replies) && resp.closed == ClosedBy(replies)
    {
      hide OnWire, Records, L.Replay, Delivered, Flatten, Client.HasRequest, GoodHistory, L.Keeps, Made, ClosedBy,
           Splitter.Receive, Client.View, Head, Legal, Run, Whole, Written, AllServed, Served, Followed;
      var done := reply.(counts := counts, sent := sent);
      var keep := L.Keeps(Ans(parsed));
      OnlyHowItWasSent(reply, counts, sent);
      OnWireSnoc(texts, replies, done);
      assert wire.sent == OnWire(texts, replies) + Wired(texts, done);
      L.ReplaySnoc(run, L.FileDone(keep));
      RecordsReply(texts, run, keep, replies, Pipeline.Parsed(client.history), done);
      LastCloses(replies, done);
      ServedAsAttended(parsed, done);
      OneMoreServed(plan, MayBreak(), replies, done);
      run := run + [L.FileDone(keep)];
      replies, runs := replies + [done], [];
    }

    lemma OnlyHowItWasSent(r: Reply, counts: seq<nat>, sent: seq<byte>)
      ensures var done := r.(counts := counts, sent := sent);
              && Whole(texts, done) == Whole(texts, r) && (Made(texts, r) ==> Made(texts, done)) && After(done) == After(r)
              && (Delivered(r.(sent := sent)) ==> Delivered(done))
              && (Legal(Whole(texts, r), counts) ==>
                    && Wired(texts, done) == Run(Whole(texts, r), counts).wire + sent
                    && (Flatten(Run(Whole(texts, r), counts).bufs) == [] ==> Written(texts, done)))
    {
      hide OutcomeOf, ShapeRuns, FieldsOf, PrintFields, Legal, Run, Flatten;
      assert DraftOf(r.(counts := counts, sent := sent)) == DraftOf(r);
    }

    lemma ServedAsAttended(parsed: bool, r: Reply)
      requires Attended(parsed, true) && About(parsed) && r == reply.(counts := r.counts, sent := r.sent)
      ensures Served(plan, MayBreak(), r)
    {
      hide Followed, OutcomeOf, Client.View;
    }

    lemma LastCloses(rs: seq<Reply>, r: Reply)
      ensures ClosedBy(rs + [r]) == After(r)
    {
      hide After;
    }

    /** `kitserv_http_send_response_file` on the response that is due; a response that ends is recorded. */
    method FinishSending(parsed: bool) returns (out: FileOutcome)
      requires InFile(parsed) && Balanced(parsed) && Recorded(parsed)
      modifies this`run, this`replies, this`runs, resp`pos, resp`fd, resp`closed, wire
      ensures Base() && Recorded(parsed) && old(wire.asked) <= wire.asked && Used() == old(Used())
      ensures (out.Suspended? ==> wire.last.Again? && old(wire.asked) < wire.asked) && (out.Dropped? ==> wire.last.Error?)
      ensures !out.Finished? ==>
                && About(parsed) && Attended(parsed, true) && Held() && HeadSent() && FileSent()
                && replies == old(replies) && runs == old(runs) && run == old(run)
      ensures out.Finished? ==>
                && |replies| == |old(replies)| + 1 && old(replies) < replies && runs == [] && wire.sent == OnWire(texts, replies)
                && out.keep == L.Keeps(Ans(parsed)) && resp.closed == ClosedBy(replies)
                && run == old(run) + [L.FileDone(out.keep)] && At(if out.keep then L.Finishing else L.Closed)
    {
      hide OnWire, Delivers, Available, HeaderBlock.Valid, Flatten, Head, Records, L.Replay, Client.Serving,
           GoodHistory, Balanced, Made, ClosedBy, UsedBy, ReachesTheEnd, Splitter.Receive, Client.View, Planned, Attended, HeadSent;
      out := resp.SendResponseFile(wire, resp.file, client.verb, client.version, client.status, reply.out.pos, fileMark);
      if out.Finished? {
        ghost var sent :=
          if reply.out.fd > 0 && !HeadOnly(reply) then Available(resp.file, reply.out.pos, resp.pos - reply.out.pos) else [];
        NeverStuck();
        assert wire.sent == fileMark + sent;
        Record(parsed, sent);
      }
    }

    lemma NeverStuck()
      requires HeadSent()
      ensures !Stuck()
    {
    }

    method DoFile(parsed: bool) returns (flow: Flow)
      requires InFile(parsed) && Balanced(parsed) && Recorded(parsed)
      modifies this`run, this`replies, this`runs, client`state, client`status, resp`pos, resp`fd, resp`closed, wire
      ensures Balanced(parsed) && Recorded(parsed)
      ensures if flow.Gone? then forall memory :: Over(parsed, memory) else Inv(parsed)
      ensures flow.Alive? ==> client.state == State.SendFile && wire.last.Again? && old(wire.asked) < wire.asked
      ensures flow.GoOn? ==> client.state == State.Finished && parsed && old(replies) < replies
      ensures flow.GoOn? ==> !StatusIsError(client.status) && client.version != Http10
      ensures Measure(parsed) == old(Measure(parsed)) && Used() == old(Used())
      ensures old(run) < run && old(replies) <= replies && old(wire.asked) <= wire.asked
    {
      hide InRead, InServe, InPrepare, InSend,
           L.Replay, Records, Client.Serving, GoodHistory, Base, Balanced, Measure, Flatten, FileSent, Planned, Attended,
           OnWire, Made, ClosedBy, UsedBy, Splitter.Receive, Client.View, Held, Asked, HeadSent, Used, HeaderBlock.Valid,
           CanPrepare, Drafting, About;
      var out := FinishSending(parsed);
      match out {
        case Suspended =>
          Visit(parsed, L.FileWaits);
          return Alive;
        case Dropped =>
          Visit(parsed, L.FileBroken);
          return Gone;
        case Finished(keep) =>
          if !keep {
            return Gone;
          }
          Advance(parsed, State.Finished, client.status);
          return GoOn;
      }
    }

    // ----- HTTP_STATE_DONE -----

    /** `kitserv_http_finalize_transaction`. */
    method DoFinish()
      requires InFinish() && Balanced(true) && Recorded(true)
      modifies this`run, client, client.buf, resp, resp.block
      ensures InRead() && Balanced(true) && Recorded(true) && client.state == Read
      ensures Measure(true) == old(Measure(true))
      ensures old(run) < run
    {
      hide L.Replay, Records, Socket.Valid, GoodHistory, Consumed, Remaining, Splitter.Parse, PrintFields,
           Client.Intact, Client.Live, ClosedBy, Rejects, OnWire, Planned;
      client.Finalize();
      resp.Reset();
      Visit(true, L.Finalized);
    }

    ghost function Rank(): nat
      reads client`state
    {
      match client.state
      case Read => 0
      case Serve => 5
      case PrepareResponse => 4
      case Send => 3
      case SendFile => 2
      case Finished => 1
    }

    /** The measure (parsed, bytes left, rank of the state) has become smaller. */
    ghost predicate Less(parsed: bool, m: nat, r: nat, parsed0: bool, m0: nat, r0: nat)
    {
      (parsed0 && !parsed) || (parsed == parsed0 && (m < m0 || (m == m0 && r < r0)))
    }

    /**
     * What a connection that stays alive waits for: bytes, room to write, or its handler. It has asked, since the counts
     * were as given, and was refused.
     */
    ghost predicate Waits(asked: nat, written: nat, used: nat)
      reads client`state, this`replies, this`runs, sock`last, sock`asked, wire`last, wire`asked
    {
      match client.state
      case Read => sock.last.Again? && asked < sock.asked
      case Serve => used < Used()
      case Send => !wire.last.Wrote? && written < wire.asked
      case SendFile => wire.last.Again? && written < wire.asked
      case _ => false
    }

    /** One pass through the switch of `kitserv_http_serve_client`. */
    method Turn(parsed0: bool, memory: bool) returns (flow: Flow, parsed: bool)
      requires Inv(parsed0) && Balanced(parsed0) && Recorded(parsed0)
      modifies this`handlings, this`run, this`replies, this`runs, this`counts, this`fileMark, this`reply,
               client, client.buf, resp, resp.block, resp.block.buf, resp.vecs, sock, wire
      ensures Balanced(parsed) && Recorded(parsed) && if flow.Gone? then Over(parsed, memory) else Inv(parsed)
      ensures flow.Alive? ==> Waits(old(sock.asked), old(wire.asked), old(Used()))
      ensures flow.GoOn? ==> Less(parsed, Measure(parsed), Rank(), parsed0, old(Measure(parsed0)), old(Rank()))
      ensures old(run) < run && old(replies) <= replies
      ensures old(sock.asked) <= sock.asked && old(wire.asked) <= wire.asked && old(Used()) <= Used()
    {
      hide L.Replay, OnWire, InRead, InServe, InPrepare, InSend, InFile, InFinish, Balanced, Recorded, Measure, Over,
           CanPrepare, HangsUp, DidAll, UsedBy;
      parsed := parsed0;
      match client.state {
        case Read =>
          flow, parsed := DoRead();
        case Serve =>
          ghost var did;
          flow, did := DoServe();
        case PrepareResponse =>
          flow := DoPrepare(parsed, memory);
        case Send =>
          flow := DoSend(parsed);
        case SendFile =>
          flow := DoFile(parsed);
        case Finished =>
          DoFinish();
          flow := GoOn;
      }
    }

    /**
     * `kitserv_http_serve_client`: steps until the connection has to wait or is over. It ends for every finite script of
     * socket events, because every transaction that completes consumes a request head. What it leaves is again a
     * connection as it should be: it waits only for what it was refused in this call, the visits form a run, and visits,
     * replies and requests belong together: every reply is what becomes of what the plan has for it. All bytes of the
     * peer are accounted for, and the replies are what is on the wire, in order.
     */
    method ServeClient(parsed0: bool, memory: bool) returns (alive: bool, parsed: bool)
      requires Inv(parsed0) && Balanced(parsed0) && Recorded(parsed0)
      modifies this`handlings, this`run, this`replies, this`runs, this`counts, this`fileMark, this`reply,
               client, client.buf, resp, resp.block, resp.block.buf, resp.vecs, sock, wire
      ensures Balanced(parsed) && Recorded(parsed)
      ensures if alive then Inv(parsed) && Waits(old(sock.asked), old(wire.asked), old(Used())) else Over(parsed, memory)
      ensures old(run) < run && old(replies) <= replies
    {
      hide L.Replay, OnWire, Inv, Balanced, Recorded, Measure, Rank, Over, Used;
      parsed := parsed0;
      while true
        invariant Inv(parsed) && Balanced(parsed) && Recorded(parsed)
        invariant old(run) <= run && old(replies) <= replies
        invariant old(sock.asked) <= sock.asked && old(wire.asked) <= wire.asked && old(Used()) <= Used()
        decreases parsed, Measure(parsed), Rank()
      {
        var flow;
        flow, parsed := Turn(parsed, memory);
        if !flow.GoOn? {
          return flow.Alive?, parsed;
        }
      }
    }
  }
}
