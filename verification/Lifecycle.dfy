/**
 * The life of a connection as a sequence of visits to the steps of kitserv_http_serve_client (src/http.c:1429-1497):
 * which visits may follow which, and what that implies for every run.
 */
module Lifecycle {
  import opened Bytes
  import opened Requests

  /** What one call of a step did. */
  datatype Visit =
    | ReadBlocked | ReadComplete(version: Version) | ReadRejected(version: Version, status: nat)
    | ServeWaits | ServeDone(status: nat)
    | Prepared(status: nat) | PrepareFailed
    | SendWaits | SendDone
    | FileWaits | FileBroken | FileDone(keep: bool)
    | Finalized

  /** A response: whether its request was parsed, under which version it is sent, and its status. */
  datatype Answer = Answer(parsed: bool, version: Version, status: nat)

  /** Where a connection is, and from the end of its request on what it answers. */
  datatype Stage =
    | Reading
    | Serving(version: Version)
    | Preparing(answer: Answer)
    | Sending(answer: Answer)
    | SendingFile(answer: Answer)
    | Finishing
    | Closed

  /** Another request follows the response (src/http.c:1414-1418). */
  predicate Keeps(a: Answer) { !StatusIsError(a.status) && a.version != Http10 }

  function Step(s: Stage, v: Visit): Option<Stage>
  {
    match (s, v)
    case (Reading, ReadBlocked) => Some(Reading)
    case (Reading, ReadComplete(version)) => Some(Serving(version))
    case (Reading, ReadRejected(version, status)) =>
      if status == HTTP_X_HANGUP then Some(Closed)
      else if StatusIsError(status) then Some(Preparing(Answer(false, version, status)))
      else None
    case (Serving(_), ServeWaits) => Some(s)
    case (Serving(version), ServeDone(status)) => Some(Preparing(Answer(true, version, status)))
    case (Preparing(a), Prepared(status)) =>
      if a.status == HTTP_X_HANGUP || (StatusIsError(a.status) && status != a.status) then None
      else Some(Sending(a.(status := status)))
    case (Preparing(_), PrepareFailed) => Some(Closed)
    case (Sending(_), SendWaits) => Some(s)
    case (Sending(a), SendDone) => Some(SendingFile(a))
    case (SendingFile(_), FileWaits) => Some(s)
    case (SendingFile(_), FileBroken) => Some(Closed)
    case (SendingFile(a), FileDone(keep)) => if keep != Keeps(a) then None else Some(if keep then Finishing else Closed)
    case (Finishing, Finalized) => Some(Reading)
    case _ => None
  }

  /** Where a run of visits leads a connection that starts out reading; `None` when no connection visits that way. */
  function Replay(run: seq<Visit>): Option<Stage>
  {
    if run == [] then Some(Reading)
    else
      match Replay(run[..|run| - 1])
      case None => None
      case Some(s) => Step(s, run[|run| - 1])
  }

  lemma ReplaySnoc(run: seq<Visit>, v: Visit)
    ensures Replay(run + [v]) == if Replay(run).None? then None else Step(Replay(run).value, v)
  {
    assert (run + [v])[..|run|] == run;
  }

  lemma {:induction false} PrefixesAreRuns(run: seq<Visit>, n: nat)
    requires n <= |run| && Replay(run).Some?
    ensures Replay(run[..n]).Some?
    decreases |run|
  {
    hide Step;
    if n < |run| {
      PrefixesAreRuns(run[..|run| - 1], n);
      assert run[..|run| - 1][..n] == run[..n];
    } else {
      assert run[..n] == run;
    }
  }

  /** The stage before the i-th visit, which that visit can follow. */
  lemma StageBefore(run: seq<Visit>, i: nat) returns (s: Stage)
    requires i < |run| && Replay(run).Some?
    ensures Replay(run[..i]) == Some(s) && Replay(run[..i + 1]) == Step(s, run[i]) && Step(s, run[i]).Some?
  {
    hide Step;
    PrefixesAreRuns(run, i);
    PrefixesAreRuns(run, i + 1);
    assert run[..i + 1][..i] == run[..i];
    s := Replay(run[..i]).value;
  }

  // ----- Requests and responses of a run -----

  /** The versions of the heads that were completed, in order. */
  function Versions(run: seq<Visit>): seq<Version>
  {
    if run == [] then []
    else
      var v := run[|run| - 1];
      Versions(run[..|run| - 1]) + if v.ReadComplete? then [v.version] else []
  }

  /** The responses that were sent to their end, in order. */
  function Answered(run: seq<Visit>): seq<Answer>
  {
    if run == [] then []
    else
      var s := Replay(run[..|run| - 1]);
      Answered(run[..|run| - 1])
      + if run[|run| - 1].FileDone? && s.Some? && s.value.SendingFile? then [s.value.answer] else []
  }

  lemma CountsSnoc(run: seq<Visit>, v: Visit)
    ensures Versions(run + [v]) == Versions(run) + if v.ReadComplete? then [v.version] else []
    ensures Answered(run + [v]) ==
            Answered(run)
            + if v.FileDone? && Replay(run).Some? && Replay(run).value.SendingFile? then [Replay(run).value.answer] else []
  {
    hide Replay;
    assert (run + [v])[..|run|] == run;
  }

  /** Every response but the last answers the head at the same place and keeps the connection; the last may reject. */
  ghost predicate Matched(versions: seq<Version>, answers: seq<Answer>)
  {
    && (forall i :: 0 <= i < |answers| - 1 ==> answers[i].parsed && Keeps(answers[i]))
    && (forall i :: 0 <= i < |answers| && answers[i].parsed ==> i < |versions| && versions[i] == answers[i].version)
    && (forall i :: 0 <= i < |answers| && !answers[i].parsed ==> i == |versions| && StatusIsError(answers[i].status))
  }

  ghost predicate AllKept(answers: seq<Answer>)
  {
    forall i :: 0 <= i < |answers| ==> answers[i].parsed && Keeps(answers[i])
  }

  /** One answer is being worked on: that to the last head, or a rejection. */
  ghost predicate Open(a: Answer, versions: seq<Version>, answers: seq<Answer>)
  {
    && AllKept(answers)
    && (if a.parsed then |versions| == |answers| + 1 && versions[|answers|] == a.version
        else |versions| == |answers| && StatusIsError(a.status))
  }

  /** What the stage says about the heads and responses so far. */
  ghost predicate Tally(s: Stage, versions: seq<Version>, answers: seq<Answer>)
  {
    && Matched(versions, answers)
    && (match s
        case Reading => |versions| == |answers| && AllKept(answers)
        case Serving(version) => Open(Answer(true, version, 0), versions, answers)
        case Preparing(a) => Open(a, versions, answers)
        case Sending(a) => Open(a, versions, answers)
        case SendingFile(a) => Open(a, versions, answers)
        case Finishing => |versions| == |answers| && AllKept(answers)
        case Closed => |versions| <= |answers| + 1)
  }

  lemma HeadCompletes(versions: seq<Version>, answers: seq<Answer>, version: Version)
    requires Matched(versions, answers) && |versions| == |answers| && AllKept(answers)
    ensures Matched(versions + [version], answers) && Open(Answer(true, version, 0), versions + [version], answers)
  {
    hide Keeps;
  }

  lemma AnswerCompletes(a: Answer, versions: seq<Version>, answers: seq<Answer>)
    requires Matched(versions, answers) && Open(a, versions, answers)
    ensures Matched(versions, answers + [a])
    ensures Keeps(a) ==> |versions| == |answers + [a]| && AllKept(answers + [a])
  {
    assert !a.parsed ==> !Keeps(a);
    hide Keeps;
  }

  lemma TallyStep(s: Stage, v: Visit, versions: seq<Version>, answers: seq<Answer>)
    requires Tally(s, versions, answers) && Step(s, v).Some?
    ensures Tally(Step(s, v).value, versions + (if v.ReadComplete? then [v.version] else []),
                  answers + if v.FileDone? then [s.answer] else [])
  {
    hide Matched, AllKept, Keeps;
    assert versions + [] == versions && answers + [] == answers;
    match v
    case ReadComplete(version) => HeadCompletes(versions, answers, version);
    case FileDone(_) => AnswerCompletes(s.answer, versions, answers);
    case _ =>
  }

  lemma {:induction false} EveryRunTallies(run: seq<Visit>)
    requires Replay(run).Some?
    ensures Tally(Replay(run).value, Versions(run), Answered(run))
  {
    hide Tally, Step, Versions, Answered;
    if run == [] {
      NothingYet();
    } else {
      var init, v := run[..|run| - 1], run[|run| - 1];
      EveryRunTallies(init);
      var s := Replay(init).value;
      TallyStep(s, v, Versions(init), Answered(init));
      CountsSnoc(init, v);
      OnlyAfterSending(s, v);
      assert run == init + [v];
    }
  }

  lemma OnlyAfterSending(s: Stage, v: Visit)
    requires Step(s, v).Some?
    ensures v.FileDone? ==> s.SendingFile?
  {
  }

  lemma NothingYet()
    ensures Versions([]) == [] && Answered([]) == [] && Tally(Reading, [], [])
  {
  }

  /**
   * In every run the responses answer the heads one by one and in order, under their versions. A rejection comes after
   * the response to the last head, and only the last response can be one that ends the connection.
   */
  lemma ResponsesFollowRequests(run: seq<Visit>)
    requires Replay(run).Some?
    ensures Matched(Versions(run), Answered(run))
    ensures |Versions(run)| <= |Answered(run)| + 1
  {
    EveryRunTallies(run);
    hide Matched, Keeps;
  }

  /** While a response to a request is being sent, that request is the last, and the only one without a response. */
  lemma OneIsOpen(run: seq<Visit>)
    requires Replay(run).Some?
    requires Replay(run).value.Serving? || (Replay(run).value.SendingFile? && Replay(run).value.answer.parsed)
    ensures |Versions(run)| == |Answered(run)| + 1
  {
    EveryRunTallies(run);
    hide Matched, Keeps, AllKept;
  }

  // ----- Within one transaction -----

  /** The visits of the current transaction: those after the last finalize. */
  function Current(run: seq<Visit>): (c: seq<Visit>)
  {
    if run == [] || run[|run| - 1].Finalized? then [] else Current(run[..|run| - 1]) + [run[|run| - 1]]
  }

  /** How many heads were completed. */
  function Heads(run: seq<Visit>): nat
  {
    if run == [] then 0 else Heads(run[..|run| - 1]) + if run[|run| - 1].ReadComplete? then 1 else 0
  }

  /** How many responses were prepared. */
  function Responses(run: seq<Visit>): nat
  {
    if run == [] then 0 else Responses(run[..|run| - 1]) + if run[|run| - 1].Prepared? then 1 else 0
  }

  lemma VisitCounts(run: seq<Visit>, v: Visit)
    ensures Heads(run + [v]) == Heads(run) + if v.ReadComplete? then 1 else 0
    ensures Responses(run + [v]) == Responses(run) + if v.Prepared? then 1 else 0
  {
    assert (run + [v])[..|run|] == run;
  }

  /** How many heads and responses the current transaction has had. */
  ghost predicate SoFar(s: Stage, heads: nat, responses: nat)
  {
    match s
    case Reading => heads == 0 && responses == 0
    case Serving(_) => heads == 1 && responses == 0
    case Preparing(a) => heads == (if a.parsed then 1 else 0) && responses == 0
    case Sending(a) => heads == (if a.parsed then 1 else 0) && responses == 1
    case SendingFile(a) => heads == (if a.parsed then 1 else 0) && responses == 1
    case Finishing => heads == 1 && responses == 1
    case Closed => heads <= 1 && responses <= 1
  }

  lemma {:induction false} EveryTransactionTallies(run: seq<Visit>)
    requires Replay(run).Some?
    ensures SoFar(Replay(run).value, Heads(Current(run)), Responses(Current(run)))
    ensures Replay(run).value.SendingFile? && Keeps(Replay(run).value.answer) ==> Replay(run).value.answer.parsed
  {
    hide Heads, Responses, SoFar, Step, Keeps;
    if run == [] {
      NothingInIt();
    } else {
      var init, v := run[..|run| - 1], run[|run| - 1];
      EveryTransactionTallies(init);
      EveryRunTallies(init);
      EveryRunTallies(run);
      VisitCounts(Current(init), v);
      NothingInIt();
      var s := Replay(init).value;
      OpenIsParsedOrError(s, Versions(init), Answered(init));
      OpenIsParsedOrError(Replay(run).value, Versions(run), Answered(run));
      SoFarStep(s, v, Heads(Current(init)), Responses(Current(init)));
    }
  }

  lemma OpenIsParsedOrError(s: Stage, versions: seq<Version>, answers: seq<Answer>)
    requires Tally(s, versions, answers)
    ensures s.SendingFile? && Keeps(s.answer) ==> s.answer.parsed
  {
    hide Matched;
  }

  lemma SoFarStep(s: Stage, v: Visit, heads: nat, responses: nat)
    requires SoFar(s, heads, responses) && Step(s, v).Some?
    requires s.SendingFile? && Keeps(s.answer) ==> s.answer.parsed
    ensures if v.Finalized? then SoFar(Step(s, v).value, 0, 0)
            else SoFar(Step(s, v).value, heads + (if v.ReadComplete? then 1 else 0),
                       responses + if v.Prepared? then 1 else 0)
  {
    hide Keeps;
  }

  lemma NothingInIt()
    ensures Heads([]) == 0 && Responses([]) == 0 && SoFar(Reading, 0, 0)
  {
  }

  /** In no run is more than one response prepared for a request. */
  lemma OneResponsePerRequest(run: seq<Visit>)
    requires Replay(run).Some?
    ensures Responses(Current(run)) <= 1
  {
    hide Heads, Responses, Current, Replay, Step;
    EveryTransactionTallies(run);
  }

  /** In every run a transaction is finalized only after its head was parsed and its response prepared. */
  lemma FinalizeNeedsARequest(run: seq<Visit>, i: nat)
    requires i < |run| && Replay(run).Some? && run[i].Finalized?
    ensures Heads(Current(run[..i])) == 1 && Responses(Current(run[..i])) == 1
  {
    hide Heads, Responses, Current, Replay;
    var s := StageBefore(run, i);
    assert s.Finishing?;
    EveryTransactionTallies(run[..i]);
  }

  // ----- The end of a connection -----

  /** No request can follow: the connection is over, or what is being answered does not keep it. */
  predicate Doomed(s: Stage)
  {
    match s
    case Reading => false
    case Serving(version) => version == Http10
    case Preparing(a) => !Keeps(a)
    case Sending(a) => !Keeps(a)
    case SendingFile(a) => !Keeps(a)
    case Finishing => false
    case Closed => true
  }

  /** A visit after which the connection is not kept: the head of an HTTP/1.0 request, a rejection, an error status. */
  predicate Dooms(v: Visit)
  {
    match v
    case ReadComplete(version) => version == Http10
    case ReadRejected(_, _) => true
    case ServeDone(status) => StatusIsError(status)
    case Prepared(status) => StatusIsError(status)
    case _ => false
  }

  lemma DoomStep(s: Stage, v: Visit)
    requires Step(s, v).Some?
    ensures Dooms(v) || Doomed(s) ==> Doomed(Step(s, v).value)
    ensures Doomed(s) ==> !v.ReadBlocked? && !v.ReadComplete? && !v.ReadRejected? && !v.Finalized?
  {
  }

  lemma {:induction false} DoomSticks(run: seq<Visit>, i: nat, j: nat)
    requires i < j <= |run| && Replay(run).Some? && Dooms(run[i])
    ensures Replay(run[..j]).Some? && Doomed(Replay(run[..j]).value)
    decreases j
  {
    hide Replay, Step, Dooms, Doomed;
    var s := StageBefore(run, j - 1);
    if i < j - 1 {
      DoomSticks(run, i, j - 1);
    }
    DoomStep(s, run[j - 1]);
  }

  /**
   * After the head of an HTTP/1.0 request, a rejected request or an error status, no run reads another request or
   * finalizes the transaction.
   */
  lemma NoRequestFollows(run: seq<Visit>, i: nat, j: nat)
    requires i < j < |run| && Replay(run).Some? && Dooms(run[i])
    ensures !run[j].ReadBlocked? && !run[j].ReadComplete? && !run[j].ReadRejected? && !run[j].Finalized?
  {
    hide Replay, Step, Dooms, Doomed;
    DoomSticks(run, i, j);
    var s := StageBefore(run, j);
    DoomStep(s, run[j]);
  }

  /** A response ends the connection exactly if it has an error status or is for HTTP/1.0; then nothing follows it. */
  lemma LastResponse(run: seq<Visit>, i: nat) returns (a: Answer)
    requires i < |run| && Replay(run).Some? && run[i].FileDone?
    ensures Replay(run[..i]) == Some(SendingFile(a))
    ensures run[i].keep <==> a.status < 400 && a.version == Http11
    ensures !run[i].keep ==> i == |run| - 1 && Replay(run) == Some(Closed)
  {
    hide Replay;
    var s := StageBefore(run, i);
    a := s.answer;
    if !run[i].keep {
      assert Replay(run[..i + 1]) == Some(Closed);
      if i + 1 < |run| {
        var t := StageBefore(run, i + 1);
        assert false;
      }
      assert run[..i + 1] == run;
    }
  }

  /** After a failed preparation or a broken transfer the connection is over. */
  lemma NothingAfterTheEnd(run: seq<Visit>, i: nat)
    requires i < |run| && Replay(run).Some? && (run[i].PrepareFailed? || run[i].FileBroken?)
    ensures i == |run| - 1 && Replay(run) == Some(Closed)
  {
    hide Replay;
    var s := StageBefore(run, i);
    assert Replay(run[..i + 1]) == Some(Closed);
    if i + 1 < |run| {
      var t := StageBefore(run, i + 1);
      assert false;
    }
    assert run[..i + 1] == run;
  }
}
