/**
 * Accepters and workers sharing the connection slots (src/kitserv.c:94-246): every critical section, queue operation
 * and system call is one step, and the steps of all threads interleave in any order. The kernel hands out any
 * descriptor that is not open.
 */
module Protocol {
  import opened Bytes

  // ----- Choosing a worker -----

  /** The first of the greatest scores. */
  function FirstBest(scores: seq<nat>): (best: nat)
    requires scores != []
    ensures best < |scores|
    ensures forall k :: 0 <= k < |scores| ==> scores[k] <= scores[best]
    ensures forall k :: 0 <= k < best ==> scores[k] < scores[best]
  {
    var last := |scores| - 1;
    if last == 0 then 0
    else
      var best := FirstBest(scores[..last]);
      if scores[last] > scores[best] then last else best
  }

  /** `select_client_worker`, on the scores in the order they are observed. */
  method SelectClientWorker(scores: seq<nat>) returns (best: nat)
    requires scores != []
    ensures best == FirstBest(scores)
  {
    var bestScore: int := -1;
    best := 0;
    for i := 0 to |scores|
      invariant i == 0 ==> bestScore == -1
      invariant i > 0 ==> best == FirstBest(scores[..i]) && bestScore == scores[best]
    {
      assert scores[..i + 1][..i] == scores[..i];
      if scores[i] > bestScore {
        best, bestScore := i, scores[i];
      }
    }
    assert scores[..|scores|] == scores;
  }

  /** The slots of each worker (src/kitserv.c:280). */
  function SlotsPerWorker(numSlots: nat, numWorkers: nat): nat
    requires numWorkers > 0
  {
    (numSlots + numWorkers - 1) / numWorkers
  }

  /** All workers together have the slots that were asked for, and fewer than one each in excess. */
  lemma CapacityIsEnough(numSlots: nat, numWorkers: nat)
    requires 0 < numWorkers <= numSlots
    ensures var total := SlotsPerWorker(numSlots, numWorkers) * numWorkers;
            numSlots <= total < numSlots + numWorkers && SlotsPerWorker(numSlots, numWorkers) > 0
  {
    var m := numSlots + numWorkers - 1;
    var q, r := m / numWorkers, m % numWorkers;
    assert m == q * numWorkers + r;
  }

  // ----- The state -----

  /** What a slot remembers of its connection. `unused` is as reset leaves it. */
  datatype Client = Client(sockfd: int, unused: bool)

  datatype Accepter =
    | Idle
    | Scoring(fd: int, observed: seq<nat>)
    | Refusing(fd: int)
    | Handing(fd: int, worker: nat, slot: nat)

  /** A worker goes through the rest of a batch of events, and through the steps that end a connection. */
  datatype Phase = Serving | Removing | Closing | Cleaning | Pushing

  datatype Worker = Worker(
    free: seq<nat>, count: int, clients: seq<Client>, queue: map<int, nat>, phase: Phase, batch: seq<nat>,
    lost: set<nat>)   // the slots whose registration failed, which nobody knows any more

  datatype State = State(workers: seq<Worker>, accepters: seq<Accepter>, sockets: set<int>, others: set<int>)

  datatype Event =
    | Accept(a: nat, fd: int)
    | Score(a: nat)
    | Take(a: nat)
    | Refuse(a: nat)
    | Register(a: nat, succeeds: bool)
    | Wait(w: nat, batch: seq<nat>)
    | Serve(w: nat, over: bool)
    | Unregister(w: nat)
    | Shut(w: nat)
    | Clean(w: nat)
    | Push(w: nat)
    | Open(fd: int)
    | Close(fd: int)

  predicate NoDuplicates(s: seq<nat>)
  {
    forall i, j :: 0 <= i < j < |s| ==> s[i] != s[j]
  }

  const MAX_EVENTS := 64

  // What the critical sections do to a worker (src/kitserv.c:98-141).

  /** The first free slot is taken for `fd`. */
  function Taken(wk: Worker, fd: int): Worker
    requires wk.free != [] && wk.free[0] < |wk.clients|
  {
    var i := wk.free[0];
    wk.(free := wk.free[1..], count := wk.count - 1, clients := wk.clients[i := wk.clients[i].(sockfd := fd)])
  }

  /** A slot is registered under `fd`, or lost. */
  function Registering(wk: Worker, i: nat, fd: int, succeeds: bool): Worker
  {
    if succeeds then wk.(queue := wk.queue[fd := i]) else wk.(lost := wk.lost + {i})
  }

  /** The first event of the batch is handled; `over` says that its connection is to end. */
  function Served(wk: Worker, over: bool): Worker
    requires Current(wk)
  {
    var i := wk.batch[0];
    var wk' := wk.(clients := wk.clients[i := wk.clients[i].(unused := false)]);
    if over then wk'.(phase := Removing) else wk'.(batch := wk.batch[1..])
  }

  /** The connection that ends is taken out of the queue. */
  function Unregistered(wk: Worker): Worker
    requires Current(wk)
  {
    wk.(phase := Closing, queue := wk.queue - {wk.clients[wk.batch[0]].sockfd})
  }

  /** A slot is reset. */
  function Cleaned(wk: Worker, i: nat): Worker
    requires i < |wk.clients|
  {
    wk.(clients := wk.clients[i := wk.clients[i].(unused := true)])
  }

  /** A slot becomes the first free one. */
  function Pushed(wk: Worker, i: nat): Worker
  {
    wk.(free := [i] + wk.free, count := wk.count + 1)
  }

  function Step(s: State, e: Event): Option<State>
  {
    match e
    case Accept(a, fd) =>
      if a < |s.accepters| && s.accepters[a].Idle? && fd !in s.sockets && fd !in s.others
      then Some(s.(accepters := s.accepters[a := Scoring(fd, [])], sockets := s.sockets + {fd}))
      else None
    case Score(a) =>
      if a < |s.accepters| && s.accepters[a].Scoring? && |s.accepters[a].observed| < |s.workers|
      then
        var seen := s.accepters[a].observed;
        var score := s.workers[|seen|].count;
        if score < 0 then None
        else Some(s.(accepters := s.accepters[a := s.accepters[a].(observed := seen + [score])]))
      else None
    case Take(a) =>
      if a < |s.accepters| && s.accepters[a].Scoring? && |s.accepters[a].observed| == |s.workers| > 0
      then
        var fd := s.accepters[a].fd;
        var w := FirstBest(s.accepters[a].observed);
        var wk := s.workers[w];
        if wk.free == [] then Some(s.(accepters := s.accepters[a := Refusing(fd)]))
        else
          var i := wk.free[0];
          if i >= |wk.clients| then None
          else Some(s.(
            accepters := s.accepters[a := Handing(fd, w, i)], workers := s.workers[w := Taken(wk, fd)]))
      else None
    case Refuse(a) =>
      if a < |s.accepters| && s.accepters[a].Refusing?
      then Some(s.(accepters := s.accepters[a := Idle], sockets := s.sockets - {s.accepters[a].fd}))
      else None
    case Register(a, succeeds) =>
      if a < |s.accepters| && s.accepters[a].Handing? && s.accepters[a].worker < |s.workers|
      then
        var Handing(fd, w, i) := s.accepters[a];
        var wk := s.workers[w];
        if succeeds && fd in wk.queue then None
        else Some(s.(
          accepters := s.accepters[a := Idle],
          workers := s.workers[w := Registering(wk, i, fd, succeeds)]))
      else None
    case Wait(w, batch) =>
      if w < |s.workers| && s.workers[w].phase == Serving && s.workers[w].batch == []
         && |batch| <= MAX_EVENTS && NoDuplicates(batch) && (forall i :: i in batch ==> Registered(s.workers[w], i))
      then Some(s.(workers := s.workers[w := s.workers[w].(batch := batch)]))
      else None
    case Serve(w, over) =>
      if w < |s.workers| && s.workers[w].phase == Serving && s.workers[w].batch != []
         && s.workers[w].batch[0] < |s.workers[w].clients|
      then
        Some(s.(workers := s.workers[w := Served(s.workers[w], over)]))
      else None
    case Unregister(w) =>
      if w < |s.workers| && s.workers[w].phase == Removing && Current(s.workers[w])
      then
        Some(s.(workers := s.workers[w := Unregistered(s.workers[w])]))
      else None
    case Shut(w) =>
      if w < |s.workers| && s.workers[w].phase == Closing && Current(s.workers[w])
      then
        var wk := s.workers[w];
        Some(s.(workers := s.workers[w := wk.(phase := Cleaning)], sockets := s.sockets - {wk.clients[wk.batch[0]].sockfd}))
      else None
    case Clean(w) =>
      if w < |s.workers| && s.workers[w].phase == Cleaning && Current(s.workers[w])
      then
        var wk := s.workers[w];
        Some(s.(workers := s.workers[w := Cleaned(wk, wk.batch[0]).(phase := Pushing)]))
      else None
    case Push(w) =>
      if w < |s.workers| && s.workers[w].phase == Pushing && Current(s.workers[w])
      then
        var wk := s.workers[w];
        Some(s.(workers := s.workers[w := Pushed(wk, wk.batch[0]).(phase := Serving, batch := wk.batch[1..])]))
      else None
    case Open(fd) =>
      if fd !in s.sockets && fd !in s.others then Some(s.(others := s.others + {fd})) else None
    case Close(fd) =>
      if fd in s.others then Some(s.(others := s.others - {fd})) else None
  }

  /** The queue of the worker has an entry for slot `i`. */
  predicate Registered(wk: Worker, i: nat) { exists fd :: fd in wk.queue && wk.queue[fd] == i }

  /** The worker works on an event. */
  predicate Current(wk: Worker) { wk.batch != [] && wk.batch[0] < |wk.clients| }

  /** Before the threads start: every slot free and reset, nothing open. */
  function Initial(numWorkers: nat, numSlots: nat, numAccepters: nat): State
  {
    State(seq(numWorkers, _ => Worker(seq(numSlots, i => i), numSlots, seq(numSlots, _ => Client(0, true)), map[], Serving, [], {})),
          seq(numAccepters, _ => Idle), {}, {})
  }

  function Replay(s: State, run: seq<Event>): Option<State>
  {
    if run == [] then Some(s)
    else
      match Replay(s, run[..|run| - 1])
      case None => None
      case Some(t) => Step(t, run[|run| - 1])
  }

  ghost predicate Reachable(s: State, numWorkers: nat, numSlots: nat, numAccepters: nat)
  {
    exists run :: Replay(Initial(numWorkers, numSlots, numAccepters), run) == Some(s)
  }

  // ----- Who holds what -----

  datatype SlotHolder = FreeList | ByAccepter(a: nat) | InQueue(fd: int) | Retiring | Lost

  datatype SocketHolder = Accepting(a: nat) | Slot(w: nat, i: nat)

  predicate IsRetiring(wk: Worker) { wk.phase == Closing || wk.phase == Cleaning || wk.phase == Pushing }

  /** Slot `i` of worker `w` is where holder `h` finds it. */
  ghost predicate Holds(s: State, w: nat, i: nat, h: SlotHolder)
    requires w < |s.workers|
  {
    var wk := s.workers[w];
    match h
    case FreeList => i in wk.free
    case ByAccepter(a) => IsHandedOver(s, w, i, a)
    case InQueue(fd) => fd in wk.queue && wk.queue[fd] == i
    case Retiring => IsRetiring(wk) && wk.batch != [] && wk.batch[0] == i
    case Lost => i in wk.lost
  }

  /** Descriptor `fd` is what `h` works with. */
  ghost predicate Uses(s: State, fd: int, h: SocketHolder)
  {
    match h
    case Accepting(a) => a < |s.accepters| && !s.accepters[a].Idle? && s.accepters[a].fd == fd
    case Slot(w, i) =>
      && w < |s.workers| && i < |s.workers[w].clients| && s.workers[w].clients[i].sockfd == fd
      && (Holds(s, w, i, InQueue(fd)) || Holds(s, w, i, Lost) || (Holds(s, w, i, Retiring) && s.workers[w].phase == Closing))
  }

  // ----- The invariant -----

  /** Worker by worker: `h` names the holder of every slot. */
  ghost predicate WorkerOk(wk: Worker, h: seq<SlotHolder>, n: nat)
  {
    && |wk.clients| == n == |h|
    && wk.count == |wk.free| && NoDuplicates(wk.free)
    && (forall i :: i in wk.free ==> i < n && h[i] == FreeList)
    && (forall i :: 0 <= i < n && h[i] == FreeList ==> i in wk.free)
    && (forall i :: 0 <= i < n && (h[i] == FreeList || h[i].ByAccepter?) ==> wk.clients[i].unused)
    && (forall fd :: fd in wk.queue ==> wk.queue[fd] < n && h[wk.queue[fd]] == InQueue(fd))
    && (forall i :: 0 <= i < n && h[i].InQueue? ==>
                      h[i].fd in wk.queue && wk.queue[h[i].fd] == i && wk.clients[i].sockfd == h[i].fd)
    && (forall i :: i in wk.lost ==> i < n && h[i] == Lost)
    && (forall i :: 0 <= i < n && h[i] == Lost ==> i in wk.lost)
    && BatchOk(wk, h, n)
  }

  /** What is left of a batch is registered, except for the slot that is being retired. */
  ghost predicate BatchOk(wk: Worker, h: seq<SlotHolder>, n: nat)
    requires |h| == n == |wk.clients|
  {
    && (forall j :: 0 <= j < |wk.batch| ==> wk.batch[j] < n) && |wk.batch| <= 64
    && (forall j :: (if IsRetiring(wk) then 1 else 0) <= j < |wk.batch| ==> h[wk.batch[j]].InQueue?)
    && NoDuplicates(wk.batch)
    && (wk.phase != Serving ==> wk.batch != [])
    && (IsRetiring(wk) ==> h[wk.batch[0]] == Retiring)
    && (forall i :: 0 <= i < n && h[i] == Retiring ==> IsRetiring(wk) && wk.batch[0] == i)
    && (wk.phase == Pushing ==> wk.clients[wk.batch[0]].unused)
  }

  ghost predicate WorkersOk(s: State, hs: seq<seq<SlotHolder>>, n: nat)
  {
    && |hs| == |s.workers|
    && (forall w :: 0 <= w < |hs| ==> |hs[w]| == n && |s.workers[w].clients| == n && WorkerOk(s.workers[w], hs[w], n))
  }

  ghost predicate HandsOver(s: State, hs: seq<seq<SlotHolder>>, n: nat, a: nat, acc: Accepter)
    requires WorkersOk(s, hs, n) && acc.Handing?
  {
    && acc.worker < |hs| && acc.slot < n && hs[acc.worker][acc.slot] == ByAccepter(a)
    && s.workers[acc.worker].clients[acc.slot].sockfd == acc.fd
  }

  predicate IsHandedOver(s: State, w: nat, i: nat, a: nat)
  {
    a < |s.accepters| && s.accepters[a].Handing? && s.accepters[a].worker == w && s.accepters[a].slot == i
  }

  ghost predicate AcceptersOk(s: State, hs: seq<seq<SlotHolder>>, n: nat)
    requires WorkersOk(s, hs, n)
  {
    && (forall a :: 0 <= a < |s.accepters| && s.accepters[a].Handing? ==>
                      HandsOver(s, hs, n, a, s.accepters[a]))
    && (forall w, i :: 0 <= w < |hs| && 0 <= i < n && hs[w][i].ByAccepter? ==> IsHandedOver(s, w, i, hs[w][i].a))
    && (forall a :: 0 <= a < |s.accepters| && s.accepters[a].Scoring? ==> |s.accepters[a].observed| <= |s.workers|)
  }

  /** A slot whose descriptor is open and its own. */
  predicate Live(wk: Worker, h: SlotHolder)
  {
    h.InQueue? || h == Lost || (h == Retiring && wk.phase == Closing)
  }

  /** `ow` names what every open socket is used by. */
  ghost predicate SocketsOk(s: State, hs: seq<seq<SlotHolder>>, ow: map<int, SocketHolder>, n: nat)
    requires WorkersOk(s, hs, n)
  {
    && ow.Keys == s.sockets && s.sockets !! s.others
    && (forall a :: 0 <= a < |s.accepters| && !s.accepters[a].Idle? ==>
                      s.accepters[a].fd in ow && ow[s.accepters[a].fd] == Accepting(a))
    && (forall w, i :: 0 <= w < |hs| && 0 <= i < n && Live(s.workers[w], hs[w][i]) ==>
                         s.workers[w].clients[i].sockfd in ow && ow[s.workers[w].clients[i].sockfd] == Slot(w, i))
    && (forall fd :: fd in ow ==> OwnerOk(s, hs, n, fd, ow[fd]))
  }

  ghost predicate OwnerOk(s: State, hs: seq<seq<SlotHolder>>, n: nat, fd: int, o: SocketHolder)
    requires WorkersOk(s, hs, n)
  {
    match o
    case Accepting(a) => a < |s.accepters| && !s.accepters[a].Idle? && s.accepters[a].fd == fd
    case Slot(w, i) => w < |hs| && i < n && Live(s.workers[w], hs[w][i]) && s.workers[w].clients[i].sockfd == fd
  }

  ghost predicate Good(s: State, hs: seq<seq<SlotHolder>>, ow: map<int, SocketHolder>, n: nat)
  {
    WorkersOk(s, hs, n) && AcceptersOk(s, hs, n) && SocketsOk(s, hs, ow, n)
  }

  lemma InitialIsGood(numWorkers: nat, n: nat, numAccepters: nat)
    ensures Good(Initial(numWorkers, n, numAccepters), seq(numWorkers, _ => seq(n, _ => FreeList)), map[], n)
  {
    var hs := seq(numWorkers, _ => seq(n, _ => FreeList));
    forall w | 0 <= w < numWorkers
      ensures WorkerOk(Initial(numWorkers, n, numAccepters).workers[w], hs[w], n)
    {
      var free := seq(n, i => i);
      forall i | 0 <= i < n
        ensures i in free
      {
        assert free[i] == i;
      }
    }
  }

  // ----- Every step keeps it -----

  lemma AcceptKeeps(s: State, a: nat, fd: int, hs: seq<seq<SlotHolder>>, ow: map<int, SocketHolder>, n: nat)
    requires Good(s, hs, ow, n) && Step(s, Accept(a, fd)).Some?
    ensures Good(Step(s, Accept(a, fd)).value, hs, ow[fd := Accepting(a)], n)
  {
    hide WorkerOk;
  }

  lemma ScoreKeeps(s: State, a: nat, hs: seq<seq<SlotHolder>>, ow: map<int, SocketHolder>, n: nat)
    requires Good(s, hs, ow, n) && Step(s, Score(a)).Some?
    ensures Good(Step(s, Score(a)).value, hs, ow, n)
  {
    hide WorkerOk;
  }

  lemma RefuseKeeps(s: State, a: nat, hs: seq<seq<SlotHolder>>, ow: map<int, SocketHolder>, n: nat)
    requires Good(s, hs, ow, n) && Step(s, Refuse(a)).Some?
    ensures Good(Step(s, Refuse(a)).value, hs, ow - {s.accepters[a].fd}, n)
  {
    hide WorkerOk;
  }

  /** Holder `x` for slot `i` of worker `w`. */
  function Hand(hs: seq<seq<SlotHolder>>, w: nat, i: nat, x: SlotHolder): seq<seq<SlotHolder>>
    requires w < |hs| && i < |hs[w]|
  {
    hs[w := hs[w][i := x]]
  }

  /** A slot changes hands within its worker. */
  ghost predicate Local(wk: Worker, h: seq<SlotHolder>, wk': Worker, h': seq<SlotHolder>, n: nat)
  {
    && |h| == |h'| == |wk.clients| == |wk'.clients| == n
    && (forall i :: 0 <= i < n && (h[i].ByAccepter? || h'[i].ByAccepter?) ==>
                      h[i] == h'[i] && wk'.clients[i].sockfd == wk.clients[i].sockfd)
    && (forall i :: 0 <= i < n && (Live(wk, h[i]) || Live(wk', h'[i])) ==>
                      Live(wk, h[i]) && Live(wk', h'[i]) && wk'.clients[i].sockfd == wk.clients[i].sockfd)
  }

  lemma LocalKeeps(s: State, w: nat, wk': Worker, h': seq<SlotHolder>, hs: seq<seq<SlotHolder>>,
                   ow: map<int, SocketHolder>, n: nat)
    requires Good(s, hs, ow, n) && w < |hs| && WorkerOk(wk', h', n) && Local(s.workers[w], hs[w], wk', h', n)
    ensures Good(s.(workers := s.workers[w := wk']), hs[w := h'], ow, n)
  {
    hide WorkerOk, Live;
  }

  // ----- A slot is taken and registered -----

  /** An accepter goes over to `acc`, and with it slot `i` of worker `w` to holder `x`. */
  function Handover(s: State, a: nat, acc: Accepter, w: nat, wk: Worker): State
    requires a < |s.accepters| && w < |s.workers|
  {
    s.(accepters := s.accepters[a := acc], workers := s.workers[w := wk])
  }

  /** The accepter gets the slot, or gives it away. */
  ghost predicate IsHandover(a: nat, old': Accepter, acc: Accepter, w: nat, wk: Worker, wk': Worker, i: nat,
                             h: SlotHolder, x: SlotHolder)
  {
    && |wk.clients| == |wk'.clients| && i < |wk.clients| && wk'.phase == wk.phase
    && (forall j :: 0 <= j < |wk.clients| && j != i ==> wk'.clients[j] == wk.clients[j])
    && !old'.Idle? && wk'.clients[i].sockfd == old'.fd
    && (if acc.Idle? then old'.Handing? && h == ByAccepter(a) && (x.InQueue? || x == Lost)
        else acc == Handing(old'.fd, w, i) && old'.Scoring? && h == FreeList && x == ByAccepter(a))
  }

  lemma HandoverKeepsAccepters(s: State, a: nat, acc: Accepter, w: nat, wk: Worker, i: nat, x: SlotHolder,
                               hs: seq<seq<SlotHolder>>, n: nat)
    requires WorkersOk(s, hs, n) && AcceptersOk(s, hs, n) && a < |s.accepters| && w < |hs| && i < n
    requires |wk.clients| == n && WorkerOk(wk, hs[w][i := x], n)
    requires IsHandover(a, s.accepters[a], acc, w, s.workers[w], wk, i, hs[w][i], x)
    ensures WorkersOk(Handover(s, a, acc, w, wk), Hand(hs, w, i, x), n)
    ensures AcceptersOk(Handover(s, a, acc, w, wk), Hand(hs, w, i, x), n)
  {
    hide WorkerOk;
  }

  lemma HandoverKeepsSockets(s: State, a: nat, acc: Accepter, w: nat, wk: Worker, i: nat, x: SlotHolder,
                             hs: seq<seq<SlotHolder>>, ow: map<int, SocketHolder>, n: nat)
    requires WorkersOk(s, hs, n) && SocketsOk(s, hs, ow, n) && a < |s.accepters| && w < |hs| && i < n
    requires |wk.clients| == n && WorkerOk(wk, hs[w][i := x], n)
    requires IsHandover(a, s.accepters[a], acc, w, s.workers[w], wk, i, hs[w][i], x)
    ensures WorkersOk(Handover(s, a, acc, w, wk), Hand(hs, w, i, x), n)
    ensures SocketsOk(Handover(s, a, acc, w, wk), Hand(hs, w, i, x),
                      if acc.Idle? then ow[s.accepters[a].fd := Slot(w, i)] else ow, n)
  {
    hide WorkerOk;
    var s', hs' := Handover(s, a, acc, w, wk), Hand(hs, w, i, x);
    var fd := s.accepters[a].fd;
    var ow' := if acc.Idle? then ow[fd := Slot(w, i)] else ow;
    forall v, j | 0 <= v < |hs'| && 0 <= j < n && Live(s'.workers[v], hs'[v][j])
      ensures s'.workers[v].clients[j].sockfd in ow' && ow'[s'.workers[v].clients[j].sockfd] == Slot(v, j)
    {
      if v != w || j != i {
        assert Live(s.workers[v], hs[v][j]);
        assert s'.workers[v].clients[j] == s.workers[v].clients[j];
      }
    }
    forall f | f in ow'
      ensures OwnerOk(s', hs', n, f, ow'[f])
    {
      if f in ow {
        assert OwnerOk(s, hs, n, f, ow[f]);
      }
    }
  }

  lemma RestOfTheList(free: seq<nat>)
    requires free != [] && NoDuplicates(free)
    ensures NoDuplicates(free[1..])
    ensures forall j :: j in free[1..] <==> j in free && j != free[0]
  {
    assert free == [free[0]] + free[1..];
    assert forall k :: 0 <= k < |free[1..]| ==> free[1..][k] == free[k + 1];
  }

  lemma TakenIsOk(wk: Worker, h: seq<SlotHolder>, n: nat, a: nat, fd: int)
    requires WorkerOk(wk, h, n) && wk.free != []
    ensures var i := wk.free[0];
            && i < n && h[i] == FreeList
            && WorkerOk(Taken(wk, fd), h[i := ByAccepter(a)], n)
  {
    var i := wk.free[0];
    assert i in wk.free;
    RestOfTheList(wk.free);
    assert BatchOk(Taken(wk, fd), h[i := ByAccepter(a)], n);
    hide BatchOk, NoDuplicates;
  }

  /** Taking a slot changes its descriptor only. */
  lemma TakenIsLocal(wk: Worker, fd: int)
    requires wk.free != [] && wk.free[0] < |wk.clients|
    ensures var wk' := Taken(wk, fd);
            && wk'.phase == wk.phase && |wk'.clients| == |wk.clients| && wk'.clients[wk.free[0]].sockfd == fd
            && forall j :: 0 <= j < |wk.clients| && j != wk.free[0] ==> wk'.clients[j] == wk.clients[j]
  {
  }

  lemma TakeKeeps(s: State, a: nat, hs: seq<seq<SlotHolder>>, ow: map<int, SocketHolder>, n: nat)
    requires Good(s, hs, ow, n) && Step(s, Take(a)).Some? && s.workers[FirstBest(s.accepters[a].observed)].free != []
    ensures var w := FirstBest(s.accepters[a].observed);
            var i := s.workers[w].free[0];
            i < n && Good(Step(s, Take(a)).value, Hand(hs, w, i, ByAccepter(a)), ow, n)
  {
    hide WorkerOk, FirstBest, Taken;
    var w := FirstBest(s.accepters[a].observed);
    var i := s.workers[w].free[0];
    var fd := s.accepters[a].fd;
    TakenIsOk(s.workers[w], hs[w], n, a, fd);
    TakenIsLocal(s.workers[w], fd);
    HandoverKeepsAccepters(s, a, Handing(fd, w, i), w, Taken(s.workers[w], fd), i, ByAccepter(a), hs, n);
    HandoverKeepsSockets(s, a, Handing(fd, w, i), w, Taken(s.workers[w], fd), i, ByAccepter(a), hs, ow, n);
    hide WorkersOk, AcceptersOk, SocketsOk;
  }

  lemma TakeNothingKeeps(s: State, a: nat, hs: seq<seq<SlotHolder>>, ow: map<int, SocketHolder>, n: nat)
    requires Good(s, hs, ow, n) && Step(s, Take(a)).Some? && s.workers[FirstBest(s.accepters[a].observed)].free == []
    ensures Good(Step(s, Take(a)).value, hs, ow, n)
  {
    hide WorkerOk, FirstBest;
  }

  lemma RegisteredIsOk(wk: Worker, h: seq<SlotHolder>, n: nat, i: nat, fd: int, succeeds: bool)
    requires WorkerOk(wk, h, n) && i < n && h[i].ByAccepter? && wk.clients[i].sockfd == fd
    requires succeeds ==> fd !in wk.queue
    ensures WorkerOk(Registering(wk, i, fd, succeeds), h[i := if succeeds then InQueue(fd) else Lost], n)
  {
    var wk' := Registering(wk, i, fd, succeeds);
    var h' := h[i := if succeeds then InQueue(fd) else Lost];
    assert BatchOk(wk', h', n);
    hide BatchOk, NoDuplicates;
  }

  /** Registering changes neither the phase of the worker nor its clients. */
  lemma RegisteringIsLocal(wk: Worker, i: nat, fd: int, succeeds: bool)
    ensures Registering(wk, i, fd, succeeds).clients == wk.clients && Registering(wk, i, fd, succeeds).phase == wk.phase
  {
  }

  lemma RegisterKeeps(s: State, a: nat, succeeds: bool, hs: seq<seq<SlotHolder>>, ow: map<int, SocketHolder>, n: nat)
    requires Good(s, hs, ow, n) && Step(s, Register(a, succeeds)).Some?
    ensures var Handing(fd, w, i) := s.accepters[a];
            w < |hs| && i < |hs[w]|
            && Good(Step(s, Register(a, succeeds)).value,
                 Hand(hs, w, i, if succeeds then InQueue(fd) else Lost), ow[fd := Slot(w, i)], n)
  {
    hide WorkerOk, Registering;
    var Handing(fd, w, i) := s.accepters[a];
    var x := if succeeds then InQueue(fd) else Lost;
    RegisteredIsOk(s.workers[w], hs[w], n, i, fd, succeeds);
    RegisteringIsLocal(s.workers[w], i, fd, succeeds);
    HandoverKeepsAccepters(s, a, Idle, w, Registering(s.workers[w], i, fd, succeeds), i, x, hs, n);
    HandoverKeepsSockets(s, a, Idle, w, Registering(s.workers[w], i, fd, succeeds), i, x, hs, ow, n);
    hide WorkersOk, AcceptersOk, SocketsOk;
  }

  // ----- The steps of a worker -----

  lemma WaitedIsOk(wk: Worker, h: seq<SlotHolder>, n: nat, batch: seq<nat>)
    requires WorkerOk(wk, h, n) && wk.phase == Serving && wk.batch == []
    requires |batch| <= MAX_EVENTS && NoDuplicates(batch) && forall i :: i in batch ==> Registered(wk, i)
    ensures WorkerOk(wk.(batch := batch), h, n) && Local(wk, h, wk.(batch := batch), h, n)
  {
    forall j | 0 <= j < |batch|
      ensures batch[j] < n && h[batch[j]].InQueue?
    {
      assert batch[j] in batch && Registered(wk, batch[j]);
      var fd :| fd in wk.queue && wk.queue[fd] == batch[j];
    }
    assert BatchOk(wk.(batch := batch), h, n);
    hide BatchOk, NoDuplicates;
  }

  lemma WaitKeeps(s: State, w: nat, batch: seq<nat>, hs: seq<seq<SlotHolder>>, ow: map<int, SocketHolder>, n: nat)
    requires Good(s, hs, ow, n) && Step(s, Wait(w, batch)).Some?
    ensures Good(Step(s, Wait(w, batch)).value, hs, ow, n)
  {
    hide WorkerOk, Local, AcceptersOk, SocketsOk, NoDuplicates, Registered;
    WaitedIsOk(s.workers[w], hs[w], n, batch);
    assert hs[w := hs[w]] == hs;
    LocalKeeps(s, w, s.workers[w].(batch := batch), hs[w], hs, ow, n);
  }

  lemma ServedIsOk(wk: Worker, h: seq<SlotHolder>, n: nat, over: bool)
    requires WorkerOk(wk, h, n) && wk.phase == Serving && Current(wk)
    ensures WorkerOk(Served(wk, over), h, n) && Local(wk, h, Served(wk, over), h, n)
  {
    var i := wk.batch[0];
    assert h[i].InQueue?;
    assert BatchOk(Served(wk, over), h, n) by {
      RestHasNoDuplicates(wk.batch);
      assert forall j :: 0 <= j < |wk.batch[1..]| ==> wk.batch[1..][j] == wk.batch[j + 1];
    }
    hide BatchOk, NoDuplicates;
  }

  lemma RestHasNoDuplicates(s: seq<nat>)
    requires s != [] && NoDuplicates(s)
    ensures NoDuplicates(s[1..]) && s[0] !in s[1..]
  {
    assert forall k :: 0 <= k < |s[1..]| ==> s[1..][k] == s[k + 1];
  }

  lemma ServeKeeps(s: State, w: nat, over: bool, hs: seq<seq<SlotHolder>>, ow: map<int, SocketHolder>, n: nat)
    requires Good(s, hs, ow, n) && Step(s, Serve(w, over)).Some?
    ensures Good(Step(s, Serve(w, over)).value, hs, ow, n)
  {
    hide WorkerOk, Local, AcceptersOk, SocketsOk, Served;
    ServedIsOk(s.workers[w], hs[w], n, over);
    assert hs[w := hs[w]] == hs;
    LocalKeeps(s, w, Served(s.workers[w], over), hs[w], hs, ow, n);
  }

  lemma UnregisteredIsOk(wk: Worker, h: seq<SlotHolder>, n: nat)
    requires WorkerOk(wk, h, n) && wk.phase == Removing && Current(wk)
    ensures var h' := h[wk.batch[0] := Retiring];
            wk.batch[0] < |h| && WorkerOk(Unregistered(wk), h', n) && Local(wk, h, Unregistered(wk), h', n)
  {
    var i := wk.batch[0];
    assert h[i].InQueue?;
    assert BatchOk(Unregistered(wk), h[i := Retiring], n);
    hide BatchOk, NoDuplicates;
  }

  lemma UnregisterKeeps(s: State, w: nat, hs: seq<seq<SlotHolder>>, ow: map<int, SocketHolder>, n: nat)
    requires Good(s, hs, ow, n) && Step(s, Unregister(w)).Some?
    ensures w < |hs| && s.workers[w].batch[0] < |hs[w]|
            && Good(Step(s, Unregister(w)).value, Hand(hs, w, s.workers[w].batch[0], Retiring), ow, n)
  {
    hide WorkerOk, Local, AcceptersOk, SocketsOk, Unregistered;
    UnregisteredIsOk(s.workers[w], hs[w], n);
    LocalKeeps(s, w, Unregistered(s.workers[w]), hs[w][s.workers[w].batch[0] := Retiring], hs, ow, n);
  }

  lemma CleanedIsOk(wk: Worker, h: seq<SlotHolder>, n: nat)
    requires WorkerOk(wk, h, n) && wk.phase == Cleaning && Current(wk)
    ensures var wk' := Cleaned(wk, wk.batch[0]).(phase := Pushing);
            WorkerOk(wk', h, n) && Local(wk, h, wk', h, n)
  {
    var wk' := Cleaned(wk, wk.batch[0]).(phase := Pushing);
    assert BatchOk(wk', h, n);
    assert h[wk.batch[0]] == Retiring;
    hide BatchOk, NoDuplicates;
  }

  lemma CleanKeeps(s: State, w: nat, hs: seq<seq<SlotHolder>>, ow: map<int, SocketHolder>, n: nat)
    requires Good(s, hs, ow, n) && Step(s, Clean(w)).Some?
    ensures Good(Step(s, Clean(w)).value, hs, ow, n)
  {
    hide WorkerOk, Local, AcceptersOk, SocketsOk, Cleaned;
    CleanedIsOk(s.workers[w], hs[w], n);
    assert hs[w := hs[w]] == hs;
    LocalKeeps(s, w, Cleaned(s.workers[w], s.workers[w].batch[0]).(phase := Pushing), hs[w], hs, ow, n);
  }

  lemma PushedIsOk(wk: Worker, h: seq<SlotHolder>, n: nat)
    requires WorkerOk(wk, h, n) && wk.phase == Pushing && Current(wk)
    ensures var wk' := Pushed(wk, wk.batch[0]).(phase := Serving, batch := wk.batch[1..]);
            var h' := h[wk.batch[0] := FreeList];
            wk.batch[0] < |h| && WorkerOk(wk', h', n) && Local(wk, h, wk', h', n)
  {
    var i := wk.batch[0];
    var wk' := Pushed(wk, i).(phase := Serving, batch := wk.batch[1..]);
    assert h[i] == Retiring && i !in wk.free;
    assert wk'.free == [i] + wk.free;
    assert NoDuplicates(wk'.free);
    assert BatchOk(wk', h[i := FreeList], n) by {
      RestHasNoDuplicates(wk.batch);
      assert forall j :: 0 <= j < |wk.batch[1..]| ==> wk.batch[1..][j] == wk.batch[j + 1];
    }
    assert wk.clients[i].unused;
    hide BatchOk, NoDuplicates;
  }

  lemma PushKeeps(s: State, w: nat, hs: seq<seq<SlotHolder>>, ow: map<int, SocketHolder>, n: nat)
    requires Good(s, hs, ow, n) && Step(s, Push(w)).Some?
    ensures w < |hs| && s.workers[w].batch[0] < |hs[w]|
            && Good(Step(s, Push(w)).value, Hand(hs, w, s.workers[w].batch[0], FreeList), ow, n)
  {
    hide WorkerOk, Local, AcceptersOk, SocketsOk, Pushed;
    var wk := s.workers[w];
    PushedIsOk(wk, hs[w], n);
    LocalKeeps(s, w, Pushed(wk, wk.batch[0]).(phase := Serving, batch := wk.batch[1..]), hs[w][wk.batch[0] := FreeList], hs, ow, n);
  }

  lemma ShutKeeps(s: State, w: nat, hs: seq<seq<SlotHolder>>, ow: map<int, SocketHolder>, n: nat)
    requires Good(s, hs, ow, n) && Step(s, Shut(w)).Some?
    ensures w < |hs| && Good(Step(s, Shut(w)).value, hs, ow - {s.workers[w].clients[s.workers[w].batch[0]].sockfd}, n)
  {
    hide WorkerOk, NoDuplicates;
    var s' := Step(s, Shut(w)).value;
    var i := s.workers[w].batch[0];
    ShutIsOk(s.workers[w], hs[w], n);
    var ow' := ow - {s.workers[w].clients[i].sockfd};
    assert Live(s.workers[w], hs[w][i]);
    forall v, j | 0 <= v < |hs| && 0 <= j < n && Live(s'.workers[v], hs[v][j])
      ensures s'.workers[v].clients[j].sockfd in ow' && ow'[s'.workers[v].clients[j].sockfd] == Slot(v, j)
    {
      assert Live(s.workers[v], hs[v][j]) && s'.workers[v].clients == s.workers[v].clients;
    }
    forall f | f in ow'
      ensures OwnerOk(s', hs, n, f, ow'[f])
    {
      assert OwnerOk(s, hs, n, f, ow[f]);
    }
  }

  lemma ShutIsOk(wk: Worker, h: seq<SlotHolder>, n: nat)
    requires WorkerOk(wk, h, n) && wk.phase == Closing
    ensures var i := wk.batch[0];
            && WorkerOk(wk.(phase := Cleaning), h, n)
            && i < n && h[i] == Retiring
            && forall j :: 0 <= j < n && j != i ==> h[j] != Retiring
  {
  }

  lemma StepKeeps(s: State, e: Event, hs: seq<seq<SlotHolder>>, ow: map<int, SocketHolder>, n: nat)
      returns (hs': seq<seq<SlotHolder>>, ow': map<int, SocketHolder>)
    requires Good(s, hs, ow, n) && Step(s, e).Some?
    ensures Good(Step(s, e).value, hs', ow', n)
  {
    hide WorkerOk, AcceptersOk, SocketsOk, FirstBest;
    hs', ow' := hs, ow;
    match e {
      case Accept(a, fd) =>
        AcceptKeeps(s, a, fd, hs, ow, n);
        ow' := ow[fd := Accepting(a)];
      case Score(a) => ScoreKeeps(s, a, hs, ow, n);
      case Take(a) =>
        var w := FirstBest(s.accepters[a].observed);
        if s.workers[w].free == [] {
          TakeNothingKeeps(s, a, hs, ow, n);
        } else {
          TakeKeeps(s, a, hs, ow, n);
          hs' := Hand(hs, w, s.workers[w].free[0], ByAccepter(a));
        }
      case Refuse(a) =>
        RefuseKeeps(s, a, hs, ow, n);
        ow' := ow - {s.accepters[a].fd};
      case Register(a, succeeds) =>
        RegisterKeeps(s, a, succeeds, hs, ow, n);
        var Handing(fd, w, i) := s.accepters[a];
        hs' := Hand(hs, w, i, if succeeds then InQueue(fd) else Lost);
        ow' := ow[fd := Slot(w, i)];
      case Wait(w, batch) => WaitKeeps(s, w, batch, hs, ow, n);
      case Serve(w, over) => ServeKeeps(s, w, over, hs, ow, n);
      case Unregister(w) =>
        UnregisterKeeps(s, w, hs, ow, n);
        hs' := Hand(hs, w, s.workers[w].batch[0], Retiring);
      case Shut(w) =>
        ShutKeeps(s, w, hs, ow, n);
        ow' := ow - {s.workers[w].clients[s.workers[w].batch[0]].sockfd};
      case Clean(w) => CleanKeeps(s, w, hs, ow, n);
      case Push(w) =>
        PushKeeps(s, w, hs, ow, n);
        hs' := Hand(hs, w, s.workers[w].batch[0], FreeList);
      case Open(fd) => OthersKeep(s, s.others + {fd}, hs, ow, n);
      case Close(fd) => OthersKeep(s, s.others - {fd}, hs, ow, n);
    }
  }

  /** Files come and go beside the sockets. */
  lemma OthersKeep(s: State, others: set<int>, hs: seq<seq<SlotHolder>>, ow: map<int, SocketHolder>, n: nat)
    requires Good(s, hs, ow, n) && forall fd :: fd in others && fd !in s.others ==> fd !in s.sockets
    ensures Good(s.(others := others), hs, ow, n)
  {
    hide WorkerOk;
    assert s.sockets !! s.others;
    forall fd | fd in s.sockets
      ensures fd !in others
    {
      assert fd !in s.others;
    }
  }

  lemma {:induction false} RunsAreGood(numWorkers: nat, n: nat, numAccepters: nat, run: seq<Event>)
      returns (hs: seq<seq<SlotHolder>>, ow: map<int, SocketHolder>)
    requires Replay(Initial(numWorkers, n, numAccepters), run).Some?
    ensures Good(Replay(Initial(numWorkers, n, numAccepters), run).value, hs, ow, n)
  {
    hide Step, Good, Initial;
    if run == [] {
      InitialIsGood(numWorkers, n, numAccepters);
      hs, ow := seq(numWorkers, _ => seq(n, _ => FreeList)), map[];
    } else {
      var last := |run| - 1;
      hs, ow := RunsAreGood(numWorkers, n, numAccepters, run[..last]);
      hs, ow := StepKeeps(Replay(Initial(numWorkers, n, numAccepters), run[..last]).value, run[last], hs, ow, n);
    }
  }

  lemma ReachableIsGood(s: State, numWorkers: nat, n: nat, numAccepters: nat)
      returns (hs: seq<seq<SlotHolder>>, ow: map<int, SocketHolder>)
    requires Reachable(s, numWorkers, n, numAccepters)
    ensures Good(s, hs, ow, n)
  {
    hide Good, Initial, Replay;
    var run :| Replay(Initial(numWorkers, n, numAccepters), run) == Some(s);
    hs, ow := RunsAreGood(numWorkers, n, numAccepters, run);
  }

  // ----- What holds in every reachable state -----

  /** Every slot of every worker is held, and by one holder only. */
  lemma EverySlotHasOneHolder(s: State, numWorkers: nat, n: nat, numAccepters: nat, w: nat, i: nat)
      returns (h: SlotHolder)
    requires Reachable(s, numWorkers, n, numAccepters) && w < |s.workers| && i < n
    ensures Holds(s, w, i, h) && forall h' :: Holds(s, w, i, h') ==> h' == h
  {
    var hs, ow := ReachableIsGood(s, numWorkers, n, numAccepters);
    h := hs[w][i];
    assert WorkerOk(s.workers[w], hs[w], n);
  }

  /** The count is the length of the free list, which names no slot twice; the slots on it are reset. */
  lemma FreeListsAreInOrder(s: State, numWorkers: nat, n: nat, numAccepters: nat, w: nat)
    requires Reachable(s, numWorkers, n, numAccepters) && w < |s.workers|
    ensures var wk := s.workers[w];
            && wk.count == |wk.free| && NoDuplicates(wk.free)
            && (forall i :: i in wk.free ==> i < n == |wk.clients| && wk.clients[i].unused)
  {
    var hs, ow := ReachableIsGood(s, numWorkers, n, numAccepters);
    assert WorkerOk(s.workers[w], hs[w], n);
  }

  /** Every open socket is used by one accepter or one connection, and by no other; no closed one is used. */
  lemma EverySocketHasOneUser(s: State, numWorkers: nat, n: nat, numAccepters: nat, fd: int)
    requires Reachable(s, numWorkers, n, numAccepters)
    ensures fd in s.sockets <==> exists h :: Uses(s, fd, h)
    ensures forall h, h' :: Uses(s, fd, h) && Uses(s, fd, h') ==> h == h'
    ensures fd in s.sockets ==> fd !in s.others
  {
    var hs, ow := ReachableIsGood(s, numWorkers, n, numAccepters);
    forall h | Uses(s, fd, h)
      ensures fd in ow && ow[fd] == h
    {
      if h.Slot? {
        assert WorkerOk(s.workers[h.w], hs[h.w], n);
        assert Live(s.workers[h.w], hs[h.w][h.i]);
      }
    }
    if fd in s.sockets {
      assert OwnerOk(s, hs, n, fd, ow[fd]);
      if ow[fd].Slot? {
        assert WorkerOk(s.workers[ow[fd].w], hs[ow[fd].w], n);
      }
      assert Uses(s, fd, ow[fd]);
    }
  }

  /** A registered slot is in use, owned by the worker it is registered with, under the descriptor it works with. */
  lemma RegisteredSlotsAreInUse(s: State, numWorkers: nat, n: nat, numAccepters: nat, w: nat, fd: int)
    requires Reachable(s, numWorkers, n, numAccepters) && w < |s.workers| && fd in s.workers[w].queue
    ensures var wk := s.workers[w];
            var i := wk.queue[fd];
            && i < n == |wk.clients| && i !in wk.free && i !in wk.lost
            && wk.clients[i].sockfd == fd && fd in s.sockets
    ensures forall v, f :: 0 <= v < |s.workers| && f in s.workers[v].queue && (v != w || s.workers[v].queue[f] != s.workers[w].queue[fd]) ==>
              f != fd
    ensures forall f :: f in s.workers[w].queue && f != fd ==> s.workers[w].queue[f] != s.workers[w].queue[fd]
  {
    var hs, ow := ReachableIsGood(s, numWorkers, n, numAccepters);
    assert WorkerOk(s.workers[w], hs[w], n);
    assert Live(s.workers[w], hs[w][s.workers[w].queue[fd]]);
    forall v, f | 0 <= v < |s.workers| && f in s.workers[v].queue && f == fd
      ensures v == w
    {
      assert WorkerOk(s.workers[v], hs[v], n);
      assert Live(s.workers[v], hs[v][s.workers[v].queue[f]]);
    }
  }

  /** While a worker goes through a batch, every event it has not handled yet is about a slot that is still registered. */
  lemma BatchesStayLive(s: State, numWorkers: nat, n: nat, numAccepters: nat, w: nat, j: nat)
    requires Reachable(s, numWorkers, n, numAccepters) && w < |s.workers| && j < |s.workers[w].batch|
    requires j > 0 || !IsRetiring(s.workers[w])
    ensures Registered(s.workers[w], s.workers[w].batch[j]) && |s.workers[w].batch| <= 64
  {
    var hs, ow := ReachableIsGood(s, numWorkers, n, numAccepters);
    assert WorkerOk(s.workers[w], hs[w], n);
    assert hs[w][s.workers[w].batch[j]].InQueue?;
  }

  /**
   * An accepter scores the workers in order, each by its count at that time, and takes the first slot of the first worker
   * with the greatest score, or none if that worker has none left.
   */
  lemma TakesFromTheBest(s: State, numWorkers: nat, n: nat, numAccepters: nat, a: nat)
    requires Reachable(s, numWorkers, n, numAccepters) && Step(s, Take(a)).Some?
    ensures var t, observed, fd := Step(s, Take(a)).value, s.accepters[a].observed, s.accepters[a].fd;
            exists w ::
              && 0 <= w < |s.workers| == |observed|
              && (forall k :: 0 <= k < |observed| ==> observed[k] <= observed[w])
              && (forall k :: 0 <= k < w ==> observed[k] < observed[w])
              && (s.workers[w].free == [] ==> t.accepters[a] == Refusing(fd) && t.workers == s.workers)
              && (s.workers[w].free != [] ==>
                    && t.accepters[a] == Handing(fd, w, s.workers[w].free[0])
                    && t.workers[w].free == s.workers[w].free[1..] && t.workers[w].count == s.workers[w].count - 1
                    && s.workers[w].free[0] < |t.workers[w].clients| && t.workers[w].clients[s.workers[w].free[0]].sockfd == fd)
  {
    hide Reachable, Good;
    var w := FirstBest(s.accepters[a].observed);
    assert 0 <= w < |s.workers|;
  }

  lemma ScoresByCount(s: State, a: nat)
    requires Step(s, Score(a)).Some?
    ensures var t, observed := Step(s, Score(a)).value, s.accepters[a].observed;
            && |observed| < |s.workers| && s.workers[|observed|].count >= 0
            && t == s.(accepters := s.accepters[a := Scoring(s.accepters[a].fd, observed + [s.workers[|observed|].count])])
  {
  }

  // ----- What becomes of a connection -----

  /** A connection that is not over keeps its registration and its socket, and the worker goes on with its batch. */
  lemma KeptAlive(s: State, numWorkers: nat, n: nat, numAccepters: nat, w: nat)
    requires Reachable(s, numWorkers, n, numAccepters) && Step(s, Serve(w, false)).Some?
    ensures var t, wk := Step(s, Serve(w, false)).value, s.workers[w];
            var i, fd := wk.batch[0], wk.clients[wk.batch[0]].sockfd;
            && t.sockets == s.sockets && fd in t.sockets
            && t.workers[w].phase == Serving && t.workers[w].batch == wk.batch[1..] && t.workers[w].free == wk.free
            && fd in t.workers[w].queue && t.workers[w].queue[fd] == i && t.workers[w].clients[i].sockfd == fd
  {
    hide Reachable;
    var hs, ow := ReachableIsGood(s, numWorkers, n, numAccepters);
    var wk := s.workers[w];
    assert WorkerOk(wk, hs[w], n);
    assert hs[w][wk.batch[0]].InQueue? && Live(wk, hs[w][wk.batch[0]]);
  }

  const RETIREMENT := (w: nat) => [Serve(w, true), Unregister(w), Shut(w), Clean(w), Push(w)]

  /**
   * A connection that is over leaves the queue, its socket is closed, and its slot becomes the first free one, reset;
   * these are the worker's next steps, and each of them can be taken.
   */
  lemma Retires(s: State, numWorkers: nat, n: nat, numAccepters: nat, w: nat)
    requires Reachable(s, numWorkers, n, numAccepters) && Step(s, Serve(w, true)).Some?
    ensures var wk := s.workers[w];
            var i, fd := wk.batch[0], wk.clients[wk.batch[0]].sockfd;
            Replay(s, RETIREMENT(w)).Some? &&
            var t := Replay(s, RETIREMENT(w)).value;
            && w < |t.workers| && i < |t.workers[w].clients|
            && t.workers[w].free == [i] + wk.free && t.workers[w].count == wk.count + 1 && t.workers[w].clients[i].unused
            && fd !in t.sockets && t.workers[w].queue == wk.queue - {fd} && fd in wk.queue && wk.queue[fd] == i
            && t.workers[w].phase == Serving && t.workers[w].batch == wk.batch[1..]
  {
    hide Reachable;
    var hs, ow := ReachableIsGood(s, numWorkers, n, numAccepters);
    assert WorkerOk(s.workers[w], hs[w], n);
    assert hs[w][s.workers[w].batch[0]].InQueue?;
    hide WorkerOk, Good, WorkersOk, SocketsOk, AcceptersOk, Step, Replay;
    RetirementRuns(s, w);
  }

  lemma RetirementRuns(s: State, w: nat)
    requires Step(s, Serve(w, true)).Some?
    ensures var wk := s.workers[w];
            var i, fd := wk.batch[0], wk.clients[wk.batch[0]].sockfd;
            Replay(s, RETIREMENT(w)).Some? &&
            var t := Replay(s, RETIREMENT(w)).value;
            && w < |t.workers| && i < |t.workers[w].clients|
            && t.workers[w].free == [i] + wk.free && t.workers[w].count == wk.count + 1 && t.workers[w].clients[i].unused
            && fd !in t.sockets && t.workers[w].queue == wk.queue - {fd}
            && t.workers[w].phase == Serving && t.workers[w].batch == wk.batch[1..]
  {
    var s1, s2, s3, s4, s5 := StepsOfRetirement(s, w);
    hide Step, Replay;
    var run := RETIREMENT(w);
    NothingYet(s);
    assert run[..0] == [] && run[..5] == run;
    Next(s, run, 0, s, s1);
    Next(s, run, 1, s1, s2);
    Next(s, run, 2, s2, s3);
    Next(s, run, 3, s3, s4);
    Next(s, run, 4, s4, s5);
  }

  lemma StepsOfRetirement(s: State, w: nat) returns (s1: State, s2: State, s3: State, s4: State, s5: State)
    requires Step(s, Serve(w, true)).Some?
    ensures Step(s, Serve(w, true)) == Some(s1) && Step(s1, Unregister(w)) == Some(s2) && Step(s2, Shut(w)) == Some(s3)
    ensures Step(s3, Clean(w)) == Some(s4) && Step(s4, Push(w)) == Some(s5)
    ensures var wk := s.workers[w];
            var i, fd := wk.batch[0], wk.clients[wk.batch[0]].sockfd;
            && w < |s5.workers| && i < |s5.workers[w].clients|
            && s5.workers[w].free == [i] + wk.free && s5.workers[w].count == wk.count + 1 && s5.workers[w].clients[i].unused
            && fd !in s5.sockets && s5.workers[w].queue == wk.queue - {fd}
            && s5.workers[w].phase == Serving && s5.workers[w].batch == wk.batch[1..]
  {
    hide FirstBest, NoDuplicates, Registered;
    var wk := s.workers[w];
    var i, fd := wk.batch[0], wk.clients[wk.batch[0]].sockfd;
    s1 := Step(s, Serve(w, true)).value;
    assert s1.workers[w].phase == Removing && s1.workers[w].batch == wk.batch && s1.workers[w].clients[i].sockfd == fd;
    s2 := Step(s1, Unregister(w)).value;
    assert s2.workers[w].phase == Closing && s2.workers[w].queue == wk.queue - {fd} && s2.workers[w].clients == s1.workers[w].clients;
    s3 := Step(s2, Shut(w)).value;
    assert s3.workers[w].phase == Cleaning && fd !in s3.sockets;
    s4 := Step(s3, Clean(w)).value;
    assert s4.workers[w].phase == Pushing && s4.workers[w].clients[i].unused;
    s5 := Step(s4, Push(w)).value;
  }

  /** A worker is retiring a connection exactly if the last connection that it served was over, and is not pushed yet. */
  lemma {:induction false} RetiresOnlyWhatIsOver(numWorkers: nat, n: nat, numAccepters: nat, run: seq<Event>, w: nat)
    requires Replay(Initial(numWorkers, n, numAccepters), run).Some? && w < numWorkers
    ensures var s := Replay(Initial(numWorkers, n, numAccepters), run).value;
            w < |s.workers| && (s.workers[w].phase != Serving <==> exists k :: EndsIt(run, w, k))
    decreases |run|
  {
    if run != [] {
      var last := |run| - 1;
      RetiresOnlyWhatIsOver(numWorkers, n, numAccepters, run[..last], w);
      var s := Replay(Initial(numWorkers, n, numAccepters), run[..last]).value;
      PhaseStep(s, run[last], w);
      if run[last] == Serve(w, true) {
        assert EndsIt(run, w, last);
      } else if exists over :: run[last] == Serve(w, over) || run[last] == Push(w) {
      } else {
        forall k
          ensures EndsIt(run, w, k) <==> EndsIt(run[..last], w, k)
        {
          EndsItBefore(run, w, k);
        }
      }
    }
  }

  /** Visit `k` of the run is the last time that worker `w` served a connection; it was over, and no slot was pushed since. */
  ghost predicate EndsIt(run: seq<Event>, w: nat, k: int)
  {
    0 <= k < |run| && run[k] == Serve(w, true) && forall j :: k < j < |run| ==> !(run[j].Serve? && run[j].w == w) && run[j] != Push(w)
  }

  lemma EndsItBefore(run: seq<Event>, w: nat, k: int)
    requires run != []
    requires var e := run[|run| - 1]; !(e.Serve? && e.w == w) && e != Push(w)
    ensures EndsIt(run, w, k) <==> EndsIt(run[..|run| - 1], w, k)
  {
  }

  /** What a step does to the phase of a worker. */
  lemma PhaseStep(s: State, e: Event, w: nat)
    requires w < |s.workers| && Step(s, e).Some?
    ensures var t := Step(s, e).value;
            w < |t.workers| &&
            if e.Serve? && e.w == w then s.workers[w].phase == Serving && (t.workers[w].phase != Serving <==> e.over)
            else if e == Push(w) then t.workers[w].phase == Serving
            else t.workers[w].phase == Serving <==> s.workers[w].phase == Serving
  {
    hide FirstBest, NoDuplicates, Registered;
  }

  /** A registration stays until the worker takes it back. */
  lemma {:induction false} RegisteredUntilUnregistered(s: State, run: seq<Event>, w: nat, fd: int)
    requires w < |s.workers| && fd in s.workers[w].queue && Replay(s, run).Some? && Unregister(w) !in run
    ensures var t := Replay(s, run).value;
            w < |t.workers| && fd in t.workers[w].queue && t.workers[w].queue[fd] == s.workers[w].queue[fd]
    decreases |run|
  {
    if run != [] {
      RegisteredUntilUnregistered(s, run[..|run| - 1], w, fd);
      QueueStep(Replay(s, run[..|run| - 1]).value, run[|run| - 1], w, fd);
    }
  }

  lemma QueueStep(s: State, e: Event, w: nat, fd: int)
    requires w < |s.workers| && fd in s.workers[w].queue && Step(s, e).Some? && e != Unregister(w)
    ensures var t := Step(s, e).value;
            w < |t.workers| && fd in t.workers[w].queue && t.workers[w].queue[fd] == s.workers[w].queue[fd]
  {
    hide FirstBest, NoDuplicates, Registered;
  }

  /** A slot that is registered is in the queue under its descriptor from then on; one that is not belongs to nobody. */
  lemma RegistersOrLoses(s: State, numWorkers: nat, n: nat, numAccepters: nat, a: nat)
    requires Reachable(s, numWorkers, n, numAccepters) && a < |s.accepters| && s.accepters[a].Handing?
    ensures var Handing(fd, w, i) := s.accepters[a];
            && w < |s.workers| && fd !in s.workers[w].queue && fd in s.sockets
            && Step(s, Register(a, true)).Some? && Step(s, Register(a, false)).Some?
            && var t, u := Step(s, Register(a, true)).value, Step(s, Register(a, false)).value;
            && t.accepters[a].Idle? && u.accepters[a].Idle? && t.sockets == u.sockets == s.sockets
            && t.workers[w].queue == s.workers[w].queue[fd := i] && t.workers[w].lost == s.workers[w].lost
            && u.workers[w].queue == s.workers[w].queue && u.workers[w].lost == s.workers[w].lost + {i}
  {
    hide Reachable;
    RegisteringGoesOn(s, numWorkers, n, numAccepters, a);
    var hs, ow := ReachableIsGood(s, numWorkers, n, numAccepters);
  }

  /** A worker takes out of its queue what it put there, closes its own descriptor, and pushes a slot that is not free. */
  lemma RetirementIsSafe(s: State, numWorkers: nat, n: nat, numAccepters: nat, w: nat)
    requires Reachable(s, numWorkers, n, numAccepters) && w < |s.workers| && s.workers[w].phase != Serving
    ensures var wk := s.workers[w];
            && Current(wk)
            && var i, fd := wk.batch[0], wk.clients[wk.batch[0]].sockfd;
            && (wk.phase == Removing ==> fd in wk.queue && wk.queue[fd] == i)
            && (wk.phase == Closing ==> fd in s.sockets && Uses(s, fd, Slot(w, i)))
            && (wk.phase == Pushing ==> i !in wk.free && wk.clients[i].unused)
  {
    var hs, ow := ReachableIsGood(s, numWorkers, n, numAccepters);
    assert WorkerOk(s.workers[w], hs[w], n);
    var wk := s.workers[w];
    assert wk.phase == Removing ==> hs[w][wk.batch[0]].InQueue?;
    assert wk.phase == Closing ==> Live(wk, hs[w][wk.batch[0]]);
  }

  /** What an accepter takes off a free list is reset, is no longer free, and nobody else holds it. */
  lemma HandOutIsSafe(s: State, numWorkers: nat, n: nat, numAccepters: nat, a: nat)
    requires Reachable(s, numWorkers, n, numAccepters) && Step(s, Take(a)).Some?
    ensures var s' := Step(s, Take(a)).value;
            s'.accepters[a].Handing? ==>
            var w, i := s'.accepters[a].worker, s'.accepters[a].slot;
            && w < |s.workers| && i < n == |s'.workers[w].clients|
            && Holds(s, w, i, FreeList) && s'.workers[w].clients[i].unused
            && forall h :: Holds(s', w, i, h) ==> h == ByAccepter(a)
  {
    hide Reachable, Replay, FirstBest, SocketsOk, OwnerOk;
    var hs, ow := ReachableIsGood(s, numWorkers, n, numAccepters);
    var w := FirstBest(s.accepters[a].observed);
    assert WorkerOk(s.workers[w], hs[w], n);
    if s.workers[w].free != [] {
      TakeKeeps(s, a, hs, ow, n);
      var hs' := Hand(hs, w, s.workers[w].free[0], ByAccepter(a));
      assert WorkerOk(Step(s, Take(a)).value.workers[w], hs'[w], n);
    }
  }

  /** No step gets stuck on an index that is out of range or a descriptor that is registered already. */
  lemma AcceptersNeverGetStuck(s: State, numWorkers: nat, n: nat, numAccepters: nat, a: nat)
    requires Reachable(s, numWorkers, n, numAccepters) && a < |s.accepters| && |s.workers| > 0
    ensures match s.accepters[a]
            case Idle => true
            case Scoring(_, observed) =>
              if |observed| < |s.workers| then Step(s, Score(a)).Some? else Step(s, Take(a)).Some?
            case Refusing(_) => Step(s, Refuse(a)).Some?
            case Handing(_, _, _) => Step(s, Register(a, true)).Some? && Step(s, Register(a, false)).Some?
  {
    hide Reachable;
    if s.accepters[a].Scoring? {
      ScoringGoesOn(s, numWorkers, n, numAccepters, a);
    } else if s.accepters[a].Handing? {
      RegisteringGoesOn(s, numWorkers, n, numAccepters, a);
    }
  }

  lemma ScoringGoesOn(s: State, numWorkers: nat, n: nat, numAccepters: nat, a: nat)
    requires Reachable(s, numWorkers, n, numAccepters) && a < |s.accepters| && |s.workers| > 0 && s.accepters[a].Scoring?
    ensures if |s.accepters[a].observed| < |s.workers| then Step(s, Score(a)).Some? else Step(s, Take(a)).Some?
  {
    hide WorkerOk, SocketsOk, FirstBest, Reachable;
    var hs, ow := ReachableIsGood(s, numWorkers, n, numAccepters);
    var observed := s.accepters[a].observed;
    FreeListsAreInOrder(s, numWorkers, n, numAccepters,
                        if |observed| < |s.workers| then |observed| else FirstBest(observed));
    assert |observed| == |s.workers| && s.workers[FirstBest(observed)].free != [] ==>
        s.workers[FirstBest(observed)].free[0] in s.workers[FirstBest(observed)].free;
  }

  lemma RegisteringGoesOn(s: State, numWorkers: nat, n: nat, numAccepters: nat, a: nat)
    requires Reachable(s, numWorkers, n, numAccepters) && a < |s.accepters| && s.accepters[a].Handing?
    ensures Step(s, Register(a, true)).Some? && Step(s, Register(a, false)).Some?
  {
    hide Reachable;
    var hs, ow := ReachableIsGood(s, numWorkers, n, numAccepters);
    var Handing(fd, w, i) := s.accepters[a];
    assert WorkerOk(s.workers[w], hs[w], n);
    forall f | f in s.workers[w].queue
      ensures f != fd
    {
      assert Live(s.workers[w], hs[w][s.workers[w].queue[f]]);
    }
    hide WorkerOk;
  }

  lemma {:induction false} RunsCompose(s: State, a: seq<Event>, b: seq<Event>)
    requires Replay(s, a).Some? && Replay(Replay(s, a).value, b).Some?
    ensures Replay(s, a + b) == Replay(Replay(s, a).value, b)
    decreases |b|
  {
    hide Step;
    if b == [] {
      assert a + b == a;
    } else {
      var last := |b| - 1;
      RunsCompose(s, a, b[..last]);
      assert (a + b)[..|a + b| - 1] == a + b[..last];
    }
  }

  lemma {:induction false} LostStaysLost(s: State, run: seq<Event>, w: nat, i: nat)
    requires w < |s.workers| && i in s.workers[w].lost && Replay(s, run).Some?
    ensures w < |Replay(s, run).value.workers| && i in Replay(s, run).value.workers[w].lost
    decreases |run|
  {
    if run != [] {
      LostStaysLost(s, run[..|run| - 1], w, i);
    }
  }

  /** The result of registering is ignored (src/kitserv.c:244): after a failure, slot and socket are gone for good. */
  lemma LostForGood(s: State, numWorkers: nat, n: nat, numAccepters: nat, run: seq<Event>, w: nat, i: nat)
    requires Reachable(s, numWorkers, n, numAccepters) && Replay(s, run).Some?
    requires w < |s.workers| && i in s.workers[w].lost
    ensures var t := Replay(s, run).value;
            && w < |t.workers| && i < |t.workers[w].clients|
            && i !in t.workers[w].free && !Registered(t.workers[w], i)
            && t.workers[w].clients[i].sockfd in t.sockets
  {
    var t := Replay(s, run).value;
    LostStaysLost(s, run, w, i);
    var before :| Replay(Initial(numWorkers, n, numAccepters), before) == Some(s);
    RunsCompose(Initial(numWorkers, n, numAccepters), before, run);
    var hs, ow := ReachableIsGood(t, numWorkers, n, numAccepters);
    assert WorkerOk(t.workers[w], hs[w], n);
    assert Live(t.workers[w], hs[w][i]);
  }

  // ----- A descriptor that is closed by mistake -----

  /**
   * What becomes of the server when a worker closes `fd` out of turn, as src/http.c:1279 does with 507: the kernel
   * forgets the descriptor and takes it out of every queue.
   */
  function StrayClose(s: State, fd: int): State
  {
    s.(sockets := s.sockets - {fd}, others := s.others - {fd},
       workers := seq(|s.workers|, w requires 0 <= w < |s.workers| => s.workers[w].(queue := s.workers[w].queue - {fd})))
  }

  /** The server stays in order exactly if no accepter and no connection uses that descriptor. */
  lemma StrayCloseIsHarmlessIff(s: State, numWorkers: nat, n: nat, numAccepters: nat, fd: int)
    requires Reachable(s, numWorkers, n, numAccepters)
    ensures (exists hs, ow :: Good(StrayClose(s, fd), hs, ow, n)) <==> fd !in s.sockets
  {
    var hs, ow := ReachableIsGood(s, numWorkers, n, numAccepters);
    if fd !in s.sockets {
      StrayCloseOfAFile(s, fd, hs, ow, n);
    } else if hs', ow' :| Good(StrayClose(s, fd), hs', ow', n) {
      StrayCloseOfASocket(s, fd, hs, ow, hs', ow', n);
    }
  }

  lemma StrayCloseOfAFile(s: State, fd: int, hs: seq<seq<SlotHolder>>, ow: map<int, SocketHolder>, n: nat)
    requires Good(s, hs, ow, n) && fd !in s.sockets
    ensures Good(StrayClose(s, fd), hs, ow, n)
  {
    var t := StrayClose(s, fd);
    forall w | 0 <= w < |s.workers|
      ensures t.workers[w] == s.workers[w]
    {
      var wk := s.workers[w];
      assert WorkerOk(wk, hs[w], n);
      if fd in wk.queue {
        assert Live(wk, hs[w][wk.queue[fd]]);
      }
      assert wk.queue - {fd} == wk.queue;
    }
    assert t.workers == s.workers && t.sockets == s.sockets;
    OthersKeep(s, s.others - {fd}, hs, ow, n);
  }

  lemma StrayCloseOfASocket(s: State, fd: int, hs: seq<seq<SlotHolder>>, ow: map<int, SocketHolder>,
                            hs': seq<seq<SlotHolder>>, ow': map<int, SocketHolder>, n: nat)
    requires Good(s, hs, ow, n) && Good(StrayClose(s, fd), hs', ow', n)
    ensures fd !in s.sockets
  {
    hide WorkersOk, AcceptersOk, WorkerOk;
    if fd in s.sockets {
      assert OwnerOk(s, hs, n, fd, ow[fd]);
      match ow[fd]
      case Accepting(a) => AccepterNeedsItsSocket(s, fd, hs', ow', n, a);
      case Slot(w, i) => ConnectionNeedsItsSocket(s, fd, hs, ow, hs', ow', n, w, i);
    }
  }

  lemma AccepterNeedsItsSocket(s: State, fd: int, hs': seq<seq<SlotHolder>>, ow': map<int, SocketHolder>, n: nat, a: nat)
    requires Good(StrayClose(s, fd), hs', ow', n) && a < |s.accepters| && !s.accepters[a].Idle?
    ensures s.accepters[a].fd != fd
  {
    hide WorkersOk, AcceptersOk;
  }

  /** Without its registration the slot of a live connection has no holder left. */
  lemma ConnectionNeedsItsSocket(s: State, fd: int, hs: seq<seq<SlotHolder>>, ow: map<int, SocketHolder>,
                                 hs': seq<seq<SlotHolder>>, ow': map<int, SocketHolder>, n: nat, w: nat, i: nat)
    requires Good(s, hs, ow, n) && Good(StrayClose(s, fd), hs', ow', n)
    requires w < |hs| && i < n && Live(s.workers[w], hs[w][i])
    ensures s.workers[w].clients[i].sockfd != fd
  {
    var t := StrayClose(s, fd);
    assert Live(t.workers[w], hs'[w][i]) by {
      hide SocketsOk;
      StillHeld(s.workers[w], hs[w], hs'[w], n, fd, i);
      assert hs'[w][i].ByAccepter? ==> IsHandedOver(t, w, i, hs'[w][i].a);
      assert hs'[w][i].ByAccepter? ==> IsHandedOver(s, w, i, hs'[w][i].a);
    }
    hide WorkersOk, AcceptersOk;
  }

  lemma StillHeld(wk: Worker, h: seq<SlotHolder>, h': seq<SlotHolder>, n: nat, fd: int, i: nat)
    requires WorkerOk(wk, h, n) && WorkerOk(wk.(queue := wk.queue - {fd}), h', n) && i < n && Live(wk, h[i])
    ensures Live(wk, h'[i]) || h'[i].ByAccepter?
  {
  }

  /** A step of a thread or of the kernel, or a descriptor closed by mistake. */
  datatype Action = Does(e: Event) | Strays(fd: int)

  function Course(s: State, actions: seq<Action>): Option<State>
  {
    if actions == [] then Some(s)
    else
      match Course(s, actions[..|actions| - 1])
      case None => None
      case Some(t) =>
        match actions[|actions| - 1]
        case Does(e) => Step(t, e)
        case Strays(fd) => Some(StrayClose(t, fd))
  }

  /** No stray close of the course meets a socket that somebody uses. */
  predicate StraysAreHarmless(s: State, actions: seq<Action>)
  {
    actions != [] ==>
      var before, last := actions[..|actions| - 1], actions[|actions| - 1];
      && StraysAreHarmless(s, before)
      && (last.Strays? && Course(s, before).Some? ==> last.fd !in Course(s, before).value.sockets)
  }

  /** Every state on the way is one that the threads reach without any mistake. */
  ghost predicate StaysReachable(actions: seq<Action>, numWorkers: nat, n: nat, numAccepters: nat)
  {
    forall k :: 0 <= k <= |actions| ==>
                  match Course(Initial(numWorkers, n, numAccepters), actions[..k])
                  case None => false
                  case Some(t) => Reachable(t, numWorkers, n, numAccepters)
  }

  /** An unused descriptor is a file, whose closing is a step of its own, or nothing at all. */
  lemma StrayIsAStepIff(s: State, numWorkers: nat, n: nat, numAccepters: nat, fd: int)
    requires Reachable(s, numWorkers, n, numAccepters)
    ensures Reachable(StrayClose(s, fd), numWorkers, n, numAccepters) <==> fd !in s.sockets
  {
    hide Good, Reachable, Initial;
    StrayCloseIsHarmlessIff(s, numWorkers, n, numAccepters, fd);
    if fd !in s.sockets {
      StrayCloseIsClose(s, numWorkers, n, numAccepters, fd);
      if fd in s.others {
        StepIsReachable(s, Close(fd), numWorkers, n, numAccepters);
      }
    } else if Reachable(StrayClose(s, fd), numWorkers, n, numAccepters) {
      var hs, ow := ReachableIsGood(StrayClose(s, fd), numWorkers, n, numAccepters);
    }
  }

  lemma StrayCloseIsClose(s: State, numWorkers: nat, n: nat, numAccepters: nat, fd: int)
    requires Reachable(s, numWorkers, n, numAccepters) && fd !in s.sockets
    ensures StrayClose(s, fd) == if fd in s.others then Step(s, Close(fd)).value else s
  {
    hide Reachable;
    forall w | 0 <= w < |s.workers|
      ensures s.workers[w].queue - {fd} == s.workers[w].queue
    {
      if fd in s.workers[w].queue {
        RegisteredSlotsAreInUse(s, numWorkers, n, numAccepters, w, fd);
      }
    }
    assert StrayClose(s, fd).workers == s.workers;
  }

  lemma StaysReachableSnoc(actions: seq<Action>, numWorkers: nat, n: nat, numAccepters: nat)
    requires actions != [] && Course(Initial(numWorkers, n, numAccepters), actions).Some?
    ensures StaysReachable(actions, numWorkers, n, numAccepters) <==>
            && StaysReachable(actions[..|actions| - 1], numWorkers, n, numAccepters)
            && Reachable(Course(Initial(numWorkers, n, numAccepters), actions).value, numWorkers, n, numAccepters)
  {
    hide Course, Reachable, Initial;
    var before := actions[..|actions| - 1];
    assert forall k :: 0 <= k <= |before| ==> before[..k] == actions[..k];
    assert actions[..|actions|] == actions;
    assert before[..|before|] == before;
  }

  /**
   * A server in which descriptors are closed by mistake goes through states of one without such mistakes, to which all
   * of the above applies, exactly as long as no mistake meets a socket in use.
   */
  lemma {:induction false} StrayRunsAreReachableIff(numWorkers: nat, n: nat, numAccepters: nat, actions: seq<Action>)
    requires Course(Initial(numWorkers, n, numAccepters), actions).Some?
    ensures StaysReachable(actions, numWorkers, n, numAccepters)
            <==> StraysAreHarmless(Initial(numWorkers, n, numAccepters), actions)
  {
    hide StaysReachable, Step, Reachable, Initial, StrayClose;
    if actions == [] {
      StartsReachable(numWorkers, n, numAccepters);
    } else {
      var before, last := actions[..|actions| - 1], actions[|actions| - 1];
      var s := Course(Initial(numWorkers, n, numAccepters), before).value;
      StrayRunsAreReachableIff(numWorkers, n, numAccepters, before);
      StaysReachableSnoc(actions, numWorkers, n, numAccepters);
      if StaysReachable(before, numWorkers, n, numAccepters) {
        EndIsReachable(before, numWorkers, n, numAccepters);
        match last
        case Does(e) => StepIsReachable(s, e, numWorkers, n, numAccepters);
        case Strays(fd) => StrayIsAStepIff(s, numWorkers, n, numAccepters, fd);
      }
    }
  }

  lemma StartsReachable(numWorkers: nat, n: nat, numAccepters: nat)
    ensures StaysReachable([], numWorkers, n, numAccepters)
  {
    hide Initial;
    assert Replay(Initial(numWorkers, n, numAccepters), []) == Some(Initial(numWorkers, n, numAccepters));
  }

  lemma EndIsReachable(actions: seq<Action>, numWorkers: nat, n: nat, numAccepters: nat)
    requires StaysReachable(actions, numWorkers, n, numAccepters)
    ensures Course(Initial(numWorkers, n, numAccepters), actions).Some?
    ensures Reachable(Course(Initial(numWorkers, n, numAccepters), actions).value, numWorkers, n, numAccepters)
  {
    hide Course, Reachable, Initial;
    assert actions[..|actions|] == actions;
  }

  // ----- Refusals -----

  /** With one accepter, what it observed of a worker is at most what that worker has free by now. */
  ghost predicate NotOverrated(s: State)
  {
    |s.accepters| == 1 &&
    (s.accepters[0].Scoring? ==>
       && |s.accepters[0].observed| <= |s.workers|
       && forall k :: 0 <= k < |s.accepters[0].observed| ==> s.accepters[0].observed[k] <= s.workers[k].count)
  }

  lemma WorkersOnlyPush(s: State, e: Event)
    requires NotOverrated(s) && Step(s, e).Some?
    ensures NotOverrated(Step(s, e).value)
  {
    hide FirstBest, NoDuplicates, Registered;
  }

  lemma {:induction false} RunsAreNotOverrated(numWorkers: nat, n: nat, run: seq<Event>)
    requires Replay(Initial(numWorkers, n, 1), run).Some?
    ensures NotOverrated(Replay(Initial(numWorkers, n, 1), run).value)
  {
    hide Step;
    if run != [] {
      var last := |run| - 1;
      RunsAreNotOverrated(numWorkers, n, run[..last]);
      WorkersOnlyPush(Replay(Initial(numWorkers, n, 1), run[..last]).value, run[last]);
    }
  }

  /** A single accepter refuses a connection only if every worker had no slot left when it was scored. */
  lemma RefusedOnlyWhenFull(s: State, numWorkers: nat, n: nat)
    requires Reachable(s, numWorkers, n, 1) && Step(s, Take(0)).Some? && Step(s, Take(0)).value.accepters[0].Refusing?
    ensures |s.accepters[0].observed| == |s.workers|
    ensures forall k :: 0 <= k < |s.workers| ==> s.accepters[0].observed[k] == 0
  {
    var run :| Replay(Initial(numWorkers, n, 1), run) == Some(s);
    RunsAreNotOverrated(numWorkers, n, run);
    var best := FirstBest(s.accepters[0].observed);
    FreeListsAreInOrder(s, numWorkers, n, 1, best);
    assert s.workers[best].count == 0;
  }

  /** The run in which two accepters observe the same free slots. */
  const RACE: seq<Event> := [
    Accept(0, 5), Accept(1, 6), Score(0), Score(0), Score(1), Score(1), Take(0), Take(1)]

  lemma Next(s0: State, run: seq<Event>, k: nat, s: State, t: State)
    requires k < |run| && Replay(s0, run[..k]) == Some(s) && Step(s, run[k]) == Some(t)
    ensures Replay(s0, run[..k + 1]) == Some(t)
  {
    assert run[..k + 1][..k] == run[..k];
  }

  const FREE := Worker([0], 1, [Client(0, true)], map[], Serving, [], {})
  const TAKEN := Worker([], 0, [Client(5, true)], map[], Serving, [], {})

  function Racing(worker0: Worker, acc0: Accepter, acc1: Accepter): State
  {
    State([worker0, FREE], [acc0, acc1], {5, 6}, {})
  }

  lemma BothAccept()
    ensures Replay(Initial(2, 1, 2), RACE[..2]) == Some(Racing(FREE, Scoring(5, []), Scoring(6, [])))
  {
    hide Replay;
    var s0 := Initial(2, 1, 2);
    var s1 := State([FREE, FREE], [Scoring(5, []), Idle], {5}, {});
    assert seq(1, i => i) == [0] && seq(1, _ => Client(0, true)) == [Client(0, true)];
    assert s0.workers == [FREE, FREE] && s0.accepters[0 := Scoring(5, [])] == s1.accepters;
    assert s0.sockets + {5} == {5} && s1.sockets + {6} == {5, 6};
    NothingYet(s0);
    Next(s0, RACE, 0, s0, s1);
    assert s1.accepters[1 := Scoring(6, [])] == [Scoring(5, []), Scoring(6, [])];
    Next(s0, RACE, 1, s1, Racing(FREE, Scoring(5, []), Scoring(6, [])));
  }

  lemma ScoreOfPair(x: Accepter, y: Accepter, fd: int, seen: seq<nat>)
    requires |seen| < 2
    ensures x == Scoring(fd, seen) ==> Step(Racing(FREE, x, y), Score(0)) == Some(Racing(FREE, Scoring(fd, seen + [1]), y))
    ensures y == Scoring(fd, seen) ==> Step(Racing(FREE, x, y), Score(1)) == Some(Racing(FREE, x, Scoring(fd, seen + [1])))
  {
    assert [x, y][0 := Scoring(fd, seen + [1])] == [Scoring(fd, seen + [1]), y];
    assert [x, y][1 := Scoring(fd, seen + [1])] == [x, Scoring(fd, seen + [1])];
  }

  lemma BothScore()
    ensures Replay(Initial(2, 1, 2), RACE[..6]) == Some(Racing(FREE, Scoring(5, [1, 1]), Scoring(6, [1, 1])))
  {
    hide Replay, Step, Racing;
    var s0 := Initial(2, 1, 2);
    BothAccept();
    var none: seq<nat> := [];
    assert none + [1] == [1] && [1] + [1] == [1, 1];
    ScoreOfPair(Scoring(5, []), Scoring(6, []), 5, []);
    Next(s0, RACE, 2, Racing(FREE, Scoring(5, []), Scoring(6, [])), Racing(FREE, Scoring(5, [1]), Scoring(6, [])));
    ScoreOfPair(Scoring(5, [1]), Scoring(6, []), 5, [1]);
    Next(s0, RACE, 3, Racing(FREE, Scoring(5, [1]), Scoring(6, [])), Racing(FREE, Scoring(5, [1, 1]), Scoring(6, [])));
    OtherScores();
  }

  lemma OtherScores()
    requires Replay(Initial(2, 1, 2), RACE[..4]) == Some(Racing(FREE, Scoring(5, [1, 1]), Scoring(6, [])))
    ensures Replay(Initial(2, 1, 2), RACE[..6]) == Some(Racing(FREE, Scoring(5, [1, 1]), Scoring(6, [1, 1])))
  {
    hide Replay, Step, Racing;
    var s0 := Initial(2, 1, 2);
    var none: seq<nat> := [];
    assert none + [1] == [1] && [1] + [1] == [1, 1];
    ScoreOfPair(Scoring(5, [1, 1]), Scoring(6, []), 6, []);
    Next(s0, RACE, 4, Racing(FREE, Scoring(5, [1, 1]), Scoring(6, [])), Racing(FREE, Scoring(5, [1, 1]), Scoring(6, [1])));
    ScoreOfPair(Scoring(5, [1, 1]), Scoring(6, [1]), 6, [1]);
    Next(s0, RACE, 5, Racing(FREE, Scoring(5, [1, 1]), Scoring(6, [1])), Racing(FREE, Scoring(5, [1, 1]), Scoring(6, [1, 1])));
  }

  /** With two accepters a connection can be refused although it saw free slots, and although one is still free. */
  lemma TwoAcceptersCanRefuseTooMuch()
    ensures Replay(Initial(2, 1, 2), RACE[..7]) == Some(Racing(TAKEN, Handing(5, 0, 0), Scoring(6, [1, 1])))
    ensures Replay(Initial(2, 1, 2), RACE) == Some(Racing(TAKEN, Handing(5, 0, 0), Refusing(6)))
  {
    hide Replay;
    var s0 := Initial(2, 1, 2);
    var s6 := Racing(FREE, Scoring(5, [1, 1]), Scoring(6, [1, 1]));
    var s7 := Racing(TAKEN, Handing(5, 0, 0), Scoring(6, [1, 1]));
    BothScore();
    assert FirstBest([1, 1]) == 0;
    assert FREE.clients[0 := Client(5, true)] == TAKEN.clients && FREE.free[1..] == [];
    assert s6.workers[0 := TAKEN] == s7.workers && s6.accepters[0 := Handing(5, 0, 0)] == s7.accepters;
    Next(s0, RACE, 6, s6, s7);
    assert s7.accepters[1 := Refusing(6)] == [Handing(5, 0, 0), Refusing(6)];
    Next(s0, RACE, 7, s7, Racing(TAKEN, Handing(5, 0, 0), Refusing(6)));
    assert RACE[..8] == RACE;
  }

  lemma NothingYet(s: State)
    ensures Replay(s, []) == Some(s)
  {
  }

  // ----- When refusals are unfair -----

  /** Accepter `a` is about to refuse a connection although it observed free slots. */
  ghost predicate UnfairRefusal(s: State, a: nat)
  {
    && a < |s.accepters| && Step(s, Take(a)).Some? && Step(s, Take(a)).value.accepters[a].Refusing?
    && s.accepters[a].observed[FirstBest(s.accepters[a].observed)] > 0
  }

  lemma StepIsReachable(s: State, e: Event, numWorkers: nat, n: nat, numAccepters: nat)
    requires Reachable(s, numWorkers, n, numAccepters) && Step(s, e).Some?
    ensures Reachable(Step(s, e).value, numWorkers, n, numAccepters)
  {
    hide Step, Initial;
    var run :| Replay(Initial(numWorkers, n, numAccepters), run) == Some(s);
    assert (run + [e])[..|run|] == run;
    assert Replay(Initial(numWorkers, n, numAccepters), run + [e]) == Step(s, e);
  }

  lemma SizesStay(s: State, e: Event)
    requires Step(s, e).Some?
    ensures |Step(s, e).value.workers| == |s.workers| && |Step(s, e).value.accepters| == |s.accepters|
  {
    hide FirstBest, NoDuplicates, Registered;
  }

  lemma {:induction false} RunsKeepSizes(s: State, run: seq<Event>)
    requires Replay(s, run).Some?
    ensures |Replay(s, run).value.workers| == |s.workers| && |Replay(s, run).value.accepters| == |s.accepters|
  {
    hide Step;
    if run != [] {
      RunsKeepSizes(s, run[..|run| - 1]);
      SizesStay(Replay(s, run[..|run| - 1]).value, run[|run| - 1]);
    }
  }

  lemma ReachableSizes(s: State, numWorkers: nat, n: nat, numAccepters: nat)
    requires Reachable(s, numWorkers, n, numAccepters)
    ensures |s.workers| == numWorkers && |s.accepters| == numAccepters
  {
    hide Replay;
    var run :| Replay(Initial(numWorkers, n, numAccepters), run) == Some(s);
    RunsKeepSizes(Initial(numWorkers, n, numAccepters), run);
  }

  /** How many slots each worker has free. */
  function Frees(s: State): seq<nat> { seq(|s.workers|, i requires 0 <= i < |s.workers| => |s.workers[i].free|) }

  function Sum(counts: seq<nat>): nat
  {
    if counts == [] then 0 else counts[0] + Sum(counts[1..])
  }

  lemma {:induction false} SumUpdate(counts: seq<nat>, w: nat, x: nat)
    requires w < |counts|
    ensures Sum(counts[w := x]) == Sum(counts) - counts[w] + x
  {
    if w > 0 {
      assert counts[w := x][1..] == counts[1..][w - 1 := x];
      SumUpdate(counts[1..], w - 1, x);
    } else {
      assert counts[0 := x][1..] == counts[1..];
    }
  }

  lemma {:induction false} SumZero(counts: seq<nat>)
    ensures Sum(counts) == 0 <==> forall i :: 0 <= i < |counts| ==> counts[i] == 0
  {
    if counts != [] {
      SumZero(counts[1..]);
      assert forall i :: 1 <= i < |counts| ==> counts[i] == counts[1..][i - 1];
    }
  }

  /** There is always a descriptor to hand out. */
  lemma {:induction false} SomeDescriptor(taken: set<int>) returns (fd: int)
    ensures fd !in taken && forall x :: x in taken ==> x < fd
    decreases taken
  {
    if x :| x in taken {
      fd := SomeDescriptor(taken - {x});
      assert forall y :: y in taken ==> y == x || y in taken - {x};
      if fd <= x {
        fd := x + 1;
      }
    } else {
      fd := 0;
    }
  }

  /** Undisturbed, an accepter observes what every worker has free. */
  lemma {:induction false} ScoreAll(s: State, a: nat, numWorkers: nat, n: nat, numAccepters: nat) returns (t: State)
    requires Reachable(s, numWorkers, n, numAccepters) && a < |s.accepters| && s.accepters[a].Scoring?
    requires s.accepters[a].observed <= Frees(s)
    ensures Reachable(t, numWorkers, n, numAccepters)
    ensures t == s.(accepters := s.accepters[a := Scoring(s.accepters[a].fd, Frees(s))])
    decreases |s.workers| - |s.accepters[a].observed|
  {
    hide Reachable;
    var fd, seen := s.accepters[a].fd, s.accepters[a].observed;
    if |seen| == |s.workers| {
      assert seen == Frees(s);
      assert s.accepters[a := s.accepters[a]] == s.accepters;
      t := s;
    } else {
      FreeListsAreInOrder(s, numWorkers, n, numAccepters, |seen|);
      StepIsReachable(s, Score(a), numWorkers, n, numAccepters);
      var u := Step(s, Score(a)).value;
      assert Frees(u) == Frees(s);
      t := ScoreAll(u, a, numWorkers, n, numAccepters);
      assert u.accepters[a := Scoring(fd, Frees(s))] == s.accepters[a := Scoring(fd, Frees(s))];
    }
  }

  /** An accepter takes a connection and observes all workers. */
  lemma AcceptAndScore(s: State, a: nat, numWorkers: nat, n: nat, numAccepters: nat) returns (t: State, fd: int)
    requires Reachable(s, numWorkers, n, numAccepters) && a < |s.accepters| && s.accepters[a].Idle?
    ensures Reachable(t, numWorkers, n, numAccepters)
    ensures t.workers == s.workers && t.accepters == s.accepters[a := Scoring(fd, Frees(s))]
  {
    hide Reachable;
    fd := SomeDescriptor(s.sockets + s.others);
    StepIsReachable(s, Accept(a, fd), numWorkers, n, numAccepters);
    var u := Step(s, Accept(a, fd)).value;
    assert Frees(u) == Frees(s);
    t := ScoreAll(u, a, numWorkers, n, numAccepters);
    assert u.accepters[a := Scoring(fd, Frees(s))] == s.accepters[a := Scoring(fd, Frees(s))];
  }

  /** While a slot is free, accepter 0 can serve one more connection; the others need not move. */
  lemma FillOne(s: State, numWorkers: nat, n: nat, numAccepters: nat) returns (t: State)
    requires Reachable(s, numWorkers, n, numAccepters) && |s.workers| > 0 && |s.accepters| > 0 && s.accepters[0].Idle?
    requires Sum(Frees(s)) > 0
    ensures Reachable(t, numWorkers, n, numAccepters) && |t.workers| == |s.workers|
    ensures t.accepters == s.accepters && Sum(Frees(t)) == Sum(Frees(s)) - 1
  {
    hide Reachable, Sum, Step, FirstBest;
    var u, fd := AcceptAndScore(s, 0, numWorkers, n, numAccepters);
    var w := FirstBest(Frees(s));
    SumZero(Frees(s));
    assert Frees(s)[w] > 0;
    t := TakeAndRegister(u, numWorkers, n, numAccepters);
    assert Frees(t) == Frees(s)[w := Frees(s)[w] - 1];
    SumUpdate(Frees(s), w, Frees(s)[w] - 1);
    assert t.accepters == s.accepters;
  }

  /** Accepter 0 goes on to register the connection it scored all workers for. */
  lemma TakeAndRegister(u: State, numWorkers: nat, n: nat, numAccepters: nat) returns (t: State)
    requires Reachable(u, numWorkers, n, numAccepters) && |u.accepters| > 0 && u.accepters[0].Scoring?
    requires |u.accepters[0].observed| == |u.workers| > 0 && u.workers[FirstBest(u.accepters[0].observed)].free != []
    ensures Reachable(t, numWorkers, n, numAccepters)
    ensures |t.workers| == |u.workers| && t.accepters == u.accepters[0 := Idle]
    ensures forall v :: 0 <= v < |u.workers| ==>
              t.workers[v].free == if v == FirstBest(u.accepters[0].observed) then u.workers[v].free[1..] else u.workers[v].free
  {
    hide Reachable, FirstBest;
    ScoringGoesOn(u, numWorkers, n, numAccepters, 0);
    StepIsReachable(u, Take(0), numWorkers, n, numAccepters);
    var v := Step(u, Take(0)).value;
    RegisteringGoesOn(v, numWorkers, n, numAccepters, 0);
    StepIsReachable(v, Register(0, true), numWorkers, n, numAccepters);
    t := Step(v, Register(0, true)).value;
  }

  lemma {:induction false} FillAll(s: State, numWorkers: nat, n: nat, numAccepters: nat) returns (t: State)
    requires Reachable(s, numWorkers, n, numAccepters) && |s.workers| > 0 && |s.accepters| > 0 && s.accepters[0].Idle?
    ensures Reachable(t, numWorkers, n, numAccepters) && |t.workers| == |s.workers|
    ensures t.accepters == s.accepters && Sum(Frees(t)) == 0
    decreases Sum(Frees(s))
  {
    hide Reachable, Sum, Frees;
    if Sum(Frees(s)) == 0 {
      t := s;
    } else {
      var u := FillOne(s, numWorkers, n, numAccepters);
      t := FillAll(u, numWorkers, n, numAccepters);
    }
  }

  /** With two accepters, one observes free slots and is refused after the other has taken them all. */
  lemma TwoCanBeUnfair(numWorkers: nat, n: nat, numAccepters: nat) returns (s: State)
    requires numWorkers > 0 && n > 0 && numAccepters >= 2
    ensures Reachable(s, numWorkers, n, numAccepters) && UnfairRefusal(s, 1)
  {
    hide Reachable, Sum;
    var s0 := Initial(numWorkers, n, numAccepters);
    InitialIsReachable(numWorkers, n, numAccepters);
    var u, fd := AcceptAndScore(s0, 1, numWorkers, n, numAccepters);
    s := FillAll(u, numWorkers, n, numAccepters);
    SumZero(Frees(s));
    var w := FirstBest(Frees(s0));
    assert Frees(s)[w] == 0 && s.workers[w].free == [];
    assert s.accepters[1] == Scoring(fd, Frees(s0));
  }

  lemma InitialIsReachable(numWorkers: nat, n: nat, numAccepters: nat)
    ensures Reachable(Initial(numWorkers, n, numAccepters), numWorkers, n, numAccepters)
  {
    assert Replay(Initial(numWorkers, n, numAccepters), []) == Some(Initial(numWorkers, n, numAccepters));
  }

  /** A connection can be refused although free slots were observed for it exactly if there is more than one accepter. */
  lemma UnfairExactlyWithTwo(numWorkers: nat, n: nat, numAccepters: nat)
    requires numWorkers > 0 && n > 0
    ensures (exists s, a :: Reachable(s, numWorkers, n, numAccepters) && UnfairRefusal(s, a)) <==> numAccepters >= 2
  {
    hide Step;
    if numAccepters >= 2 {
      var s := TwoCanBeUnfair(numWorkers, n, numAccepters);
    }
    forall s, a | Reachable(s, numWorkers, n, numAccepters) && UnfairRefusal(s, a)
      ensures numAccepters >= 2
    {
      ReachableSizes(s, numWorkers, n, numAccepters);
      if numAccepters == 1 {
        RefusedOnlyWhenFull(s, numWorkers, n);
      }
    }
  }
}
