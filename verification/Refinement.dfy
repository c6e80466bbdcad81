/**
 * The critical sections on real slots (Slots.dfy) are the steps of the interleaved protocol (Protocol.dfy): a container
 * that represents a worker's state still does after each of them.
 */
module Refinement {
  import opened Slots
  import opened Sockets
  import opened Sending
  import opened Responses
  import opened Handlers
  import opened Numbers
  import C = Connections
  import P = Protocol

  /** The slots hold what the protocol says of each: the descriptor, and whether it is as reset leaves it. */
  ghost predicate SlotsAre(slots: seq<Slot>, clients: seq<P.Client>)
    reads slots, set s | s in slots :: s.client, set s | s in slots :: s.client.buf, set s | s in slots :: s.resp
    reads set s | s in slots :: s.resp.block, set s | s in slots :: s.resp.block.buf
  {
    && |slots| == |clients|
    && (forall i :: 0 <= i < |slots| ==>
          slots[i].sockfd == clients[i].sockfd && (clients[i].unused ==> slots[i].Unused()))
  }

  /** The list of free slots is that of their indices. */
  ghost predicate ListIs(free: seq<Slot>, slots: seq<Slot>, indices: seq<nat>)
  {
    |free| == |indices| && forall k :: 0 <= k < |free| ==> indices[k] < |slots| && free[k] == slots[indices[k]]
  }

  ghost predicate Represents(c: ConnectionContainer, wk: P.Worker)
    reads c, c.slots, set s | s in c.slots :: s.client, set s | s in c.slots :: s.client.buf, set s | s in c.slots :: s.resp
    reads set s | s in c.slots :: s.resp.block, set s | s in c.slots :: s.resp.block.buf
  {
    wk.count == c.freelistCount && ListIs(c.free, c.slots, wk.free) && SlotsAre(c.slots, wk.clients)
  }

  lemma OtherSlot(c: ConnectionContainer, i: nat, j: nat)
    requires c.Valid() && i < |c.slots| && j < |c.slots| && i != j
    ensures c.slots[i] != c.slots[j] && c.slots[i].Parts() !! c.slots[j].Parts()
  {
  }

  lemma ListStarts(c: ConnectionContainer)
    requires c.Valid()
    ensures c.firstFree == if c.free == [] then null else c.free[0]
  {
  }

  /** Every worker starts with a new container: no slot has a connection, and all are free. */
  method InitialStep(ghost numWorkers: nat, n: nat, ghost numAccepters: nat) returns (c: ConnectionContainer)
    requires n > 0
    ensures fresh(c) && c.Valid()
    ensures forall w :: 0 <= w < numWorkers ==> Represents(c, P.Initial(numWorkers, n, numAccepters).workers[w])
  {
    hide Slot.Unused, ConnectionContainer.Valid, ConnectionContainer.Separate, After;
    c := new ConnectionContainer(n, null);
  }

  /** What serving `slot` leaves alone: the container, every link and descriptor, and the state of all other slots. */
  twostate predicate ConcernsOnly(c: ConnectionContainer, slot: Slot)
    reads c, c.slots, set s, o | s in c.slots && o in s.Parts() :: o
  {
    unchanged(c) && forall s :: s in c.slots ==> unchanged(s) && (s != slot ==> unchanged(s.Parts()))
  }

  /** Whatever is done to the state of one connection in use is the protocol's serving of an event. */
  twostate lemma ServeStep(c: ConnectionContainer, wk: P.Worker, slot: Slot, over: bool)
    requires P.Current(wk) && wk.batch[0] < |c.slots| && slot == c.slots[wk.batch[0]]
    requires old(c.Valid() && Represents(c, wk)) && slot !in old(c.free) && ConcernsOnly(c, slot)
    ensures c.Valid() && Represents(c, P.Served(wk, over))
  {
    hide Slot.Unused, Slot.Built, Slot.Parts, Apart, P.NoDuplicates;
    assert c.Separate();
    forall s | s in c.slots && s != slot
      ensures s.Unused() <==> old(s.Unused())
    {
      OnlyItsParts(s);
    }
    assert c.Valid() by {
      assert forall s :: s in c.free ==> s in c.slots && s != slot && old(s.Unused());
      forall i | 0 <= i < |c.free|
        ensures c.free[i].next == After(c.free, i, null)
      {
        assert c.free[i] in c.slots;
      }
    }
    hide ConnectionContainer.Valid, ListIs;
    var wk' := P.Served(wk, over);
    forall i | 0 <= i < |c.slots|
      ensures c.slots[i].sockfd == wk'.clients[i].sockfd && (wk'.clients[i].unused ==> c.slots[i].Unused())
    {
      assert c.slots[i] in c.slots;
      if i != wk.batch[0] {
        NamedOnce(c, i, wk.batch[0]);
      }
    }
  }

  /** A connection is served on the client and the response of the slot that was accepted. */
  method Connect(slot: Slot, input: seq<ReadEvent>, output: seq<WriteEvent>, plan: seq<Handling>, texts: Texts)
      returns (conn: C.Connection)
    requires slot.Built() && slot.Unused() && forall p, s :: |texts.errorBody(p, s)| <= INT64_MAX
    modifies slot.resp`closed
    ensures fresh(conn) && fresh(conn.sock) && fresh(conn.wire) && conn.client == slot.client && conn.resp == slot.resp
    ensures conn.Inv(true) && conn.Balanced(true) && conn.Recorded(true) && conn.plan == plan && conn.sock.input == input
  {
    hide C.Connection.Inv, C.Connection.Balanced, C.Connection.Recorded;
    conn := new C.Connection(slot.client, slot.resp, input, output, plan, texts);
  }

  /**
   * `kitserv_http_serve_client` on the connection of a slot is the protocol's serving of an event, and the connection is
   * over for the protocol exactly if the call says so.
   */
  method ServeEvent(c: ConnectionContainer, ghost wk: P.Worker, slot: Slot, conn: C.Connection, parsed0: bool, memory: bool)
      returns (alive: bool, parsed: bool)
    requires c.Valid() && Represents(c, wk) && P.Current(wk) && wk.batch[0] < |c.slots|
    requires slot == c.slots[wk.batch[0]] && slot !in c.free && conn.client == slot.client && conn.resp == slot.resp
    requires conn.Inv(parsed0) && conn.Balanced(parsed0) && conn.Recorded(parsed0)
    modifies conn, conn.client, conn.client.buf, conn.resp, conn.resp.block, conn.resp.block.buf, conn.resp.vecs,
             conn.sock, conn.wire
    ensures c.Valid() && Represents(c, P.Served(wk, !alive))
    ensures conn.Balanced(parsed) && conn.Recorded(parsed) && if alive then conn.Inv(parsed) else conn.Over(parsed, memory)
  {
    hide Slot.Unused, ConnectionContainer.Valid, C.Connection.Inv, C.Connection.Balanced, C.Connection.Recorded,
         C.Connection.Over, C.Connection.Waits, C.Connection.Used;
    ghost var i := wk.batch[0];
    forall j | 0 <= j < |c.slots| && j != i
      ensures c.slots[j] != slot && c.slots[j].Parts() !! slot.Parts()
    {
      OtherSlot(c, i, j);
    }
    FreeAreApart(c, slot);
    alive, parsed := conn.ServeClient(parsed0, memory);
    assert forall j :: 0 <= j < |c.slots| && j != i && wk.clients[j].unused ==> c.slots[j].Unused();
  }

  /** What is done to the parts of a slot in use does not reach the free ones. */
  lemma FreeAreApart(c: ConnectionContainer, slot: Slot)
    requires c.Valid() && slot in c.slots && slot !in c.free
    ensures forall s :: s in c.free ==> s != slot && s.Parts() !! slot.Parts()
  {
    forall s | s in c.free
      ensures s != slot && s.Parts() !! slot.Parts()
    {
      assert s in c.slots;
    }
  }

  twostate lemma OnlyItsParts(s: Slot)
    requires unchanged(s.Parts())
    ensures s.Unused() <==> old(s.Unused())
  {
  }

  lemma NamedOnce(c: ConnectionContainer, i: nat, j: nat)
    requires c.Separate() && i < |c.slots| && j < |c.slots| && i != j
    ensures c.slots[i] != c.slots[j]
  {
  }

  /** `connection_accept` is the protocol's taking of a slot. */
  method TakeStep(c: ConnectionContainer, ghost wk: P.Worker, fd: int) returns (slot: Slot?)
    requires c.Valid() && Represents(c, wk)
    modifies c, if c.firstFree == null then {} else {c.firstFree}
    ensures slot == null <==> wk.free == []
    ensures c.Valid() && (slot == null ==> Represents(c, wk))
    ensures slot != null ==> wk.free[0] < |c.slots| == |wk.clients| && slot == c.slots[wk.free[0]]
    ensures slot != null ==> Represents(c, P.Taken(wk, fd))
  {
    hide Slot.Unused, ConnectionContainer.Valid;
    ListStarts(c);
    if wk.free != [] {
      forall j | 0 <= j < |c.slots| && j != wk.free[0]
        ensures c.slots[j] != c.slots[wk.free[0]]
      {
        OtherSlot(c, wk.free[0], j);
      }
    }
    slot := c.Accept(fd);
    if slot != null {
      ghost var wk' := P.Taken(wk, fd);
      assert forall j :: 0 <= j < |c.slots| && wk'.clients[j].unused ==> c.slots[j].Unused();
      assert SlotsAre(c.slots, wk'.clients);
      assert ListIs(c.free, c.slots, wk'.free);
    }
  }

  /** Resetting a slot in use is the protocol's step, whichever connection the slot had. */
  method CleanStep(c: ConnectionContainer, ghost wk: P.Worker, ghost i: nat, slot: Slot)
    requires c.Valid() && Represents(c, wk) && i < |c.slots| && slot == c.slots[i] && slot !in c.free
    modifies slot.client, slot.resp, slot.resp.block
    ensures c.Valid() && Represents(c, P.Cleaned(wk, i)) && slot.Unused() && c.free == old(c.free)
  {
    hide Slot.Unused, ConnectionContainer.Valid;
    forall j | 0 <= j < |c.slots| && j != i
      ensures c.slots[j] != slot && c.slots[j].Parts() !! slot.Parts()
    {
      OtherSlot(c, i, j);
    }
    c.Clean(slot);
    assert forall j :: 0 <= j < |c.slots| && j != i && wk.clients[j].unused ==> c.slots[j].Unused();
  }

  /** Pushing a slot that was reset is the protocol's step. */
  method PushStep(c: ConnectionContainer, ghost wk: P.Worker, ghost i: nat, slot: Slot)
    requires c.Valid() && Represents(c, wk) && i < |c.slots| && slot == c.slots[i] && slot !in c.free && wk.clients[i].unused
    modifies c, slot`next
    ensures c.Valid() && Represents(c, P.Pushed(wk, i)) && c.free == [slot] + old(c.free)
  {
    hide Slot.Unused, ConnectionContainer.Valid;
    c.Push(slot);
  }

  /**
   * What a worker does for an event (src/kitserv.c:202-209): a connection that goes on keeps its slot; the slot of one
   * that is over becomes the first free one, reset. The list of free slots is that of the protocol's steps.
   */
  method HandleEvent(c: ConnectionContainer, ghost wk: P.Worker, slot: Slot, conn: C.Connection, parsed0: bool, memory: bool)
      returns (alive: bool, parsed: bool)
    requires c.Valid() && Represents(c, wk) && P.Current(wk) && wk.batch[0] < |c.slots|
    requires slot == c.slots[wk.batch[0]] && slot !in c.free && conn.client == slot.client && conn.resp == slot.resp
    requires conn.Inv(parsed0) && conn.Balanced(parsed0) && conn.Recorded(parsed0)
    modifies c, slot`next, conn, conn.client, conn.client.buf, conn.resp, conn.resp.block, conn.resp.block.buf,
             conn.resp.vecs, conn.sock, conn.wire
    ensures c.Valid() && (alive ==> conn.Inv(parsed) && c.free == old(c.free))
    ensures !alive ==> c.free == [slot] + old(c.free) && slot.Unused()
    ensures var i := wk.batch[0];
            Represents(c, if alive then P.Served(wk, false) else P.Pushed(P.Cleaned(P.Served(wk, true), i), i))
  {
    hide Slot.Unused, ConnectionContainer.Valid, Represents, C.Connection.Inv, C.Connection.Balanced, C.Connection.Recorded,
         C.Connection.Over;
    ghost var i := wk.batch[0];
    alive, parsed := ServeEvent(c, wk, slot, conn, parsed0, memory);
    if !alive {
      ghost var served := P.Served(wk, true);
      CleanStep(c, served, i, slot);
      PushStep(c, P.Cleaned(served, i), i, slot);
      assert slot in c.free;
      FreeAreUnused(c);
    }
  }

  lemma FreeAreUnused(c: ConnectionContainer)
    requires c.Valid()
    ensures forall s :: s in c.free ==> s.Unused()
  {
  }
}
