/**
 * The connection slots of one worker (src/kitserv.c:40-51, 64-138): a free list threaded through the slots, and its
 * count. Every method is one critical section.
 */
module Slots {
  import opened Bytes
  import opened Requests
  import opened Clients
  import opened Headers
  import opened Responses

  /** `struct connection`: the link of the free list and the client's state. */
  class Slot {
    var next: Slot?
    var sockfd: int
    const client: Client
    const resp: Response

    ghost predicate Built()
    {
      && client.buf.Length == HTTP_BUFSZ && resp.block.buf.Length == HTTP_BUFSZ && resp.vecs.Length == 3
      && client.buf != resp.block.buf
    }

    /** What the client's state is made of. */
    ghost function Parts(): set<object>
    {
      {client, client.buf, resp, resp.block, resp.block.buf, resp.vecs}
    }

    /** As a new connection must find it: nothing read, nothing parsed, nothing to send. */
    ghost predicate Unused()
      reads client, client.buf, resp, resp.block, resp.block.buf
    {
      && client.Valid() && client.state == Read && client.Idle() && client.seen == [] && client.history == []
      && resp.Blank()
    }

    /** The source's own checks of a fresh connection (src/kitserv.c:119-125). */
    lemma UnusedIsFresh()
      requires Unused()
      ensures client.headersLen == 0 && resp.body == [] && resp.fd == FD_DISABLE
      ensures client.state == Read && client.phase == New && client.status == HTTP_X_RESP_STATUS_UNSET
    {
      hide AllEndBefore, HeaderBlock.Valid;
    }

    constructor ()
      ensures Built() && Unused() && fresh(Parts()) && sockfd == 0
    {
      hide Client.Valid, Client.Idle, HeaderBlock.Valid, Response.Valid, Response.Blank;
      next, sockfd := null, 0;
      client := new Client();
      resp := new Response();
    }

    /** `kitserv_http_reset_client`, from whatever state the connection was left in. */
    method Reset()
      requires Built()
      modifies client, resp, resp.block
      ensures Unused()
    {
      hide Client.Idle;
      client.Reset();
      resp.Reset();
    }
  }

  /** What element `i` of a list links to when the last one links to `end`. */
  function After(list: seq<Slot>, i: nat, end: Slot?): Slot?
  {
    if i + 1 < |list| then list[i + 1] else end
  }

  /** No two slots share a part. */
  ghost predicate Apart(list: seq<Slot>)
  {
    forall i, j :: 0 <= i < j < |list| ==> list[i] != list[j] && list[i].Parts() !! list[j].Parts()
  }

  lemma ApartSnoc(list: seq<Slot>, s: Slot)
    requires Apart(list) && forall t :: t in list ==> t != s && t.Parts() !! s.Parts()
    ensures Apart(list + [s])
  {
    var more := list + [s];
    forall i, j | 0 <= i < j < |more|
      ensures more[i] != more[j] && more[i].Parts() !! more[j].Parts()
    {
      if j == |list| {
        assert list[i] in list;
      }
    }
  }

  lemma ApartAlone(s: Slot)
    ensures Apart([s])
  {
  }

  lemma LinksLeadOn(list: seq<Slot>, end: Slot?)
    requires list != [] && list[|list| - 1].next == end
    requires forall i, j :: 0 <= i && j == i + 1 && j < |list| ==> list[i].next == list[j]
    ensures forall i :: 0 <= i < |list| ==> list[i].next == After(list, i, end)
  {
  }

  /** `struct connection_container`. */
  class ConnectionContainer {
    var freelistCount: int
    var firstFree: Slot?
    ghost const slots: seq<Slot>

    /** The free list, from its head. */
    ghost var free: seq<Slot>

    ghost predicate Separate()
    {
      && (forall s :: s in slots ==> s.Built())
      && Apart(slots)
    }

    /** The links lead through `free` and end there. */
    ghost predicate Linked()
      reads this, free
    {
      && firstFree == (if free == [] then null else free[0])
      && (forall i :: 0 <= i < |free| ==> free[i].next == After(free, i, null))
    }

    ghost predicate Valid()
      reads this, free, set s | s in free :: s.client, set s | s in free :: s.client.buf, set s | s in free :: s.resp
      reads set s | s in free :: s.resp.block, set s | s in free :: s.resp.block.buf
    {
      && Separate()
      && Linked()
      && freelistCount == |free|
      && (forall s :: s in free ==> s in slots && s.Unused())
      && (forall i, j :: 0 <= i < j < |free| ==> free[i] != free[j])
    }

    /**
     * `connection_init`: all slots are free. The link of the last one is never written (src/kitserv.c:82-84);
     * `leftover` is what the allocation holds there. The free list is in order exactly when that is a null pointer.
     */
    constructor (n: nat, leftover: Slot?)
      requires n > 0
      ensures |slots| == n && Separate() && (forall s :: s in slots ==> fresh(s) && fresh(s.Parts()))
      ensures free == slots && freelistCount == n && firstFree == slots[0]
      ensures forall i :: 0 <= i < n ==>
                slots[i].Unused() && slots[i].sockfd == 0 && slots[i].next == After(slots, i, leftover)
      ensures Valid() <==> leftover == null
    {
      hide Slot.Unused, Slot.Built, Slot.Parts;
      ghost var all;
      var first;
      all, first := Chain(n, leftover);
      freelistCount, firstFree := n, first;
      slots, free := all, all;
      new;
      LastLinkDecides(leftover);
    }

    /** A list of all slots is in order exactly when its last link is null. */
    lemma LastLinkDecides(leftover: Slot?)
      requires Separate() && free == slots != [] && freelistCount == |free| && firstFree == free[0]
      requires forall s :: s in free ==> s.Unused()
      requires forall i :: 0 <= i < |free| ==> free[i].next == After(free, i, leftover)
      ensures Valid() <==> leftover == null
    {
      hide Slot.Unused, Slot.Built, Slot.Parts;
      var last := |free| - 1;
      assert free[last].next == leftover && After(free, last, null) == null;
    }

    /** Unused slots that share nothing, each linked to the next. */
    ghost static predicate Linking(all: seq<Slot>)
      reads all, set s | s in all :: s.client, set s | s in all :: s.client.buf, set s | s in all :: s.resp
      reads set s | s in all :: s.resp.block, set s | s in all :: s.resp.block.buf
    {
      && (forall s :: s in all ==> s.Built() && s.Unused())
      && Apart(all) && (forall i, j :: 0 <= i < j < |all| ==> all[i] != all[j])
      && (forall i, j :: 0 <= i && j == i + 1 && j < |all| ==> all[i].next == all[j])
    }

    /** One more slot at the end. */
    static method Extend(ghost all: seq<Slot>, last: Slot) returns (s: Slot)
      requires all != [] && last == all[|all| - 1] && Linking(all)
      modifies last`next
      ensures fresh(s) && fresh(s.Parts()) && s.sockfd == 0 && Linking(all + [s])
    {
      hide Slot.Unused, Slot.Built, Apart;
      s := new Slot();
      ApartSnoc(all, s);
      last.next := s;
    }

    /** The slots and their links. */
    static method Chain(n: nat, leftover: Slot?) returns (ghost all: seq<Slot>, first: Slot)
      requires n > 0
      ensures |all| == n && first == all[0]
      ensures forall s :: s in all ==> fresh(s) && fresh(s.Parts()) && s.Built() && s.Unused() && s.sockfd == 0
      ensures Apart(all)
      ensures forall i :: 0 <= i < n ==> all[i].next == After(all, i, leftover)
    {
      hide Slot.Unused, Slot.Built, Apart, After;
      first := new Slot();
      var last := first;
      all := [first];
      ApartAlone(first);
      var made := 1;
      while made < n
        invariant 0 < made == |all| <= n && first == all[0] && last == all[|all| - 1] && fresh(last)
        invariant Linking(all) && forall s :: s in all ==> fresh(s) && fresh(s.Parts()) && s.sockfd == 0
      {
        last := Extend(all, last);
        all := all + [last];
        made := made + 1;
      }
      last.next := leftover;
      LinksLeadOn(all, leftover);
    }

    lemma RestIsLinked(was: seq<Slot>)
      requires was != [] && free == was[1..] && firstFree == After(was, 0, null)
      requires forall i :: 0 <= i < |was| ==> was[i].next == After(was, i, null)
      ensures Linked()
    {
      forall i | 0 <= i < |free|
        ensures free[i].next == After(free, i, null)
      {
        assert free[i] == was[i + 1] && was[i + 1].next == After(was, i + 1, null);
      }
    }

    /**
     * `connection_accept`: the first free slot, or none when all are in use. The source's own checks of a fresh
     * connection always succeed (src/kitserv.c:110, 119-125).
     */
    method Accept(socket: int) returns (slot: Slot?)
      requires Valid()
      modifies this, if firstFree == null then {} else {firstFree}
      ensures Valid()
      ensures slot == null <==> old(free) == []
      ensures slot == null ==> free == old(free) && freelistCount == old(freelistCount) == 0
      ensures slot != null ==>
                && slot == old(free)[0] && free == old(free)[1..] && freelistCount == old(freelistCount) - 1
                && slot !in free && slot in slots && slot.Unused() && slot.sockfd == socket
    {
      hide Slot.Unused, Valid;
      slot := Pop();
      if slot != null {
        slot.sockfd := socket;
        slot.UnusedIsFresh();
        assert slot.client.headersLen == 0;
        assert slot.resp.body == [];
        assert slot.resp.fd == 0 && slot.resp.fd == FD_DISABLE;
        assert slot.client.state == Read;
        assert slot.client.phase == New;
        assert slot.client.status == HTTP_X_RESP_STATUS_UNSET;
      }
    }

    /** The head of the free list is taken off. */
    method Pop() returns (slot: Slot?)
      requires Valid()
      modifies this
      ensures Valid() && slot == old(firstFree)
      ensures slot == null <==> old(free) == []
      ensures slot == null ==> free == old(free) && freelistCount == old(freelistCount) == 0
      ensures slot != null ==>
                && slot == old(free)[0] && free == old(free)[1..] && freelistCount == old(freelistCount) - 1
                && slot !in free && slot in slots && slot.Unused()
    {
      hide Slot.Unused, Slot.Parts, Slot.Built, Separate;
      assert Linked();
      assert free != [] ==> free[0].next == After(free, 0, null);
      slot := firstFree;
      if slot != null {
        assert freelistCount > 0;
        ghost var was := free;
        firstFree := slot.next;
        freelistCount := freelistCount - 1;
        free := free[1..];
        RestIsLinked(was);
      }
    }

    /** The first step of closing; it does not reach any other slot. */
    method Clean(slot: Slot)
      requires Valid() && slot in slots && slot !in free
      modifies slot.client, slot.resp, slot.resp.block
      ensures Valid() && slot.Unused()
    {
      hide Slot.Unused, Slot.Built;
      forall s | s in free
        ensures s != slot && s.Parts() !! slot.Parts()
      {
        assert s in slots && slot in slots;
      }
      slot.Reset();
      assert forall s :: s in free ==> s.Unused();
    }

    /** The second step, under the lock. */
    method Push(slot: Slot)
      requires Valid() && slot in slots && slot !in free && slot.Unused()
      modifies this, slot`next
      ensures Valid()
      ensures free == [slot] + old(free) && freelistCount == old(freelistCount) + 1
    {
      hide Slot.Unused, Slot.Built, Slot.Parts, Separate;
      slot.next := firstFree;
      firstFree := slot;
      freelistCount := freelistCount + 1;
      ghost var was := free;
      free := [slot] + was;
      forall i | 0 <= i < |free|
        ensures free[i].next == After(free, i, null)
      {
        if i > 0 {
          assert was[i - 1].next == After(was, i - 1, null);
        }
      }
    }

    /** `connection_close`: a slot in use becomes the first free one, fresh for its next connection. */
    method Close(slot: Slot)
      requires Valid() && slot in slots && slot !in free
      modifies this, slot`next, slot.client, slot.resp, slot.resp.block
      ensures Valid()
      ensures free == [slot] + old(free) && freelistCount == old(freelistCount) + 1
    {
      hide Valid, Slot.Unused;
      Clean(slot);
      Push(slot);
    }
  }
}
