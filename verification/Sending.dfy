/**
 * Scatter-gather and file sending (src/http.c:1315-1345, 1392-1412). The peer takes any part of what it is offered,
 * would block, or is gone.
 */
module Sending {
  import opened Bytes

  datatype WriteEvent = Accepts(n: nat) | WouldBlock | Broken

  datatype WriteResult = Wrote(n: nat) | Again | Error

  // ----- What one partial write does to the buffers -----

  /** What is to become of the pending buffers when `rc` bytes of them were taken. */
  function Drop(bs: seq<seq<byte>>, rc: nat): seq<seq<byte>>
  {
    if bs == [] then []
    else if |bs[0]| <= rc then [[]] + Drop(bs[1..], rc - |bs[0]|)
    else [bs[0][rc..]] + bs[1..]
  }

  /** What the loop of src/http.c:1327-1339 does: every buffer is compared with the whole of `rc`. */
  function DropAsWritten(bs: seq<seq<byte>>, rc: nat): (r: seq<seq<byte>>)
    ensures |r| == |bs|
  {
    if bs == [] then []
    else if |bs[0]| <= rc then [[]] + DropAsWritten(bs[1..], rc)
    else [bs[0][rc..]] + bs[1..]
  }

  /**
   * Buffer by buffer: those up to the first that is longer than `rc` are emptied, that one loses `rc` bytes, and the
   * others stay as they are.
   */
  lemma {:induction false} DropByBuffers(bs: seq<seq<byte>>, rc: nat, i: nat)
    requires i < |bs|
    ensures DropAsWritten(bs, rc)[i] ==
            if exists j :: 0 <= j < i && |bs[j]| > rc then bs[i]
            else if |bs[i]| > rc then bs[i][rc..]
            else []
  {
    if i > 0 && |bs[0]| <= rc {
      DropByBuffers(bs[1..], rc, i - 1);
      assert forall j :: 1 <= j < |bs| ==> bs[1..][j - 1] == bs[j];
      if j :| 0 <= j < i && |bs[j]| > rc {
        assert |bs[1..][j - 1]| > rc;
      }
    }
  }

  /** The length of the first buffer that is not empty. */
  function FirstLength(bs: seq<seq<byte>>): nat
  {
    if bs == [] then 0 else if bs[0] != [] then |bs[0]| else FirstLength(bs[1..])
  }

  /** A write that ends inside the first non-empty buffer, or takes everything. */
  predicate Safe(bs: seq<seq<byte>>, rc: nat)
  {
    rc < FirstLength(bs) || rc == |Flatten(bs)|
  }

  lemma {:induction false} DropIsSuffix(bs: seq<seq<byte>>, rc: nat)
    requires rc <= |Flatten(bs)|
    ensures Flatten(Drop(bs, rc)) == Flatten(bs)[rc..]
  {
    if bs != [] {
      if |bs[0]| <= rc {
        DropIsSuffix(bs[1..], rc - |bs[0]|);
        assert Drop(bs, rc)[1..] == Drop(bs[1..], rc - |bs[0]|);
      } else {
        assert Drop(bs, rc)[1..] == bs[1..];
      }
    }
  }

  lemma {:induction false} DroppingAll(bs: seq<seq<byte>>, rc: nat)
    requires rc >= |Flatten(bs)|
    ensures Flatten(DropAsWritten(bs, rc)) == []
  {
    if bs != [] {
      DroppingAll(bs[1..], rc);
      assert DropAsWritten(bs, rc)[1..] == DropAsWritten(bs[1..], rc);
    }
  }

  lemma {:induction false} DropNeverKeepsMore(bs: seq<seq<byte>>, rc: nat)
    requires rc <= |Flatten(bs)|
    ensures |Flatten(DropAsWritten(bs, rc))| <= |Flatten(bs)| - rc
    ensures bs != [] && bs[0] != [] && |bs[0]| <= rc < |Flatten(bs)| ==>
              |Flatten(DropAsWritten(bs, rc))| < |Flatten(bs)| - rc
  {
    if bs != [] {
      var rest := bs[1..];
      var d := DropAsWritten(bs, rc);
      if |bs[0]| <= rc {
        assert d[1..] == DropAsWritten(rest, rc);
        assert |Flatten(bs)| == |bs[0]| + |Flatten(rest)|;
        if rc <= |Flatten(rest)| {
          DropNeverKeepsMore(rest, rc);
        } else {
          DroppingAll(rest, rc);
        }
      } else {
        assert d[1..] == rest;
      }
    }
  }

  /** The loop leaves the right bytes pending exactly when the write was safe; otherwise it loses some. */
  lemma {:induction false} DropAsWrittenExact(bs: seq<seq<byte>>, rc: nat)
    requires rc <= |Flatten(bs)|
    ensures Safe(bs, rc) ==> Flatten(DropAsWritten(bs, rc)) == Flatten(bs)[rc..]
    ensures !Safe(bs, rc) ==> |Flatten(DropAsWritten(bs, rc))| < |Flatten(bs)| - rc
  {
    if bs != [] {
      var rest := bs[1..];
      if bs[0] == [] {
        assert Flatten(bs) == Flatten(rest);
        assert DropAsWritten(bs, rc)[1..] == DropAsWritten(rest, rc);
        DropAsWrittenExact(rest, rc);
      } else if rc < |bs[0]| {
        assert DropAsWritten(bs, rc)[1..] == rest;
      } else if rc == |Flatten(bs)| {
        DroppingAll(bs, rc);
      } else {
        DropNeverKeepsMore(bs, rc);
      }
    }
  }

  // ----- Whole runs -----

  /** The state of a transmission: what went out and what is still pending. */
  datatype Transmission = Transmission(wire: seq<byte>, bufs: seq<seq<byte>>)

  /** One `writev` that takes `rc` bytes, and the bookkeeping after it. */
  function WriteStep(t: Transmission, rc: nat): Transmission
    requires rc <= |Flatten(t.bufs)|
  {
    Transmission(t.wire + Flatten(t.bufs)[..rc], DropAsWritten(t.bufs, rc))
  }

  /** Every count was at most what was on offer. */
  predicate Legal(t: Transmission, counts: seq<nat>)
    decreases |counts|
  {
    counts == [] || (counts[0] <= |Flatten(t.bufs)| && Legal(WriteStep(t, counts[0]), counts[1..]))
  }

  function Run(t: Transmission, counts: seq<nat>): Transmission
    requires Legal(t, counts)
    decreases |counts|
  {
    if counts == [] then t else Run(WriteStep(t, counts[0]), counts[1..])
  }

  predicate AllSafe(t: Transmission, counts: seq<nat>)
    requires Legal(t, counts)
    decreases |counts|
  {
    counts == [] || (Safe(t.bufs, counts[0]) && AllSafe(WriteStep(t, counts[0]), counts[1..]))
  }

  /**
   * Over any run of partial writes, across suspensions too: while every write was safe, what is on the wire and what
   * is pending make up the response; after one that was not, bytes are missing for good.
   */
  lemma {:induction false} RunConserves(t: Transmission, counts: seq<nat>)
    requires Legal(t, counts)
    ensures var u := Run(t, counts);
            && (AllSafe(t, counts) ==> u.wire + Flatten(u.bufs) == t.wire + Flatten(t.bufs))
            && (!AllSafe(t, counts) ==> |u.wire| + |Flatten(u.bufs)| < |t.wire| + |Flatten(t.bufs)|)
            && |u.wire| + |Flatten(u.bufs)| <= |t.wire| + |Flatten(t.bufs)|
    decreases |counts|
  {
    hide WriteStep, Flatten, Safe;
    if counts != [] {
      StepConserves(t, counts[0]);
      RunConserves(WriteStep(t, counts[0]), counts[1..]);
    }
  }

  lemma StepConserves(t: Transmission, rc: nat)
    requires rc <= |Flatten(t.bufs)|
    ensures var t' := WriteStep(t, rc);
            && (Safe(t.bufs, rc) ==> t'.wire + Flatten(t'.bufs) == t.wire + Flatten(t.bufs))
            && (!Safe(t.bufs, rc) ==> |t'.wire| + |Flatten(t'.bufs)| < |t.wire| + |Flatten(t.bufs)|)
  {
    hide Flatten, Safe, DropAsWritten;
    DropAsWrittenExact(t.bufs, rc);
    if Safe(t.bufs, rc) {
      SplitAgain(t.wire, Flatten(t.bufs), rc);
    }
  }

  /** When sending ends, everything was sent exactly if every partial write was safe. */
  lemma SentAllIffSafe(t: Transmission, counts: seq<nat>)
    requires Legal(t, counts) && Flatten(Run(t, counts).bufs) == []
    ensures Run(t, counts).wire == t.wire + Flatten(t.bufs) <==> AllSafe(t, counts)
  {
    RunConserves(t, counts);
    var u := Run(t, counts);
    assert u.wire + [] == u.wire;
    assert |t.wire + Flatten(t.bufs)| == |t.wire| + |Flatten(t.bufs)|;
  }

  // ----- What is meant -----

  /** As `Legal` and `Run`, with buffers that shrink as they should. */
  predicate LegalAsMeant(t: Transmission, counts: seq<nat>)
    decreases |counts|
  {
    counts == [] || (counts[0] <= |Flatten(t.bufs)| && LegalAsMeant(StepAsMeant(t, counts[0]), counts[1..]))
  }

  function StepAsMeant(t: Transmission, rc: nat): Transmission
    requires rc <= |Flatten(t.bufs)|
  {
    Transmission(t.wire + Flatten(t.bufs)[..rc], Drop(t.bufs, rc))
  }

  function RunAsMeant(t: Transmission, counts: seq<nat>): Transmission
    requires LegalAsMeant(t, counts)
    decreases |counts|
  {
    if counts == [] then t else RunAsMeant(StepAsMeant(t, counts[0]), counts[1..])
  }

  /** With the meant bookkeeping the wire always holds a prefix of the response, and all of it once nothing is pending. */
  lemma {:induction false} MeantRunSendsAPrefix(t: Transmission, counts: seq<nat>)
    requires LegalAsMeant(t, counts)
    ensures var u := RunAsMeant(t, counts);
            && u.wire + Flatten(u.bufs) == t.wire + Flatten(t.bufs)
            && (Flatten(u.bufs) == [] ==> u.wire == t.wire + Flatten(t.bufs))
    decreases |counts|
  {
    hide Drop, Flatten;
    if counts != [] {
      var rc := counts[0];
      var all := Flatten(t.bufs);
      var t' := StepAsMeant(t, rc);
      DropIsSuffix(t.bufs, rc);
      MeantRunSendsAPrefix(t', counts[1..]);
      SplitAgain(t.wire, all, rc);
    }
    var u := RunAsMeant(t, counts);
    assert u.wire + [] == u.wire;
  }

  lemma SplitAgain(before: seq<byte>, all: seq<byte>, n: nat)
    requires n <= |all|
    ensures before + all[..n] + all[n..] == before + all
  {
  }

  /** The code keeps to what is meant for as long as every write is safe. */
  lemma {:induction false} SafeRunsAreAsMeant(t: Transmission, t': Transmission, counts: seq<nat>)
    requires Legal(t, counts) && AllSafe(t, counts)
    requires t.wire == t'.wire && Flatten(t.bufs) == Flatten(t'.bufs)
    ensures LegalAsMeant(t', counts)
    ensures RunAsMeant(t', counts).wire == Run(t, counts).wire
    ensures Flatten(RunAsMeant(t', counts).bufs) == Flatten(Run(t, counts).bufs)
    decreases |counts|
  {
    if counts != [] {
      var rc := counts[0];
      DropIsSuffix(t'.bufs, rc);
      DropAsWrittenExact(t.bufs, rc);
      SafeRunsAreAsMeant(WriteStep(t, rc), StepAsMeant(t', rc), counts[1..]);
    }
  }

  /** A write that stops between the start line and the headers loses header bytes. */
  lemma PartialWriteCanLoseBytes()
    ensures var t := Transmission([], [[1, 2], [3, 4, 5], []]);
            Legal(t, [2, 1]) && Run(t, [2, 1]) == Transmission([1, 2, 5], [[], [], []])
  {
    var t := Transmission([], [[1, 2], [3, 4, 5], []]);
    assert Flatten([[]]) == [] && Flatten([[3, 4, 5], []]) == [3, 4, 5];
    assert Flatten(t.bufs) == [1, 2, 3, 4, 5];
    var bs: seq<seq<byte>> := [[], [5], []];
    calc {
      DropAsWritten(t.bufs, 2);
      [[]] + DropAsWritten([[3, 4, 5], []], 2);
      [[]] + ([[5]] + [[]]);
      bs;
    }
    assert t.wire + Flatten(t.bufs)[..2] == [1, 2];
    var t' := Transmission([1, 2], bs);
    assert WriteStep(t, 2) == t';
    assert Flatten([[5], []]) == [5];
    assert bs[1..] == [[5], []];
    assert Flatten(bs) == [5];
    assert [[5], []][1..] == [[]];
    assert DropAsWritten([[]], 1) == [[]];
    assert DropAsWritten([[5], []], 1) == [[], []];
    assert DropAsWritten(bs, 1) == [[], [], []];
    assert WriteStep(t', 1) == Transmission([1, 2, 5], [[], [], []]);
    assert [2, 1][1..] == [1] && [1][1..] == [];
    assert Legal(t', [1]);
  }

  lemma {:induction false} RunAppend(t: Transmission, a: seq<nat>, rc: nat)
    requires Legal(t, a) && rc <= |Flatten(Run(t, a).bufs)|
    ensures Legal(t, a + [rc]) && Run(t, a + [rc]) == WriteStep(Run(t, a), rc)
    ensures AllSafe(t, a + [rc]) <==> AllSafe(t, a) && Safe(Run(t, a).bufs, rc)
    decreases |a|
  {
    if a == [] {
      assert a + [rc] == [rc] && [rc][1..] == [];
    } else {
      assert (a + [rc])[0] == a[0] && (a + [rc])[1..] == a[1..] + [rc];
      RunAppend(WriteStep(t, a[0]), a[1..], rc);
    }
  }

  /** A transmission that is resumed is one transmission. */
  lemma {:induction false} RunComposes(t: Transmission, a: seq<nat>, b: seq<nat>)
    requires Legal(t, a) && Legal(Run(t, a), b)
    ensures Legal(t, a + b) && Run(t, a + b) == Run(Run(t, a), b)
    ensures AllSafe(t, a + b) <==> AllSafe(t, a) && AllSafe(Run(t, a), b)
    decreases |a|
  {
    if a == [] {
      assert a + b == b;
    } else {
      assert (a + b)[0] == a[0] && (a + b)[1..] == a[1..] + b;
      RunComposes(WriteStep(t, a[0]), a[1..], b);
    }
  }

  /** What is on the wire already does not matter. */
  lemma {:induction false} RunShifts(before: seq<byte>, t: Transmission, counts: seq<nat>)
    ensures var t' := Transmission(before + t.wire, t.bufs);
            && (Legal(t', counts) <==> Legal(t, counts))
            && (Legal(t, counts) ==>
                  && Run(t', counts) == Transmission(before + Run(t, counts).wire, Run(t, counts).bufs)
                  && (AllSafe(t', counts) <==> AllSafe(t, counts)))
    decreases |counts|
  {
    hide DropAsWritten, Safe, Flatten;
    if counts != [] && counts[0] <= |Flatten(t.bufs)| {
      var u := WriteStep(t, counts[0]);
      assert before + u.wire == before + t.wire + Flatten(t.bufs)[..counts[0]];
      RunShifts(before, u, counts[1..]);
    }
  }

  /** A transmission that is resumed after `before` was sent is one transmission, after `before`. */
  lemma RunResumes(before: seq<byte>, t: Transmission, a: seq<nat>, b: seq<nat>)
    requires Legal(t, a) && Legal(Transmission(before + Run(t, a).wire, Run(t, a).bufs), b)
    ensures Legal(t, a + b)
    ensures Run(Transmission(before + Run(t, a).wire, Run(t, a).bufs), b) ==
            Transmission(before + Run(t, a + b).wire, Run(t, a + b).bufs)
  {
    hide Legal, Run, AllSafe;
    RunShifts(before, Run(t, a), b);
    RunComposes(t, a, b);
  }

  // ----- The client's side of the wire -----

  class Wire {
    var script: seq<WriteEvent>
    ghost var sent: seq<byte>

    /** What the latest write was told, how many there were, and how many of them made no sense. */
    ghost var last: WriteResult
    ghost var asked: nat
    ghost var senseless: nat

    constructor (script: seq<WriteEvent>)
      ensures this.script == script && sent == []
    {
      this.script, sent, last, asked, senseless := script, [], Again, 0, 0;
    }

    /** A `writev` whose lengths make no sense. */
    method Refuse()
      modifies this`last, this`asked, this`senseless
      ensures last == Error && asked == old(asked) + 1 && senseless == old(senseless) + 1
    {
      last, asked, senseless := Error, asked + 1, senseless + 1;
    }

    /** `writev` or `sendfile` of `data`: nothing to send is a success that sends nothing; otherwise at least one byte goes. */
    method Write(data: seq<byte>) returns (rc: WriteResult)
      modifies this
      ensures rc.Wrote? ==> rc.n <= |data| && (rc.n == 0 <==> data == []) && sent == old(sent) + data[..rc.n]
      ensures !rc.Wrote? ==> sent == old(sent) && data != []
      ensures last == rc && asked == old(asked) + 1 && senseless == old(senseless)
      ensures |script| <= |old(script)|
      ensures rc.Wrote? && data != [] ==> |script| < |old(script)|
      ensures rc.Error? ==> old(script) != [] && old(script)[0].Broken?
    {
      asked := asked + 1;
      if data == [] {
        last := Wrote(0);
        return Wrote(0);
      }
      if script == [] {
        last := Again;
        return Again;
      }
      var event := script[0];
      script := script[1..];
      match event {
        case WouldBlock =>
          last := Again;
          return Again;
        case Broken =>
          last := Error;
          return Error;
        case Accepts(n) =>
          var k := if n == 0 then 1 else Min(n, |data|);
          sent, last := sent + data[..k], Wrote(k);
          return Wrote(k);
      }
    }
  }

  /** The most that one `writev` takes. */
  const SSIZE_MAX: nat := 0x7fff_ffff_ffff_ffff

  /** A `struct iovec`: `len` bytes from offset `base` of `mem`. */
  datatype IoVec = IoVec(mem: seq<byte>, base: nat, len: nat)

  predicate InMemory(v: IoVec) { v.len == 0 || v.base + v.len <= |v.mem| }

  function Slice(v: IoVec): seq<byte>
    requires InMemory(v)
  {
    if v.len == 0 then [] else v.mem[v.base..v.base + v.len]
  }

  ghost predicate GoodVecs(bufs: array<IoVec>)
    reads bufs
  {
    bufs.Length == 3 && InMemory(bufs[0]) && InMemory(bufs[1]) && InMemory(bufs[2])
  }

  /** The lengths add up to more than a result could say: the kernel refuses the call with EINVAL. */
  ghost predicate TooLong(bufs: array<IoVec>)
    reads bufs
  {
    bufs.Length == 3 && bufs[0].len + bufs[1].len + bufs[2].len > SSIZE_MAX
  }

  function Slices(bufs: array<IoVec>): seq<seq<byte>>
    requires GoodVecs(bufs)
    reads bufs
  {
    [Slice(bufs[0]), Slice(bufs[1]), Slice(bufs[2])]
  }

  lemma FlattenThree(a: seq<byte>, b: seq<byte>, c: seq<byte>)
    ensures Flatten([a, b, c]) == a + b + c
  {
    assert [a, b, c][1..] == [b, c] && [b, c][1..] == [c] && [c][1..] == [];
    assert Flatten([c]) == c + [];
  }

  lemma DropAsWrittenThree(a: seq<byte>, b: seq<byte>, c: seq<byte>, rc: nat)
    ensures DropAsWritten([a, b, c], rc) ==
            if rc < |a| then [a[rc..], b, c]
            else if rc < |b| then [[], b[rc..], c]
            else if rc < |c| then [[], [], c[rc..]]
            else [[], [], []]
  {
    assert [a, b, c][1..] == [b, c] && [b, c][1..] == [c] && [c][1..] == [];
    assert DropAsWritten([c], rc) == if rc < |c| then [c[rc..]] else [[]];
    assert DropAsWritten([b, c], rc) ==
           if rc < |b| then [b[rc..], c] else [[]] + DropAsWritten([c], rc);
  }

  /** One buffer after `rc` bytes: its base always moves, its length shrinks to what is left of it. */
  function Advanced(v: IoVec, rc: nat): (w: IoVec)
    ensures InMemory(v) ==> InMemory(w)
    ensures InMemory(v) && v.len > rc ==> Slice(w) == Slice(v)[rc..]
  {
    v.(base := v.base + rc, len := if v.len <= rc then 0 else v.len - rc)
  }

  /** The bookkeeping stops at the first of the three buffers, `i`, that is longer than `rc`, or runs through. */
  lemma AccountedIs(was: seq<IoVec>, now: seq<IoVec>, rc: nat, i: nat)
    requires |was| == 3 == |now| && i <= 3 && InMemory(was[0]) && InMemory(was[1]) && InMemory(was[2])
    requires forall k :: 0 <= k < 3 ==> now[k] == if k <= i then Advanced(was[k], rc) else was[k]
    requires forall k :: 0 <= k < i ==> was[k].len <= rc
    requires i < 3 ==> was[i].len > rc
    ensures InMemory(now[0]) && InMemory(now[1]) && InMemory(now[2])
    ensures [Slice(now[0]), Slice(now[1]), Slice(now[2])] ==
            DropAsWritten([Slice(was[0]), Slice(was[1]), Slice(was[2])], rc)
    ensures i == 3 ==> Slice(now[0]) == Slice(now[1]) == Slice(now[2]) == []
    ensures i < 3 ==> Slice(now[i]) != []
  {
    hide DropAsWritten;
    DropAsWrittenThree(Slice(was[0]), Slice(was[1]), Slice(was[2]), rc);
  }

  /** The bookkeeping loop of src/http.c:1327-1339; true when it ran through all three buffers. */
  method Account(bufs: array<IoVec>, rc: nat) returns (all: bool)
    requires GoodVecs(bufs)
    modifies bufs
    ensures GoodVecs(bufs)
    ensures Slices(bufs) == DropAsWritten(old(Slices(bufs)), rc)
    ensures all ==> Slices(bufs) == [[], [], []]
    ensures !all ==> Slices(bufs) != [[], [], []]
  {
    hide DropAsWritten, Advanced, Slice, InMemory;
    ghost var was := bufs[..];
    var i := 0;
    while i < 3
      invariant 0 <= i <= 3
      invariant forall k :: 0 <= k < 3 ==> bufs[k] == if k < i then Advanced(was[k], rc) else was[k]
      invariant forall k :: 0 <= k < i ==> was[k].len <= rc
    {
      var v := bufs[i];
      bufs[i] := Advanced(v, rc);
      if v.len > rc {
        AccountedIs(was, bufs[..], rc, i);
        return false;
      }
      i := i + 1;
    }
    AccountedIs(was, bufs[..], rc, 3);
    return true;
  }

  /**
   * `kitserv_http_send_response`. Any failed `writev` counts as a would-block (src/http.c:1324), so the only results
   * are "try again later" and "all buffers are done". `counts` are the partial counts of this call. Buffers that are too
   * long are never sent, and the call says "try again later" for ever.
   */
  method SendResponse(wire: Wire, bufs: array<IoVec>) returns (done: bool, ghost counts: seq<nat>)
    requires GoodVecs(bufs) || TooLong(bufs)
    modifies wire, bufs
    ensures old(GoodVecs(bufs)) ==>
              GoodVecs(bufs) &&
              var t := Transmission(old(wire.sent), old(Slices(bufs)));
              Legal(t, counts) && Run(t, counts) == Transmission(wire.sent, Slices(bufs))
    ensures old(TooLong(bufs)) ==> !done && counts == [] && wire.sent == old(wire.sent) && bufs[..] == old(bufs[..])
    ensures done ==> GoodVecs(bufs) && Flatten(Slices(bufs)) == []
    ensures !done ==> !wire.last.Wrote?
    ensures old(wire.asked) < wire.asked
    ensures old(wire.senseless) <= wire.senseless
    ensures wire.senseless > old(wire.senseless) <==>
              old(bufs[0].len + bufs[1].len + bufs[2].len) >= 0x8000_0000_0000_0000
    ensures |wire.script| <= |old(wire.script)|
  {
    hide Run, Legal, WriteStep, AllSafe, Flatten;
    counts := [];
    if bufs[0].len + bufs[1].len + bufs[2].len > SSIZE_MAX {
      if old(GoodVecs(bufs)) {
        RunOfNothing(Transmission(wire.sent, Slices(bufs)));
      }
      wire.Refuse();
      return false, counts;
    }
    ghost var t := Transmission(wire.sent, Slices(bufs));
    RunOfNothing(t);
    while true
      invariant GoodVecs(bufs)
      invariant Legal(t, counts) && Run(t, counts) == Transmission(wire.sent, Slices(bufs))
      invariant |wire.script| <= |old(wire.script)| && old(wire.asked) <= wire.asked && wire.senseless == old(wire.senseless)
      decreases |wire.script|
    {
      FlattenThree(Slice(bufs[0]), Slice(bufs[1]), Slice(bufs[2]));
      var offer := Slice(bufs[0]) + Slice(bufs[1]) + Slice(bufs[2]);
      ghost var now := Transmission(wire.sent, Slices(bufs));
      var rc := wire.Write(offer);
      if !rc.Wrote? {
        return false, counts;
      }
      RunAppend(t, counts, rc.n);
      counts := counts + [rc.n];
      StepIs(now, rc.n);
      DropAsWrittenThree(Slice(bufs[0]), Slice(bufs[1]), Slice(bufs[2]), rc.n);
      var all := Account(bufs, rc.n);
      assert !all ==> offer != [];
      if all {
        FlattenThree([], [], []);
        return true, counts;
      }
    }
  }

  lemma RunOfNothing(t: Transmission)
    ensures Legal(t, []) && Run(t, []) == t
  {
  }

  lemma StepIs(t: Transmission, rc: nat)
    requires rc <= |Flatten(t.bufs)|
    ensures WriteStep(t, rc) == Transmission(t.wire + Flatten(t.bufs)[..rc], DropAsWritten(t.bufs, rc))
  {
  }
}
