/**
 * What the calls of a handler leave behind, call by call (src/api.c:128-199): the last word on each setting stands, and
 * body and fields are what was written since they were last reset.
 */
module Shapes {
  import opened Bytes
  import opened Numbers
  import opened Requests
  import opened Headers
  import opened Responses
  import opened Handlers

  datatype Kind = SwitchesHeaders | SwitchesBody | Allows | Sends | EmptiesBody | EmptiesHeaders

  predicate Is(x: Deed, kind: Kind)
  {
    x.Called? &&
    match kind
    case SwitchesHeaders => x.call.PreserveHeaders?
    case SwitchesBody => x.call.PreserveBody?
    case Allows => x.call.AllowOnly?
    case Sends => x.call.SendFile?
    case EmptiesBody => x.call.ResetBody?
    case EmptiesHeaders => x.call.ResetHeaders?
  }

  /** The last deed of this kind, or -1. */
  function Last(deeds: seq<Deed>, kind: Kind): (i: int)
    ensures -1 <= i < |deeds| && (i >= 0 ==> Is(deeds[i], kind))
    ensures forall j :: i < j < |deeds| && j >= 0 ==> !Is(deeds[j], kind)
  {
    if deeds == [] then -1
    else if Is(deeds[|deeds| - 1], kind) then |deeds| - 1
    else Last(deeds[..|deeds| - 1], kind)
  }

  lemma LastSnoc(deeds: seq<Deed>, kind: Kind)
    requires deeds != []
    ensures Last(deeds, kind) ==
            if Is(deeds[|deeds| - 1], kind) then |deeds| - 1 else Last(deeds[..|deeds| - 1], kind)
  {
  }

  /** What a single deed changes of the settings. */
  lemma OneDeed(d: Draft, x: Deed)
    ensures ShapeDeed(d, x).keepHeaders == if Is(x, SwitchesHeaders) then x.call.on else d.keepHeaders
    ensures ShapeDeed(d, x).keepBody == if Is(x, SwitchesBody) then x.call.on else d.keepBody
    ensures ShapeDeed(d, x).allow == if Is(x, Allows) then x.call.methods else d.allow
    ensures ShapeDeed(d, x).fd == if Is(x, Sends) then x.call.fd else d.fd
    ensures ShapeDeed(d, x).file == if Is(x, Sends) then x.call.content else d.file
  {
  }

  lemma ShapeSnoc(d: Draft, deeds: seq<Deed>)
    requires deeds != []
    ensures ShapeAll(d, deeds) == ShapeDeed(ShapeAll(d, deeds[..|deeds| - 1]), deeds[|deeds| - 1])
  {
    hide ShapeDeed;
  }

  /** Whether an error preserves headers and body, what it allows, and what is sent, is what was said last. */
  lemma {:induction false} LastWordStands(d: Draft, deeds: seq<Deed>)
    ensures var i := Last(deeds, SwitchesHeaders);
            ShapeAll(d, deeds).keepHeaders == if i < 0 then d.keepHeaders else deeds[i].call.on
    ensures var i := Last(deeds, SwitchesBody);
            ShapeAll(d, deeds).keepBody == if i < 0 then d.keepBody else deeds[i].call.on
    ensures var i := Last(deeds, Allows);
            ShapeAll(d, deeds).allow == if i < 0 then d.allow else deeds[i].call.methods
    ensures var i := Last(deeds, Sends);
            var e := ShapeAll(d, deeds);
            e.fd == (if i < 0 then d.fd else deeds[i].call.fd) && e.file == if i < 0 then d.file else deeds[i].call.content
    decreases |deeds|
  {
    if deeds != [] {
      var front, x := deeds[..|deeds| - 1], deeds[|deeds| - 1];
      LastWordStands(d, front);
      ShapeSnoc(d, deeds);
      OneDeed(ShapeAll(d, front), x);
      hide ShapeAll, ShapeDeed, Last;
      LastSnoc(deeds, SwitchesHeaders);
      LastSnoc(deeds, SwitchesBody);
      LastSnoc(deeds, Allows);
      LastSnoc(deeds, Sends);
    }
  }

  /** The text that a deed wrote; one for which there is no memory is not written. */
  function WrittenBy(x: Deed): seq<byte>
  {
    if x.Called? && x.call.WriteBody? && x.call.memory then x.call.text else []
  }

  function Written(deeds: seq<Deed>): seq<byte>
  {
    if deeds == [] then [] else Written(deeds[..|deeds| - 1]) + WrittenBy(deeds[|deeds| - 1])
  }

  lemma OneText(d: Draft, x: Deed)
    requires |d.body| + |WrittenBy(x)| <= INT64_MAX
    ensures ShapeDeed(d, x).body == if Is(x, EmptiesBody) then [] else d.body + WrittenBy(x)
  {
  }

  lemma WrittenSnoc(deeds: seq<Deed>)
    requires deeds != []
    ensures Written(deeds) == Written(deeds[..|deeds| - 1]) + WrittenBy(deeds[|deeds| - 1])
    ensures Added(deeds) == Added(deeds[..|deeds| - 1]) + AddedBy(deeds[|deeds| - 1])
  {
  }

  /** What was done before only matters for the response it left. */
  lemma {:induction false} ShapeAppend(d: Draft, a: seq<Deed>, b: seq<Deed>)
    ensures ShapeAll(d, a + b) == ShapeAll(ShapeAll(d, a), b)
    decreases |b|
  {
    hide ShapeDeed;
    if b == [] {
      assert a + b == a;
    } else {
      assert (a + b)[..|a + b| - 1] == a + b[..|b| - 1];
      ShapeAppend(d, a, b[..|b| - 1]);
    }
  }

  lemma {:induction false} BodyGrows(d: Draft, deeds: seq<Deed>)
    requires |d.body| + |Written(deeds)| <= INT64_MAX
    requires forall i :: 0 <= i < |deeds| ==> !Is(deeds[i], EmptiesBody)
    ensures ShapeAll(d, deeds).body == d.body + Written(deeds)
    decreases |deeds|
  {
    hide ShapeDeed, WrittenBy, Is;
    if deeds == [] {
      assert d.body + [] == d.body;
    } else {
      var front, x := deeds[..|deeds| - 1], deeds[|deeds| - 1];
      WrittenSnoc(deeds);
      ShapeSnoc(d, deeds);
      hide ShapeAll, Written;
      BodyGrows(d, front);
      OneText(ShapeAll(d, front), x);
      assert (d.body + Written(front)) + WrittenBy(x) == d.body + (Written(front) + WrittenBy(x));
    }
  }

  /** After a reset the body is what was written since. */
  lemma BodyIsWritten(d: Draft, before: seq<Deed>, since: seq<Deed>)
    requires before != [] && Is(before[|before| - 1], EmptiesBody) && |Written(since)| <= INT64_MAX
    requires forall i :: 0 <= i < |since| ==> !Is(since[i], EmptiesBody)
    ensures ShapeAll(d, before + since).body == Written(since)
  {
    hide ShapeDeed, Written, Is;
    ShapeAppend(d, before, since);
    ShapeSnoc(d, before);
    hide ShapeAll;
    Emptied(ShapeAll(d, before[..|before| - 1]), before[|before| - 1]);
    BodyGrows(ShapeAll(d, before), since);
    assert [] + Written(since) == Written(since);
  }

  lemma Emptied(d: Draft, x: Deed)
    ensures Is(x, EmptiesBody) ==> ShapeDeed(d, x).body == []
    ensures Is(x, EmptiesHeaders) ==> ShapeDeed(d, x).fields == []
  {
  }

  /** The fields that were added. */
  function AddedBy(x: Deed): seq<HeaderField> { if x.Called? && x.call.AddHeader? then [x.call.field] else [] }

  function Added(deeds: seq<Deed>): seq<HeaderField>
  {
    if deeds == [] then [] else Added(deeds[..|deeds| - 1]) + AddedBy(deeds[|deeds| - 1])
  }

  lemma OneField(d: Draft, x: Deed)
    requires |PrintFields(d.fields + AddedBy(x))| < 4096
    ensures ShapeDeed(d, x).fields == if Is(x, EmptiesHeaders) then [] else d.fields + AddedBy(x)
  {
    hide PrintFields, PrintField;
    if AddedBy(x) != [] {
      PrintFieldsSnoc(d.fields, AddedBy(x)[0]);
    }
  }

  lemma ShorterBefore(fs: seq<HeaderField>, x: Deed)
    ensures |PrintFields(fs)| <= |PrintFields(fs + AddedBy(x))|
  {
    hide PrintFields, PrintField;
    if AddedBy(x) != [] {
      PrintFieldsSnoc(fs, AddedBy(x)[0]);
    } else {
      assert fs + [] == fs;
    }
  }

  lemma {:induction false} FieldsGrow(d: Draft, deeds: seq<Deed>)
    requires |PrintFields(d.fields + Added(deeds))| < 4096
    requires forall i :: 0 <= i < |deeds| ==> !Is(deeds[i], EmptiesHeaders)
    ensures ShapeAll(d, deeds).fields == d.fields + Added(deeds)
    decreases |deeds|
  {
    hide PrintFields, PrintField, ShapeDeed, AddedBy, Is;
    if deeds == [] {
      assert d.fields + [] == d.fields;
    } else {
      var front, x := deeds[..|deeds| - 1], deeds[|deeds| - 1];
      WrittenSnoc(deeds);
      ShapeSnoc(d, deeds);
      hide ShapeAll, Added;
      assert d.fields + Added(deeds) == (d.fields + Added(front)) + AddedBy(x);
      ShorterBefore(d.fields + Added(front), x);
      FieldsGrow(d, front);
      OneField(ShapeAll(d, front), x);
    }
  }

  /** As long as they fit, after a reset the fields are what was added since. */
  lemma FieldsAreAdded(d: Draft, before: seq<Deed>, since: seq<Deed>)
    requires before != [] && Is(before[|before| - 1], EmptiesHeaders) && |PrintFields(Added(since))| < 4096
    requires forall i :: 0 <= i < |since| ==> !Is(since[i], EmptiesHeaders)
    ensures ShapeAll(d, before + since).fields == Added(since)
  {
    hide ShapeDeed, Added, Is, PrintFields;
    ShapeAppend(d, before, since);
    ShapeSnoc(d, before);
    hide ShapeAll;
    Emptied(ShapeAll(d, before[..|before| - 1]), before[|before| - 1]);
    assert [] + Added(since) == Added(since);
    FieldsGrow(ShapeAll(d, before), since);
  }

  /** Deed `i` sets the status: outright, because a field does not fit, or because the socket broke. */
  predicate SetsStatus(d: Draft, deeds: seq<Deed>, i: int, status: nat)
  {
    0 <= i < |deeds| &&
    match deeds[i]
    case Called(SetStatus(s)) => status == s
    case Called(AddHeader(f)) =>
      |PrintFields(ShapeAll(d, deeds[..i]).fields)| + |PrintField(f)| >= 4096 && status == 507
    case Broke(_, _) => status == 1
    case _ => false
  }

  /** The status is the one that was set last. */
  lemma {:induction false} StatusIsSetLast(d: Draft, deeds: seq<Deed>)
    ensures || (ShapeAll(d, deeds).status == d.status && forall i, s :: !SetsStatus(d, deeds, i, s))
            || (exists i ::
                  SetsStatus(d, deeds, i, ShapeAll(d, deeds).status) && forall j, s :: i < j ==> !SetsStatus(d, deeds, j, s))
    decreases |deeds|
  {
    hide PrintFields, PrintField;
    if deeds != [] {
      var last := |deeds| - 1;
      var front, status := deeds[..last], ShapeAll(d, deeds).status;
      StatusIsSetLast(d, front);
      StatusSnoc(d, deeds);
      hide SetsStatus, ShapeAll;
      if s :| SetsStatus(d, deeds, last, s) {
        assert SetsStatus(d, deeds, last, status);
      } else if i :| SetsStatus(d, front, i, ShapeAll(d, front).status) && forall j, s :: i < j ==> !SetsStatus(d, front, j, s) {
        assert SetsStatus(d, deeds, i, status);
      }
    }
  }

  lemma StatusSnoc(d: Draft, deeds: seq<Deed>)
    requires deeds != []
    ensures var front, last, status := deeds[..|deeds| - 1], |deeds| - 1, ShapeAll(d, deeds).status;
            && (forall s :: SetsStatus(d, deeds, last, s) ==> s == status)
            && ((forall s :: !SetsStatus(d, deeds, last, s)) ==> status == ShapeAll(d, front).status)
            && (forall i, s :: i != last ==> (SetsStatus(d, deeds, i, s) <==> SetsStatus(d, front, i, s)))
            && (forall i, s :: SetsStatus(d, deeds, i, s) ==> 0 <= i <= last)
  {
    hide PrintFields, PrintField;
    var front, last := deeds[..|deeds| - 1], |deeds| - 1;
    ShapeSnoc(d, deeds);
    var x := deeds[last];
    assert x.Called? && x.call.SetStatus? ==> SetsStatus(d, deeds, last, x.call.status);
    assert x.Broke? ==> SetsStatus(d, deeds, last, 1);
    assert x.Called? && x.call.AddHeader? && !Fits(ShapeAll(d, front).fields, x.call.field) ==>
        SetsStatus(d, deeds, last, 507);
    forall i, s | i != last
      ensures SetsStatus(d, deeds, i, s) <==> SetsStatus(d, front, i, s)
    {
      if 0 <= i < last {
        assert deeds[..i] == front[..i];
      }
    }
  }

  /** A handler that only sets a status: an empty body, or the text of the error, and nothing but the usual fields. */
  lemma OnlyAStatus(closed: seq<int>, s: nat, texts: Texts, path: Text)
    ensures var d := ShapeAll(Begin(closed, 0), [Called(SetStatus(s))]);
            var o := OutcomeOf(d, texts, path);
            && d.status == o.status == s && o.fd == 0 && o.pos == 0 && o.closed == closed
            && o.body == (if s < 400 then [] else texts.errorBody(path, s))
            && (s < 400 ==> FieldsOf(d, o) == Closing(0, 0, 0, 0))
  {
    hide PrintFields, PrintField, Closing;
    var deeds := [Called(SetStatus(s))];
    assert deeds[..0] == [];
    assert ShapeAll(Begin(closed, 0), []) == Begin(closed, 0);
    var d := ShapeAll(Begin(closed, 0), deeds);
    FieldsAre(d, texts, path);
    OutcomeByNumbers(d, texts, path);
    assert [] + Closing(0, 0, 0, 0) == Closing(0, 0, 0, 0);
    ClosingIsShort();
  }

  lemma ClosingIsShort()
    ensures |PrintFields(Closing(0, 0, 0, 0))| < 4000
  {
    var c := Closing(0, 0, 0, 0);
    assert c[1..] == [c[1]] && c[1..][1..] == [];
  }
}
