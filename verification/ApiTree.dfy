/** Routing through the API tree: the walk as it is coded, and what it is meant to find (src/http.c:1012-1060). */
module ApiTrees {
  import opened Bytes
  import opened Requests

  /** Prefixes are C strings whose lengths are given truthfully, without slashes. */
  datatype Entry = Entry(prefix: seq<byte>, methods: Method, handler: nat, finishesPath: bool)

  datatype Tree = Tree(prefix: seq<byte>, subtrees: seq<Tree>, entries: seq<Entry>)

  /**
   * The outcomes of a walk. `PastTheEnd` stands for reading behind the end of the path, `OutOfBounds` for reading
   * behind the subtrees of the root.
   */
  datatype Route = Hit(handler: nat) | NotAllowed(flags: Method) | Miss | PastTheEnd | OutOfBounds

  datatype Pick = Found(i: nat) | NoneFound | Beyond

  // ----- As coded -----

  predicate OnlySlashes(s: seq<byte>) { forall i :: 0 <= i < |s| ==> s[i] == SLASH }

  /** `path` starts with the segment `path[..q]`; the entry matches it, and the rest if it is to finish the path. */
  predicate EntryMatches(e: Entry, path: seq<byte>, q: nat)
    requires q <= |path|
  {
    e.prefix == path[..q] && (e.finishesPath ==> OnlySlashes(path[q..]))
  }

  /**
   * An entry is for the paths that are its prefix, or go on behind it with a slash; one that finishes the path is for
   * those that go on with nothing but slashes.
   */
  lemma EntryIsForPaths(e: Entry, path: seq<byte>)
    requires '/' as int !in e.prefix
    ensures EntryMatches(e, path, Find(path, SLASH, 0)) <==>
            && e.prefix <= path && (|path| > |e.prefix| ==> path[|e.prefix|] == '/' as int)
            && (e.finishesPath ==> forall i :: |e.prefix| <= i < |path| ==> path[i] == '/' as int)
  {
    var q := Find(path, SLASH, 0);
    if e.prefix <= path && (|path| > |e.prefix| ==> path[|e.prefix|] == SLASH) {
      assert forall k :: 0 <= k < |e.prefix| ==> path[k] == e.prefix[k];
      FindIs(path, SLASH, 0, |e.prefix|);
      assert path[..q] == e.prefix;
      assert forall i :: 0 <= i < |path[q..]| ==> path[q..][i] == path[q + i];
      assert OnlySlashes(path[q..]) ==> forall i :: q <= i < |path| ==> path[i] == path[q..][i - q];
    } else {
      assert e.prefix != path[..q];
    }
  }

  /** A request is served by an entry for its own method; those for GET and for HEAD serve each other's. */
  lemma MethodsMeet(a: seq<byte>, b: seq<byte>)
    requires MethodOf(a).Some? && MethodOf(b).Some?
    ensures MethodOf(a).value * MethodOf(b).value != {} <==>
            a == b || (a in {Ascii("GET"), Ascii("HEAD")} && b in {Ascii("GET"), Ascii("HEAD")})
  {
    AsciiIs("GET", GET_TOKEN);
    AsciiIs("HEAD", HEAD_TOKEN);
    hide Ascii;
    var x, y := MethodOf(a).value, MethodOf(b).value;
    if GetBit in x && GetBit in y {
      assert GetBit in x * y;
    } else if a == b {
      assert x == y && (PutBit in x * y || PostBit in x * y || DeleteBit in x * y);
    } else {
      assert forall m :: m in x ==> m !in y;
    }
  }

  datatype Scan = Scan(handler: Option<nat>, flags: Method)

  /** The loop over the entries of a level from `i` on. */
  function ScanEntries(es: seq<Entry>, i: nat, path: seq<byte>, q: nat, m: Method, flags: Method): Scan
    requires q <= |path| && i <= |es|
    decreases |es| - i
  {
    if i == |es| then Scan(None, flags)
    else if !EntryMatches(es[i], path, q) then ScanEntries(es, i + 1, path, q, m, flags)
    else if m * es[i].methods != {} then Scan(Some(es[i].handler), flags + es[i].methods)
    else ScanEntries(es, i + 1, path, q, m, flags + es[i].methods)
  }

  /** `strncmp(segment, prefix, |segment|) == 0` for a segment without NUL. */
  predicate StartsWith(prefix: seq<byte>, segment: seq<byte>) { segment <= prefix }

  /** The loop over the subtrees: lengths come from the current level, names from the root (src/http.c:1050-1052). */
  function PickSubtree(root: Tree, c: Tree, segment: seq<byte>, i: nat): Pick
    requires i <= |c.subtrees|
    decreases |c.subtrees| - i
  {
    if i == |c.subtrees| then NoneFound
    else if |c.subtrees[i].prefix| != |segment| then PickSubtree(root, c, segment, i + 1)
    else if i >= |root.subtrees| then Beyond
    else if StartsWith(root.subtrees[i].prefix, segment) then Found(i)
    else PickSubtree(root, c, segment, i + 1)
  }

  function Walk(root: Tree, c: Tree, path: seq<byte>, m: Method): Route
    decreases c
  {
    var q := Find(path, SLASH, 0);
    var scan := ScanEntries(c.entries, 0, path, q, m, {});
    if scan.handler.Some? then Hit(scan.handler.value)
    else if scan.flags != {} then NotAllowed(scan.flags)
    else
      match PickSubtree(root, c, path[..q], 0)
      case NoneFound => Miss
      case Beyond => OutOfBounds
      case Found(i) =>
        PickedIsInRange(root, c, path[..q], 0);
        if q == |path| then PastTheEnd else Walk(root, c.subtrees[i], path[q + 1..], m)
  }

  lemma PickedIsInRange(root: Tree, c: Tree, segment: seq<byte>, i: nat)
    requires i <= |c.subtrees|
    ensures PickSubtree(root, c, segment, i).Found? ==> i <= PickSubtree(root, c, segment, i).i < |c.subtrees|
    decreases |c.subtrees| - i
  {
    if i < |c.subtrees| {
      PickedIsInRange(root, c, segment, i + 1);
    }
  }

  // ----- As meant -----

  /** The path split on slashes; there is always a first segment. */
  function Segments(path: seq<byte>): (s: seq<seq<byte>>)
    ensures s != []
  {
    var q := Find(path, SLASH, 0);
    if q == |path| then [path] else [path[..q]] + Segments(path[q + 1..])
  }

  predicate Matches(e: Entry, segments: seq<seq<byte>>)
    requires segments != []
  {
    && e.prefix == segments[0]
    && (e.finishesPath ==> forall i :: 1 <= i < |segments| ==> segments[i] == [])
  }

  /** The methods that some entry of the level offers for this path. */
  function Offered(t: Tree, segments: seq<seq<byte>>): Method
    requires segments != []
  {
    set e, b | e in t.entries && Matches(e, segments) && b in e.methods :: b
  }

  /** Entry `i` is the first that matches path and method. */
  predicate Serves(t: Tree, segments: seq<seq<byte>>, m: Method, i: int)
    requires segments != []
  {
    && 0 <= i < |t.entries| && Matches(t.entries[i], segments) && m * t.entries[i].methods != {}
    && forall j :: 0 <= j < i ==> !(Matches(t.entries[j], segments) && m * t.entries[j].methods != {})
  }

  /** Subtree `i` is the first with this name. */
  predicate Leads(t: Tree, segment: seq<byte>, i: int)
  {
    && 0 <= i < |t.subtrees| && t.subtrees[i].prefix == segment
    && forall j :: 0 <= j < i ==> t.subtrees[j].prefix != segment
  }

  /** What is left of the path below a subtree; a path that ends at its name leaves an empty segment. */
  function Below(segments: seq<seq<byte>>): (s: seq<seq<byte>>)
    requires segments != []
    ensures s != []
  {
    if |segments| == 1 then [[]] else segments[1..]
  }

  /** Where a path leads: an entry of the level reached, the methods that level offers instead, or nowhere. */
  ghost predicate Routes(t: Tree, segments: seq<seq<byte>>, m: Method, r: Route)
    requires segments != []
    decreases t
  {
    if exists i :: Serves(t, segments, m, i) then
      exists i :: Serves(t, segments, m, i) && r == Hit(t.entries[i].handler)
    else if Offered(t, segments) != {} then r == NotAllowed(Offered(t, segments))
    else if exists i :: Leads(t, segments[0], i) then
      exists i :: Leads(t, segments[0], i) && Routes(t.subtrees[i], Below(segments), m, r)
    else r == Miss
  }

  /** A path leads to one place only. */
  lemma {:induction false} RouteIsUnique(t: Tree, segments: seq<seq<byte>>, m: Method, r: Route, r': Route)
    requires segments != [] && Routes(t, segments, m, r) && Routes(t, segments, m, r')
    ensures r == r'
    decreases t
  {
    hide Matches, Offered;
    if exists i :: Serves(t, segments, m, i) {
      var i :| Serves(t, segments, m, i) && r == Hit(t.entries[i].handler);
      var j :| Serves(t, segments, m, j) && r' == Hit(t.entries[j].handler);
      assert i == j;
    } else if Offered(t, segments) != {} {
    } else if exists i :: Leads(t, segments[0], i) {
      var i :| Leads(t, segments[0], i) && Routes(t.subtrees[i], Below(segments), m, r);
      var j :| Leads(t, segments[0], j) && Routes(t.subtrees[j], Below(segments), m, r');
      assert i == j;
      RouteIsUnique(t.subtrees[i], Below(segments), m, r, r');
    }
  }

  // ----- The two agree -----

  predicate AllEmpty(segments: seq<seq<byte>>) { forall i :: 0 <= i < |segments| ==> segments[i] == [] }

  lemma AllEmptyCons(first: seq<byte>, later: seq<seq<byte>>)
    ensures AllEmpty([first] + later) <==> first == [] && AllEmpty(later)
  {
    var s := [first] + later;
    assert s[0] == first;
    assert forall i :: 0 <= i < |later| ==> later[i] == s[i + 1];
  }

  lemma OneSegment(s: seq<byte>)
    ensures AllEmpty([s]) <==> s == []
  {
    assert [s][0] == s;
  }

  lemma {:induction false} SlashesAreEmptySegments(s: seq<byte>)
    ensures OnlySlashes(s) <==> AllEmpty(Segments(s))
  {
    hide AllEmpty;
    var q := Find(s, SLASH, 0);
    if q < |s| {
      SlashesAreEmptySegments(s[q + 1..]);
      AllEmptyCons(s[..q], Segments(s[q + 1..]));
      if q == 0 {
        OneMoreSlash(s[1..]);
        assert s == [SLASH] + s[1..];
      } else {
        assert s[0] != SLASH;
      }
    } else {
      OneSegment(s);
      assert s != [] ==> s[0] != SLASH;
    }
  }

  lemma EntryMatchesAsMeant(e: Entry, path: seq<byte>)
    ensures EntryMatches(e, path, Find(path, SLASH, 0)) <==> Matches(e, Segments(path))
  {
    hide OnlySlashes;
    var q := Find(path, SLASH, 0);
    var s := Segments(path);
    if q == |path| {
      assert path[..q] == path && path[q..] == [];
      NoSlashes();
    } else {
      var rest := path[q + 1..];
      assert path[q..] == [SLASH] + rest;
      OneMoreSlash(rest);
      SlashesAreEmptySegments(rest);
      assert s == [path[..q]] + Segments(rest);
      assert forall i :: 1 <= i < |s| ==> s[i] == Segments(rest)[i - 1];
      assert forall i :: 0 <= i < |Segments(rest)| ==> Segments(rest)[i] == s[i + 1];
    }
  }

  lemma NoSlashes()
    ensures OnlySlashes([])
  {
  }

  lemma OneMoreSlash(rest: seq<byte>)
    ensures OnlySlashes([SLASH] + rest) <==> OnlySlashes(rest)
  {
    var s := [SLASH] + rest;
    assert forall i :: 0 <= i < |rest| ==> rest[i] == s[i + 1];
    assert forall i :: 1 <= i < |s| ==> s[i] == rest[i - 1];
  }

  /** What the methods of the first `i` entries add up to. */
  function OfferedBefore(t: Tree, segments: seq<seq<byte>>, i: nat): Method
    requires segments != [] && i <= |t.entries|
  {
    set j, b | 0 <= j < i && Matches(t.entries[j], segments) && b in t.entries[j].methods :: b
  }

  lemma OfferedStep(t: Tree, segments: seq<seq<byte>>, i: nat)
    requires segments != [] && i < |t.entries|
    ensures OfferedBefore(t, segments, i + 1) ==
            OfferedBefore(t, segments, i) + if Matches(t.entries[i], segments) then t.entries[i].methods else {}
  {
  }

  lemma OfferedInAll(t: Tree, segments: seq<seq<byte>>)
    requires segments != []
    ensures OfferedBefore(t, segments, |t.entries|) == Offered(t, segments)
  {
    var all := OfferedBefore(t, segments, |t.entries|);
    forall b | b in Offered(t, segments)
      ensures b in all
    {
      var e :| e in t.entries && Matches(e, segments) && b in e.methods;
      var j :| 0 <= j < |t.entries| && t.entries[j] == e;
    }
  }

  lemma {:induction false} ScanAsMeant(t: Tree, path: seq<byte>, m: Method, i: nat)
    requires i <= |t.entries|
    requires forall j :: 0 <= j < i ==> !(Matches(t.entries[j], Segments(path)) && m * t.entries[j].methods != {})
    ensures var q := Find(path, SLASH, 0);
            var s := Segments(path);
            var scan := ScanEntries(t.entries, i, path, q, m, OfferedBefore(t, s, i));
            if scan.handler.Some? then exists k :: Serves(t, s, m, k) && scan.handler.value == t.entries[k].handler
            else scan.flags == Offered(t, s) && forall k :: !Serves(t, s, m, k)
    decreases |t.entries| - i
  {
    hide Matches, EntryMatches, OfferedBefore, Offered;
    var s := Segments(path);
    if i == |t.entries| {
      OfferedInAll(t, s);
    } else {
      EntryMatchesAsMeant(t.entries[i], path);
      OfferedStep(t, s, i);
      if Matches(t.entries[i], s) && m * t.entries[i].methods != {} {
        assert Serves(t, s, m, i);
      } else {
        ScanAsMeant(t, path, m, i + 1);
        assert OfferedBefore(t, s, i) + {} == OfferedBefore(t, s, i);
      }
    }
  }

  /** Segment `s` is taken for subtree `i`: the lengths are right, and the root's name there begins with it. */
  predicate Hits(root: Tree, c: Tree, s: seq<byte>, i: int)
  {
    0 <= i < |c.subtrees| && |c.subtrees[i].prefix| == |s| && i < |root.subtrees| && s <= root.subtrees[i].prefix
  }

  /** No subtree before `j` has its name. */
  predicate IsFirst(c: Tree, j: nat)
    requires j < |c.subtrees|
  {
    forall i :: 0 <= i < j ==> c.subtrees[i].prefix != c.subtrees[j].prefix
  }

  /**
   * Comparing with the root's subtree names does no harm at subtree `j`. The first of its name must begin the root's
   * name at the same place. At a later one, what the root's name begins with must be the name, or taken before. Where
   * the root has no subtree, every segment of that length must be taken before.
   */
  ghost predicate AlignedAt(root: Tree, c: Tree, j: nat)
    requires j < |c.subtrees|
  {
    var name := c.subtrees[j].prefix;
    if j >= |root.subtrees| then
      forall s :: |s| == |name| ==> exists i :: i < j && Hits(root, c, s, i)
    else
      var there := root.subtrees[j].prefix;
      if IsFirst(c, j) then name <= there
      else
        || |there| < |name|
        || name <= there
        || exists i :: i < j && Hits(root, c, there[..|name|], i)
  }

  /** At this level, comparing with the root's subtree names is as good as comparing with the level's own. */
  ghost predicate AlignedLevel(root: Tree, c: Tree)
  {
    forall j :: 0 <= j < |c.subtrees| ==> AlignedAt(root, c, j)
  }

  ghost predicate Aligned(root: Tree, c: Tree)
    decreases c
  {
    AlignedLevel(root, c) && forall i :: 0 <= i < |c.subtrees| ==> Aligned(root, c.subtrees[i])
  }

  /** The intended choice of a subtree. */
  function PickOwn(c: Tree, segment: seq<byte>, i: nat): (p: Pick)
    requires i <= |c.subtrees|
    ensures p.Found? ==> i <= p.i < |c.subtrees| && c.subtrees[p.i].prefix == segment
    ensures p.Found? ==> forall j :: i <= j < p.i ==> c.subtrees[j].prefix != segment
    ensures !p.Found? ==> p == NoneFound && forall j :: i <= j < |c.subtrees| ==> c.subtrees[j].prefix != segment
    decreases |c.subtrees| - i
  {
    if i == |c.subtrees| then NoneFound
    else if c.subtrees[i].prefix == segment then Found(i)
    else PickOwn(c, segment, i + 1)
  }

  ghost predicate PicksAsMeant(root: Tree, c: Tree)
  {
    forall segment :: PickSubtree(root, c, segment, 0) == PickOwn(c, segment, 0)
  }

  /** What the coded choice says about the subtrees from `i` on. */
  lemma {:induction false} PickFacts(root: Tree, c: Tree, s: seq<byte>, i: nat)
    requires i <= |c.subtrees|
    ensures var p := PickSubtree(root, c, s, i);
            && (p.Found? ==> i <= p.i && Hits(root, c, s, p.i))
            && (!p.Beyond? ==>
                  forall k :: i <= k < (if p.Found? then p.i else |c.subtrees|) && |c.subtrees[k].prefix| == |s| ==>
                    k < |root.subtrees| && !Hits(root, c, s, k))
    decreases |c.subtrees| - i
  {
    if i < |c.subtrees| {
      PickFacts(root, c, s, i + 1);
    }
  }

  lemma {:induction false} FirstOfItsName(c: Tree, j: nat) returns (i: nat)
    requires j < |c.subtrees|
    ensures i <= j && c.subtrees[i].prefix == c.subtrees[j].prefix && IsFirst(c, i)
    decreases j
  {
    i := j;
    if !IsFirst(c, j) {
      var k :| 0 <= k < j && c.subtrees[k].prefix == c.subtrees[j].prefix;
      i := FirstOfItsName(c, k);
    }
  }

  /** Where nothing was taken before, an aligned subtree is taken exactly for its own name. */
  lemma TakenForItsName(root: Tree, c: Tree, s: seq<byte>, k: nat)
    requires AlignedLevel(root, c) && k < |c.subtrees| && |c.subtrees[k].prefix| == |s|
    requires forall i :: 0 <= i < k ==> !Hits(root, c, s, i) && c.subtrees[i].prefix != s
    ensures k < |root.subtrees| && (Hits(root, c, s, k) <==> c.subtrees[k].prefix == s)
  {
    var name := c.subtrees[k].prefix;
    assert AlignedAt(root, c, k);
    if name == s {
      assert IsFirst(c, k);
    }
    if Hits(root, c, s, k) {
      assert root.subtrees[k].prefix[..|name|] == s;
    }
  }

  lemma {:induction false} AlignedPicks(root: Tree, c: Tree, segment: seq<byte>, i: nat)
    requires AlignedLevel(root, c) && i <= |c.subtrees|
    requires forall k :: 0 <= k < i ==> !Hits(root, c, segment, k) && c.subtrees[k].prefix != segment
    ensures PickSubtree(root, c, segment, i) == PickOwn(c, segment, i)
    decreases |c.subtrees| - i
  {
    hide AlignedLevel;
    if i < |c.subtrees| {
      if |c.subtrees[i].prefix| == |segment| {
        TakenForItsName(root, c, segment, i);
      }
      if !Hits(root, c, segment, i) && c.subtrees[i].prefix != segment {
        AlignedPicks(root, c, segment, i + 1);
      }
    }
  }

  /** A level whose choices are as meant is aligned everywhere. */
  lemma PicksAlign(root: Tree, c: Tree, j: nat)
    requires PicksAsMeant(root, c) && j < |c.subtrees|
    ensures AlignedAt(root, c, j)
  {
    hide PickSubtree, PickOwn;
    var name := c.subtrees[j].prefix;
    if j >= |root.subtrees| {
      forall s | |s| == |name|
        ensures exists i :: i < j && Hits(root, c, s, i)
      {
        PickFacts(root, c, s, 0);
        assert PickSubtree(root, c, s, 0) == PickOwn(c, s, 0);
        OwnIsNotBeyond(c, s);
      }
    } else if IsFirst(c, j) {
      FirstIsOwn(c, j);
      assert PickSubtree(root, c, name, 0) == PickOwn(c, name, 0);
      PickFacts(root, c, name, 0);
    } else if |root.subtrees[j].prefix| >= |name| && !(name <= root.subtrees[j].prefix) {
      var s := root.subtrees[j].prefix[..|name|];
      PickFacts(root, c, s, 0);
      assert Hits(root, c, s, j);
      assert PickSubtree(root, c, s, 0) == PickOwn(c, s, 0);
      OwnIsNotBeyond(c, s);
    }
  }

  lemma OwnIsNotBeyond(c: Tree, s: seq<byte>)
    ensures var p := PickOwn(c, s, 0); !p.Beyond? && (p.Found? ==> c.subtrees[p.i].prefix == s)
  {
  }

  lemma FirstIsOwn(c: Tree, j: nat)
    requires j < |c.subtrees| && IsFirst(c, j)
    ensures PickOwn(c, c.subtrees[j].prefix, 0) == Found(j)
  {
    var p := PickOwn(c, c.subtrees[j].prefix, 0);
    assert p.Found?;
  }

  /** The coded choice is the intended one for every segment exactly when the level is aligned. At the root it always is. */
  lemma PicksAsMeantIffAligned(root: Tree, c: Tree)
    ensures PicksAsMeant(root, c) <==> AlignedLevel(root, c)
    ensures AlignedLevel(root, root)
  {
    hide AlignedAt, PickSubtree, PickOwn;
    if AlignedLevel(root, c) {
      forall segment
        ensures PickSubtree(root, c, segment, 0) == PickOwn(c, segment, 0)
      {
        AlignedPicks(root, c, segment, 0);
      }
      assert PicksAsMeant(root, c);
    }
    if PicksAsMeant(root, c) {
      forall j | 0 <= j < |c.subtrees|
        ensures AlignedAt(root, c, j)
      {
        PicksAlign(root, c, j);
      }
    }
    forall j | 0 <= j < |root.subtrees|
      ensures AlignedAt(root, root, j)
    {
      RootIsAligned(root, j);
    }
  }

  lemma RootIsAligned(root: Tree, j: nat)
    requires j < |root.subtrees|
    ensures AlignedAt(root, root, j)
  {
  }

  /** Levels with names of their own are aligned exactly when each name begins the root's name at the same place. */
  lemma AlignedWhenDistinct(root: Tree, c: Tree)
    requires forall j :: 0 <= j < |c.subtrees| ==> IsFirst(c, j)
    requires |c.subtrees| <= |root.subtrees|
    ensures AlignedLevel(root, c) <==> forall j :: 0 <= j < |c.subtrees| ==> c.subtrees[j].prefix <= root.subtrees[j].prefix
  {
    if AlignedLevel(root, c) {
      forall j | 0 <= j < |c.subtrees|
        ensures c.subtrees[j].prefix <= root.subtrees[j].prefix
      {
        assert AlignedAt(root, c, j) && IsFirst(c, j);
      }
    }
  }

  /** The walk comes to a subtree whose name ends the path, without having met an entry for the path. */
  ghost predicate EndsAtSubtree(t: Tree, segments: seq<seq<byte>>, m: Method)
    requires segments != []
    decreases t
  {
    && (forall i :: !Serves(t, segments, m, i))
    && Offered(t, segments) == {}
    && exists i :: Leads(t, segments[0], i) && (|segments| == 1 || EndsAtSubtree(t.subtrees[i], segments[1..], m))
  }

  /** The entries of the level decide the route. */
  predicate Decided(c: Tree, path: seq<byte>, m: Method)
  {
    var scan := ScanEntries(c.entries, 0, path, Find(path, SLASH, 0), m, {});
    scan.handler.Some? || scan.flags != {}
  }

  /** At every level that the path leads to, the coded choice is the intended one. */
  predicate OnCourse(root: Tree, c: Tree, path: seq<byte>, m: Method)
    decreases c
  {
    var q := Find(path, SLASH, 0);
    var own := PickOwn(c, path[..q], 0);
    || Decided(c, path, m)
    || (PickSubtree(root, c, path[..q], 0) == own
        && (own.NoneFound? || q == |path| || OnCourse(root, c.subtrees[own.i], path[q + 1..], m)))
  }

  lemma FirstSegment(path: seq<byte>)
    ensures var q := Find(path, SLASH, 0);
            && Segments(path)[0] == path[..q]
            && (q < |path| ==> |Segments(path)| > 1 && Below(Segments(path)) == Segments(path)[1..] == Segments(path[q + 1..]))
            && (q == |path| ==> |Segments(path)| == 1)
  {
    hide Find;
    var q := Find(path, SLASH, 0);
    if q == |path| {
      assert path[..q] == path;
    } else {
      var rest := Segments(path[q + 1..]);
      assert Segments(path) == [path[..q]] + rest && |rest| > 0;
      assert Segments(path)[1..] == rest;
    }
  }

  /** Where the entries do not decide, the route leads through the subtree with the name, or nowhere. */
  lemma RoutesBelow(c: Tree, path: seq<byte>, m: Method)
    requires !Decided(c, path, m)
    ensures var s := Segments(path);
            && (forall i :: !Serves(c, s, m, i)) && Offered(c, s) == {}
            && (match PickOwn(c, s[0], 0)
                case Found(i) =>
                  Leads(c, s[0], i) && forall r :: Routes(c, s, m, r) <==> Routes(c.subtrees[i], Below(s), m, r)
                case _ => (forall i :: !Leads(c, s[0], i)) && forall r :: Routes(c, s, m, r) <==> r == Miss)
  {
    hide Serves, Offered, ScanEntries;
    var s := Segments(path);
    FirstSegment(path);
    assert OfferedBefore(c, s, 0) == {};
    ScanAsMeant(c, path, m, 0);
    var p := PickOwn(c, s[0], 0);
    if p.Found? {
      assert Leads(c, s[0], p.i);
      assert forall i :: Leads(c, s[0], i) ==> i == p.i;
    }
  }

  lemma DecidedRoute(root: Tree, c: Tree, path: seq<byte>, m: Method)
    requires Decided(c, path, m)
    ensures Routes(c, Segments(path), m, Walk(root, c, path, m)) && !EndsAtSubtree(c, Segments(path), m)
    ensures Walk(root, c, path, m) != PastTheEnd
  {
    hide Serves, Offered, ScanEntries, PickSubtree;
    FirstSegment(path);
    assert OfferedBefore(c, Segments(path), 0) == {};
    ScanAsMeant(c, path, m, 0);
  }

  /**
   * A walk that stays on course finds what is meant, unless the path ends exactly at a subtree name; then, and only
   * then, it runs off the end of the path.
   */
  lemma {:induction false} OnCourseWalk(root: Tree, c: Tree, path: seq<byte>, m: Method)
    requires OnCourse(root, c, path, m)
    ensures Walk(root, c, path, m) == PastTheEnd <==> EndsAtSubtree(c, Segments(path), m)
    ensures !EndsAtSubtree(c, Segments(path), m) ==> Routes(c, Segments(path), m, Walk(root, c, path, m))
    decreases c
  {
    hide Serves, Offered, ScanEntries, PickSubtree, Leads;
    if Decided(c, path, m) {
      DecidedRoute(root, c, path, m);
    } else {
      FirstSegment(path);
      RoutesBelow(c, path, m);
      var q := Find(path, SLASH, 0);
      var p := PickOwn(c, path[..q], 0);
      if p.Found? {
        OnlyOneLeads(c, path[..q], p.i);
        if q < |path| {
          OnCourseWalk(root, c.subtrees[p.i], path[q + 1..], m);
        }
      }
    }
  }

  lemma OnlyOneLeads(c: Tree, segment: seq<byte>, i: nat)
    requires Leads(c, segment, i)
    ensures forall j :: Leads(c, segment, j) ==> j == i
  {
  }

  /** In a tree whose levels are aligned every walk is on course. */
  lemma {:induction false} AlignedStaysOnCourse(root: Tree, c: Tree, path: seq<byte>, m: Method)
    requires Aligned(root, c)
    ensures OnCourse(root, c, path, m)
    decreases c
  {
    hide ScanEntries, PickSubtree, AlignedLevel;
    var q := Find(path, SLASH, 0);
    AlignedPicks(root, c, path[..q], 0);
    var p := PickOwn(c, path[..q], 0);
    if p.Found? && q < |path| {
      AlignedStaysOnCourse(root, c.subtrees[p.i], path[q + 1..], m);
    }
  }

  /** So in such a tree every path is routed as meant, but for those that end at a subtree name. */
  lemma WalkAsMeant(root: Tree, c: Tree, path: seq<byte>, m: Method)
    requires Aligned(root, c)
    ensures Walk(root, c, path, m) == PastTheEnd <==> EndsAtSubtree(c, Segments(path), m)
    ensures !EndsAtSubtree(c, Segments(path), m) ==> Routes(c, Segments(path), m, Walk(root, c, path, m))
  {
    hide Aligned, OnCourse, EndsAtSubtree, Routes;
    AlignedStaysOnCourse(root, c, path, m);
    OnCourseWalk(root, c, path, m);
  }

  /**
   * A walk that leaves its course does so at a level `d` with the rest `rest` of the path, where the entries do not
   * decide and the coded choice is not the intended one. Up to there nothing has gone wrong: the walk's route is the
   * meant one exactly if it is so from there.
   */
  lemma {:induction false} WrongTurn(root: Tree, c: Tree, path: seq<byte>, m: Method) returns (d: Tree, rest: seq<byte>)
    requires !OnCourse(root, c, path, m)
    ensures var q := Find(rest, SLASH, 0);
            !Decided(d, rest, m) && PickSubtree(root, d, rest[..q], 0) != PickOwn(d, rest[..q], 0)
    ensures Walk(root, c, path, m) == Walk(root, d, rest, m)
    ensures forall r :: Routes(c, Segments(path), m, r) <==> Routes(d, Segments(rest), m, r)
    decreases c
  {
    hide ScanEntries, PickSubtree, Routes;
    var q := Find(path, SLASH, 0);
    var p := PickOwn(c, path[..q], 0);
    if PickSubtree(root, c, path[..q], 0) != p {
      d, rest := c, path;
    } else {
      FirstSegment(path);
      RoutesBelow(c, path, m);
      d, rest := WrongTurn(root, c.subtrees[p.i], path[q + 1..], m);
    }
  }

  /**
   * What a wrong turn does to the route. A subtree that is not found makes it a miss, so the route is right exactly if
   * nothing was meant there; a wrong subtree must happen to hold what was meant; and reading behind the path or behind
   * the root's subtrees is never right.
   */
  lemma RightAfterAWrongTurn(root: Tree, d: Tree, rest: seq<byte>, m: Method)
    requires !Decided(d, rest, m)
    requires var q := Find(rest, SLASH, 0); PickSubtree(root, d, rest[..q], 0) != PickOwn(d, rest[..q], 0)
    ensures var q := Find(rest, SLASH, 0);
            var coded, own := PickSubtree(root, d, rest[..q], 0), PickOwn(d, rest[..q], 0);
            Routes(d, Segments(rest), m, Walk(root, d, rest, m)) <==>
            match coded
            case NoneFound => own.Found? && Routes(d.subtrees[own.i], Below(Segments(rest)), m, Miss)
            case Beyond => false
            case Found(k) =>
              k < |d.subtrees| && q < |rest| &&
              var r := Walk(root, d.subtrees[k], rest[q + 1..], m);
              if own.Found? then Routes(d.subtrees[own.i], Below(Segments(rest)), m, r) else r == Miss
  {
    hide ScanEntries, Routes, PickSubtree, Serves, Offered, Leads;
    FirstSegment(rest);
    RoutesBelow(d, rest, m);
    PickedIsInRange(root, d, rest[..Find(rest, SLASH, 0)], 0);
    NeverOutside(d, Segments(rest), m);
  }

  /** No path is meant to lead outside. */
  lemma {:induction false} NeverOutside(t: Tree, segments: seq<seq<byte>>, m: Method)
    requires segments != []
    ensures !Routes(t, segments, m, PastTheEnd) && !Routes(t, segments, m, OutOfBounds)
    decreases t
  {
    hide Serves, Offered, Leads;
    if (forall i :: !Serves(t, segments, m, i)) && Offered(t, segments) == {} && exists i :: Leads(t, segments[0], i) {
      forall i | Leads(t, segments[0], i)
        ensures 0 <= i < |t.subtrees| && !Routes(t.subtrees[i], Below(segments), m, PastTheEnd)
                && !Routes(t.subtrees[i], Below(segments), m, OutOfBounds)
      {
        LeadsInside(t, segments[0], i);
        NeverOutside(t.subtrees[i], Below(segments), m);
      }
    }
  }

  lemma LeadsInside(t: Tree, segment: seq<byte>, i: int)
    requires Leads(t, segment, i)
    ensures 0 <= i < |t.subtrees|
  {
  }

  /** A subtree of a subtree is looked up under the root's names: the entry below it is never found. */
  lemma NestedSubtreesGoWrong()
    ensures var leaf := Tree([98], [], [Entry([99], GET, 7, false)]);
            var mid := Tree([97], [leaf], []);
            var root := Tree([], [mid], []);
            && Walk(root, root, [97, SLASH, 98, SLASH, 99], GET) == Miss
            && Routes(root, Segments([97, SLASH, 98, SLASH, 99]), GET, Hit(7))
  {
    var leaf := Tree([98], [], [Entry([99], GET, 7, false)]);
    var mid := Tree([97], [leaf], []);
    var root := Tree([], [mid], []);
    var p3: seq<byte> := [99];
    var p2: seq<byte> := [98, SLASH, 99];
    var p1: seq<byte> := [97, SLASH, 98, SLASH, 99];
    FindIs(p3, SLASH, 0, 1);
    FindIs(p2, SLASH, 0, 1);
    FindIs(p1, SLASH, 0, 1);
    assert p1[2..] == p2 && p2[2..] == p3 && p1[..1] == [97] && p2[..1] == [98];
    assert Segments(p3) == [p3] && Segments(p2) == [[98], p3] && Segments(p1) == [[97], [98], p3];
    assert PickSubtree(root, mid, [98], 0) == NoneFound;
    assert Walk(root, mid, p2, GET) == Miss;
    assert PickSubtree(root, root, [97], 0) == Found(0);
    assert Serves(leaf, [p3], GET, 0) by {
      assert GetBit in GET * leaf.entries[0].methods;
    }
    assert Routes(leaf, [p3], GET, Hit(7));
    assert Leads(mid, [98], 0) && Below([[98], p3]) == [p3];
    assert Routes(mid, [[98], p3], GET, Hit(7));
    assert Leads(root, [97], 0) && Below(Segments(p1)) == [[98], p3];
  }

  /**
   * `parse_api_tree`: the goto becomes a loop that descends one level per turn. The flags of a level start empty,
   * because a level with flags is the last.
   */
  method ParseApiTree(root: Tree, path0: seq<byte>, m: Method) returns (r: Route)
    ensures r == Walk(root, root, path0, m)
  {
    var c, path := root, path0;
    while true
      invariant Walk(root, c, path, m) == Walk(root, root, path0, m)
      decreases c
    {
      var q := 0;
      while q < |path| && path[q] != SLASH
        invariant q <= |path| && forall k :: 0 <= k < q ==> path[k] != SLASH
      {
        q := q + 1;
      }
      FindIs(path, SLASH, 0, q);
      var i := 0;
      var flags: Method := {};
      while i < |c.entries|
        invariant i <= |c.entries|
        invariant ScanEntries(c.entries, 0, path, q, m, {}) == ScanEntries(c.entries, i, path, q, m, flags)
      {
        if EntryMatches(c.entries[i], path, q) {
          flags := flags + c.entries[i].methods;
          if m * c.entries[i].methods != {} {
            return Hit(c.entries[i].handler);
          }
        }
        i := i + 1;
      }
      if flags != {} {
        return NotAllowed(flags);
      }
      i := 0;
      while i < |c.subtrees| && !(|c.subtrees[i].prefix| == q
                                  && (i >= |root.subtrees| || StartsWith(root.subtrees[i].prefix, path[..q])))
        invariant i <= |c.subtrees|
        invariant PickSubtree(root, c, path[..q], 0) == PickSubtree(root, c, path[..q], i)
      {
        i := i + 1;
      }
      if i == |c.subtrees| {
        return Miss;
      }
      if i >= |root.subtrees| {
        return OutOfBounds;
      }
      if q == |path| {
        return PastTheEnd;
      }
      c, path := c.subtrees[i], path[q + 1..];
    }
  }
}
