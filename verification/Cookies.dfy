/** The cookie header: a pure parse, the in-place one, and lookups (src/http.c:256-318, src/api.c:43-59). */
module Cookies {
  import opened Bytes

  const HTTP_MAX_COOKIES: nat := 50

  datatype Pair = Pair(key: seq<byte>, value: seq<byte>)

  function SkipSpaces(s: seq<byte>, i: nat): (j: nat)
    requires i <= |s|
    ensures i <= j <= |s|
    ensures j < |s| ==> s[j] != SP
    ensures forall k :: i <= k < j ==> s[k] == SP
    decreases |s| - i
  {
    if i < |s| && s[i] == SP then SkipSpaces(s, i + 1) else i
  }

  /** One `name=value` and where it ends: `e` is the offset of `=`, `q` that of `;` or the end. */
  datatype Cut = Cut(start: nat, e: nat, q: nat)

  function CutFirst(s: seq<byte>): (c: Cut)
    ensures c.start <= c.e <= c.q <= |s|
    ensures c.e < |s| ==> c.e < c.q && s[c.e] == EQUALS && (c.q < |s| ==> s[c.q] == SEMICOLON)
  {
    var p := SkipSpaces(s, 0);
    var e := Find(s, EQUALS, p);
    Cut(p, e, Find(s, SEMICOLON, e))
  }

  /** An empty value is dropped unless it ends the header. */
  predicate Kept(s: seq<byte>, c: Cut) { c.q == |s| || c.q != c.e + 1 }

  /**
   * The pairs of a cookie header when `stored` of them are stored already. A piece without `=` spoils the whole header,
   * unless the store was full before it was reached.
   */
  function ParseCookies(s: seq<byte>, stored: nat): Option<seq<Pair>>
  {
    var c := CutFirst(s);
    if c.e == |s| then None
    else
      var pair := Pair(s[c.start..c.e], s[c.e + 1..c.q]);
      if Kept(s, c) && stored >= HTTP_MAX_COOKIES then Some([])
      else
        var now := if Kept(s, c) then [pair] else [];
        if c.q == |s| then Some(now)
        else
          match ParseCookies(s[c.q + 1..], stored + |now|)
          case None => None
          case Some(later) => Some(now + later)
  }

  // ----- Round trip -----

  /** A cookie of section 4.1.1 of RFC 6265; the parser asks for less of names and values. */
  predicate Printable(p: Pair)
  {
    EQUALS !in p.key && (p.key == [] || p.key[0] != SP) && SEMICOLON !in p.value
  }

  /** Section 4.2.1 of RFC 6265: pairs separated by a semicolon and a space. */
  function PrintCookies(ps: seq<Pair>): seq<byte>
  {
    if ps == [] then []
    else
      ps[0].key + [EQUALS] + ps[0].value + if |ps| == 1 then [] else [SEMICOLON, SP] + PrintCookies(ps[1..])
  }

  lemma SkipSpacesIs(s: seq<byte>, i: nat, j: nat)
    requires i <= j <= |s|
    requires forall k :: i <= k < j ==> s[k] == SP
    requires j == |s| || s[j] != SP
    ensures SkipSpaces(s, i) == j
  {
  }

  /** Where the pieces of a printed cookie stand. */
  lemma Pieces(before: seq<byte>, key: seq<byte>, value: seq<byte>, rest: seq<byte>)
    ensures var s := before + key + [EQUALS] + value + rest;
            var b, e := |before|, |before| + |key|;
            && |s| == e + 1 + |value| + |rest|
            && s[..b] == before && s[b..e] == key && s[e] == EQUALS && s[e + 1..e + 1 + |value|] == value
            && s[e + 1 + |value|..] == rest
  {
  }

  lemma CutOfPrinted(p: Pair, rest: seq<byte>, blank: bool)
    requires Printable(p) && (rest == [] || rest[0] == SEMICOLON)
    ensures var s := (if blank then [SP] else []) + p.key + [EQUALS] + p.value + rest;
            var b := if blank then 1 else 0;
            CutFirst(s) == Cut(b, b + |p.key|, b + |p.key| + 1 + |p.value|)
  {
    hide Find, SkipSpaces;
    var before := if blank then [SP] else [];
    var s := before + p.key + [EQUALS] + p.value + rest;
    var b, e := |before|, |before| + |p.key|;
    var q := e + 1 + |p.value|;
    Pieces(before, p.key, p.value, rest);
    CutAt(s, p.key, p.value, b, e, q);
  }

  lemma CutAt(s: seq<byte>, key: seq<byte>, value: seq<byte>, b: nat, e: nat, q: nat)
    requires b <= e < q <= |s| && s[b..e] == key && s[e] == EQUALS && s[e + 1..q] == value
    requires EQUALS !in key && SEMICOLON !in value && s[b] != SP
    requires (forall k :: 0 <= k < b ==> s[k] == SP) && (q < |s| ==> s[q] == SEMICOLON)
    ensures CutFirst(s) == Cut(b, e, q)
  {
    SkipSpacesIs(s, 0, b);
    forall k | b <= k < e
      ensures s[k] != EQUALS
    {
      assert s[k] == key[k - b];
    }
    FindIs(s, EQUALS, b, e);
    forall k | e <= k < q
      ensures s[k] != SEMICOLON
    {
      assert k > e ==> s[k] == value[k - e - 1];
    }
    FindIs(s, SEMICOLON, e, q);
  }

  lemma OneCookie(p: Pair, rest: seq<byte>, stored: nat, blank: bool)
    requires Printable(p) && (rest == [] || rest[0] == SEMICOLON)
    ensures var kept := if p.value != [] || rest == [] then [p] else [];
            ParseCookies((if blank then [SP] else []) + p.key + [EQUALS] + p.value + rest, stored) ==
            if kept != [] && stored >= HTTP_MAX_COOKIES then Some([])
            else if rest == [] then Some(kept)
            else Prepend(kept, ParseCookies(rest[1..], stored + |kept|))
  {
    hide CutFirst, ParseCookies;
    var before := if blank then [SP] else [];
    var s := before + p.key + [EQUALS] + p.value + rest;
    CutOfPrinted(p, rest, blank);
    Pieces(before, p.key, p.value, rest);
    ParseStep(s, stored);
    var c := CutFirst(s);
    assert s[c.start..c.e] == p.key && s[c.e + 1..c.q] == p.value;
    if rest != [] {
      assert s[c.q + 1..] == rest[1..];
    }
  }

  /** What the parser keeps: the cookies with a value, and the last one even without. */
  function Remembered(ps: seq<Pair>): seq<Pair>
  {
    if ps == [] then []
    else (if ps[0].value != [] || |ps| == 1 then [ps[0]] else []) + Remembered(ps[1..])
  }

  /** What is left to store of `ps` when `stored` cookies are stored already. */
  function Fitting(ps: seq<Pair>, stored: nat): seq<Pair>
    requires stored <= HTTP_MAX_COOKIES
  {
    ps[..Min(|ps|, HTTP_MAX_COOKIES - stored)]
  }

  lemma FittingCons(kept: seq<Pair>, later: seq<Pair>, stored: nat)
    requires |kept| <= 1 && stored + |kept| <= HTTP_MAX_COOKIES
    ensures kept + Fitting(later, stored + |kept|) == Fitting(kept + later, stored)
  {
  }

  /** Printed cookies are read back in order: those that are remembered, as many as can be stored. */
  lemma {:induction false} CookieRoundTrip(ps: seq<Pair>, stored: nat, blank: bool)
    requires ps != [] && (forall i :: 0 <= i < |ps| ==> Printable(ps[i])) && stored <= HTTP_MAX_COOKIES
    ensures ParseCookies((if blank then [SP] else []) + PrintCookies(ps), stored) == Some(Fitting(Remembered(ps), stored))
    decreases |ps|
  {
    hide ParseCookies, Printable, PrintCookies, Fitting, Remembered;
    var rest := PrintedFirst(ps, blank);
    OneCookie(ps[0], rest, stored, blank);
    var kept := RememberedFirst(ps);
    if stored == HTTP_MAX_COOKIES && kept != [] {
      NothingFits(Remembered(ps));
    } else {
      FittingCons(kept, Remembered(ps[1..]), stored);
      if |ps| > 1 {
        CookieRoundTrip(ps[1..], stored + |kept|, true);
      } else {
        assert ps[1..] == [];
        NothingRemembered(kept, stored + |kept|);
      }
    }
  }

  /** What follows the first of some printed cookies. */
  lemma PrintedFirst(ps: seq<Pair>, blank: bool) returns (rest: seq<byte>)
    requires ps != []
    ensures (if blank then [SP] else []) + PrintCookies(ps) ==
            (if blank then [SP] else []) + ps[0].key + [EQUALS] + ps[0].value + rest
    ensures if |ps| == 1 then rest == [] else rest != [] && rest[0] == SEMICOLON && rest[1..] == [SP] + PrintCookies(ps[1..])
  {
    rest := if |ps| == 1 then [] else [SEMICOLON, SP] + PrintCookies(ps[1..]);
  }

  lemma RememberedFirst(ps: seq<Pair>) returns (kept: seq<Pair>)
    requires ps != []
    ensures kept == if ps[0].value != [] || |ps| == 1 then [ps[0]] else []
    ensures Remembered(ps) == kept + Remembered(ps[1..])
  {
    kept := if ps[0].value != [] || |ps| == 1 then [ps[0]] else [];
  }

  lemma NothingRemembered(kept: seq<Pair>, stored: nat)
    requires stored <= HTTP_MAX_COOKIES
    ensures Remembered([]) == [] && Fitting([], stored) == [] && kept + [] == kept
  {
  }

  lemma {:induction false} RememberedAllIff(ps: seq<Pair>)
    ensures |Remembered(ps)| <= |ps|
    ensures Remembered(ps) == ps <==> forall i :: 0 <= i < |ps| - 1 ==> ps[i].value != []
  {
    if |ps| > 1 {
      var later := ps[1..];
      RememberedAllIff(later);
      assert ps == [ps[0]] + later;
      assert forall i :: 0 <= i < |later| ==> later[i] == ps[i + 1];
      if Remembered(ps) == ps {
        assert |Remembered(ps)| == |ps|;
      }
    }
  }

  /** A header of at most 50 cookies is read back as it was printed exactly if only the last value may be empty. */
  lemma ReadsBackExactly(ps: seq<Pair>)
    requires ps != [] && (forall i :: 0 <= i < |ps| ==> Printable(ps[i])) && |ps| <= 50
    ensures ParseCookies(PrintCookies(ps), 0) == Some(ps) <==> forall i :: 0 <= i < |ps| - 1 ==> ps[i].value != []
  {
    hide ParseCookies, Printable, PrintCookies, Remembered;
    CookieRoundTrip(ps, 0, false);
    assert [] + PrintCookies(ps) == PrintCookies(ps);
    RememberedAllIff(ps);
    assert Fitting(Remembered(ps), 0) == Remembered(ps);
  }

  /** Of cookies with values the first 50 are read back. */
  lemma FirstFifty(ps: seq<Pair>)
    requires ps != [] && forall i :: 0 <= i < |ps| ==> Printable(ps[i]) && ps[i].value != []
    ensures ParseCookies(PrintCookies(ps), 0) == Some(if |ps| <= 50 then ps else ps[..50])
  {
    hide ParseCookies, Printable, PrintCookies, Remembered;
    CookieRoundTrip(ps, 0, false);
    assert [] + PrintCookies(ps) == PrintCookies(ps);
    RememberedAllIff(ps);
    assert Remembered(ps) == ps;
    assert ps[..|ps|] == ps;
  }

  /** A piece without an equals sign discards all cookies, unless the store is full before it is reached. */
  lemma {:induction false} PieceWithoutValue(ps: seq<Pair>, piece: seq<byte>, stored: nat, blank: bool)
    requires ps != [] && (forall i :: 0 <= i < |ps| ==> Printable(ps[i]) && ps[i].value != [])
    requires EQUALS !in piece && stored <= HTTP_MAX_COOKIES
    ensures ParseCookies((if blank then [SP] else []) + PrintCookies(ps) + ([SEMICOLON] + piece), stored) ==
            if stored + |ps| <= HTTP_MAX_COOKIES then None else Some(Fitting(ps, stored))
    decreases |ps|
  {
    hide ParseCookies, Printable, PrintCookies, Fitting;
    var rest := AfterFirst(ps, blank, piece);
    OneCookie(ps[0], rest, stored, blank);
    if stored == HTTP_MAX_COOKIES {
      NothingFits(ps);
    } else if |ps| > 1 {
      PieceWithoutValue(ps[1..], piece, stored + 1, true);
      FittingCons([ps[0]], ps[1..], stored);
      assert [ps[0]] + ps[1..] == ps;
    } else {
      NoValueIsMalformed(piece, stored + 1);
    }
  }

  /** So does a semicolon at the end. */
  lemma TrailingSemicolon(ps: seq<Pair>, stored: nat, blank: bool)
    requires ps != [] && (forall i :: 0 <= i < |ps| ==> Printable(ps[i]) && ps[i].value != [])
    requires stored <= HTTP_MAX_COOKIES
    ensures ParseCookies((if blank then [SP] else []) + PrintCookies(ps) + [SEMICOLON], stored) ==
            if stored + |ps| <= HTTP_MAX_COOKIES then None else Some(Fitting(ps, stored))
  {
    hide ParseCookies, Printable, PrintCookies, Fitting;
    PieceWithoutValue(ps, [], stored, blank);
    assert [SEMICOLON] + [] == [SEMICOLON];
  }

  /** What follows the first of some printed cookies that a semicolon and another piece follow. */
  lemma AfterFirst(ps: seq<Pair>, blank: bool, piece: seq<byte>) returns (rest: seq<byte>)
    requires ps != []
    ensures var before := if blank then [SP] else [];
            before + PrintCookies(ps) + ([SEMICOLON] + piece) == before + ps[0].key + [EQUALS] + ps[0].value + rest
    ensures rest != [] && rest[0] == SEMICOLON
    ensures rest[1..] == if |ps| == 1 then piece else [SP] + PrintCookies(ps[1..]) + ([SEMICOLON] + piece)
  {
    rest := (if |ps| == 1 then [] else [SEMICOLON, SP] + PrintCookies(ps[1..])) + ([SEMICOLON] + piece);
  }

  lemma NothingFits(ps: seq<Pair>)
    ensures Fitting(ps, HTTP_MAX_COOKIES) == []
  {
  }

  lemma NoValueIsMalformed(piece: seq<byte>, stored: nat)
    requires EQUALS !in piece
    ensures ParseCookies(piece, stored) == None
  {
  }

  /** The value of the first pair with a given name. */
  function Lookup(ps: seq<Pair>, key: seq<byte>): Option<seq<byte>>
  {
    if ps == [] then None
    else if ps[0].key == key then Some(ps[0].value)
    else Lookup(ps[1..], key)
  }

  /** Pair `i` is the first with this name. */
  predicate FirstNamed(ps: seq<Pair>, key: seq<byte>, i: int)
  {
    0 <= i < |ps| && ps[i].key == key && forall j :: 0 <= j < i ==> ps[j].key != key
  }

  /** A lookup finds something exactly if some pair has the name, and then the value of the first one. */
  lemma {:induction false} LookupIsFirst(ps: seq<Pair>, key: seq<byte>)
    ensures Lookup(ps, key).Some? <==> exists i :: 0 <= i < |ps| && ps[i].key == key
    ensures Lookup(ps, key).Some? ==> exists i :: FirstNamed(ps, key, i) && Lookup(ps, key) == Some(ps[i].value)
  {
    if ps != [] {
      var later := ps[1..];
      assert forall i :: 1 <= i < |ps| ==> ps[i] == later[i - 1];
      if ps[0].key == key {
        assert FirstNamed(ps, key, 0);
      } else {
        LookupIsFirst(later, key);
        if i :| FirstNamed(later, key, i) && Lookup(later, key) == Some(later[i].value) {
          assert FirstNamed(ps, key, i + 1);
        }
        if i :| 0 <= i < |ps| && ps[i].key == key {
          assert later[i - 1].key == key;
        }
      }
    }
  }

  /** The pairs of a header value: none when it is malformed. */
  function PairsOf(text: seq<byte>): seq<Pair>
  {
    match ParseCookies(text, 0)
    case None => []
    case Some(ps) => ps
  }

  // ----- In place -----

  /** A stored cookie: offsets of key and value, and the length of the key. */
  datatype Stored = Stored(key: nat, value: nat, keylen: nat)

  /** `c` reads as `p` in the buffer, and both its strings end before `limit`. */
  ghost predicate Reads(c: Stored, p: Pair, b: seq<byte>, limit: nat)
  {
    && c.key < limit <= |b| && c.value < limit
    && Find(b, NUL, c.key) < limit && Find(b, NUL, c.value) < limit
    && CStringAt(b, c.key) == p.key && CStringAt(b, c.value) == p.value && c.keylen == |p.key|
  }

  ghost predicate AllRead(cs: seq<Stored>, ps: seq<Pair>, b: seq<byte>, limit: nat)
  {
    |cs| == |ps| && forall i :: 0 <= i < |cs| ==> Reads(cs[i], ps[i], b, limit)
  }

  lemma ReadsFrame(cs: seq<Stored>, ps: seq<Pair>, b: seq<byte>, b': seq<byte>, limit: nat)
    requires AllRead(cs, ps, b, limit) && limit <= |b| == |b'| && b[..limit] == b'[..limit]
    ensures AllRead(cs, ps, b', limit)
  {
    forall i | 0 <= i < |cs|
      ensures Reads(cs[i], ps[i], b', limit)
    {
      assert Reads(cs[i], ps[i], b, limit);
      CStringAtFrame(b, b', cs[i].key, limit);
      CStringAtFrame(b, b', cs[i].value, limit);
    }
  }

  /** The searches of src/http.c:275-286 in what is left of the header. */
  method FindCut(a: array<byte>, p0: nat, ghost s: seq<byte>) returns (p: nat, r: nat, q: nat)
    requires p0 + |s| < a.Length && a[p0 + |s|] == NUL
    requires forall k :: 0 <= k < |s| ==> a[p0 + k] == s[k] && s[k] != NUL
    ensures var c := CutFirst(s);
            p == p0 + c.start && r == p0 + c.e && (c.e < |s| ==> q == p0 + c.q)
  {
    p := p0;
    while a[p] == SP
      invariant p0 <= p <= p0 + |s| && SkipSpaces(s, 0) == SkipSpaces(s, p - p0)
      decreases p0 + |s| - p
    {
      assert s[p - p0] == SP;
      p := p + 1;
    }
    assert p < p0 + |s| ==> a[p] == s[p - p0];
    r := ScanFor(a, p0, p, s, EQUALS);
    q := r;
    if a[r] != NUL {
      q := ScanFor(a, p0, r, s, SEMICOLON);
    }
  }

  /** `strchr`, with the offset of the NUL for "none". */
  method ScanFor(a: array<byte>, p0: nat, from: nat, ghost s: seq<byte>, c: byte) returns (q: nat)
    requires p0 <= from <= p0 + |s| < a.Length && a[p0 + |s|] == NUL && c != NUL
    requires forall k :: 0 <= k < |s| ==> a[p0 + k] == s[k] && s[k] != NUL
    ensures q == p0 + Find(s, c, from - p0)
  {
    hide Find;
    q := from;
    while a[q] != NUL && a[q] != c
      invariant from <= q <= p0 + |s|
      invariant forall k :: from - p0 <= k < q - p0 ==> s[k] != c
      decreases p0 + |s| - q
    {
      assert a[q] == s[q - p0];
      q := q + 1;
    }
    assert q < p0 + |s| ==> a[q] == s[q - p0];
    FindIs(s, c, from - p0, q - p0);
  }

  /** Ends the value at `q` and the name at `r`; what was stored before still reads the same. */
  method CutCookie(a: array<byte>, p: nat, k: nat, r: nat, q: nat, ghost rest: seq<byte>,
                   ghost cs: seq<Stored>, ghost ps: seq<Pair>)
    requires p + |rest| < a.Length && NUL !in rest && CutFirst(rest).e < |rest|
    requires k == p + CutFirst(rest).start && r == p + CutFirst(rest).e && q == p + CutFirst(rest).q
    requires forall i :: 0 <= i < |rest| ==> a[p + i] == rest[i]
    requires AllRead(cs, ps, a[..], p)
    modifies a
    ensures a[q] == NUL && forall i :: 0 <= i < a.Length && i != r && i != q ==> a[i] == old(a[i])
    ensures AllRead(cs, ps, a[..], q + 1)
    ensures var c := CutFirst(rest);
            Reads(Stored(k, r + 1, r - k), Pair(rest[c.start..c.e], rest[c.e + 1..c.q]), a[..], q + 1)
  {
    hide AllRead, Reads, Find;
    ghost var before := a[..];
    a[q] := NUL;
    a[r] := NUL;
    assert before[..p] == a[..][..p];
    ReadsFrame(cs, ps, before, a[..], p);
    LimitGrows(cs, ps, a[..], p, q + 1);
    StoredReads(a[..], rest, p, k, r + 1, q);
  }

  /**
   * `kitserv_http_parse_cookies` on the header value `text` at `at`: the strings are cut by NULs where they stand, and
   * every stored pair reads as the pure parse says. Nothing outside the header value changes.
   */
  method ParseInPlace(a: array<byte>, at: nat, ghost text: seq<byte>) returns (ok: bool, cs: seq<Stored>)
    requires at + |text| < a.Length && a[at..at + |text|] == text && NUL !in text && a[at + |text|] == NUL
    modifies a
    ensures ok <==> ParseCookies(text, 0).Some?
    ensures ok ==> AllRead(cs, ParseCookies(text, 0).value, a[..], at + |text| + 1) && |cs| <= HTTP_MAX_COOKIES
    ensures forall k :: 0 <= k < at || at + |text| < k < a.Length ==> a[k] == old(a[k])
  {
    hide ParseCookies, CutFirst, AllRead, Reads, Find;
    assert forall j :: at <= j < at + |text| ==> a[j] == text[j - at] && a[j] != NUL;
    var p := at;
    cs := [];
    ghost var ps: seq<Pair> := [];
    ghost var rest := text;
    ghost var end := at + |text|;
    PrependNothing(ParseCookies(text, 0));
    NothingRead(a[..], at);
    while true
      invariant at <= p <= end == p + |rest| < a.Length && a[end] == NUL
      invariant forall k :: 0 <= k < |rest| ==> a[p + k] == rest[k] && rest[k] != NUL
      invariant AllRead(cs, ps, a[..], p) && |cs| == |ps| <= HTTP_MAX_COOKIES
      invariant ParseCookies(text, 0) == Prepend(ps, ParseCookies(rest, |ps|))
      invariant forall k :: 0 <= k < at || end < k < a.Length ==> a[k] == old(a[k])
      decreases end - p
    {
      ghost var c := CutFirst(rest);
      ParseStep(rest, |ps|);
      assert ps + [] == ps;
      var k, r, q := FindCut(a, p, rest);
      if a[r] == NUL {
        return false, [];
      }
      var last := a[q] == NUL;
      CutCookie(a, p, k, r, q, rest, cs, ps);
      r := r + 1;
      ghost var now := if Kept(rest, c) then [Pair(rest[c.start..c.e], rest[c.e + 1..c.q])] else [];
      if last || r != q {
        if |cs| == HTTP_MAX_COOKIES {
          LimitGrows(cs, ps, a[..], q + 1, end + 1);
          return true, cs;
        }
        ReadsOneMore(cs, ps, Stored(k, r, r - k - 1), now[0], a[..], q + 1);
        cs := cs + [Stored(k, r, r - k - 1)];
      }
      if last {
        return true, cs;
      }
      PrependTwice(ps, now, ParseCookies(rest[c.q + 1..], |ps| + |now|));
      ps := ps + now;
      rest := rest[c.q + 1..];
      p := q + 1;
    }
  }

  lemma ReadsOneMore(cs: seq<Stored>, ps: seq<Pair>, c: Stored, p: Pair, b: seq<byte>, limit: nat)
    requires limit <= |b| && AllRead(cs, ps, b, limit) && Reads(c, p, b, limit)
    ensures AllRead(cs + [c], ps + [p], b, limit)
  {
    hide Reads;
  }

  lemma NothingRead(b: seq<byte>, limit: nat)
    requires limit <= |b|
    ensures AllRead([], [], b, limit)
  {
  }

  lemma PrependNothing(o: Option<seq<Pair>>)
    ensures Prepend([], o) == o
  {
    if o.Some? {
      assert [] + o.value == o.value;
    }
  }

  lemma PrependTwice(ps: seq<Pair>, now: seq<Pair>, o: Option<seq<Pair>>)
    ensures Prepend(ps, Prepend(now, o)) == Prepend(ps + now, o)
  {
    if o.Some? {
      assert ps + (now + o.value) == (ps + now) + o.value;
    }
  }

  function Prepend(ps: seq<Pair>, o: Option<seq<Pair>>): Option<seq<Pair>>
  {
    if o.None? then None else Some(ps + o.value)
  }

  lemma ParseStep(s: seq<byte>, stored: nat)
    ensures var c := CutFirst(s);
            ParseCookies(s, stored) ==
            if c.e == |s| then None
            else if Kept(s, c) && stored >= HTTP_MAX_COOKIES then Some([])
            else
              var now := if Kept(s, c) then [Pair(s[c.start..c.e], s[c.e + 1..c.q])] else [];
              if c.q == |s| then Some(now) else Prepend(now, ParseCookies(s[c.q + 1..], stored + |now|))
  {
  }

  lemma LimitGrows(cs: seq<Stored>, ps: seq<Pair>, b: seq<byte>, limit: nat, limit': nat)
    requires AllRead(cs, ps, b, limit) && limit <= limit' <= |b|
    ensures AllRead(cs, ps, b, limit')
  {
    forall i | 0 <= i < |cs|
      ensures Reads(cs[i], ps[i], b, limit')
    {
      assert Reads(cs[i], ps[i], b, limit);
    }
  }

  /** The two strings of a cookie that was just cut. */
  lemma StoredReads(b: seq<byte>, s: seq<byte>, p: nat, k: nat, r: nat, q: nat)
    requires NUL !in s && CutFirst(s).e < |s|
    requires k == p + CutFirst(s).start && r == p + CutFirst(s).e + 1 && q == p + CutFirst(s).q < |b|
    requires p + |s| < |b| && b[r - 1] == NUL && b[q] == NUL
    requires forall i :: 0 <= i < |s| && p + i != r - 1 && p + i != q ==> b[p + i] == s[i]
    ensures var c := CutFirst(s);
            Reads(Stored(k, r, r - k - 1), Pair(s[c.start..c.e], s[c.e + 1..c.q]), b, q + 1)
  {
    hide CutFirst;
    var c := CutFirst(s);
    var key, value := s[c.start..c.e], s[c.e + 1..c.q];
    assert b[k..k + |key|] == key && b[r..r + |value|] == value;
    CStringAtIs(b, k, key);
    CStringAtIs(b, r, value);
    CStringOfNulFree(key);
    CStringOfNulFree(value);
  }
}
