/** Percent-decoding, pure and in place (src/http.c:478-496). */
module UrlCoding {
  import opened Bytes

  predicate IsHex(c: byte) { 48 <= c <= 57 || 65 <= c <= 70 || 97 <= c <= 102 }

  function HexValue(c: byte): (v: nat)
    requires IsHex(c)
    ensures v < 16
  {
    if c <= 57 then c - 48 else if c <= 70 then c - 55 else c - 87
  }

  function HexDigit(v: nat): (c: byte)
    requires v < 16
    ensures IsHex(c) && HexValue(c) == v
  {
    if v < 10 then 48 + v else 55 + v
  }

  predicate IsEscape(s: seq<byte>, i: nat)
  {
    i + 2 < |s| && s[i] == PERCENT && IsHex(s[i + 1]) && IsHex(s[i + 2])
  }

  function Decode(s: seq<byte>): (r: seq<byte>)
    ensures |r| <= |s|
  {
    if s == [] then []
    else if IsEscape(s, 0) then [16 * HexValue(s[1]) + HexValue(s[2])] + Decode(s[3..])
    else [s[0]] + Decode(s[1..])
  }

  /** Any encoder that escapes at least `%` and keeps exactly the other bytes that `keep` allows. */
  function Encode(s: seq<byte>, keep: byte -> bool): seq<byte>
  {
    if s == [] then []
    else if s[0] != PERCENT && keep(s[0]) then [s[0]] + Encode(s[1..], keep)
    else [PERCENT, HexDigit(s[0] / 16), HexDigit(s[0] % 16)] + Encode(s[1..], keep)
  }

  lemma {:induction false} DecodeInvertsEncode(s: seq<byte>, keep: byte -> bool)
    ensures Decode(Encode(s, keep)) == s
  {
    if s != [] {
      var e := Encode(s, keep);
      var rest := Encode(s[1..], keep);
      DecodeInvertsEncode(s[1..], keep);
      if s[0] != PERCENT && keep(s[0]) {
        assert e[1..] == rest;
      } else {
        assert e[3..] == rest;
        assert 16 * (s[0] / 16) + s[0] % 16 == s[0];
      }
    }
  }

  /** `c` is the hexadecimal digit of `v`, in either case. */
  predicate IsDigitOf(c: byte, v: int)
  {
    || ('0' as int <= c <= '9' as int && v == c - '0' as int)
    || ('a' as int <= c <= 'f' as int && v == 10 + c - 'a' as int)
    || ('A' as int <= c <= 'F' as int && v == 10 + c - 'A' as int)
  }

  lemma HexByCharacter(c: byte, v: int)
    ensures IsDigitOf(c, v) <==> IsHex(c) && HexValue(c) == v
  {
  }

  /** `e` is `s` with any of its bytes escaped, percent signs always, and digits of either case. */
  ghost predicate Escapes(e: seq<byte>, s: seq<byte>)
    decreases |s|
  {
    if s == [] then e == []
    else
      || (e != [] && e[0] == s[0] != PERCENT && Escapes(e[1..], s[1..]))
      || (|e| >= 3 && e[0] == PERCENT
          && (exists hi, lo :: IsDigitOf(e[1], hi) && IsDigitOf(e[2], lo) && 16 * hi + lo == s[0])
          && Escapes(e[3..], s[1..]))
  }

  lemma {:induction false} DecodeInvertsAnyEscapes(e: seq<byte>, s: seq<byte>)
    requires Escapes(e, s)
    ensures Decode(e) == s
    decreases |s|
  {
    hide IsDigitOf, IsHex, HexValue;
    if s != [] {
      if e[0] == s[0] != PERCENT && Escapes(e[1..], s[1..]) {
        DecodeInvertsAnyEscapes(e[1..], s[1..]);
      } else {
        var hi, lo :| IsDigitOf(e[1], hi) && IsDigitOf(e[2], lo) && 16 * hi + lo == s[0];
        HexByCharacter(e[1], hi);
        HexByCharacter(e[2], lo);
        DecodeInvertsAnyEscapes(e[3..], s[1..]);
      }
      assert s == [s[0]] + s[1..];
    }
  }

  /** What is no escape stays as it is, a percent sign too. */
  lemma NoEscapeStays(s: seq<byte>)
    requires s != []
    requires |s| < 3 || s[0] != '%' as int || (forall v :: !IsDigitOf(s[1], v)) || (forall v :: !IsDigitOf(s[2], v))
    ensures Decode(s) == [s[0]] + Decode(s[1..])
  {
    hide IsDigitOf, IsHex, HexValue;
    if IsEscape(s, 0) {
      HexByCharacter(s[1], HexValue(s[1]));
      HexByCharacter(s[2], HexValue(s[2]));
    }
  }

  lemma {:induction false} DecodeOfPlainText(s: seq<byte>)
    requires PERCENT !in s
    ensures Decode(s) == s
  {
    if s != [] {
      DecodeOfPlainText(s[1..]);
    }
  }

  lemma DecodeStep(raw: seq<byte>, i: nat)
    requires i < |raw|
    ensures Decode(raw[i..]) ==
            if IsEscape(raw, i) then [16 * HexValue(raw[i + 1]) + HexValue(raw[i + 2])] + Decode(raw[i + 3..])
            else [raw[i]] + Decode(raw[i + 1..])
  {
    var rest := raw[i..];
    assert rest[1..] == raw[i + 1..];
    if IsEscape(raw, i) {
      assert rest[3..] == raw[i + 3..];
    }
  }

  /** Decoding `raw` up to `i` has produced `text`. */
  ghost predicate DecodedSoFar(raw: seq<byte>, text: seq<byte>, i: nat)
    requires i <= |raw|
  {
    Decode(raw) == text + Decode(raw[i..])
  }

  lemma DecodedStart(raw: seq<byte>)
    ensures DecodedSoFar(raw, [], 0)
  {
    assert raw[0..] == raw;
  }

  lemma DecodedEnd(raw: seq<byte>, text: seq<byte>)
    requires DecodedSoFar(raw, text, |raw|)
    ensures text == Decode(raw)
  {
    assert raw[|raw|..] == [];
  }

  /** One turn of the decoding loop: how far the read cursor moves and which byte is written. */
  method DecodeOne(a: array<byte>, s: nat, ghost start: nat, ghost raw: seq<byte>, ghost text: seq<byte>)
      returns (step: nat, c: byte)
    requires start <= s < start + |raw| < a.Length && a[start + |raw|] == NUL
    requires forall k :: s <= k < start + |raw| ==> a[k] == raw[k - start] && a[k] != NUL
    requires DecodedSoFar(raw, text, s - start)
    ensures 1 <= step && s + step <= start + |raw|
    ensures DecodedSoFar(raw, text + [c], s + step - start)
  {
    hide Decode;
    ghost var i := s - start;
    DecodeStep(raw, i);
    if a[s] == PERCENT && IsHex(a[s + 1]) && IsHex(a[s + 2]) {
      assert raw[i + 1] == a[s + 1] && raw[i + 2] == a[s + 2];
      step, c := 3, 16 * HexValue(a[s + 1]) + HexValue(a[s + 2]);
    } else {
      step, c := 1, a[s];
    }
    OneMoreByte(text, c, Decode(raw[i + step..]));
  }

  lemma OneMoreByte(text: seq<byte>, c: byte, d: seq<byte>)
    ensures text + ([c] + d) == (text + [c]) + d
  {
  }

  /** The decoding loop, on a string whose original contents were `raw`. */
  method DecodeLoop(a: array<byte>, start: nat, ghost raw: seq<byte>) returns (r: nat)
    requires start + |raw| < a.Length && a[start + |raw|] == NUL
    requires forall k :: start <= k < start + |raw| ==> a[k] == raw[k - start] && a[k] != NUL
    modifies a
    ensures r == start + |Decode(raw)|
    ensures forall k :: start <= k < r ==> a[k] == Decode(raw)[k - start]
    ensures r < a.Length && a[r] == NUL
    ensures forall k :: 0 <= k < start || start + |raw| < k < a.Length ==> a[k] == old(a[k])
  {
    hide Decode, DecodedSoFar, Find, IsEscape;
    ghost var text: seq<byte> := [];
    var s := start;
    r := start;
    DecodedStart(raw);
    while a[s] != NUL
      invariant start <= r <= s <= start + |raw| < a.Length && a[start + |raw|] == NUL
      invariant forall k :: 0 <= k < start || start + |raw| < k < a.Length ==> a[k] == old(a[k])
      invariant forall k :: s <= k < start + |raw| ==> a[k] == raw[k - start] && a[k] != NUL
      invariant |text| == r - start && forall k :: start <= k < r ==> a[k] == text[k - start]
      invariant DecodedSoFar(raw, text, s - start)
      decreases start + |raw| - s
    {
      var step, c := DecodeOne(a, s, start, raw, text);
      a[r] := c;
      text := text + [c];
      s, r := s + step, r + 1;
    }
    DecodedEnd(raw, text);
    a[r] := NUL;
  }

  /**
   * Decodes the string at `start` in place. The bytes between the new NUL and the old one keep stale contents;
   * everything outside the string is untouched.
   */
  method DecodeInPlace(a: array<byte>, start: nat)
    requires start <= a.Length && Find(a[..], NUL, start) < a.Length
    modifies a
    ensures var end := old(Find(a[..], NUL, start));
            var text := Decode(old(a[start..end]));
            && start + |text| <= end
            && a[start..start + |text|] == text
            && a[start + |text|] == NUL
            && (forall k :: 0 <= k < start || end < k < a.Length ==> a[k] == old(a[k]))
  {
    ghost var raw := a[start..Find(a[..], NUL, start)];
    var r := DecodeLoop(a, start, raw);
    assert a[start..r] == Decode(raw);
  }

  /** `url_decode` on the string at `start` that ends at `end`, in terms of what C reads there afterwards. */
  method DecodeString(a: array<byte>, start: nat, ghost end: nat)
    requires start <= end < a.Length && a[end] == NUL
    requires forall k :: start <= k < end ==> a[k] != NUL
    modifies a
    ensures CStringAt(a[..], start) == CString(Decode(old(a[start..end])))
    ensures Find(a[..], NUL, start) <= end
    ensures forall k :: 0 <= k < start || end < k < a.Length ==> a[k] == old(a[k])
  {
    hide Decode, CString;
    FindIs(a[..], NUL, start, end);
    ghost var text := Decode(a[start..end]);
    DecodeInPlace(a, start);
    CStringAtIs(a[..], start, text);
  }

  /**
   * Cuts the request target `a[p..e]` at `e` and at its first `?` (offset `s`, or `s == e` when it has none) and
   * decodes the two parts in place, the query first (src/http.c:717-723).
   */
  method DecodeTarget(a: array<byte>, p: nat, s: nat, e: nat)
    requires p <= s <= e < a.Length
    requires forall k :: p <= k < e ==> a[k] != NUL
    modifies a
    ensures CStringAt(a[..], p) == CString(Decode(old(a[p..s])))
    ensures Find(a[..], NUL, p) <= s
    ensures s < e ==> CStringAt(a[..], s + 1) == CString(Decode(old(a[s + 1..e])))
    ensures s < e ==> Find(a[..], NUL, s + 1) <= e
    ensures forall k :: 0 <= k < p || e < k < a.Length ==> a[k] == old(a[k])
  {
    hide Decode, CString, Find, CStringAt;
    ghost var path, query := a[p..s], a[if s < e then s + 1 else e..e];
    a[e] := NUL;
    if s < e {
      a[s] := NUL;
      assert a[s + 1..e] == query;
      DecodeString(a, s + 1, e);
    }
    ghost var mid := a[..];
    assert a[p..s] == path;
    DecodeString(a, p, s);
    if s < e {
      CStringAtLater(mid, a[..], s + 1);
    }
  }
}
