/** Range requests: the text, the in-place parser, and the window that is sent (src/http.c:320-430). */
module Ranges {
  import opened Bytes
  import opened Numbers
  import opened Requests
  import opened Responses

  const BYTES_EQUALS: seq<byte> := [98, 121, 116, 101, 115, 61]   // bytes=

  /** The bounds of a range text; -1 stands for one that is not given. */
  datatype Bounds = Bounds(from: int, to: int)

  /** What is after `bytes=`: digits, one hyphen, digits. */
  predicate RangeShape(t: seq<byte>, h: nat)
  {
    h < |t| && t[h] == HYPHEN && AllDigits(t[..h]) && AllDigits(t[h + 1..])
  }

  /** The bounds the digits before and after the hyphen give. */
  function BoundsOf(a: seq<byte>, b: seq<byte>): Option<Bounds>
  {
    if a != [] then
      if !IsNumber(a) then None
      else if b == [] then Some(Bounds(ReadLong(a).value, -1))
      else if !IsNumber(b) || ReadLong(b).value < ReadLong(a).value then None
      else Some(Bounds(ReadLong(a).value, ReadLong(b).value))
    else if b != [] && IsNumber(b) then Some(Bounds(-1, ReadLong(b).value))
    else None
  }

  function ParseRange(s: seq<byte>): Option<Bounds>
  {
    if !(BYTES_EQUALS <= s) then None
    else
      var t := s[6..];
      var h := Find(t, HYPHEN, 0);
      if RangeShape(t, h) then BoundsOf(t[..h], t[h + 1..]) else None
  }

  /** The bound that a possibly empty string of digits stands for. */
  function Bound(digits: seq<byte>): int
    requires AllDigits(digits)
  {
    if digits == [] then -1 else Value(digits)
  }

  /** `s` is `bytes=N-`, `bytes=-N` or `bytes=N-M` with N <= M, all below 2^63. */
  ghost predicate IsRangeText(s: seq<byte>, r: Bounds, a: seq<byte>, b: seq<byte>)
  {
    && AllDigits(a) && AllDigits(b) && (a != [] || b != [])
    && s == BYTES_EQUALS + a + [HYPHEN] + b
    && r == Bounds(Bound(a), Bound(b))
    && r.from <= INT64_MAX && r.to <= INT64_MAX
    && (a != [] && b != [] ==> r.from <= r.to)
  }

  lemma BoundsOfDigits(a: seq<byte>, b: seq<byte>)
    requires AllDigits(a) && AllDigits(b) && (a != [] || b != [])
    ensures var r := Bounds(Bound(a), Bound(b));
            BoundsOf(a, b) ==
            if r.from <= INT64_MAX && r.to <= INT64_MAX && (a != [] && b != [] ==> r.from <= r.to) then Some(r) else None
  {
    hide IsNumber, ReadLong;
    if a != [] {
      DigitsAreANumber(a);
    }
    if b != [] {
      DigitsAreANumber(b);
    }
  }

  /** The accepted texts are exactly the three forms, and the result is what they say. */
  lemma RangeTextsAccepted(s: seq<byte>, r: Bounds)
    ensures ParseRange(s) == Some(r) <==> exists a, b :: IsRangeText(s, r, a, b)
  {
    hide BoundsOf, Bound;
    if ParseRange(s) == Some(r) {
      var t := s[6..];
      var h := Find(t, HYPHEN, 0);
      var a, b := t[..h], t[h + 1..];
      assert a != [] || b != [] by {
        NothingIsNoRange();
      }
      BoundsOfDigits(a, b);
      assert s == BYTES_EQUALS + a + [HYPHEN] + b;
      assert IsRangeText(s, r, a, b);
    }
    if a, b :| IsRangeText(s, r, a, b) {
      TextSplits(a, b);
      BoundsOfDigits(a, b);
    }
  }

  lemma NothingIsNoRange()
    ensures BoundsOf([], []) == None
  {
  }

  lemma TextSplits(a: seq<byte>, b: seq<byte>)
    requires AllDigits(a) && AllDigits(b)
    ensures ParseRange(BYTES_EQUALS + a + [HYPHEN] + b) == BoundsOf(a, b)
  {
    hide BoundsOf;
    var s := BYTES_EQUALS + a + [HYPHEN] + b;
    var t := s[6..];
    assert t == a + [HYPHEN] + b;
    FindIs(t, HYPHEN, 0, |a|);
    assert t[..|a|] == a && t[|a| + 1..] == b;
    assert s[..6] == BYTES_EQUALS;
  }

  function PrintRange(r: Bounds): seq<byte>
  {
    BYTES_EQUALS + (if r.from < 0 then [] else Decimal(r.from)) + [HYPHEN] + if r.to < 0 then [] else Decimal(r.to)
  }

  /** Printing and parsing a range gives it back. */
  lemma RangeRoundTrip(r: Bounds)
    requires -1 <= r.from <= INT64_MAX && -1 <= r.to <= INT64_MAX
    requires r.from >= 0 || r.to >= 0
    requires r.from >= 0 && r.to >= 0 ==> r.from <= r.to
    ensures ParseRange(PrintRange(r)) == Some(r)
  {
    hide ParseRange, BoundsOf;
    var a := if r.from < 0 then [] else Decimal(r.from);
    var b := if r.to < 0 then [] else Decimal(r.to);
    if r.from >= 0 {
      DecimalValue(r.from);
    }
    if r.to >= 0 {
      DecimalValue(r.to);
    }
    TextSplits(a, b);
    BoundsOfDigits(a, b);
  }

  // ----- The parser -----

  /** The scan for the hyphen (src/http.c:339-354): `-1` when the text is not digits around a single hyphen. */
  method FindHyphen(a: array<byte>, p: nat, ghost t: seq<byte>) returns (h: int)
    requires p + |t| < a.Length && a[p..p + |t|] == t && NUL !in t && a[p + |t|] == NUL
    ensures h == -1 || p <= h < p + |t|
    ensures h >= 0 <==> RangeShape(t, Find(t, HYPHEN, 0))
    ensures h >= 0 ==> h - p == Find(t, HYPHEN, 0)
  {
    var r := p;
    h := -1;
    assert forall k :: 0 <= k < |t| ==> a[p + k] == t[k];
    while a[r] != NUL
      invariant p <= r <= p + |t|
      invariant h == -1 ==> forall k :: 0 <= k < r - p ==> IsDigit(t[k])
      invariant h != -1 ==>
                  && p <= h < r && t[h - p] == HYPHEN
                  && (forall k :: 0 <= k < r - p && k != h - p ==> IsDigit(t[k]))
      decreases p + |t| - r
    {
      assert a[r] == t[r - p];
      if !IsDigit(a[r]) {
        if a[r] != HYPHEN || h != -1 {
          NotARange(t, r - p, if h == -1 then r - p else h - p);
          return -1;
        }
        h := r;
      }
      r := r + 1;
    }
    if h != -1 {
      FindIs(t, HYPHEN, 0, h - p);
    }
  }

  lemma NotARange(t: seq<byte>, i: nat, h: nat)
    requires i < |t| && h <= i && !IsDigit(t[i])
    requires h < i ==> t[h] == HYPHEN
    requires h == i ==> t[i] != HYPHEN
    ensures !RangeShape(t, Find(t, HYPHEN, 0))
  {
    var f := Find(t, HYPHEN, 0);
    if i < f < |t| {
      assert t[..f][i] == t[i];
    } else if f < i {
      assert t[f + 1..][i - f - 1] == t[i];
    }
  }

  /**
   * `kitserv_http_parse_range` on the header value at `at`. The hyphen is overwritten while the first number is read
   * and restored on every path, so the buffer ends as it began and a second call says the same.
   */
  method ParseRangeInPlace(a: array<byte>, at: nat) returns (r: Option<Bounds>)
    requires at <= a.Length && Find(a[..], NUL, at) < a.Length
    modifies a
    ensures a[..] == old(a[..])
    ensures r == ParseRange(CStringAt(a[..], at))
  {
    hide BoundsOf, ReadLong, IsNumber, RangeShape, Find, CString;
    ghost var s := CStringAt(a[..], at);
    ghost var whole := a[..];
    var n := Find(a[..], NUL, at);
    assert a[at..n] == s;
    if n - at < 6 {
      return None;
    }
    assert a[at..at + 6] == s[..6];
    if a[at..at + 6] != BYTES_EQUALS {
      return None;
    }
    ghost var t := s[6..];
    var p := at + 6;
    assert a[p..n] == t;
    var h := FindHyphen(a, p, t);
    if h < 0 {
      return None;
    }
    a[h] := NUL;
    var from, to := a[p..h], a[h + 1..n];
    assert from == t[..h - p] && to == t[h - p + 1..];
    r := ReadBounds(from, to);
    a[h] := HYPHEN;
    assert a[..] == whole;
  }

  /** The conversions of src/http.c:356-388 on the two strings around the hyphen. */
  method ReadBounds(p: seq<byte>, q: seq<byte>) returns (r: Option<Bounds>)
    ensures r == BoundsOf(p, q)
  {
    var from, to := -1, -1;
    if p != [] {
      if !IsNumber(p) {
        return None;
      }
      from := ReadLong(p).value;
      if q != [] {
        if !IsNumber(q) {
          return None;
        }
        to := ReadLong(q).value;
        if to < from {
          return None;
        }
      }
    } else if q != [] {
      if !IsNumber(q) {
        return None;
      }
      to := ReadLong(q).value;
    } else {
      return None;
    }
    return Some(Bounds(from, to));
  }

  // ----- The window -----

  datatype Selection = Unsatisfiable | Window(pos: int, end: int)

  /** The arithmetic of src/http.c:413-430. */
  function Select(r: Bounds, size: nat): Selection
  {
    var to := if r.to < 0 || r.to > size - 1 then size - 1 else r.to;
    if r.from < 0 then Window(size - to, size - 1)
    else if r.from > size then Unsatisfiable
    else Window(r.from, to)
  }

  /** What section 14.1.2 of RFC 9110 selects. */
  function RfcSelect(r: Bounds, size: nat): Selection
  {
    if r.from >= 0 then
      if r.from >= size then Unsatisfiable
      else Window(r.from, if r.to < 0 || r.to >= size then size - 1 else r.to)
    else if r.to == 0 then Unsatisfiable
    else Window(if r.to > size then 0 else size - r.to, size - 1)
  }

  /**
   * The window for every size: N- and N-M begin at N and end with the file or earlier, unless N lies behind the file's
   * end; -N is the last N bytes, and all but the first one if there are no more than N.
   */
  lemma WindowBySize(r: Bounds, size: nat)
    requires IsBounds(r)
    ensures r.from >= 0 && r.from > size ==> Select(r, size) == Unsatisfiable
    ensures 0 <= r.from <= size && 0 <= r.to < size ==> Select(r, size) == Window(r.from, r.to)
    ensures 0 <= r.from <= size && (r.to < 0 || r.to >= size) ==> Select(r, size) == Window(r.from, size - 1)
    ensures r.from < 0 && r.to < size ==> Select(r, size) == Window(size - r.to, size - 1)
    ensures r.from < 0 && r.to >= size > 0 ==> Select(r, size) == Window(1, size - 1)
    ensures r.from < 0 && size == 0 ==> Select(r, size) == Window(1, -1)
  {
  }

  lemma PrefixSpells()
    ensures BYTES_EQUALS == Ascii("bytes=")
  {
    AsciiIs("bytes=", BYTES_EQUALS);
  }

  /** Bounds that a range text can have. */
  predicate IsBounds(r: Bounds)
  {
    r.from >= -1 && r.to >= -1 && (r.from >= 0 || r.to >= 0) && (r.from >= 0 && r.to >= 0 ==> r.from <= r.to)
  }

  lemma ParsedBounds(s: seq<byte>)
    requires ParseRange(s).Some?
    ensures IsBounds(ParseRange(s).value)
  {
    var r := ParseRange(s).value;
    RangeTextsAccepted(s, r);
  }

  /** The selection is the standard's exactly when the first position is not the size, or the suffix lies inside. */
  lemma SelectsAsTheStandard(r: Bounds, size: nat)
    requires IsBounds(r)
    ensures Select(r, size) == RfcSelect(r, size) <==> if r.from >= 0 then r.from != size else 0 < r.to < size
  {
  }

  /** Every accepted range of a file that is not empty is a window inside the file, possibly an empty one. */
  lemma WindowBounds(r: Bounds, size: nat)
    requires IsBounds(r) && size >= 1 && Select(r, size).Window?
    ensures var w := Select(r, size);
            0 <= w.pos <= size && w.end <= size - 1 && 0 <= w.end - w.pos + 1 <= size
  {
  }

  /** So what is announced is what is sent, except for a suffix of an empty file. */
  lemma WindowsAreSendable(r: Bounds, size: nat)
    requires IsBounds(r) && Select(r, size).Window?
    ensures var w := Select(r, size);
            w.pos >= 0 && (GoodWindow(size, w.pos, w.end) <==> size > 0 || r.from >= 0)
  {
  }

  /** Three requests that the standard answers differently: a suffix as long as the file, none, and a start at its end. */
  lemma BoundaryDepartures()
    ensures Select(Bounds(-1, 10), 10) == Window(1, 9) && RfcSelect(Bounds(-1, 10), 10) == Window(0, 9)
    ensures Select(Bounds(-1, 0), 10) == Window(10, 9) && RfcSelect(Bounds(-1, 0), 10) == Unsatisfiable
    ensures Select(Bounds(10, -1), 10) == Window(10, 9) && RfcSelect(Bounds(10, -1), 10) == Unsatisfiable
  {
  }

  /** `parse_range_request`; the result is a response status, or 0. The window changes only on success. */
  method ApplyRange(resp: Response, a: array<byte>, at: nat, size: nat) returns (status: nat)
    requires at <= a.Length && Find(a[..], NUL, at) < a.Length
    requires resp.Valid() && size < INT64_MAX && a != resp.block.buf
    modifies resp`pos, resp`end, a
    ensures a[..] == old(a[..])
    ensures resp.Valid()
    ensures var r := ParseRange(CStringAt(a[..], at));
            && (status == HTTP_400_BAD_REQUEST <==> r.None?)
            && (status == HTTP_416_RANGE_NOT_SATISFIABLE <==> r.Some? && Select(r.value, size).Unsatisfiable?)
            && (status == 0 <==> r.Some? && Select(r.value, size) == Window(resp.pos, resp.end))
            && (status != 0 ==> resp.pos == old(resp.pos) && resp.end == old(resp.end))
  {
    hide ParseRange;
    var r := ParseRangeInPlace(a, at);
    if r.None? {
      return HTTP_400_BAD_REQUEST;
    }
    ParsedBounds(CStringAt(a[..], at));
    var from, to := r.value.from, r.value.to;
    if to < 0 || to > size - 1 {
      to := size - 1;
    }
    if from < 0 {
      from := size - to;
      to := size - 1;
    } else if from > size {
      return HTTP_416_RANGE_NOT_SATISFIABLE;
    }
    resp.pos := from;
    resp.end := to;
    return 0;
  }
}
