/** Decimal numbers: what `strtoll` in base 10 accepts, and what `%ld` prints. */
module Numbers {
  import opened Bytes

  const INT64_MAX: int := 0x7fff_ffff_ffff_ffff
  const INT64_MIN: int := -0x8000_0000_0000_0000

  /** An `off_t`, and one that is a size. */
  type Offset = x: int | INT64_MIN <= x <= INT64_MAX
  type Size = x: int | 0 <= x <= INT64_MAX

  predicate IsDigit(c: byte) { 48 <= c <= 57 }

  predicate AllDigits(s: seq<byte>) { forall i :: 0 <= i < |s| ==> IsDigit(s[i]) }

  predicate IsSpace(c: byte) { c == SP || 9 <= c <= 13 }

  function SkipSpaces(s: seq<byte>, i: nat): (j: nat)
    requires i <= |s|
    ensures i <= j <= |s|
    ensures j < |s| ==> !IsSpace(s[j])
    ensures forall k :: i <= k < j ==> IsSpace(s[k])
    decreases |s| - i
  {
    if i < |s| && IsSpace(s[i]) then SkipSpaces(s, i + 1) else i
  }

  function DigitsEnd(s: seq<byte>, i: nat): (j: nat)
    requires i <= |s|
    ensures i <= j <= |s|
    ensures forall k :: i <= k < j ==> IsDigit(s[k])
    ensures j < |s| ==> !IsDigit(s[j])
    decreases |s| - i
  {
    if i < |s| && IsDigit(s[i]) then DigitsEnd(s, i + 1) else i
  }

  function Value(digits: seq<byte>): nat
    requires AllDigits(digits)
  {
    if digits == [] then 0
    else 10 * Value(digits[..|digits| - 1]) + (digits[|digits| - 1] - 48)
  }

  /** `value` and `end` are the results of `strtoll(s, &endptr, 10)`; `range` says that it set ERANGE. */
  datatype Strtoll = Strtoll(value: int, end: nat, range: bool)

  function ReadLong(s: seq<byte>): (r: Strtoll)
    ensures INT64_MIN <= r.value <= INT64_MAX && r.end <= |s|
  {
    var i := SkipSpaces(s, 0);
    var negative := i < |s| && s[i] == HYPHEN;
    var j := if i < |s| && (s[i] == HYPHEN || s[i] == 43) then i + 1 else i;
    var e := DigitsEnd(s, j);
    if e == j then Strtoll(0, 0, false)
    else
      var magnitude: int := Value(s[j..e]);
      var v := if negative then -magnitude else magnitude;
      if v > INT64_MAX then Strtoll(INT64_MAX, e, true)
      else if v < INT64_MIN then Strtoll(INT64_MIN, e, true)
      else Strtoll(v, e, false)
  }

  /** `strtonum` succeeds exactly when the whole text is a number in range (or is empty). */
  predicate IsNumber(s: seq<byte>)
  {
    var r := ReadLong(s);
    !r.range && r.end == |s|
  }

  /** White space, a sign if there is one, digits, and what follows them. */
  ghost predicate Numeral(s: seq<byte>, blanks: seq<byte>, sign: seq<byte>, digits: seq<byte>, rest: seq<byte>)
  {
    && s == blanks + sign + digits + rest
    && (forall i :: 0 <= i < |blanks| ==> blanks[i] in Ascii(" \t\n\U{0b}\U{0c}\r"))
    && (sign == [] || sign == Ascii("+") || sign == Ascii("-"))
    && digits != [] && (forall i :: 0 <= i < |digits| ==> '0' as int <= digits[i] <= '9' as int)
    && (rest == [] || !('0' as int <= rest[0] <= '9' as int))
  }

  lemma NumeralHasDigits(s: seq<byte>, blanks: seq<byte>, sign: seq<byte>, digits: seq<byte>, rest: seq<byte>)
    requires Numeral(s, blanks, sign, digits, rest)
    ensures AllDigits(digits)
  {
  }

  lemma SpacesSpell(c: byte)
    ensures IsSpace(c) <==> c in Ascii(" \t\n\U{0b}\U{0c}\r")
  {
    var spaces: seq<byte> := [32, 9, 10, 11, 12, 13];
    AsciiIs(" \t\n\U{0b}\U{0c}\r", spaces);
    assert spaces[0] == 32 && spaces[1] == 9 && spaces[2] == 10 && spaces[3] == 11 && spaces[4] == 12 && spaces[5] == 13;
  }

  lemma SignsSpell()
    ensures Ascii("+") == [43] && Ascii("-") == [HYPHEN]
  {
    AsciiIs("+", [43]);
    AsciiIs("-", [HYPHEN]);
  }

  /** Another digit makes ten times the number and its own value. */
  lemma OneMoreDigit(digits: seq<byte>, d: byte)
    requires AllDigits(digits) && '0' as int <= d <= '9' as int
    ensures AllDigits(digits + [d]) && Value(digits + [d]) == 10 * Value(digits) + (d - '0' as int) && Value([]) == 0
  {
    assert (digits + [d])[..|digits|] == digits;
  }

  function Signed(sign: seq<byte>, digits: seq<byte>): int
    requires AllDigits(digits)
  {
    if sign == Ascii("-") then 0 - Value(digits) else Value(digits)
  }

  /** A numeral is read as the number it stands for, or as the nearest one that 64 bits hold, and ends with its digits. */
  lemma NumeralIsRead(s: seq<byte>, blanks: seq<byte>, sign: seq<byte>, digits: seq<byte>, rest: seq<byte>)
    requires Numeral(s, blanks, sign, digits, rest)
    ensures AllDigits(digits)
    ensures var v := Signed(sign, digits);
            ReadLong(s) ==
            if v > 0x7fff_ffff_ffff_ffff then Strtoll(0x7fff_ffff_ffff_ffff, |s| - |rest|, true)
            else if v < -0x8000_0000_0000_0000 then Strtoll(-0x8000_0000_0000_0000, |s| - |rest|, true)
            else Strtoll(v, |s| - |rest|, false)
  {
    hide Ascii, Value;
    SignsSpell();
    NumeralHasDigits(s, blanks, sign, digits, rest);
    WhereItEnds(s, blanks, sign, digits, rest);
    var j := |blanks| + |sign|;
    assert s[|blanks|] == if sign == [] then digits[0] else sign[0];
    hide SkipSpaces, DigitsEnd;
  }

  lemma WhereItEnds(s: seq<byte>, blanks: seq<byte>, sign: seq<byte>, digits: seq<byte>, rest: seq<byte>)
    requires Numeral(s, blanks, sign, digits, rest)
    ensures var j := |blanks| + |sign|;
            && SkipSpaces(s, 0) == |blanks| && DigitsEnd(s, j) == j + |digits| && s[j..j + |digits|] == digits
  {
    hide Ascii;
    SignsSpell();
    var b, j := |blanks|, |blanks| + |sign|;
    var e := j + |digits|;
    forall k | 0 <= k < b
      ensures IsSpace(s[k])
    {
      SpacesSpell(blanks[k]);
    }
    assert s[b] == if sign == [] then digits[0] else sign[0];
    assert SkipSpaces(s, 0) == b;
    assert forall k :: 0 <= k < |digits| ==> s[j + k] == digits[k];
    assert forall k :: j <= k < e ==> s[k] == digits[k - j];
    assert rest != [] ==> s[e] == rest[0];
    assert DigitsEnd(s, j) == e;
    assert s[j..e] == digits;
  }

  /** A text is accepted as a number exactly if it is nothing, or a numeral within 64 bits and nothing else. */
  lemma NumberTexts(s: seq<byte>)
    ensures IsNumber(s) <==>
            s == [] || exists blanks, sign, digits ::
              Numeral(s, blanks, sign, digits, []) && AllDigits(digits) && ReadLong(s).value == Signed(sign, digits)
  {
    hide Numeral, Signed, ReadLong;
    if IsNumber(s) && s != [] {
      var blanks, sign, digits := NumberIsNumeral(s);
      NumeralIsRead(s, blanks, sign, digits, []);
    }
    if blanks, sign, digits :| Numeral(s, blanks, sign, digits, []) && AllDigits(digits) && ReadLong(s).value == Signed(sign, digits) {
      NumeralIsRead(s, blanks, sign, digits, []);
    } else if s == [] {
      NothingIsANumber();
    }
  }

  lemma NothingIsANumber()
    ensures IsNumber([]) && ReadLong([]).value == 0
  {
  }

  lemma NumberIsNumeral(s: seq<byte>) returns (blanks: seq<byte>, sign: seq<byte>, digits: seq<byte>)
    requires IsNumber(s) && s != []
    ensures Numeral(s, blanks, sign, digits, [])
  {
    hide Ascii, Value;
    var i := SkipSpaces(s, 0);
    var j := if i < |s| && (s[i] == HYPHEN || s[i] == 43) then i + 1 else i;
    SignsSpell();
    blanks, sign, digits := s[..i], s[i..j], s[j..];
    forall k | 0 <= k < i
      ensures blanks[k] in Ascii(" \t\n\U{0b}\U{0c}\r")
    {
      SpacesSpell(s[k]);
    }
    assert s == blanks + sign + digits + [];
  }

  lemma DigitsAreANumber(s: seq<byte>)
    requires AllDigits(s) && s != []
    ensures IsNumber(s) <==> Value(s) <= INT64_MAX
    ensures IsNumber(s) ==> ReadLong(s).value == Value(s)
  {
    assert SkipSpaces(s, 0) == 0;
    assert DigitsEnd(s, 0) == |s|;
    assert s[0..|s|] == s;
  }

  /** Decimal digits of `n`, most significant first. */
  function Decimal(n: nat): (s: seq<byte>)
    ensures AllDigits(s) && |s| >= 1
  {
    if n < 10 then [48 + n] else Decimal(n / 10) + [48 + n % 10]
  }

  lemma {:induction false} DecimalValue(n: nat)
    ensures Value(Decimal(n)) == n
  {
    var s := Decimal(n);
    if n < 10 {
      assert s[..0] == [];
      assert Value([]) == 0;
    } else {
      assert s[..|s| - 1] == Decimal(n / 10);
      DecimalValue(n / 10);
    }
  }

  /** What `%ld` prints. */
  function PrintLong(n: int): (s: seq<byte>)
    ensures |s| >= 1
  {
    if n < 0 then [HYPHEN] + Decimal(-n) else Decimal(n)
  }

  /** A number of 64 bits that was printed is read back, a negative one too. */
  lemma LongRoundTrip(n: int)
    requires -0x8000_0000_0000_0000 <= n <= 0x7fff_ffff_ffff_ffff
    ensures IsNumber(PrintLong(n)) && ReadLong(PrintLong(n)).value == n
  {
    hide ReadLong, Ascii, Value;
    var digits := Decimal(if n < 0 then -n else n);
    DecimalValue(if n < 0 then -n else n);
    SignsSpell();
    var sign: seq<byte> := if n < 0 then [HYPHEN] else [];
    assert PrintLong(n) == [] + sign + digits + [];
    NumeralIsRead(PrintLong(n), [], sign, digits, []);
  }

  /** No zeros lead a number. */
  lemma {:induction false} NoLeadingZero(n: nat)
    ensures Decimal(n)[0] == '0' as int <==> n == 0
    ensures n < 10 ==> |Decimal(n)| == 1
  {
    if n >= 10 {
      NoLeadingZero(n / 10);
    }
  }

  function Pow10(k: nat): nat { if k == 0 then 1 else 10 * Pow10(k - 1) }

  lemma {:induction false} DecimalLength(n: nat, k: nat)
    requires k >= 1 && n < Pow10(k)
    ensures |Decimal(n)| <= k
    decreases k
  {
    if n >= 10 {
      assert Pow10(1) == 10;
      DecimalLength(n / 10, k - 1);
    }
  }

  /** An `off_t` prints in at most 20 characters. */
  lemma PrintLongLength(n: int)
    requires INT64_MIN <= n <= INT64_MAX + 1
    ensures 1 <= |PrintLong(n)| <= 20
  {
    assert Pow10(19) == 10_000_000_000_000_000_000 by {
      assert Pow10(5) == 100_000;
      assert Pow10(10) == 10_000_000_000;
      assert Pow10(15) == 1_000_000_000_000_000;
    }
    DecimalLength(if n < 0 then -n else n, 19);
  }
}
