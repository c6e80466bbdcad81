/** Bytes, C strings and the scans the C code performs on them. */
module Bytes {
  type byte = x: int | 0 <= x < 256

  const NUL: byte := 0
  const HT: byte := 9
  const LF: byte := 10
  const CR: byte := 13
  const SP: byte := 32
  const PERCENT: byte := 37
  const HYPHEN: byte := 45
  const DOT: byte := 46
  const SLASH: byte := 47
  const COLON: byte := 58
  const SEMICOLON: byte := 59
  const EQUALS: byte := 61
  const QUESTION: byte := 63
  const CRLF: seq<byte> := [13, 10]

  /** A possibly absent value. */
  datatype Option<+T> = None | Some(value: T)

  /** The index of the first `c` in `s` at or after `i`, or `|s|` when there is none. */
  function Find(s: seq<byte>, c: byte, i: nat): (j: nat)
    requires i <= |s|
    ensures i <= j <= |s|
    ensures forall k :: i <= k < j ==> s[k] != c
    ensures j < |s| ==> s[j] == c
    decreases |s| - i
  {
    if i == |s| || s[i] == c then i else Find(s, c, i + 1)
  }

  /** `Find` is determined by what it promises. */
  lemma FindIs(s: seq<byte>, c: byte, i: nat, j: nat)
    requires i <= j <= |s|
    requires forall k :: i <= k < j ==> s[k] != c
    requires j == |s| || s[j] == c
    ensures Find(s, c, i) == j
  {
  }

  /** What a C function sees of `t`: everything before the first NUL. */
  function CString(t: seq<byte>): (r: seq<byte>)
    ensures NUL !in r && r <= t
  {
    var n := Find(t, NUL, 0);
    t[..n]
  }

  /** The C string that starts at offset `at` of a buffer. */
  function CStringAt(buf: seq<byte>, at: nat): (r: seq<byte>)
    requires at <= |buf|
  {
    buf[at..Find(buf, NUL, at)]
  }

  lemma CStringOfNulFree(t: seq<byte>)
    requires NUL !in t
    ensures CString(t) == t
  {
    FindIs(t, NUL, 0, |t|);
  }

  /** A NUL written at `at + |t|` ends the string that starts at `at` no later than there. */
  lemma CStringAtIs(buf: seq<byte>, at: nat, t: seq<byte>)
    requires at + |t| < |buf|
    requires buf[at..at + |t|] == t
    requires buf[at + |t|] == NUL
    ensures CStringAt(buf, at) == CString(t)
    ensures Find(buf, NUL, at) == at + |CString(t)|
  {
    var n := |CString(t)|;
    forall k | at <= k < at + n
      ensures buf[k] != NUL
    {
      assert buf[k] == t[k - at];
    }
    if n < |t| {
      assert buf[at + n] == t[n];
    }
    FindIs(buf, NUL, at, at + n);
    assert buf[at..at + n] == t[..n];
  }

  /** A string that ends before `limit` does not see changes at or after `limit`. */
  lemma CStringAtFrame(buf: seq<byte>, buf': seq<byte>, at: nat, limit: nat)
    requires limit <= |buf| && limit <= |buf'|
    requires buf[..limit] == buf'[..limit]
    requires at < limit && Find(buf, NUL, at) < limit
    ensures Find(buf', NUL, at) == Find(buf, NUL, at)
    ensures CStringAt(buf', at) == CStringAt(buf, at)
  {
    var n := Find(buf, NUL, at);
    forall k | at <= k <= n
      ensures buf'[k] == buf[k]
    {
      assert buf[..limit][k] == buf'[..limit][k];
    }
    FindIs(buf', NUL, at, n);
    assert buf'[at..n] == buf[at..n];
  }

  /** A string does not see changes before its start. */
  lemma CStringAtLater(buf: seq<byte>, buf': seq<byte>, at: nat)
    requires |buf| == |buf'| && at <= |buf|
    requires forall k :: at <= k < |buf| ==> buf'[k] == buf[k]
    ensures Find(buf', NUL, at) == Find(buf, NUL, at)
    ensures CStringAt(buf', at) == CStringAt(buf, at)
  {
    var n := Find(buf, NUL, at);
    FindIs(buf', NUL, at, n);
    assert buf'[at..n] == buf[at..n];
  }

  /** Concatenation of a list of byte strings. */
  function Flatten(parts: seq<seq<byte>>): seq<byte>
  {
    if parts == [] then [] else parts[0] + Flatten(parts[1..])
  }

  lemma {:induction false} FlattenSnoc(parts: seq<seq<byte>>, last: seq<byte>)
    ensures Flatten(parts + [last]) == Flatten(parts) + last
  {
    if parts == [] {
      assert parts + [last] == [last];
      assert [last][1..] == [];
      assert Flatten([last]) == last + Flatten([]);
    } else {
      assert (parts + [last])[0] == parts[0];
      assert (parts + [last])[1..] == parts[1..] + [last];
      FlattenSnoc(parts[1..], last);
    }
  }

  lemma {:induction false} FlattenAppend(a: seq<seq<byte>>, b: seq<seq<byte>>)
    ensures Flatten(a + b) == Flatten(a) + Flatten(b)
  {
    if a == [] {
      assert a + b == b;
    } else {
      assert (a + b)[0] == a[0];
      assert (a + b)[1..] == a[1..] + b;
      FlattenAppend(a[1..], b);
    }
  }

  function Min(a: int, b: int): int { if a < b then a else b }

  /** ASCII lower case. */
  function Lower(s: seq<byte>): (r: seq<byte>)
    ensures |r| == |s|
  {
    seq(|s|, i requires 0 <= i < |s| => LowerByte(s[i]))
  }

  function LowerByte(c: byte): byte { if 65 <= c <= 90 then c + 32 else c }

  /** A text in ASCII. */
  function Ascii(s: string): (r: seq<byte>)
    ensures |r| == |s|
  {
    seq(|s|, i requires 0 <= i < |s| => (s[i] as int) % 256)
  }

  lemma AsciiIs(s: string, t: seq<byte>)
    requires |s| == |t| && forall i :: 0 <= i < |s| ==> t[i] == (s[i] as int) % 256
    ensures t == Ascii(s)
  {
  }

  /** The bytes that the parsers look for. */
  lemma BytesSpell()
    ensures HT == '\t' as int && LF == '\n' as int && CR == '\r' as int && SP == ' ' as int && PERCENT == '%' as int
    ensures HYPHEN == '-' as int && DOT == '.' as int && SLASH == '/' as int && COLON == ':' as int
    ensures SEMICOLON == ';' as int && EQUALS == '=' as int && QUESTION == '?' as int && NUL == 0
    ensures CRLF == Ascii("\r\n")
  {
    AsciiIs("\r\n", CRLF);
  }

  /** Capital letters become the small ones at the same place of the alphabet, and nothing else changes. */
  lemma LowerLetters(s: seq<byte>, i: nat)
    requires i < |s|
    ensures 'A' as int <= s[i] <= 'Z' as int ==> Lower(s)[i] - 'a' as int == s[i] - 'A' as int
    ensures !('A' as int <= s[i] <= 'Z' as int) ==> Lower(s)[i] == s[i]
  {
  }
}
