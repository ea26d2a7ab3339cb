/** The Option type used for the source's `None` returns and exceptions. */
module Wrappers {
  datatype Option<T> = None | Some(value: T)
}

/**
 * Text helpers of the gateway: hex digits, the two-digit upper-case byte
 * format (`format(b, '02X')`), decimal numbers (`str`, `int`, `{:0>2d}`)
 * and `str.split`.
 */
module Hex {
  import opened Wrappers

  predicate IsHexDigit(c: char) {
    ('0' <= c <= '9') || ('A' <= c <= 'F') || ('a' <= c <= 'f')
  }

  predicate IsUpperHexDigit(c: char) {
    ('0' <= c <= '9') || ('A' <= c <= 'F')
  }

  /** Upper-case hex text, as produced by `payload.hex().upper()`. */
  predicate IsHexText(s: string) {
    forall i :: 0 <= i < |s| ==> IsUpperHexDigit(s[i])
  }

  predicate IsDecDigit(c: char) {
    '0' <= c <= '9'
  }

  predicate AllDecDigits(s: string) {
    forall i :: 0 <= i < |s| ==> IsDecDigit(s[i])
  }

  function DigitValue(c: char): (v: nat)
    requires IsHexDigit(c)
    ensures v < 16
    ensures IsDecDigit(c) ==> v < 10
  {
    if '0' <= c <= '9' then c as int - '0' as int
    else if 'A' <= c <= 'F' then c as int - 'A' as int + 10
    else c as int - 'a' as int + 10
  }

  function HexChar(n: nat): (c: char)
    requires n < 16
    ensures IsUpperHexDigit(c) && DigitValue(c) == n
    ensures n < 10 ==> IsDecDigit(c)
  {
    if n < 10 then ('0' as int + n) as char else ('A' as int + n - 10) as char
  }

  lemma HexCharOfDigit(c: char)
    requires IsUpperHexDigit(c)
    ensures HexChar(DigitValue(c)) == c
  {
  }

  /** The byte written by the two hex digits at `i`: `int(s[i:i+2], 16)`. */
  function ByteAt(s: string, i: nat): (v: nat)
    requires i + 2 <= |s| && IsHexDigit(s[i]) && IsHexDigit(s[i + 1])
    ensures v < 256
  {
    16 * DigitValue(s[i]) + DigitValue(s[i + 1])
  }

  /** `format(n, '02X')` for a byte. */
  function Hex2(n: nat): (s: string)
    requires n < 256
    ensures |s| == 2 && IsHexText(s) && ByteAt(s, 0) == n
  {
    [HexChar(n / 16), HexChar(n % 16)]
  }

  /** Upper-case hex text is the `Hex2` of the byte it spells. */
  lemma Hex2OfByteAt(s: string, i: nat)
    requires IsHexText(s) && i + 2 <= |s|
    ensures Hex2(ByteAt(s, i)) == s[i..i + 2]
  {
    HexCharOfDigit(s[i]);
    HexCharOfDigit(s[i + 1]);
  }

  lemma Hex2Injective(m: nat, n: nat)
    requires m < 256 && n < 256 && Hex2(m) == Hex2(n)
    ensures m == n
  {
    assert ByteAt(Hex2(m), 0) == ByteAt(Hex2(n), 0);
  }

  /** Hex digits of `n` without leading zeros (Python's `'X'` format). */
  function HexDigits(n: nat): (s: string)
    ensures |s| >= 1 && IsHexText(s)
  {
    if n < 16 then [HexChar(n)] else HexDigits(n / 16) + [HexChar(n % 16)]
  }

  /** `"{:02X}".format(n)` for any Python int: zero-padded to width two, with a sign when negative. */
  function Format02X(n: int): string {
    if n < 0 then "-" + HexDigits(-n)
    else if n < 16 then "0" + HexDigits(n)
    else HexDigits(n)
  }

  lemma Format02XOfByte(n: nat)
    requires n < 256
    ensures Format02X(n) == Hex2(n)
  {
    if n >= 16 {
      assert HexDigits(n / 16) == [HexChar(n / 16)];
    }
  }

  /** `int(s, 16)`: a non-empty run of hex digits of either case; anything else raises. */
  function ParseHex(s: string): (r: Option<nat>)
  {
    if s == [] || exists i :: 0 <= i < |s| && !IsHexDigit(s[i]) then None
    else Some(HexValue(s))
  }

  function HexValue(s: string): nat
    requires forall i :: 0 <= i < |s| ==> IsHexDigit(s[i])
  {
    if s == [] then 0 else 16 * HexValue(s[..|s| - 1]) + DigitValue(s[|s| - 1])
  }

  lemma ParseHex2(n: nat)
    requires n < 256
    ensures ParseHex(Hex2(n)) == Some(n)
  {
    var s := Hex2(n);
    assert forall i :: 0 <= i < |s| ==> IsHexDigit(s[i]);
    assert s[..1][..0] == [];
    assert HexValue(s[..1]) == DigitValue(s[0]);
    assert HexValue(s) == 16 * DigitValue(s[0]) + DigitValue(s[1]);
  }

  /** `str(n)` for a non-negative int. */
  function Dec(n: nat): (s: string)
    ensures |s| >= 1 && AllDecDigits(s)
  {
    if n < 10 then [HexChar(n)] else Dec(n / 10) + [HexChar(n % 10)]
  }

  function DecValue(s: string): nat
    requires AllDecDigits(s)
  {
    if s == [] then 0 else 10 * DecValue(s[..|s| - 1]) + DigitValue(s[|s| - 1])
  }

  /** `int(s)` on a string of ASCII decimal digits; anything else raises. */
  function ParseDec(s: string): (r: Option<nat>)
  {
    if s != [] && AllDecDigits(s) then Some(DecValue(s)) else None
  }

  lemma {:induction false} DecValueOfDec(n: nat)
    ensures DecValue(Dec(n)) == n
  {
    if n >= 10 {
      var s := Dec(n);
      assert s[..|s| - 1] == Dec(n / 10);
      DecValueOfDec(n / 10);
    }
  }

  lemma {:induction false} DecValueLeadingZero(s: string)
    requires AllDecDigits(s)
    ensures AllDecDigits("0" + s) && DecValue("0" + s) == DecValue(s)
  {
    var z := "0" + s;
    if s != [] {
      assert z[..|z| - 1] == "0" + s[..|s| - 1];
      DecValueLeadingZero(s[..|s| - 1]);
    } else {
      assert z[..0] == [];
    }
  }

  /** `"{:0>2d}".format(n)`: decimal, left-padded with zeros to width two. */
  function Pad2(n: nat): string {
    if n < 10 then "0" + Dec(n) else Dec(n)
  }

  /** `int` reads back what `str` and `{:0>2d}` write. */
  lemma DecRoundTrip(n: nat)
    ensures ParseDec(Dec(n)) == Some(n)
    ensures ParseDec(Pad2(n)) == Some(n)
    ensures AllDecDigits(Pad2(n)) && |Pad2(n)| >= 2
  {
    DecValueOfDec(n);
    DecValueLeadingZero(Dec(n));
    if n >= 10 {
      assert Dec(n) == Dec(n / 10) + [HexChar(n % 10)];
    }
  }

  lemma Pad2Injective(m: nat, n: nat)
    requires Pad2(m) == Pad2(n)
    ensures m == n
  {
    DecRoundTrip(m);
    DecRoundTrip(n);
  }

  /** `s.split(sep)`: the pieces between separators, at least one. */
  function Split(s: string, sep: char): (parts: seq<string>)
    ensures |parts| >= 1
    decreases |s|
  {
    if s == [] then [""]
    else
      var rest := Split(s[1..], sep);
      if s[0] == sep then [""] + rest else [[s[0]] + rest[0]] + rest[1..]
  }

  lemma {:induction false} SplitNoSep(a: string, sep: char)
    requires sep !in a
    ensures Split(a, sep) == [a]
    decreases |a|
  {
    if a != [] {
      SplitNoSep(a[1..], sep);
      assert [a[0]] + a[1..] == a;
    }
  }

  lemma {:induction false} SplitAt(a: string, sep: char, b: string)
    requires sep !in a
    ensures Split(a + [sep] + b, sep) == [a] + Split(b, sep)
    decreases |a|
  {
    var s := a + [sep] + b;
    if a == [] {
      assert s[1..] == b;
    } else {
      assert s[1..] == a[1..] + [sep] + b;
      SplitAt(a[1..], sep, b);
      assert [a[0]] + a[1..] == a;
    }
  }

  lemma ConcatAt(x1: string, y1: string, x2: string, y2: string, i: nat)
    requires i < |x1| + |y1| && i < |x2| + |y2|
    ensures (x1 + y1)[i] == if i < |x1| then x1[i] else y1[i - |x1|]
    ensures (x2 + y2)[i] == if i < |x2| then x2[i] else y2[i - |x2|]
  {
  }

  /** Splitting digits-only text off the front of `x + y` when `y` starts with a non-digit. */
  lemma DigitsPrefixUnique(x1: string, y1: string, x2: string, y2: string)
    requires AllDecDigits(x1) && AllDecDigits(x2)
    requires |y1| > 0 && |y2| > 0 && !IsDecDigit(y1[0]) && !IsDecDigit(y2[0])
    requires x1 + y1 == x2 + y2
    ensures x1 == x2 && y1 == y2
  {
    if |x1| != |x2| {
      var m := if |x1| < |x2| then |x1| else |x2|;
      ConcatAt(x1, y1, x2, y2, m);
      assert false;
    } else {
      assert x1 == (x1 + y1)[..|x1|];
      assert x2 == (x2 + y2)[..|x2|];
      assert y1 == (x1 + y1)[|x1|..];
      assert y2 == (x2 + y2)[|x2|..];
    }
  }
}
