/**
 * The frame codec of the device bus (`checksum` in ezville.py).  Frames are
 * hex text; the last two bytes are a trailer: the XOR of every preceding
 * byte, then the sum of every preceding byte plus that XOR, modulo 256.
 */
module Codec {
  import opened Wrappers
  import opened Hex

  type Byte = b: int | 0 <= b < 256

  /** Bitwise XOR of two naturals, one bit at a time from the lowest. */
  function BitXor(a: nat, b: nat): nat
    decreases a + b
  {
    if a == 0 then b
    else if b == 0 then a
    else 2 * BitXor(a / 2, b / 2) + (a + b) % 2
  }

  lemma BitXorUnfold(a: nat, b: nat)
    ensures BitXor(a, b) == 2 * BitXor(a / 2, b / 2) + (a + b) % 2
  {
  }

  lemma Parity(a: nat, b: nat, c: nat, x: nat, y: nat)
    requires x % 2 == (a + b) % 2 && y % 2 == (b + c) % 2
    ensures (x + c) % 2 == (a + y) % 2
  {
  }

  lemma BitXorHalves(a: nat, b: nat)
    ensures BitXor(a, b) / 2 == BitXor(a / 2, b / 2)
    ensures BitXor(a, b) % 2 == (a + b) % 2
  {
    BitXorUnfold(a, b);
  }

  function Pow2(n: nat): nat {
    if n == 0 then 1 else 2 * Pow2(n - 1)
  }

  lemma {:induction false} BitXorBound(a: nat, b: nat, n: nat)
    requires a < Pow2(n) && b < Pow2(n)
    ensures BitXor(a, b) < Pow2(n)
  {
    if n > 0 && a > 0 && b > 0 {
      BitXorBound(a / 2, b / 2, n - 1);
    }
  }

  lemma {:induction false} BitXorComm(a: nat, b: nat)
    ensures BitXor(a, b) == BitXor(b, a)
    decreases a + b
  {
    if a > 0 && b > 0 {
      BitXorComm(a / 2, b / 2);
    }
  }

  lemma {:induction false} BitXorAssoc(a: nat, b: nat, c: nat)
    ensures BitXor(BitXor(a, b), c) == BitXor(a, BitXor(b, c))
    decreases a + b + c
  {
    if a + b + c > 0 {
      var x, y := BitXor(a, b), BitXor(b, c);
      BitXorHalves(a, b);
      BitXorHalves(b, c);
      BitXorAssoc(a / 2, b / 2, c / 2);
      var inner := BitXor(a / 2, y / 2);
      assert BitXor(x / 2, c / 2) == inner;
      Parity(a, b, c, x, y);
      BitXorUnfold(x, c);
      BitXorUnfold(a, y);
    }
  }

  lemma {:induction false} BitXorSelf(a: nat)
    ensures BitXor(a, a) == 0
  {
    if a > 0 {
      BitXorSelf(a / 2);
    }
  }

  /** Bitwise XOR of two bytes. */
  function XorByte(a: Byte, b: Byte): Byte {
    BitXorBound(a, b, 8);
    BitXor(a, b)
  }

  lemma XorByteRotate(p: Byte, u: Byte, v: Byte, w: Byte)
    ensures XorByte(XorByte(XorByte(p, u), v), w) == XorByte(XorByte(XorByte(p, w), u), v)
  {
    BitXorAssoc(p, u, v);
    BitXorAssoc(p, BitXor(u, v), w);
    BitXorAssoc(u, v, w);
    BitXorComm(v, w);
    BitXorAssoc(u, w, v);
    BitXorComm(u, w);
    BitXorAssoc(w, u, v);
    BitXorAssoc(p, w, BitXor(u, v));
    BitXorAssoc(p, w, u);
    BitXorAssoc(BitXor(p, w), u, v);
  }

  lemma XorByteSelfCancel(y: Byte, a: Byte)
    ensures XorByte(XorByte(y, a), a) == y
  {
    BitXorAssoc(y, a, a);
    BitXorSelf(a);
  }

  lemma XorByteChanges(x: Byte, a: Byte, b: Byte)
    requires a != b
    ensures XorByte(XorByte(x, a), b) != x
  {
    if XorByte(XorByte(x, a), b) == x {
      BitXorAssoc(x, a, b);
      var y := BitXor(a, b);
      BitXorAssoc(x, x, y);
      BitXorSelf(x);
      BitXorAssoc(a, b, b);
      BitXorSelf(b);
      assert false;
    }
  }

  predicate AllHexDigits(s: string) {
    forall i :: 0 <= i < |s| ==> IsHexDigit(s[i])
  }

  /** `bytes.fromhex(s)`: pairs of hex digits of either case. */
  function ParseBytes(s: string): (r: Option<seq<Byte>>)
    ensures r.Some? <==> |s| % 2 == 0 && AllHexDigits(s)
    ensures r.Some? ==> |r.value| * 2 == |s|
    ensures r.Some? ==> forall j {:trigger r.value[j]} :: 0 <= j < |r.value| ==> r.value[j] == ByteAt(s, 2 * j)
  {
    if |s| % 2 == 0 && AllHexDigits(s) then
      Some(seq(|s| / 2, (j: int) requires 0 <= j < |s| / 2 => ByteAt(s, 2 * j) as Byte))
    else None
  }

  /** The running XOR of the source's loop `checksum ^= b`. */
  function Xor(bs: seq<Byte>): Byte {
    if bs == [] then 0 else XorByte(Xor(bs[..|bs| - 1]), bs[|bs| - 1])
  }

  /** Python's `sum(packet)`. */
  function Sum(bs: seq<Byte>): nat {
    if bs == [] then 0 else Sum(bs[..|bs| - 1]) + bs[|bs| - 1]
  }

  /** `s[:-4]`: everything but the four trailer characters (empty for shorter text). */
  function Prefix(s: string): string {
    if |s| >= 4 then s[..|s| - 4] else ""
  }

  function Trailer(bs: seq<Byte>): string {
    Hex2(Xor(bs)) + Hex2((Sum(bs) + Xor(bs)) % 256)
  }

  /**
   * `checksum(s)`: drops the last four characters and appends the trailer
   * computed over the rest; `None` when the rest is not whole hex bytes.
   */
  function Checksum(s: string): (r: Option<string>)
    ensures r.Some? <==> ParseBytes(Prefix(s)).Some?
    ensures r.Some? ==> |r.value| == (if |s| >= 4 then |s| else 4)
    ensures r.Some? ==> r.value[..|r.value| - 4] == Prefix(s)
  {
    match ParseBytes(Prefix(s))
    case None => None
    case Some(bs) => Some(Prefix(s) + Trailer(bs))
  }

  /** A frame is valid iff it equals its own checksum (ezville.py line 272). */
  predicate IsValid(p: string) {
    Checksum(p) == Some(p)
  }

  /** Whatever `checksum` returns is a valid frame: `checksum(checksum(s)) == checksum(s)`. */
  lemma ChecksumIdempotent(s: string)
    requires Checksum(s).Some?
    ensures IsValid(Checksum(s).value)
  {
    var c := Checksum(s).value;
    assert Prefix(c) == Prefix(s);
  }

  /** A frame is valid iff its last four characters are the trailer of the bytes before them. */
  lemma ValidIffTrailer(p: string)
    ensures IsValid(p) <==>
      && |p| >= 4
      && ParseBytes(Prefix(p)).Some?
      && p[|p| - 4..] == Trailer(ParseBytes(Prefix(p)).value)
  {
    if |p| >= 4 {
      assert p == Prefix(p) + p[|p| - 4..];
    }
  }

  /** Read as bytes, upper-case trailer text holds exactly the XOR byte and the add byte. */
  lemma TrailerBytes(t: string, bs: seq<Byte>)
    requires |t| == 4 && IsHexText(t)
    ensures t == Trailer(bs) <==>
      ByteAt(t, 0) == Xor(bs) && ByteAt(t, 2) == (Sum(bs) + Xor(bs)) % 256
  {
    var x := Xor(bs);
    var a := (Sum(bs) + x) % 256;
    assert Trailer(bs) == Hex2(x) + Hex2(a);
    if t == Hex2(x) + Hex2(a) {
      PairReads(x, a);
    }
    if ByteAt(t, 0) == x && ByteAt(t, 2) == a {
      PairOfReads(t);
    }
  }

  /** Two bytes written as hex read back at positions 0 and 2. */
  lemma PairReads(x: nat, a: nat)
    requires x < 256 && a < 256
    ensures var t := Hex2(x) + Hex2(a); |t| == 4 && ByteAt(t, 0) == x && ByteAt(t, 2) == a
  {
    var t := Hex2(x) + Hex2(a);
    assert t[2..] == Hex2(a);
    assert ByteAt(t, 2) == ByteAt(t[2..], 0);
  }

  /** Four upper-case hex digits are the hex text of the bytes they hold. */
  lemma PairOfReads(t: string)
    requires |t| == 4 && IsHexText(t)
    ensures t == Hex2(ByteAt(t, 0)) + Hex2(ByteAt(t, 2))
  {
    Hex2OfByteAt(t, 0);
    Hex2OfByteAt(t, 2);
    assert t == t[0..2] + t[2..4];
  }

  /** `bytes.fromhex` is determined by the byte values at the even positions. */
  lemma ParseBytesPointwise(s: string, bs: seq<Byte>)
    requires |s| == 2 * |bs| && forall i :: 0 <= i < |s| ==> IsHexDigit(s[i])
    requires forall j :: 0 <= j < |bs| ==> ByteAt(s, 2 * j) == bs[j]
    ensures ParseBytes(s) == Some(bs)
  {
    assert |s| % 2 == 0;
    var r := ParseBytes(s);
    assert r.Some?;
    assert |r.value| == |bs|;
    forall j | 0 <= j < |bs|
      ensures r.value[j] == bs[j]
    {
      assert r.value[j] == ByteAt(s, 2 * j);
    }
    assert r.value == bs;
  }

  /** The characters of `pre` with the two at `2 * i` replaced by `h`. */
  lemma SpliceAt(pre: string, i: nat, h: string, j: nat)
    requires 2 * i + 2 <= |pre| && |h| == 2 && j < |pre|
    ensures |pre[..2 * i] + h + pre[2 * i + 2..]| == |pre|
    ensures (pre[..2 * i] + h + pre[2 * i + 2..])[j] ==
      if 2 * i <= j < 2 * i + 2 then h[j - 2 * i] else pre[j]
  {
  }

  lemma SpliceHex(pre: string, i: nat, h: string, q: string)
    requires 2 * i + 2 <= |pre| && |h| == 2 && q == pre[..2 * i] + h + pre[2 * i + 2..]
    requires forall j :: 0 <= j < |pre| ==> IsHexDigit(pre[j])
    requires IsHexDigit(h[0]) && IsHexDigit(h[1])
    ensures |q| == |pre| && forall j :: 0 <= j < |q| ==> IsHexDigit(q[j])
  {
    SpliceAt(pre, i, h, 0);
    forall j | 0 <= j < |q|
      ensures IsHexDigit(q[j])
    {
      SpliceAt(pre, i, h, j);
    }
  }

  lemma SpliceByte(pre: string, i: nat, h: string, j: nat)
    requires 2 * i + 2 <= |pre| && |h| == 2 && 2 * j + 2 <= |pre|
    requires forall k :: 0 <= k < |pre| ==> IsHexDigit(pre[k])
    requires IsHexDigit(h[0]) && IsHexDigit(h[1])
    ensures var q := pre[..2 * i] + h + pre[2 * i + 2..];
      IsHexDigit(q[2 * j]) && IsHexDigit(q[2 * j + 1]) &&
      ByteAt(q, 2 * j) == if j == i then ByteAt(h, 0) else ByteAt(pre, 2 * j)
  {
    SpliceAt(pre, i, h, 2 * j);
    SpliceAt(pre, i, h, 2 * j + 1);
  }

  /** Replacing one byte's two hex digits replaces that byte of `bytes.fromhex`. */
  lemma ParseBytesReplace(pre: string, i: nat, c: nat)
    requires ParseBytes(pre).Some? && 2 * i + 2 <= |pre| && c < 256
    ensures ParseBytes(pre[..2 * i] + Hex2(c) + pre[2 * i + 2..])
         == Some(ParseBytes(pre).value[i := c as Byte])
  {
    var bs := ParseBytes(pre).value;
    var h := Hex2(c);
    var q := pre[..2 * i] + h + pre[2 * i + 2..];
    SpliceAt(pre, i, h, 0);
    SpliceHex(pre, i, h, q);
    var nb := bs[i := c as Byte];
    forall j | 0 <= j < |nb|
      ensures ByteAt(q, 2 * j) == nb[j]
    {
      SpliceByte(pre, i, h, j);
    }
    ParseBytesPointwise(q, nb);
  }

  /** Replacing one byte changes the XOR by exactly that byte's difference. */
  lemma {:induction false} XorUpdate(bs: seq<Byte>, i: nat, b: Byte)
    requires i < |bs|
    ensures Xor(bs[i := b]) == XorByte(XorByte(Xor(bs), bs[i]), b)
  {
    var n := |bs|;
    var pre := bs[..n - 1];
    if i < n - 1 {
      assert bs[i := b][..n - 1] == pre[i := b];
      XorUpdate(pre, i, b);
      XorByteRotate(Xor(pre), bs[i], b, bs[n - 1]);
    } else {
      assert bs[i := b][..n - 1] == pre;
      XorByteSelfCancel(Xor(pre), bs[i]);
    }
  }

  /** Replacing a byte of a frame in front of its trailer replaces it in the prefix and keeps the trailer. */
  lemma SplicePrefix(p: string, i: nat, h: string)
    requires 2 * i + 2 <= |p| - 4 && |h| == 2
    ensures var q := p[..2 * i] + h + p[2 * i + 2..];
      && Prefix(q) == Prefix(p)[..2 * i] + h + Prefix(p)[2 * i + 2..]
      && q[|q| - 4..] == p[|p| - 4..]
  {
    var q := p[..2 * i] + h + p[2 * i + 2..];
    assert |q| == |p|;
    assert q[..|q| - 4] == Prefix(p)[..2 * i] + h + Prefix(p)[2 * i + 2..];
  }

  /** Replacing one byte by a different one changes the XOR of the bytes. */
  lemma XorChanges(bs: seq<Byte>, i: nat, b: Byte)
    requires i < |bs| && b != bs[i]
    ensures Xor(bs[i := b]) != Xor(bs)
  {
    XorUpdate(bs, i, b);
    XorByteChanges(Xor(bs), bs[i], b);
  }

  /** Two trailers with different XOR bytes differ. */
  lemma TrailersDiffer(bs: seq<Byte>, cs: seq<Byte>)
    requires Xor(bs) != Xor(cs)
    ensures Trailer(bs) != Trailer(cs)
  {
    assert Trailer(bs)[..2] == Hex2(Xor(bs));
    assert Trailer(cs)[..2] == Hex2(Xor(cs));
    assert ByteAt(Hex2(Xor(bs)), 0) != ByteAt(Hex2(Xor(cs)), 0);
  }

  /**
   * Changing any single byte in front of the trailer of a valid frame makes
   * it invalid: the XOR byte no longer matches.
   */
  lemma SingleByteChangeInvalidates(p: string, i: nat, c: nat)
    requires IsValid(p) && 2 * i + 2 <= |p| - 4
    requires c < 256 && c != ByteAt(Prefix(p), 2 * i)
    ensures !IsValid(p[..2 * i] + Hex2(c) + p[2 * i + 2..])
  {
    var q := p[..2 * i] + Hex2(c) + p[2 * i + 2..];
    var pre := Prefix(p);
    ValidIffTrailer(p);
    var bs := ParseBytes(pre).value;
    SplicePrefix(p, i, Hex2(c));
    ParseBytesReplace(pre, i, c);
    XorChanges(bs, i, c as Byte);
    TrailersDiffer(bs[i := c as Byte], bs);
    ValidIffTrailer(q);
  }

  /** The source's `checksum`, with its XOR loop. */
  method ComputeChecksum(s: string) returns (r: Option<string>)
    ensures r == Checksum(s)
  {
    var input := if |s| >= 4 then s[..|s| - 4] else "";
    var packet := ParseBytes(input);
    if packet.None? {
      return None;
    }
    var bs := packet.value;
    var x: Byte := 0;
    for i := 0 to |bs|
      invariant x == Xor(bs[..i])
    {
      assert bs[..i + 1][..i] == bs[..i];
      x := XorByte(x, bs[i]);
    }
    assert bs[..|bs|] == bs;
    var add := (Sum(bs) + x) % 256;
    r := Some(input + (Hex2(x) + Hex2(add)));
    assert input == Prefix(s);
  }
}
