/** Bytes, and the little-endian fields and bits that on-disk structures are made of. */
module Bytes {
  import Bits

  type Byte = x: int | 0 <= x < 256

  const U32: nat := 0x1_0000_0000

  function Zeros(n: nat): (z: seq<Byte>)
    ensures |z| == n && forall i :: 0 <= i < n ==> z[i] == 0
  {
    seq(n, _ => 0)
  }

  function Pow256(n: nat): (r: nat)
    ensures r > 0
  {
    if n == 0 then 1 else 256 * Pow256(n - 1)
  }

  // ---------- Fields ----------

  /** The four bytes at o as a number. */
  function Word(b: seq<Byte>, o: nat): (w: nat)
    requires o + 4 <= |b|
    ensures w < U32
  {
    b[o] as nat + 256 * b[o + 1] as nat + 65536 * b[o + 2] as nat + 16777216 * b[o + 3] as nat
  }

  function SetWord(b: seq<Byte>, o: nat, w: nat): (r: seq<Byte>)
    requires o + 4 <= |b| && w < U32
    ensures |r| == |b| && forall i :: 0 <= i < |b| && !(o <= i < o + 4) ==> r[i] == b[i]
  {
    b[o := w % 256][o + 1 := w / 256 % 256][o + 2 := w / 65536 % 256][o + 3 := w / 16777216]
  }

  /** The two bytes at o as a number. */
  function Half(b: seq<Byte>, o: nat): (w: nat)
    requires o + 2 <= |b|
    ensures w < 65536
  {
    b[o] as nat + 256 * b[o + 1] as nat
  }

  function SetHalf(b: seq<Byte>, o: nat, w: nat): (r: seq<Byte>)
    requires o + 2 <= |b| && w < 65536
    ensures |r| == |b| && Half(r, o) == w && forall i :: 0 <= i < |b| && !(o <= i < o + 2) ==> r[i] == b[i]
  {
    b[o := w % 256][o + 1 := w / 256]
  }

  lemma Digits(w: nat)
    ensures w % 256 + 256 * (w / 256 % 256) + 65536 * (w / 65536 % 256) + 16777216 * (w / 16777216) == w
  {
    var a, c, d := w / 256, w / 65536, w / 16777216;
    assert w == 256 * a + w % 256;
    assert a == 256 * c + a % 256;
    assert c == 256 * d + c % 256;
  }

  /** A word reads back as it was set, and words that do not overlap it stay. */
  lemma WordSet(b: seq<Byte>, o: nat, w: nat, p: nat)
    requires o + 4 <= |b| && p + 4 <= |b| && w < U32
    requires p == o || p + 4 <= o || o + 4 <= p
    ensures Word(SetWord(b, o, w), p) == if p == o then w else Word(b, p)
  {
    Digits(w);
  }

  // ---------- Bits ----------

  /** (x & (1 << k)) != 0, digit by digit. */
  predicate On(x: nat, k: nat) { if k == 0 then x % 2 == 1 else On(x / 2, k - 1) }

  /** x | (1 << k), digit by digit. */
  function Or(x: nat, k: nat): nat { if k == 0 then x / 2 * 2 + 1 else Or(x / 2, k - 1) * 2 + x % 2 }

  /** A number of n binary digits stays one when digit k < n is set. */
  lemma {:induction false} OrFits(x: nat, k: nat, n: nat)
    requires k < n && x < Bits.Pow2(n)
    ensures Or(x, k) < Bits.Pow2(n)
  {
    var p, h := Bits.Pow2(n - 1), x / 2;
    assert Bits.Pow2(n) == 2 * p;
    hide Bits.Pow2;
    assert x == 2 * h + x % 2 && h < p;
    if k > 0 { OrFits(h, k - 1, n - 1); }
  }

  /** Setting a digit sets that digit and no other. */
  lemma {:induction false} OrOnly(x: nat, k: nat, l: nat)
    ensures On(Or(x, k), l) <==> l == k || On(x, l)
  {
    if k > 0 && l > 0 {
      OrOnly(x / 2, k - 1, l - 1);
      assert Or(x, k) / 2 == Or(x / 2, k - 1);
    } else if l > 0 {
      assert Or(x, k) / 2 == x / 2;
    }
  }

  /** Digit k is on when 2^k goes into the number an odd number of times; setting it adds 2^k. */
  lemma {:induction false} OnIs(x: nat, k: nat)
    ensures On(x, k) <==> x / Bits.Pow2(k) % 2 == 1
    ensures Or(x, k) == if On(x, k) then x else x + Bits.Pow2(k)
  {
    if k > 0 {
      OnIs(x / 2, k - 1);
      Bits.HalfDiv(x, Bits.Pow2(k - 1));
      assert Bits.Pow2(k) == 2 * Bits.Pow2(k - 1);
      hide Bits.Pow2;
      assert x == 2 * (x / 2) + x % 2;
    } else {
      assert x == 2 * (x / 2) + x % 2;
    }
  }

  /** Bit i of a bitmap, the least significant bit of each byte first. */
  predicate Bit(b: seq<Byte>, i: nat)
    requires i / 8 < |b|
  {
    On(b[i / 8] as nat, i % 8)
  }

  function SetBit(b: seq<Byte>, i: nat): (r: seq<Byte>)
    requires i / 8 < |b|
    ensures |r| == |b|
  {
    assert Bits.Pow2(8) == 256;
    OrFits(b[i / 8] as nat, i % 8, 8);
    b[i / 8 := Or(b[i / 8] as nat, i % 8) as Byte]
  }

  lemma BitSet(b: seq<Byte>, i: nat, j: nat)
    requires i / 8 < |b| && j / 8 < |b|
    ensures Bit(SetBit(b, i), j) <==> j == i || Bit(b, j)
  {
    if j / 8 == i / 8 { OrOnly(b[i / 8] as nat, i % 8, j % 8); }
  }

  // ---------- Parts ----------

  /** b with the bytes from off on replaced by x. */
  function Patch(b: seq<Byte>, off: nat, x: seq<Byte>): (r: seq<Byte>)
    requires off + |x| <= |b|
    ensures |r| == |b| && r[off..off + |x|] == x
    ensures forall i :: 0 <= i < |b| ==> r[i] == if off <= i < off + |x| then x[i - off] else b[i]
  {
    b[..off] + x + b[off + |x|..]
  }
}
