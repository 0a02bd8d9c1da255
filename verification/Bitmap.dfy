/** The bitmaps of include/misc/bitmap.h: bits packed into bytes, the lowest bit of each byte first. */
module Bitmap {
  import Bits
  import Lists
  import opened Bytes

  /** The bits that a bitmap of len bits holds. */
  ghost function Unpack(data: seq<Byte>, len: nat): (bits: seq<bool>)
    requires len <= 8 * |data|
    ensures |bits| == len && forall i :: 0 <= i < len ==> bits[i] == Bit(data, i)
  {
    seq(len, i requires 0 <= i < len => Bit(data, i))
  }

  /** The first clear bit from lo on, or hi. */
  ghost function First(data: seq<Byte>, lo: nat, hi: nat): (r: nat)
    requires hi <= 8 * |data|
    ensures lo <= hi ==> lo <= r <= hi && (forall j :: lo <= j < r ==> Bit(data, j)) && (r < hi ==> !Bit(data, r))
    ensures lo > hi ==> r == hi
    decreases hi - lo
  {
    if lo >= hi then hi else if !Bit(data, lo) then lo else First(data, lo + 1, hi)
  }

  // ---------- Digits ----------

  lemma {:induction false} OnNot(x: nat, n: nat, k: nat)
    requires x < Bits.Pow2(n) && k < n
    ensures On(Bits.Pow2(n) - 1 - x, k) <==> !On(x, k)
  {
    var p, h := Bits.Pow2(n - 1), x / 2;
    assert Bits.Pow2(n) == 2 * p && x == 2 * h + x % 2;
    hide Bits.Pow2;
    var y := 2 * p - 1 - x;
    assert y == 2 * (p - 1 - h) + (1 - x % 2) && h < p;
    assert y / 2 == p - 1 - h && y % 2 == 1 - x % 2;
    if k > 0 { OnNot(h, n - 1, k - 1); }
  }

  lemma ModTwice(b: nat, m: nat)
    requires m > 0
    ensures b % (2 * m) == 2 * (b / 2 % m) + b % 2
  {
    var h := b / 2;
    assert b == 2 * h + b % 2 && h == h / m * m + h % m;
    assert b == h / m * (2 * m) + (2 * (h % m) + b % 2);
    Bits.DivUnique(b, 2 * m, h / m, 2 * (h % m) + b % 2);
  }

  /** b & (0xff << k) keeps the digits from k on. */
  lemma {:induction false} OnHigh(b: nat, k: nat, j: nat)
    ensures b % Bits.Pow2(k) <= b && (On(b - b % Bits.Pow2(k), j) <==> j >= k && On(b, j))
  {
    if k > 0 {
      var m, h := Bits.Pow2(k - 1), b / 2;
      assert Bits.Pow2(k) == 2 * m;
      ModTwice(b, m);
      OnHigh(h, k - 1, if j > 0 then j - 1 else 0);
      var y := b - b % Bits.Pow2(k);
      assert y == 2 * (h - h % m);
      assert y % 2 == 0 && y / 2 == h - h % m;
    }
  }

  /** b & ((1 << t) - 1) keeps the digits below t. */
  lemma {:induction false} OnLow(b: nat, t: nat, j: nat)
    ensures On(b % Bits.Pow2(t), j) <==> j < t && On(b, j)
    decreases t
  {
    if t == 0 {
      OnZero(j);
    } else {
      var m, h := Bits.Pow2(t - 1), b / 2;
      assert Bits.Pow2(t) == 2 * m;
      ModTwice(b, m);
      OnLow(h, t - 1, if j > 0 then j - 1 else 0);
      var y := b % Bits.Pow2(t);
      assert y % 2 == b % 2 && y / 2 == h % m;
    }
  }

  lemma {:induction false} OnZero(j: nat)
    ensures !On(0, j)
  {
    if j > 0 { OnZero(j - 1); }
  }

  lemma {:induction false} OnBelow(b: nat, n: nat, j: nat)
    requires b < Bits.Pow2(n) && On(b, j)
    ensures j < n
  {
    if n == 0 {
      OnZero(j);
    } else {
      assert Bits.Pow2(n) == 2 * Bits.Pow2(n - 1);
      if j > 0 { OnBelow(b / 2, n - 1, j - 1); }
    }
  }

  /** The lowest digit that is on. */
  ghost function Lowest(b: nat): nat
    requires b > 0
  {
    if b % 2 == 1 then 0 else 1 + Lowest(b / 2)
  }

  lemma {:induction false} LowestIs(b: nat, j: nat)
    requires b > 0
    ensures On(b, Lowest(b)) && (j < Lowest(b) ==> !On(b, j))
  {
    if b % 2 == 0 { LowestIs(b / 2, if j > 0 then j - 1 else 0); }
  }

  /** The loop that shifts a non-zero byte until its lowest bit is on. */
  method LowestOn(b0: nat) returns (off: nat)
    requires b0 > 0
    ensures On(b0, off) && forall j: nat :: j < off ==> !On(b0, j)
  {
    var b := b0;
    off := 0;
    while b % 2 == 0
      invariant b > 0 && off + Lowest(b) == Lowest(b0)
      decreases b
    {
      b, off := b / 2, off + 1;
    }
    assert off == Lowest(b0);
    hide Lowest, On;
    LowestIs(b0, 0);
    forall j: nat | j < off ensures !On(b0, j) { LowestIs(b0, j); }
  }

  /** A byte is zero exactly when no digit is on. */
  method AnyOn(b: nat) returns (any: bool, off: nat)
    ensures any <==> b > 0
    ensures any ==> On(b, off) && forall j: nat :: j < off ==> !On(b, j)
    ensures !any ==> forall j: nat :: !On(b, j)
  {
    if b == 0 {
      forall j: nat ensures !On(b, j) { OnZero(j); }
      return false, 0;
    }
    off := LowestOn(b);
    any := true;
  }

  // ---------- The search ----------

  /** The clear bits of byte i from bit k on, and below bit t. */
  function Inverted(x: Byte, k: nat, t: nat): nat {
    var b := 255 - x as nat;
    (b - b % Bits.Pow2(k)) % Bits.Pow2(t)
  }

  lemma InvertedOn(x: Byte, k: nat, t: nat, j: nat)
    requires t <= 8
    ensures On(Inverted(x, k, t), j) <==> k <= j < t && !On(x as nat, j)
  {
    var b := 255 - x as nat;
    assert Bits.Pow2(8) == 256;
    OnLow(b - b % Bits.Pow2(k), t, j);
    OnHigh(b, k, j);
    if j < 8 { OnNot(x as nat, 8, j); }
  }

  /** What bitmap_find_next_clear returns: in the byte where it starts, the place of the first clear bit plus
      the place where the search starts, since the byte is masked but not shifted. */
  ghost function Found(data: seq<Byte>, len: nat, start: nat): nat
    requires len <= 8 * |data|
  {
    var e := 8 * (start / 8 + 1);
    if start >= len then len
    else
      var p := First(data, start, e);
      if p < e then p + start % 8 else if e < len then First(data, e, len) else len
  }

  /** The first clear bit from byte i on, or len. */
  ghost function From(data: seq<Byte>, i: nat, len: nat): nat
    requires len <= 8 * |data|
  {
    if 8 * i < len then First(data, 8 * i, len) else len
  }

  /** bitmap_find_next_clear */
  method FindNextClear(data: seq<Byte>, len: nat, start: nat) returns (r: nat)
    requires len <= 8 * |data|
    ensures r == Found(data, len, start)
  {
    hide First, Inverted, On;
    if start >= len { return len; }
    var byteIdx, bitOff := start / 8, start % 8;
    var any, off := AnyOn(Inverted(data[byteIdx], bitOff, 8));
    FirstInByte(data, byteIdx, bitOff, 8, any, off);
    if any { return byteIdx * 8 + bitOff + off; }
    var maxByte := (len + 7) / 8;
    var i := byteIdx + 1;
    while i < maxByte
      invariant byteIdx < i <= maxByte && From(data, byteIdx + 1, len) == From(data, i, len)
    {
      var t := if i == maxByte - 1 && len % 8 != 0 then len % 8 else 8;
      any, off := AnyOn(Inverted(data[i], 0, t));
      FirstInByte(data, i, 0, t, any, off);
      FromNext(data, i, len, t);
      if any { return i * 8 + off; }
      i := i + 1;
    }
    r := len;
  }

  lemma FromNext(data: seq<Byte>, i: nat, len: nat, t: nat)
    requires len <= 8 * |data| && 8 * i < len
    requires t == if i == (len + 7) / 8 - 1 && len % 8 != 0 then len % 8 else 8
    ensures 8 * i + t <= len
    ensures From(data, i, len) == if First(data, 8 * i, 8 * i + t) < 8 * i + t then First(data, 8 * i, 8 * i + t)
                                  else From(data, i + 1, len)
  {
    hide Bit;
    FirstSplit(data, 8 * i, 8 * i + t, len);
  }

  /** Searching a byte from bit k up to bit t. */
  lemma FirstInByte(data: seq<Byte>, i: nat, k: nat, t: nat, any: bool, off: nat)
    requires i < |data| && k < t <= 8
    requires any ==> On(Inverted(data[i], k, t), off) && forall j: nat :: j < off ==> !On(Inverted(data[i], k, t), j)
    requires !any ==> forall j: nat :: !On(Inverted(data[i], k, t), j)
    ensures First(data, 8 * i + k, 8 * i + t) == if any then 8 * i + off else 8 * i + t
    ensures any ==> k <= off < t
  {
    forall j: nat ensures On(Inverted(data[i], k, t), j) <==> k <= j < t && !On(data[i] as nat, j) {
      InvertedOn(data[i], k, t, j);
    }
    hide Inverted;
    forall p: nat | 8 * i <= p < 8 * i + 8 ensures Bit(data, p) == On(data[i] as nat, p - 8 * i) {
      assert p / 8 == i && p % 8 == p - 8 * i;
    }
    hide On, Bit;
    var r := if any then 8 * i + off else 8 * i + t;
    forall p: nat | 8 * i + k <= p < r ensures Bit(data, p) { assert !On(Inverted(data[i], k, t), p - 8 * i); }
    FirstIs(data, 8 * i + k, 8 * i + t, r);
  }

  lemma {:induction false} FirstIs(data: seq<Byte>, lo: nat, hi: nat, r: nat)
    requires lo <= r <= hi <= 8 * |data| && (forall j :: lo <= j < r ==> Bit(data, j)) && (r < hi ==> !Bit(data, r))
    ensures First(data, lo, hi) == r
    decreases r - lo
  {
    hide Bit;
    if lo < r { FirstIs(data, lo + 1, hi, r); }
  }

  lemma FirstSplit(data: seq<Byte>, lo: nat, mid: nat, hi: nat)
    requires lo <= mid <= hi <= 8 * |data|
    ensures First(data, lo, hi) == if First(data, lo, mid) < mid then First(data, lo, mid) else First(data, mid, hi)
  {
    hide Bit;
    FirstIs(data, lo, hi, if First(data, lo, mid) < mid then First(data, lo, mid) else First(data, mid, hi));
  }

  /** The bits of the last byte past the end are clear, as memset leaves them. */
  ghost predicate TailClear(data: seq<Byte>, len: nat)
    requires len <= 8 * |data|
  {
    forall j :: len <= j < (len + 7) / 8 * 8 ==> !Bit(data, j)
  }

  /** The search is right if and only if it starts at the beginning of a byte, past the end, or in a byte
      without a clear bit from there on. */
  lemma FindsFirst(data: seq<Byte>, len: nat, start: nat)
    requires len <= 8 * |data| && TailClear(data, len)
    ensures Found(data, len, start) == First(data, start, len)
       <==> || start % 8 == 0 || start >= len
            || First(data, start, 8 * (start / 8 + 1)) == 8 * (start / 8 + 1)
  {
    hide Bit;
    var e := 8 * (start / 8 + 1);
    if start < len {
      var p := First(data, start, e);
      if e < len {
        FirstSplit(data, start, e, len);
      } else {
        FirstSplit(data, start, len, e);
        assert len < e ==> !Bit(data, len);
        assert First(data, len, e) == len;
      }
    }
  }

  /** Starting at bit 1 of a byte of zeros, the search returns bit 2. */
  lemma FindsTooFar()
    ensures Found([0], 8, 1) == 2 && First([0], 1, 8) == 1
  {
    OnZero(1);
    assert 1 / 8 == 0 && 1 % 8 == 1 && !Bit([0], 1);
  }

  /** The search that slab_alloc makes, from bit 0: the first clear bit, or the length. */
  lemma FindsFromZero(data: seq<Byte>, len: nat)
    requires len <= 8 * |data| && TailClear(data, len)
    ensures Found(data, len, 0) == First(data, 0, len)
  {
    FindsFirst(data, len, 0);
  }

  /** The search on the unpacked bits, from 0, gives what the search on the packed ones gives. */
  method SearchesAgree(data: seq<Byte>, len: nat, bits: seq<bool>) returns (i: nat, r: nat)
    requires len <= 8 * |data| && TailClear(data, len) && bits == Unpack(data, len)
    ensures i == r
  {
    hide Bit, First, TailClear, Found;
    i := Lists.FindClear(bits);
    FindsFromZero(data, len);
    FirstIs(data, 0, len, i);
    r := FindNextClear(data, len, 0);
  }

  /** bitmap_set on the packed bits is setting the bit. */
  lemma SetPacked(data: seq<Byte>, len: nat, i: nat)
    requires i < len <= 8 * |data|
    ensures Unpack(SetBit(data, i), len) == Unpack(data, len)[i := true]
    ensures TailClear(data, len) ==> TailClear(SetBit(data, i), len)
  {
    forall j: nat | j < 8 * |data| ensures Bit(SetBit(data, i), j) <==> j == i || Bit(data, j) { BitSet(data, i, j); }
  }
}
