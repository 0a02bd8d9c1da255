/** The streaming interface of src/misc/sha2.c, for any compression function.

    `f` stands for sha256_transform or sha512_transform: nothing below depends on what it computes.
    The reference is the padding of FIPS 180-4, sections 5.1.1 and 5.1.2, followed by one
    application of f per block.
 */
module Sha2 {
  import opened Bits
  import opened Bytes
  import opened Lists

  // ---------- Reference ----------

  ghost predicate Whole(s: seq<Byte>, B: nat)
    decreases |s|
  {
    B > 0 && (s == [] || (|s| >= B && Whole(s[B..], B)))
  }

  /** Apply f to each whole block in turn. */
  ghost function Fold<S>(f: (S, seq<Byte>) -> S, B: nat, h: S, s: seq<Byte>): S
    requires B > 0
    decreases |s|
  {
    if |s| < B then h else Fold(f, B, f(h, s[..B]), s[B..])
  }

  /** n in L bytes, most significant first. */
  ghost function BigEndian(n: nat, L: nat): seq<Byte> {
    if L == 0 then [] else BigEndian(n / 256, L - 1) + [n % 256]
  }

  /** k zero bytes bring the length to L bytes short of a block boundary. */
  ghost function ZeroCount(n: nat, B: nat, L: nat): nat
    requires L < B
  {
    (2 * B - L - 1 - n % B) % B
  }

  /** The padded message; the length field holds the bit length, modulo what it can hold. */
  ghost function Pad(m: seq<Byte>, B: nat, L: nat): seq<Byte>
    requires L < B
  {
    m + [0x80] + Zeros(ZeroCount(|m|, B, L)) + BigEndian(8 * |m|, L)
  }

  ghost function Hash<S>(f: (S, seq<Byte>) -> S, B: nat, L: nat, h: S, m: seq<Byte>): S
    requires L < B
  {
    Fold(f, B, h, Pad(m, B, L))
  }

  // ---------- Blocks ----------

  lemma {:induction false} FoldBlock<S>(f: (S, seq<Byte>) -> S, B: nat, h: S, s: seq<Byte>, b: seq<Byte>)
    requires Whole(s, B) && |b| == B
    ensures Whole(s + b, B) && Fold(f, B, h, s + b) == f(Fold(f, B, h, s), b)
    decreases |s|
  {
    if s == [] {
      assert s + b == b && b[..B] == b && b[B..] == [];
    } else {
      assert (s + b)[..B] == s[..B] && (s + b)[B..] == s[B..] + b;
      FoldBlock(f, B, f(h, s[..B]), s[B..], b);
    }
  }

  /** All of m but its last `used` bytes has been folded; those are in the buffer. */
  ghost predicate Absorbed<S>(f: (S, seq<Byte>) -> S, B: nat, init: S, m: seq<Byte>, h: S, buf: seq<Byte>, used: nat) {
    && used < B == |buf| && used <= |m|
    && Whole(m[..|m| - used], B) && h == Fold(f, B, init, m[..|m| - used])
    && buf[..used] == m[|m| - used..]
  }

  /** Folding one more block b, the last of m. */
  lemma AbsorbBlock<S>(f: (S, seq<Byte>) -> S, B: nat, init: S, done: seq<Byte>, b: seq<Byte>, h: S)
    requires Whole(done, B) && |b| == B && h == Fold(f, B, init, done)
    ensures Whole(done + b, B) && f(h, b) == Fold(f, B, init, done + b)
  {
    FoldBlock(f, B, init, done, b);
  }

  lemma TakeDrop(s: seq<Byte>, p: nat)
    requires p <= |s|
    ensures s[..p] + s[p..] == s
  {
  }

  lemma AbsorbedFrom<S>(f: (S, seq<Byte>) -> S, B: nat, init: S, done: seq<Byte>, rest: seq<Byte>, h: S, buf: seq<Byte>)
    requires Whole(done, B) && h == Fold(f, B, init, done) && |rest| < B == |buf| && buf[..|rest|] == rest
    ensures Absorbed(f, B, init, done + rest, h, buf, |rest|)
  {
    var m := done + rest;
    assert m[..|m| - |rest|] == done && m[|m| - |rest|..] == rest;
  }

  /** memcpy of part of the input into the buffer. */
  method Fill(buf: array<Byte>, at: nat, data: seq<Byte>)
    requires at + |data| <= buf.Length
    modifies buf
    ensures buf[..at + |data|] == old(buf[..at]) + data
  {
    forall i | 0 <= i < |data| { buf[at + i] := data[i]; }
  }

  lemma {:induction false} FoldAppend<S>(f: (S, seq<Byte>) -> S, B: nat, h: S, s: seq<Byte>, u: seq<Byte>)
    requires Whole(s, B) && Whole(u, B)
    ensures Whole(s + u, B) && Fold(f, B, h, s + u) == Fold(f, B, Fold(f, B, h, s), u)
    decreases |s|
  {
    if s == [] {
      assert s + u == u;
    } else {
      assert (s + u)[..B] == s[..B] && (s + u)[B..] == s[B..] + u;
      FoldAppend(f, B, f(h, s[..B]), s[B..], u);
    }
  }

  /** The loop over whole blocks. */
  method FoldBlocks<S>(f: (S, seq<Byte>) -> S, B: nat, h0: S, data: seq<Byte>) returns (h: S, p: nat)
    requires B > 0
    ensures p <= |data| && |data| - p < B && Whole(data[..p], B) && h == Fold(f, B, h0, data[..p])
  {
    h, p := h0, 0;
    while |data| - p >= B
      invariant 0 <= p <= |data| && Whole(data[..p], B) && h == Fold(f, B, h0, data[..p])
      decreases |data| - p
    {
      var b := data[p..p + B];
      FoldBlock(f, B, h0, data[..p], b);
      assert data[..p + B] == data[..p] + b;
      h := f(h, b);
      p := p + B;
    }
  }

  /** Fold whole blocks straight from the input and keep the remainder. */
  method AbsorbWhole<S>(f: (S, seq<Byte>) -> S, B: nat, h0: S, buf: array<Byte>, data: seq<Byte>, ghost init: S, ghost done: seq<Byte>)
    returns (h: S)
    requires buf.Length == B && Whole(done, B) && h0 == Fold(f, B, init, done)
    modifies buf
    ensures exists used :: Absorbed(f, B, init, done + data, h, buf[..], used)
  {
    hide Whole, Fold, Absorbed;
    WholePositive(done, B);
    var p;
    h, p := FoldBlocks(f, B, h0, data);
    ghost var head := data[..p];
    FoldAppend(f, B, init, done, head);
    var rest := data[p..];
    assert buf[..0] == [];
    Fill(buf, 0, rest);
    AbsorbedFrom(f, B, init, done + head, rest, h, buf[..]);
    Assoc(done, head, rest);
    TakeDrop(data, p);
  }

  lemma WholePositive(s: seq<Byte>, B: nat)
    requires Whole(s, B)
    ensures B > 0
  {
  }

  /** The body shared by sha256_update and sha512_update once the counter is advanced: top up a
      partly filled buffer first. */
  method Absorb<S>(f: (S, seq<Byte>) -> S, B: nat, h0: S, buf: array<Byte>, used: nat, data: seq<Byte>,
                   ghost init: S, ghost m: seq<Byte>)
    returns (h: S)
    requires buf.Length == B && Absorbed(f, B, init, m, h0, buf[..], used)
    modifies buf
    ensures exists used' :: Absorbed(f, B, init, m + data, h, buf[..], used')
  {
    hide Whole, Fold;
    ghost var done, rest := m[..|m| - used], m[|m| - used..];
    TakeDrop(m, |m| - used);
    if used == 0 {
      assert done == m;
      h := AbsorbWhole(f, B, h0, buf, data, init, done);
      return;
    }
    var avail := B - used;
    if |data| < avail {
      Fill(buf, used, data);
      h := h0;
      AbsorbedFrom(f, B, init, done, rest + data, h, buf[..]);
      Assoc(done, rest, data);
      return;
    }
    Fill(buf, used, data[..avail]);
    ghost var block := rest + data[..avail];
    assert buf[..] == buf[..B] == block;
    AbsorbBlock(f, B, init, done, block, h0);
    h := f(h0, buf[..]);
    h := AbsorbWhole(f, B, h, buf, data[avail..], init, done + block);
    Assoc(done, rest, data[..avail]);
    Assoc(m, data[..avail], data[avail..]);
    TakeDrop(data, avail);
  }

  // ---------- Padding ----------

  lemma ModSmall(x: nat, B: nat)
    requires 0 < B
    ensures x < B ==> x % B == x
    ensures B <= x < 2 * B ==> x % B == x - B
  {
    if B <= x < 2 * B {
      var q, r := x / B, x % B;
      assert x == q * B + r;
      assert (q == 0 ==> q * B == 0) && (q >= 2 ==> q * B >= 2 * B);
    }
  }

  /** n / B, as a number: no variable divisor in the statement. */
  lemma {:induction false} WholeLength(s: seq<Byte>, B: nat) returns (q: nat)
    requires Whole(s, B)
    ensures |s| == q * B
    decreases |s|
  {
    if s == [] {
      q := 0;
    } else {
      q := WholeLength(s[B..], B);
      q := q + 1;
    }
  }

  method ZeroFill(buf: array<Byte>, from: nat, to: nat)
    requires from <= to <= buf.Length
    modifies buf
    ensures buf[..to] == old(buf[..from]) + Zeros(to - from)
  {
    forall i | from <= i < to { buf[i] := 0; }
  }

  /** Zeros up to the length field, the length, and the last application of f. */
  method LastBlock<S>(f: (S, seq<Byte>) -> S, B: nat, h0: S, buf: array<Byte>, used: nat, length: seq<Byte>,
                      ghost init: S, ghost done: seq<Byte>)
    returns (h: S)
    requires buf.Length == B && used + |length| <= B && Whole(done, B) && h0 == Fold(f, B, init, done)
    modifies buf
    ensures h == Fold(f, B, init, done + (old(buf[..used]) + Zeros(B - |length| - used) + length))
  {
    hide Whole, Fold;
    ZeroFill(buf, used, B - |length|);
    Fill(buf, B - |length|, length);
    assert buf[..B] == buf[..];
    AbsorbBlock(f, B, init, done, buf[..], h0);
    h := f(h0, buf[..]);
  }

  /** The body shared by sha256_final and sha512_final: the 0x80 byte, zeros, the length field; one
      more block when the length does not fit. */
  method Finish<S>(f: (S, seq<Byte>) -> S, B: nat, h0: S, buf: array<Byte>, used0: nat, length: seq<Byte>,
                   ghost init: S, ghost m: seq<Byte>)
    returns (h: S)
    requires buf.Length == B && |length| < B && Absorbed(f, B, init, m, h0, buf[..], used0)
    modifies buf
    ensures h == Fold(f, B, init, m + [0x80] + Zeros(Gap(used0, B, |length|)) + length)
  {
    hide Whole, Fold, Absorbed, Zeros;
    var L := |length|;
    AbsorbedParts(f, B, init, m, h0, buf[..], used0);
    ghost var done, rest := m[..|m| - used0], m[|m| - used0..];
    Fill(buf, used0, [0x80]);
    var used := used0 + 1;
    if used > B - L {
      ZeroFill(buf, used, B);
      ghost var first := rest + [0x80] + Zeros(B - used);
      assert buf[..] == buf[..B] == first;
      AbsorbBlock(f, B, init, done, first, h0);
      h := f(h0, buf[..]);
      h := LastBlock(f, B, h, buf, 0, length, init, done + first);
      LongPad(done, rest, Zeros(B - used), Zeros(B - L), length);
      ZerosAdd(B - used, B - L);
    } else {
      h := LastBlock(f, B, h0, buf, used, length, init, done);
      ShortPad(done, rest, Zeros(B - L - used), length);
    }
  }

  /** Zero bytes between 0x80 and the length field when `used` bytes are buffered. */
  ghost function Gap(used: nat, B: nat, L: nat): nat
    requires used < B && L < B
  {
    if used + 1 <= B - L then B - L - used - 1 else 2 * B - L - used - 1
  }

  lemma ZerosAdd(m: nat, n: nat)
    ensures Zeros(m) + Zeros(n) == Zeros(m + n)
  {
  }

  lemma ShortPad(done: seq<Byte>, rest: seq<Byte>, z: seq<Byte>, length: seq<Byte>)
    ensures done + (rest + [0x80] + z + length) == (done + rest) + [0x80] + z + length
  {
  }

  lemma LongPad(done: seq<Byte>, rest: seq<Byte>, z1: seq<Byte>, z2: seq<Byte>, length: seq<Byte>)
    ensures (done + (rest + [0x80] + z1)) + ([] + z2 + length) == (done + rest) + [0x80] + (z1 + z2) + length
  {
  }

  lemma AbsorbedParts<S>(f: (S, seq<Byte>) -> S, B: nat, init: S, m: seq<Byte>, h: S, buf: seq<Byte>, used: nat)
    requires Absorbed(f, B, init, m, h, buf, used)
    ensures used < B == |buf| && used <= |m|
    ensures var done, rest := m[..|m| - used], m[|m| - used..];
            && m == done + rest && Whole(done, B) && h == Fold(f, B, init, done)
            && buf[..used] == rest && exists q: nat :: |m| == q * B + used
  {
    var q := WholeLength(m[..|m| - used], B);
  }

  // ---------- Length fields ----------

  lemma {:induction false} BigEndianMod(n: nat, k: nat, L: nat)
    ensures BigEndian(n + k * Pow256(L), L) == BigEndian(n, L)
    decreases L
  {
    if L > 0 {
      var p := Pow256(L - 1);
      assert k * Pow256(L) == 256 * (k * p);
      assert (n + 256 * (k * p)) / 256 == n / 256 + k * p;
      BigEndianMod(n / 256, k, L - 1);
    }
  }

  lemma {:induction false} BigEndianLength(n: nat, L: nat)
    ensures |BigEndian(n, L)| == L
    decreases L
  {
    if L > 0 { BigEndianLength(n / 256, L - 1); }
  }

  const TWO64: nat := 0x1_0000_0000_0000_0000

  lemma Pow256Values()
    ensures Pow256(4) == 0x1_0000_0000 && Pow256(8) == TWO64 && Pow256(16) == TWO64 * TWO64
  {
    assert Pow256(4) == 0x1_0000_0000;
    assert Pow256(8) == 256 * (256 * (256 * (256 * Pow256(4))));
    assert Pow256(12) == 256 * (256 * (256 * (256 * Pow256(8))));
    assert Pow256(16) == 256 * (256 * (256 * (256 * Pow256(12))));
  }

  /** The eight shifted bytes of a 64-bit word. */
  function Bytes64(n: nat): seq<Byte> {
    [n / 0x100_0000_0000_0000 % 256, n / 0x1_0000_0000_0000 % 256, n / 0x100_0000_0000 % 256, n / 0x1_0000_0000 % 256,
     n / 0x100_0000 % 256, n / 0x1_0000 % 256, n / 0x100 % 256, n % 256]
  }

  function Bytes32(n: nat): seq<Byte> {
    [n / 0x100_0000 % 256, n / 0x1_0000 % 256, n / 0x100 % 256, n % 256]
  }

  lemma Bytes32IsBigEndian(n: nat)
    ensures Bytes32(n) == BigEndian(n, 4)
  {
    var a := n / 256;
    var b := a / 256;
    var c := b / 256;
    assert b == n / 0x1_0000 && c == n / 0x100_0000;
    assert BigEndian(c, 1) == BigEndian(c / 256, 0) + [c % 256] == [c % 256];
    assert BigEndian(b, 2) == BigEndian(c, 1) + [b % 256];
    assert BigEndian(a, 3) == BigEndian(b, 2) + [a % 256];
    assert BigEndian(n, 4) == BigEndian(a, 3) + [n % 256];
  }

  lemma {:induction false} BigEndianSplit(hi: nat, lo: nat, K: nat, L: nat)
    requires lo < Pow256(L)
    ensures BigEndian(hi * Pow256(L) + lo, K + L) == BigEndian(hi, K) + BigEndian(lo, L)
    decreases L
  {
    if L > 0 {
      var p := Pow256(L - 1);
      assert hi * Pow256(L) == 256 * (hi * p);
      assert (256 * (hi * p) + lo) / 256 == hi * p + lo / 256 && (256 * (hi * p) + lo) % 256 == lo % 256;
      BigEndianSplit(hi, lo / 256, K, L - 1);
    } else {
      assert hi * Pow256(L) + lo == hi;
    }
  }

  /** Shifts of the low half ignore the high half. */
  lemma LowHalf(hi: nat, lo: nat)
    requires lo < 0x1_0000_0000
    ensures var n := hi * 0x1_0000_0000 + lo;
            && n / 0x100_0000 % 256 == lo / 0x100_0000 % 256 && n / 0x1_0000 % 256 == lo / 0x1_0000 % 256
            && n / 0x100 % 256 == lo / 0x100 % 256 && n % 256 == lo % 256
  {
    DivAdd(lo, hi * 0x100, 0x100_0000);
    DivAdd(lo, hi * 0x1_0000, 0x1_0000);
    DivAdd(lo, hi * 0x100_0000, 0x100);
    ByteAdd(lo / 0x100_0000, hi);
    ByteAdd(lo / 0x1_0000, hi * 0x100);
    ByteAdd(lo / 0x100, hi * 0x1_0000);
    ByteAdd(lo, hi * 0x100_0000);
  }

  lemma DivAdd(x: nat, k: nat, c: nat)
    requires c > 0
    ensures (k * c + x) / c == k + x / c
  {
    var q, r := x / c, x % c;
    assert k * c + x == (k + q) * c + r;
    DivUnique(k * c + x, c, k + q, r);
  }

  lemma ByteAdd(x: nat, k: nat)
    ensures (k * 0x100 + x) % 256 == x % 256
  {
  }

  lemma HighHalf(hi: nat, lo: nat)
    requires lo < 0x1_0000_0000
    ensures var n := hi * 0x1_0000_0000 + lo;
            && n / 0x100_0000_0000_0000 == hi / 0x100_0000 && n / 0x1_0000_0000_0000 == hi / 0x1_0000
            && n / 0x100_0000_0000 == hi / 0x100 && n / 0x1_0000_0000 == hi
  {
  }

  lemma Bytes64IsBigEndian(n: nat)
    ensures Bytes64(n) == BigEndian(n, 8)
  {
    hide BigEndian, Pow256;
    var hi, lo := n / 0x1_0000_0000, n % 0x1_0000_0000;
    Pow256Values();
    BigEndianSplit(hi, lo, 4, 4);
    Bytes32IsBigEndian(hi);
    Bytes32IsBigEndian(lo);
    LowHalf(hi, lo);
    HighHalf(hi, lo);
    assert n == hi * 0x1_0000_0000 + lo;
    assert Bytes64(n) == Bytes32(hi) + Bytes32(lo);
  }

  // ---------- Contexts ----------

  type Words = s: seq<nat> | |s| == 8 witness seq(8, _ => 0)

  type Transform = (Words, seq<Byte>) -> Words

  ghost function Digest(s: seq<nat>, size: nat): seq<Byte> {
    if s == [] then [] else BigEndian(s[0], size) + Digest(s[1..], size)
  }

  lemma {:induction false} DigestAppend(s: seq<nat>, w: nat, size: nat)
    ensures Digest(s + [w], size) == Digest(s, size) + BigEndian(w, size)
    decreases |s|
  {
    if s == [] {
      assert Digest([w], size) == BigEndian(w, size) + Digest([], size);
    } else {
      assert (s + [w])[1..] == s[1..] + [w];
      DigestAppend(s[1..], w, size);
    }
  }

  lemma UsedIsRemainder(f: Transform, B: nat, init: Words, m: seq<Byte>, h: Words, buf: seq<Byte>, used: nat)
    requires (B == 64 || B == 128) && Absorbed(f, B, init, m, h, buf, used)
    ensures used == |m| % B
  {
    hide Absorbed, Fold, Whole;
    AbsorbedParts(f, B, init, m, h, buf, used);
    var q: nat :| |m| == q * B + used;
    DivUnique(|m|, B, q, used);
  }

  lemma GapIsZeroCount(n: nat, B: nat, L: nat)
    requires (B == 64 && L == 8) || (B == 128 && L == 16)
    ensures Gap(n % B, B, L) == ZeroCount(n, B, L)
  {
  }

  /** sha256_ctx, shared with SHA-224, which only starts from other words and cuts the digest short. */
  class Sha256 {
    const f: Transform
    ghost const init: Words
    var state: Words
    var count: nat
    const buf: array<Byte>
    ghost var msg: seq<Byte>

    ghost predicate Valid()
      reads this, buf
    {
      && buf.Length == 64 && count == |msg| % TWO64
      && Absorbed(f, 64, init, msg, state, buf[..], |msg| % 64)
    }

    constructor (f: Transform, init: Words)
      ensures Valid() && msg == [] && this.f == f && this.init == init && fresh(buf)
    {
      this.f, this.init, state := f, init, init;
      count := 0;
      buf := new Byte[64](_ => 0);
      msg := [];
    }

    /** sha256_update */
    method Update(data: seq<Byte>)
      requires Valid() && |data| < TWO64
      modifies this, buf
      ensures Valid() && msg == old(msg) + data
    {
      hide Absorbed;
      SmallCount(|msg|);
      SmallAdd(|msg|, |data|);
      var used := count % 64;
      count := (count + |data|) % TWO64;
      state := Absorb(f, 64, state, buf, used, data, init, msg);
      ghost var used' :| Absorbed(f, 64, init, msg + data, state, buf[..], used');
      UsedIsRemainder(f, 64, init, msg + data, state, buf[..], used');
      msg := msg + data;
    }

    /** sha256_final: the digest of the padded message. */
    method Final() returns (digest: seq<Byte>)
      requires Valid()
      modifies this, buf
      ensures digest == Digest(Hash(f, 64, 8, init, old(msg)), 4)
    {
      hide Absorbed, Fold, BigEndian, Pow256, Zeros, Gap, ZeroCount, Digest;
      SmallCount(|msg|);
      var used := count % 64;
      var bitCount := (count * 8) % TWO64;
      Length256(|msg|, count, bitCount);
      GapIsZeroCount(|msg|, 64, 8);
      Bytes64IsBigEndian(bitCount);
      state := Finish(f, 64, state, buf, used, Bytes64(bitCount), init, msg);
      digest := WordsToBytes(state, 4);
    }
  }

  lemma SmallCount(n: nat)
    ensures (n % TWO64) % 64 == n % 64
  {
  }

  lemma SmallAdd(n: nat, k: nat)
    ensures (n % TWO64 + k) % TWO64 == (n + k) % TWO64
  {
    DivAdd(n % TWO64 + k, n / TWO64, TWO64);
  }

  lemma Length256(n: nat, count: nat, bits: nat)
    requires count == n % TWO64 && bits == (count * 8) % TWO64
    ensures BigEndian(bits, 8) == BigEndian(8 * n, 8)
  {
    hide BigEndian;
    Pow256Values();
    var k := 8 * (n / TWO64) + (count * 8) / TWO64;
    assert 8 * n == bits + k * TWO64;
    BigEndianMod(bits, k, 8);
  }

  /** The loop that writes the state words out. */
  method WordsToBytes(s: Words, size: nat) returns (digest: seq<Byte>)
    requires size == 4 || size == 8
    ensures digest == Digest(s, size)
  {
    digest := [];
    for i := 0 to 8
      invariant digest == Digest(s[..i], size)
    {
      assert s[..i + 1] == s[..i] + [s[i]];
      DigestAppend(s[..i], s[i], size);
      Bytes32IsBigEndian(s[i]);
      Bytes64IsBigEndian(s[i]);
      digest := digest + if size == 4 then Bytes32(s[i]) else Bytes64(s[i]);
    }
    assert s[..8] == s;
  }

  /** sha512_ctx, shared with SHA-384: the byte count takes two words. */
  class Sha512 {
    const f: Transform
    ghost const init: Words
    var state: Words
    var count0: nat
    var count1: nat
    const buf: array<Byte>
    ghost var msg: seq<Byte>

    ghost predicate Valid()
      reads this, buf
    {
      && buf.Length == 128 && count0 < TWO64 && count1 < TWO64
      && count1 * TWO64 + count0 == |msg| % (TWO64 * TWO64)
      && Absorbed(f, 128, init, msg, state, buf[..], |msg| % 128)
    }

    constructor (f: Transform, init: Words)
      ensures Valid() && msg == [] && this.f == f && this.init == init && fresh(buf)
    {
      this.f, this.init, state := f, init, init;
      count0, count1 := 0, 0;
      buf := new Byte[128](_ => 0);
      msg := [];
    }

    /** sha512_update: the carry is detected by the sum having wrapped. */
    method Update(data: seq<Byte>)
      requires Valid() && |data| < TWO64
      modifies this, buf
      ensures Valid() && msg == old(msg) + data
    {
      hide Absorbed;
      var used := count0 % 128;
      Carry(|msg|, count0, count1, |data|);
      count0 := (count0 + |data|) % TWO64;
      if count0 < |data| {
        count1 := (count1 + 1) % TWO64;
      }
      state := Absorb(f, 128, state, buf, used, data, init, msg);
      ghost var used' :| Absorbed(f, 128, init, msg + data, state, buf[..], used');
      UsedIsRemainder(f, 128, init, msg + data, state, buf[..], used');
      msg := msg + data;
    }

    /** sha512_final: the length field is the 128-bit bit count. */
    method Final() returns (digest: seq<Byte>)
      requires Valid()
      modifies this, buf
      ensures digest == Digest(Hash(f, 128, 16, init, old(msg)), 8)
    {
      hide Absorbed, Fold, BigEndian, Pow256, Zeros, Gap, ZeroCount, Digest;
      var used := count0 % 128;
      var low := (count0 * 8) % TWO64;
      var high := (count1 * 8) % TWO64 + count0 / 0x2000_0000_0000_0000;  // the low three bits are clear
      Carry(|msg|, count0, count1, 0);
      Length512(|msg|, count0, count1, low, high);
      GapIsZeroCount(|msg|, 128, 16);
      Bytes64IsBigEndian(high);
      Bytes64IsBigEndian(low);
      state := Finish(f, 128, state, buf, used, Bytes64(high) + Bytes64(low), init, msg);
      digest := WordsToBytes(state, 8);
    }
  }

  /** 128-bit addition on two 64-bit words. */
  lemma Carry(n: nat, c0: nat, c1: nat, len: nat)
    requires c0 < TWO64 && c1 < TWO64 && len < TWO64 && c1 * TWO64 + c0 == n % (TWO64 * TWO64)
    ensures c0 % 128 == n % 128
    ensures var c0' := (c0 + len) % TWO64;
            var c1' := if c0' < len then (c1 + 1) % TWO64 else c1;
            c1' * TWO64 + c0' == (n + len) % (TWO64 * TWO64)
  {
    var q := n / (TWO64 * TWO64);
    assert n == q * (TWO64 * TWO64) + c1 * TWO64 + c0;
    assert n == (q * (TWO64 * TWO64 / 128) + c1 * (TWO64 / 128)) * 128 + c0;
    DivAdd128(c0, q * (TWO64 * TWO64 / 128) + c1 * (TWO64 / 128));
    CarryValue(n + len, q, c1, c0 + len);
  }

  lemma DivAdd128(x: nat, k: nat)
    ensures (k * 128 + x) % 128 == x % 128
  {
  }

  /** q * 2^128 + c1 * 2^64 + s, with s below 2^65, reduced. */
  lemma CarryValue(n: nat, q: nat, c1: nat, s: nat)
    requires n == q * (TWO64 * TWO64) + c1 * TWO64 + s && c1 < TWO64 && s < 2 * TWO64
    ensures n % (TWO64 * TWO64)
         == if s < TWO64 then c1 * TWO64 + s else ((c1 + 1) % TWO64) * TWO64 + (s - TWO64)
    ensures s % TWO64 == if s < TWO64 then s else s - TWO64
  {
    if s < TWO64 {
      DivUnique(n, TWO64 * TWO64, q, c1 * TWO64 + s);
    } else if c1 + 1 < TWO64 {
      DivUnique(n, TWO64 * TWO64, q, (c1 + 1) * TWO64 + (s - TWO64));
    } else {
      DivUnique(n, TWO64 * TWO64, q + 1, s - TWO64);
    }
  }

  lemma Length512(n: nat, c0: nat, c1: nat, low: nat, high: nat)
    requires c0 < TWO64 && c1 < TWO64 && c1 * TWO64 + c0 == n % (TWO64 * TWO64)
    requires low == (c0 * 8) % TWO64 && high == (c1 * 8) % TWO64 + c0 / 0x2000_0000_0000_0000
    ensures BigEndian(high, 8) + BigEndian(low, 8) == BigEndian(8 * n, 16)
  {
    hide BigEndian;
    Pow256Values();
    BigEndianSplit(high, low, 8, 8);
    var k := 8 * (n / (TWO64 * TWO64)) + (c1 * 8) / TWO64;
    assert (c0 * 8) / TWO64 == c0 / 0x2000_0000_0000_0000;
    assert 8 * n == (high * TWO64 + low) + k * (TWO64 * TWO64);
    BigEndianMod(high * TWO64 + low, k, 16);
  }

  ghost function Flatten(chunks: seq<seq<Byte>>): seq<Byte> {
    if chunks == [] then [] else chunks[0] + Flatten(chunks[1..])
  }

  lemma {:induction false} FlattenAppend(chunks: seq<seq<Byte>>, c: seq<Byte>)
    ensures Flatten(chunks + [c]) == Flatten(chunks) + c
    decreases |chunks|
  {
    if chunks == [] {
      assert Flatten([c]) == c + Flatten([]);
    } else {
      assert (chunks + [c])[1..] == chunks[1..] + [c];
      FlattenAppend(chunks[1..], c);
    }
  }

  /** Any split of a message into updates gives the digest of the whole message. */
  method Stream256(f: Transform, init: Words, chunks: seq<seq<Byte>>) returns (digest: seq<Byte>)
    requires forall i :: 0 <= i < |chunks| ==> |chunks[i]| < TWO64
    ensures digest == Digest(Hash(f, 64, 8, init, Flatten(chunks)), 4)
  {
    hide Hash, Digest;
    var ctx := new Sha256(f, init);
    for i := 0 to |chunks|
      invariant ctx.Valid() && fresh(ctx) && fresh(ctx.buf) && ctx.f == f && ctx.init == init
      invariant ctx.msg == Flatten(chunks[..i])
    {
      assert chunks[..i + 1] == chunks[..i] + [chunks[i]];
      FlattenAppend(chunks[..i], chunks[i]);
      ctx.Update(chunks[i]);
    }
    assert chunks[..|chunks|] == chunks;
    digest := ctx.Final();
  }

  method Stream512(f: Transform, init: Words, chunks: seq<seq<Byte>>) returns (digest: seq<Byte>)
    requires forall i :: 0 <= i < |chunks| ==> |chunks[i]| < TWO64
    ensures digest == Digest(Hash(f, 128, 16, init, Flatten(chunks)), 8)
  {
    hide Hash, Digest;
    var ctx := new Sha512(f, init);
    for i := 0 to |chunks|
      invariant ctx.Valid() && fresh(ctx) && fresh(ctx.buf) && ctx.f == f && ctx.init == init
      invariant ctx.msg == Flatten(chunks[..i])
    {
      assert chunks[..i + 1] == chunks[..i] + [chunks[i]];
      FlattenAppend(chunks[..i], chunks[i]);
      ctx.Update(chunks[i]);
    }
    assert chunks[..|chunks|] == chunks;
    digest := ctx.Final();
  }

  /** The value a big-endian field stands for. */
  ghost function Value(s: seq<Byte>): nat {
    if s == [] then 0 else 256 * Value(s[..|s| - 1]) + s[|s| - 1] as nat
  }

  /** Padding ends on a block boundary, with no more zeros than needed. */
  lemma PadAligned(m: seq<Byte>, B: nat, L: nat)
    requires (B == 64 && L == 8) || (B == 128 && L == 16)
    ensures |Pad(m, B, L)| % B == 0 && ZeroCount(|m|, B, L) < B
  {
    hide BigEndian, ZeroCount;
    BigEndianLength(8 * |m|, L);
    Boundary(|m|, B, L);
    assert |Pad(m, B, L)| == |m| + 1 + ZeroCount(|m|, B, L) + L;
  }

  lemma Boundary(n: nat, B: nat, L: nat)
    requires (B == 64 && L == 8) || (B == 128 && L == 16)
    ensures (n + 1 + ZeroCount(n, B, L) + L) % B == 0 && ZeroCount(n, B, L) < B
  {
    GapIsZeroCount(n, B, L);
    var q, r := n / B, n % B;
    hide ZeroCount;
    assert n == q * B + r;
    DivUnique(n + 1 + ZeroCount(n, B, L) + L, B, if r + 1 <= B - L then q + 1 else q + 2, 0);
  }

  /** Within the lengths the standard allows, the field holds the exact bit length. */
  lemma {:induction false} LengthFieldExact(n: nat, L: nat)
    requires n < Pow256(L)
    ensures Value(BigEndian(n, L)) == n
    decreases L
  {
    if L > 0 {
      var s := BigEndian(n, L);
      assert s[..|s| - 1] == BigEndian(n / 256, L - 1);
      LengthFieldExact(n / 256, L - 1);
    }
  }

  /** Byte L - 1 - i of the field is digit i of the number, to base 256. */
  lemma {:induction false} BigEndianAt(n: nat, L: nat, i: nat)
    requires i < L
    ensures |BigEndian(n, L)| == L && BigEndian(n, L)[L - 1 - i] as nat == n / Pow256(i) % 256
    decreases L
  {
    BigEndianLength(n / 256, L - 1);
    if i > 0 {
      BigEndianAt(n / 256, L - 1, i - 1);
      ByteDiv(n, Pow256(i - 1));
    }
  }

  /** Value of a field that is too short for the number: what fits. */
  lemma FieldValue(n: nat, L: nat)
    ensures Pow256(L) > 0 && Value(BigEndian(n, L)) == n % Pow256(L)
  {
    hide BigEndian, Value, Pow256;
    var p := Pow256(L);
    var q, r := n / p, n % p;
    assert n == r + q * p;
    BigEndianMod(r, q, L);
    LengthFieldExact(r, L);
  }

  /** The padded message: the message, one bit, as few zeros as bring it to whole blocks, and the bit length
      in the last L bytes, most significant first, modulo what they can hold. */
  lemma PadIs(m: seq<Byte>, B: nat, L: nat)
    requires (B == 64 && L == 8) || (B == 128 && L == 16)
    ensures var p, e := Pad(m, B, L), |Pad(m, B, L)| - L;
            && |p| % B == 0 && |m| < e < |m| + 1 + B
            && p[..|m|] == m && p[|m|] == 0x80 && (forall i :: |m| < i < e ==> p[i] == 0)
            && Pow256(L) > 0 && Value(p[e..]) == 8 * |m| % Pow256(L)
            && forall i :: 0 <= i < L ==> Pow256(i) > 0 && p[|p| - 1 - i] as nat == 8 * |m| / Pow256(i) % 256
  {
    PadAligned(m, B, L);
    FieldValue(8 * |m|, L);
    BigEndianLength(8 * |m|, L);
    hide BigEndian, ZeroCount, Value, Pow256;
    var f, p := BigEndian(8 * |m|, L), Pad(m, B, L);
    assert p[|p| - L..] == f;
    forall i | 0 <= i < L ensures Pow256(i) > 0 && p[|p| - 1 - i] as nat == 8 * |m| / Pow256(i) % 256 {
      BigEndianAt(8 * |m|, L, i);
      assert p[|p| - 1 - i] == f[L - 1 - i];
    }
  }

  /** The digest is the words in order: word k stands at size * k, most significant byte first. */
  lemma {:induction false} DigestAt(s: seq<nat>, size: nat, k: nat)
    requires k < |s|
    ensures Digest(s, size) == Digest(s[..k], size) + (BigEndian(s[k], size) + Digest(s[k + 1..], size))
    ensures |Digest(s[..k], size)| == size * k && |BigEndian(s[k], size)| == size
    ensures forall j :: 0 <= j < size ==> BigEndian(s[k], size)[j] as nat == s[k] / Pow256(size - 1 - j) % 256
  {
    DigestLength(s[..k], size);
    BigEndianLength(s[k], size);
    forall j | 0 <= j < size ensures BigEndian(s[k], size)[j] as nat == s[k] / Pow256(size - 1 - j) % 256 {
      BigEndianAt(s[k], size, size - 1 - j);
    }
    DigestParts(s, size, k);
  }

  lemma {:induction false} DigestParts(s: seq<nat>, size: nat, k: nat)
    requires k < |s|
    ensures Digest(s, size) == Digest(s[..k], size) + (BigEndian(s[k], size) + Digest(s[k + 1..], size))
    decreases k
  {
    hide BigEndian;
    if k > 0 {
      DigestParts(s[1..], size, k - 1);
      assert s[..k][1..] == s[1..][..k - 1] && s[1..][k - 1 + 1..] == s[k + 1..];
      Assoc(BigEndian(s[0], size), Digest(s[1..][..k - 1], size), BigEndian(s[k], size) + Digest(s[k + 1..], size));
    } else {
      assert s[..0] == [];
    }
  }

  lemma {:induction false} DigestLength(s: seq<nat>, size: nat)
    ensures |Digest(s, size)| == size * |s|
    decreases |s|
  {
    if s != [] {
      BigEndianLength(s[0], size);
      DigestLength(s[1..], size);
      assert size * |s| == size + size * (|s| - 1);
    }
  }
}
