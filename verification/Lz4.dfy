/** The compressor and decompressor of src/misc/lz4.c, on byte arrays.

    Pointers ip, anchor, op become indices; sizes are unbounded naturals, which the input limit
    LZ4_MAX_INPUT_SIZE keeps inside the C types.
 */
module Lz4 {
  import opened Bytes
  import opened Lists
  import opened Lz4Format

  const HASH_SIZE: nat := 4096
  const LASTLITERALS: int := 5
  const MFLIMIT: int := 12
  const MAX_INPUT_SIZE: nat := 0x7E000000

  function CompressBound(n: nat): nat { if n > MAX_INPUT_SIZE then 0 else n + n / 255 + 16 }

  // ---------- Reading ----------

  /** lz4_read32 on a little-endian machine. */
  function Read32(a: array<Byte>, i: nat): nat
    requires i + 4 <= a.Length
    reads a
  {
    a[i] as nat + 256 * (a[i + 1] as nat + 256 * (a[i + 2] as nat + 256 * (a[i + 3] as nat)))
  }

  lemma LowByte(x: nat, p: nat, y: nat, q: nat)
    requires x < 256 && y < 256 && x + 256 * p == y + 256 * q
    ensures x == y && p == q
  {
  }

  /** Words are equal only when all four bytes are. */
  lemma Read32Injective(a: array<Byte>, i: nat, j: nat)
    requires i + 4 <= a.Length && j + 4 <= a.Length && Read32(a, i) == Read32(a, j)
    ensures a[i] == a[j] && a[i + 1] == a[j + 1] && a[i + 2] == a[j + 2] && a[i + 3] == a[j + 3]
  {
    var p2, q2 := a[i + 2] as nat + 256 * (a[i + 3] as nat), a[j + 2] as nat + 256 * (a[j + 3] as nat);
    LowByte(a[i], a[i + 1] as nat + 256 * p2, a[j], a[j + 1] as nat + 256 * q2);
    LowByte(a[i + 1], p2, a[j + 1], q2);
    LowByte(a[i + 2], a[i + 3], a[j + 2], a[j + 3]);
  }

  /** LZ4_HASH_FUNCTION masked to the table size: a 32-bit product, shifted right by 16. */
  function Hash(v: nat): (h: nat)
    ensures h < HASH_SIZE
  {
    ((v * 2654435761) % 0x1_0000_0000) / 65536 % HASH_SIZE
  }

  // ---------- Writing ----------

  lemma SliceOfPrefix(a: array<Byte>, n: nat, i: nat, j: nat)
    requires i <= j <= n <= a.Length
    ensures a[..n][i..j] == a[i..j]
  {
  }

  /** Nothing from index k on differs. */
  ghost predicate SameFrom(a: seq<Byte>, b: seq<Byte>, k: nat) {
    |a| == |b| && forall i :: k <= i < |a| ==> b[i] == a[i]
  }

  method Put(dst: array<Byte>, op: nat, b: Byte)
    requires op < dst.Length
    modifies dst
    ensures dst[..op + 1] == old(dst[..op]) + [b] && SameFrom(old(dst[..]), dst[..], op + 1)
  {
    dst[op] := b;
  }

  /** memcpy between two buffers. */
  method CopyIn(dst: array<Byte>, op: nat, src: array<Byte>, from: nat, n: nat)
    requires src != dst && from + n <= src.Length && op + n <= dst.Length
    modifies dst
    ensures dst[..op + n] == old(dst[..op]) + src[from..from + n] && SameFrom(old(dst[..]), dst[..], op + n)
  {
    forall i | 0 <= i < n { dst[op + i] := src[from + i]; }
  }

  lemma {:induction false} LenExtSize(n: nat)
    ensures |LenExt(n)| == n / 255 + 1
    decreases n
  {
    if n >= 255 { LenExtSize(n - 255); }
  }

  /** The loops that write 255 while it fits, then the rest. */
  method WriteExt(dst: array<Byte>, op0: nat, n: nat) returns (op: nat)
    requires op0 + n / 255 + 1 <= dst.Length
    modifies dst
    ensures op == op0 + n / 255 + 1
    ensures dst[..op] == old(dst[..op0]) + LenExt(n) && SameFrom(old(dst[..]), dst[..], op)
  {
    LenExtSize(n);
    op := op0;
    var left := n;
    while left >= 255
      invariant op0 <= op && 0 <= left <= n && op + left / 255 + 1 == op0 + n / 255 + 1
      invariant SameFrom(old(dst[..]), dst[..], op)
      invariant dst[..op] + LenExt(left) == old(dst[..op0]) + LenExt(n)
      decreases left
    {
      Put(dst, op, 255);
      op, left := op + 1, left - 255;
      assert dst[..op] + LenExt(left) == dst[..op - 1] + ([255] + LenExt(left));
    }
    Put(dst, op, left);
    op := op + 1;
  }

  ghost function LenTailSize(n: nat): nat { if n < 15 then 0 else (n - 15) / 255 + 1 }

  lemma LenTailLength(n: nat)
    ensures |LenTail(n)| == LenTailSize(n)
  {
    if n >= 15 { LenExtSize(n - 15); }
  }

  /** Token and length of n literals. */
  ghost function Header(n: nat): seq<Byte> { [(16 * Nibble(n)) as Byte] + LenTail(n) }

  ghost function HeaderSize(n: nat): nat { 1 + LenTailSize(n) }

  /** lz4_write_literal: token and extension bytes of a literal length. */
  method WriteLiteral(dst: array<Byte>, op0: nat, n: nat) returns (written: nat)
    requires op0 + 1 + LenTailSize(n) <= dst.Length
    modifies dst
    ensures written == 1 + LenTailSize(n)
    ensures dst[..op0 + written] == old(dst[..op0]) + Header(n) && SameFrom(old(dst[..]), dst[..], op0 + written)
  {
    if n >= 15 {
      Put(dst, op0, 240);
      var op := WriteExt(dst, op0 + 1, n - 15);
      written := op - op0;
    } else {
      Put(dst, op0, 16 * n);
      written := 1;
    }
  }

  // ---------- Decompression ----------

  /** The do-while loops that sum extension bytes; fails at the end of the input. */
  method ReadExtension(src: array<Byte>, n: nat, ip0: nat, len0: nat) returns (ok: bool, len: nat, ip: nat)
    requires ip0 <= n <= src.Length
    ensures ok <==> ReadExt(src[..n], ip0, len0).Some?
    ensures ok ==> ReadExt(src[..n], ip0, len0) == Some((len, ip))
  {
    len, ip := len0, ip0;
    while ip < n
      invariant ip0 <= ip <= n
      invariant ReadExt(src[..n], ip, len) == ReadExt(src[..n], ip0, len0)
    {
      var s := src[ip];
      ip, len := ip + 1, len + s;
      if s != 255 {
        return true, len, ip;
      }
    }
    ok := false;
  }

  /** memcpy inside the output, from `offset` bytes back; the two ranges do not overlap. */
  method CopyBack(dst: array<Byte>, op: nat, offset: nat, n: nat)
    requires 1 <= offset <= op && n <= offset && op + n <= dst.Length
    modifies dst
    ensures dst[..op + n] == CopyMatch(old(dst[..op]), offset, n)
  {
    hide CopyMatch;
    ghost var out := dst[..op];
    CopyNoOverlap(out, offset, n);
    forall i | 0 <= i < n { dst[op + i] := dst[op - offset + i]; }
    ghost var slice := out[op - offset..op - offset + n];
    assert forall i :: 0 <= i < n ==> dst[op + i] == slice[i];
    assert dst[..op + n] == out + slice;
  }

  /** Byte by byte, each byte possibly one this loop has written. */
  method CopyBytes(dst: array<Byte>, op: nat, offset: nat, n: nat)
    requires 1 <= offset <= op && op + n <= dst.Length
    modifies dst
    ensures dst[..op + n] == CopyMatch(old(dst[..op]), offset, n)
  {
    ghost var out := dst[..op];
    for k := 0 to n
      invariant dst[..op + k] == CopyMatch(out, offset, k)
    {
      CopyOne(out, offset, k);
      Put(dst, op + k, dst[op + k - offset]);
    }
  }

  /** The match copy: byte by byte until what remains fits in `offset` bytes, then memcpy. */
  method CopyOverlapping(dst: array<Byte>, op: nat, offset: nat, matchLen: nat)
    requires 1 <= offset <= op && MINMATCH <= matchLen && op + matchLen <= dst.Length
    modifies dst
    ensures dst[..op + matchLen] == CopyMatch(old(dst[..op]), offset, matchLen)
  {
    var bytewise := if offset < matchLen then matchLen - offset else 0;
    CopySplit(dst[..op], offset, bytewise, matchLen - bytewise);
    CopyBytes(dst, op, offset, bytewise);
    CopyBack(dst, op + bytewise, offset, matchLen - bytewise);
  }

  /** Token, literal length and literals at ip0. */
  method TakeLiterals(src: array<Byte>, n: nat, ip0: nat, dst: array<Byte>, op0: nat, cap: nat)
    returns (ok: bool, ip: nat, op: nat)
    requires src != dst && ip0 < n <= src.Length && op0 <= cap <= dst.Length
    modifies dst
    ensures ok <==> ReadLiterals(src[..n], ip0).Some? && op0 + |ReadLiterals(src[..n], ip0).value.0| <= cap
    ensures ok ==> op0 <= op <= cap && ReadLiterals(src[..n], ip0).value.1 == ip
    ensures ok ==> dst[..op] == old(dst[..op0]) + ReadLiterals(src[..n], ip0).value.0
  {
    ghost var s := src[..n];
    var literalLen: nat := src[ip0] / 16;
    ip, op := ip0 + 1, op0;
    if literalLen == 15 {
      ok, literalLen, ip := ReadExtension(src, n, ip, literalLen);
      if !ok { return; }
    }
    if ip + literalLen > n || op + literalLen > cap { return false, ip, op; }
    CopyIn(dst, op, src, ip, literalLen);
    SliceOfPrefix(src, n, ip, ip + literalLen);
    op, ip := op + literalLen, ip + literalLen;
    ok := true;
  }

  /** Offset and match length at ip0, and the copy. */
  method TakeMatch(src: array<Byte>, n: nat, ip0: nat, nibble: nat, dst: array<Byte>, op0: nat, cap: nat)
    returns (ok: bool, ip: nat, op: nat)
    requires src != dst && ip0 < n <= src.Length && op0 <= cap <= dst.Length && nibble < 16
    modifies dst
    ensures ok <==> && ReadMatch(src[..n], ip0, nibble).Some?
                    && var (offset, extra, _) := ReadMatch(src[..n], ip0, nibble).value;
                       offset != 0 && op0 + extra + MINMATCH <= cap && offset <= op0
    ensures ok ==> var (offset, extra, p) := ReadMatch(src[..n], ip0, nibble).value;
                   && p == ip && op0 <= op <= cap
                   && dst[..op] == CopyMatch(old(dst[..op0]), offset, extra + MINMATCH)
  {
    hide CopyMatch, ReadExt;
    ip, op := ip0, op0;
    if ip + 2 > n { return false, ip, op; }
    var offset: nat := src[ip] as nat + 256 * (src[ip + 1] as nat);
    ip := ip + 2;
    if offset == 0 { return false, ip, op; }
    var extra := nibble;
    if nibble == 15 {
      ok, extra, ip := ReadExtension(src, n, ip, nibble);
      if !ok { return; }
    }
    var matchLen := extra + MINMATCH;
    if op + matchLen > cap { return false, ip, op; }
    if offset > op { return false, ip, op; }
    CopyOverlapping(dst, op, offset, matchLen);
    op := op + matchLen;
    ok := true;
  }

  /** One turn of the loop of lz4_decompress. */
  method TakeToken(src: array<Byte>, n: nat, ip0: nat, dst: array<Byte>, op0: nat, cap: nat)
    returns (ghost g: Progress, ok: bool, ip: nat, op: nat)
    requires src != dst && ip0 < n <= src.Length && op0 <= cap <= dst.Length
    modifies dst
    ensures g == Step(src[..n], ip0, old(dst[..op0]), cap)
    ensures ok <==> !g.Fail?
    ensures ok ==> ip <= n && op <= cap && dst[..op] == g.out
    ensures g.Done? ==> ip == n
    ensures g.More? ==> ip == g.next
  {
    var token := src[ip0];
    assert token == src[..n][ip0];
    g := Step(src[..n], ip0, dst[..op0], cap);
    ok, ip, op := TakeLiterals(src, n, ip0, dst, op0, cap);
    if ok && ip < n {
      ok, ip, op := TakeMatch(src, n, ip, token % 16, dst, op, cap);
    }
  }

  /** lz4_decompress on the first n bytes of src into the first cap bytes of dst, on any input:
      -1 exactly when the bytes are not a block that fits, and the block's meaning otherwise. */
  method Decompress(src: array<Byte>, n: nat, dst: array<Byte>, cap: nat) returns (r: int)
    requires src != dst && n <= src.Length && cap <= dst.Length
    modifies dst
    ensures Decode(src[..n], cap) == None ==> r == -1
    ensures Decode(src[..n], cap).Some? ==> 0 <= r <= cap && Some(dst[..r]) == Decode(src[..n], cap)
  {
    ghost var s := src[..n];
    var ip, op := 0, 0;
    assert dst[..op] == [];
    while ip < n
      invariant 0 <= ip <= n && 0 <= op <= cap && src[..n] == s
      invariant DecodeFrom(s, ip, dst[..op], cap) == Decode(s, cap)
      decreases n - ip
    {
      ghost var g;
      var ok;
      g, ok, ip, op := TakeToken(src, n, ip, dst, op, cap);
      if !ok { return -1; }
    }
    return op;
  }

  // ---------- Compression ----------

  /** The two loops that extend a four-byte match, word by word and then byte by byte: the match
      found is the longest one. */
  method FindMatchEnd(src: array<Byte>, n: nat, ip: nat, offset: nat) returns (end: nat)
    requires n <= src.Length && 1 <= offset <= ip && ip + MFLIMIT < n
    requires Read32(src, ip - offset) == Read32(src, ip)
    ensures ip + MINMATCH <= end <= n
    ensures forall i :: ip <= i < end ==> src[i] == src[i - offset]
    ensures end < n ==> src[end] != src[end - offset]
  {
    hide Read32;
    Read32Injective(src, ip - offset, ip);
    end := ip + MINMATCH;
    while end < n - LASTLITERALS && Read32(src, end) == Read32(src, end - offset)
      invariant ip + MINMATCH <= end <= n
      invariant forall i :: ip <= i < end ==> src[i] == src[i - offset]
      decreases n - end
    {
      Read32Injective(src, end, end - offset);
      end := end + MINMATCH;
    }
    while end < n && src[end - offset] == src[end]
      invariant ip + MINMATCH <= end <= n
      invariant forall i :: ip <= i < end ==> src[i] == src[i - offset]
    {
      end := end + 1;
    }
  }

  /** The match length extension, which checks the capacity before every byte. */
  method WriteExtChecked(dst: array<Byte>, op0: nat, n: nat, cap: nat) returns (ok: bool, op: nat)
    requires op0 <= cap <= dst.Length
    modifies dst
    ensures ok <==> op0 + n / 255 + 1 <= cap
    ensures SameFrom(old(dst[..]), dst[..], cap)
    ensures ok ==> op == op0 + n / 255 + 1 && dst[..op] == old(dst[..op0]) + LenExt(n)
  {
    op := op0;
    var left := n;
    while left >= 255
      invariant op0 <= op <= cap && 0 <= left <= n && op + left / 255 == op0 + n / 255
      invariant SameFrom(old(dst[..]), dst[..], cap)
      invariant dst[..op] + LenExt(left) == old(dst[..op0]) + LenExt(n)
      decreases left
    {
      if op >= cap { return false, op; }
      Put(dst, op, 255);
      op, left := op + 1, left - 255;
      assert dst[..op] + LenExt(left) == dst[..op - 1] + ([255] + LenExt(left));
    }
    if op >= cap { return false, op; }
    Put(dst, op, left);
    ok, op := true, op + 1;
  }

  /** `*token_ptr |= nibble`, the low half being clear. */
  method PatchByte(dst: array<Byte>, at: nat, op: nat, ghost b: nat, ghost tail: seq<Byte>, nibble: nat)
    requires at < op <= dst.Length && b + nibble < 256
    requires dst[..op] == dst[..at] + ([b] + tail)
    modifies dst
    ensures dst[..op] == old(dst[..at]) + ([(b + nibble) as Byte] + tail) && SameFrom(old(dst[..]), dst[..], at + 1)
  {
    ghost var pre := dst[..at];
    assert dst[at] == dst[..op][at] == b;
    dst[at] := dst[at] + nibble;
    assert dst[..op] == pre + ([(b + nibble) as Byte] + tail);
  }

  ghost function LiteralPartSize(n: nat): nat { HeaderSize(n) + n }

  /** Token with the given match half, literal length, literals.  The header is written before the capacity
      is tested: it reaches past the capacity exactly when op0 + HeaderSize is above it; nothing else does. */
  method WriteLiteralPart(src: array<Byte>, anchor: nat, ip: nat, nibble: nat, dst: array<Byte>, op0: nat, cap: nat)
    returns (ok: bool, op: nat)
    requires src != dst && anchor <= ip <= src.Length && nibble < 16 && cap <= dst.Length
    requires op0 + HeaderSize(ip - anchor) <= dst.Length
    modifies dst
    ensures ok <==> op0 + LiteralPartSize(ip - anchor) <= cap
    ensures ok ==> op == op0 + LiteralPartSize(ip - anchor)
    ensures ok ==> dst[..op] == old(dst[..op0]) + LiteralPart(src[anchor..ip], nibble)
    ensures !ok ==> dst[..op0 + HeaderSize(ip - anchor)] == old(dst[..op0]) + Header(ip - anchor)
    ensures op0 + HeaderSize(ip - anchor) <= cap ==> SameFrom(old(dst[..]), dst[..], cap)
    ensures op0 + HeaderSize(ip - anchor) > cap ==> !ok && SameFrom(old(dst[..]), dst[..], op0 + HeaderSize(ip - anchor))
  {
    hide LenTail;
    var literalLen := ip - anchor;
    ghost var pre, lits := dst[..op0], src[anchor..ip];
    var written := WriteLiteral(dst, op0, literalLen);
    op := op0 + written;
    if op + literalLen > cap { return false, op; }
    CopyIn(dst, op, src, anchor, literalLen);
    op := op + literalLen;
    ghost var tail := LenTail(literalLen) + lits;
    assert dst[..op] == pre + ([(16 * Nibble(literalLen)) as Byte] + tail) by {
      Assoc(pre, [(16 * Nibble(literalLen)) as Byte] + LenTail(literalLen), lits);
      Assoc([(16 * Nibble(literalLen)) as Byte], LenTail(literalLen), lits);
    }
    PatchByte(dst, op0, op, 16 * Nibble(literalLen), tail, nibble);
    ok := true;
  }

  ghost function SequenceSize(lits: nat, matchLen: nat): nat
    requires matchLen >= MINMATCH
  {
    LiteralPartSize(lits) + 2 + LenTailSize(matchLen - MINMATCH)
  }

  /** Emit one sequence; gives up when the capacity is exceeded. */
  method WriteSequence(src: array<Byte>, anchor: nat, ip: nat, offset: nat, matchLen: nat, dst: array<Byte>, op0: nat, cap: nat)
    returns (ok: bool, op: nat)
    requires src != dst && anchor <= ip <= src.Length && cap <= dst.Length
    requires 1 <= offset <= MAX_OFFSET && matchLen >= MINMATCH
    requires op0 + HeaderSize(ip - anchor) <= dst.Length
    modifies dst
    ensures ok <==> op0 + SequenceSize(ip - anchor, matchLen) <= cap
    ensures ok ==> op == op0 + SequenceSize(ip - anchor, matchLen)
    ensures ok ==> dst[..op] == old(dst[..op0]) + EncodeSequence(Sequence(src[anchor..ip], offset, matchLen))
    ensures ok ==> var p := op0 + LiteralPartSize(ip - anchor);
                   p + 2 <= op && dst[p] as nat == offset % 256 && dst[p + 1] as nat == offset / 256
    ensures op0 + HeaderSize(ip - anchor) <= cap ==> SameFrom(old(dst[..]), dst[..], cap)
    ensures op0 + HeaderSize(ip - anchor) > cap ==>
              && !ok && SameFrom(old(dst[..]), dst[..], op0 + HeaderSize(ip - anchor))
              && dst[..op0 + HeaderSize(ip - anchor)] == old(dst[..op0]) + Header(ip - anchor)
  {
    hide LiteralPart;
    var ml := matchLen - MINMATCH;
    ghost var pre := dst[..op0];
    ghost var lp := LiteralPart(src[anchor..ip], Nibble(ml));
    ok, op := WriteLiteralPart(src, anchor, ip, if ml < 15 then ml else 15, dst, op0, cap);
    if !ok { return; }
    if op + 2 > cap { return false, op; }
    Put(dst, op, offset % 256);
    Put(dst, op + 1, offset / 256);
    op := op + 2;
    ghost var off: seq<Byte> := [offset % 256, offset / 256];
    assert dst[..op] == (pre + lp) + off;
    if ml >= 15 {
      ok, op := WriteExtChecked(dst, op, ml - 15, cap);
    }
    if ok {
      assert dst[..op] == ((pre + lp) + off) + LenTail(ml);
      Assoc(pre + lp, off, LenTail(ml));
      Assoc(pre, lp, off + LenTail(ml));
    }
  }

  /** Capacity the final run asks for: one byte more than it writes, unless it divides evenly. */
  function LastRunNeeds(n: nat): nat { if n >= 15 then 2 + (n - 15 + 254) / 255 + n else 1 + n }

  /** The final literal run, if any. */
  method WriteLastLiterals(src: array<Byte>, n: nat, anchor: nat, dst: array<Byte>, op0: nat, cap: nat)
    returns (ok: bool, op: nat)
    requires src != dst && anchor < n <= src.Length && op0 <= cap <= dst.Length
    modifies dst
    ensures ok <==> op0 + LastRunNeeds(n - anchor) <= cap
    ensures ok ==> op == op0 + LiteralPartSize(n - anchor) <= op0 + LastRunNeeds(n - anchor)
    ensures ok ==> dst[..op] == old(dst[..op0]) + LiteralPart(src[anchor..n], 0)
    ensures SameFrom(old(dst[..]), dst[..], cap)
  {
    var lastRun := n - anchor;
    if op0 + LastRunNeeds(lastRun) > cap { return false, op0; }
    hide LenTail;
    ghost var pre, token := dst[..op0], [(16 * Nibble(lastRun)) as Byte];
    var written := WriteLiteral(dst, op0, lastRun);
    op := op0 + written;
    CopyIn(dst, op, src, anchor, lastRun);
    op := op + lastRun;
    Assoc(pre, token + LenTail(lastRun), src[anchor..n]);
    Assoc(token, LenTail(lastRun), src[anchor..n]);
    ok := true;
  }

  /** A sequence writes at most 256/255 of the bytes it stands for, because a match saves at least
      the three bytes that announce it. */
  lemma SequenceSizeBound(lits: nat, matchLen: nat)
    requires matchLen >= MINMATCH
    ensures 255 * SequenceSize(lits, matchLen) <= 256 * (lits + matchLen)
  {
  }

  lemma LastRunBound(op: nat, anchor: nat, n: nat)
    requires anchor < n <= MAX_INPUT_SIZE && 255 * op <= 256 * anchor
    ensures op + LastRunNeeds(n - anchor) <= CompressBound(n)
  {
  }

  /** What has been written so far: `qs` encodes to out and means the input consumed. */
  ghost predicate Written(out: seq<Byte>, consumed: seq<Byte>, qs: seq<Sequence>) {
    && (forall i :: 0 <= i < |qs| ==> ValidSequence(qs[i]))
    && out == EncodeSequences(qs)
    && ExpandSequences([], qs) == Some(consumed)
  }

  lemma WrittenNothing(out: seq<Byte>, consumed: seq<Byte>)
    requires out == [] && consumed == []
    ensures Written(out, consumed, [])
  {
  }

  lemma WrittenSequence(out: seq<Byte>, s: seq<Byte>, anchor: nat, ip: nat, end: nat, offset: nat, qs: seq<Sequence>)
    requires anchor <= ip && ip + MINMATCH <= end <= |s| && 1 <= offset <= MAX_OFFSET && offset <= ip
    requires Written(out, s[..anchor], qs)
    requires forall i :: ip <= i < end ==> s[i] == s[i - offset]
    ensures var q := Sequence(s[anchor..ip], offset, end - ip);
            Written(out + EncodeSequence(q), s[..end], qs + [q])
  {
    hide EncodeSequence, EncodeSequences, ExpandSequences, CopyMatch;
    var q := Sequence(s[anchor..ip], offset, end - ip);
    EncodeAppend(qs, q);
    ExpandAppend([], qs, q);
    assert s[..anchor] + s[anchor..ip] == s[..ip];
    CopyOfMatch(s, ip, offset, end - ip);
  }

  /** A stream that ends in a match: nothing is left over. */
  lemma FinishedWithoutTail(out: seq<Byte>, s: seq<Byte>, qs: seq<Sequence>)
    requires Written(out, s, qs)
    ensures Represents(out, s, Block(qs, None))
  {
  }

  lemma FinishedWithTail(out: seq<Byte>, s: seq<Byte>, anchor: nat, qs: seq<Sequence>)
    requires anchor <= |s| && Written(out, s[..anchor], qs)
    ensures Represents(out + LiteralPart(s[anchor..], 0), s, Block(qs, Some(Tail(s[anchor..], 0))))
  {
    assert s[..anchor] + s[anchor..] == s;
  }

  /** Every table entry is a position the scan has passed (or 0, before any). */
  ghost predicate TableOk(table: array<nat>, ip: nat)
    reads table
  {
    table.Length == HASH_SIZE && forall h :: 0 <= h < HASH_SIZE ==> table[h] <= ip
  }

  /** Look ip up in the hash table and record it there; a usable match is 1..65535 bytes back and
      starts with the same word.  Zero stands for none. */
  method Probe(src: array<Byte>, n: nat, ip: nat, table: array<nat>) returns (offset: nat)
    requires n <= src.Length && ip + MFLIMIT < n && TableOk(table, ip)
    modifies table
    ensures TableOk(table, ip)
    ensures offset <= MAX_OFFSET && offset <= ip && Read32(src, ip - offset) == Read32(src, ip)
    ensures var h := Hash(Read32(src, ip)); var c := old(table[h]);
            && table[..] == old(table[..])[h := ip]
            && (offset > 0 <==> 1 <= ip - c <= MAX_OFFSET && Read32(src, c) == Read32(src, ip)) && (offset > 0 ==> offset == ip - c)
  {
    var h := Hash(Read32(src, ip));
    var candidate := table[h];
    offset := ip - candidate;
    table[h] := ip;
    if offset == 0 || offset > 65535 || Read32(src, candidate) != Read32(src, ip) {
      offset := 0;
    }
  }

  // ---------- The whole scan ----------

  /** How far bytes from i on equal those `offset` before them. */
  ghost function MatchEnd(s: seq<Byte>, i: nat, offset: nat): (e: nat)
    requires 1 <= offset <= i <= |s|
    ensures i <= e <= |s| && (forall k :: i <= k < e ==> s[k] == s[k - offset]) && (e < |s| ==> s[e] != s[e - offset])
    decreases |s| - i
  {
    if i < |s| && s[i] == s[i - offset] then MatchEnd(s, i + 1, offset) else i
  }

  lemma {:induction false} MatchEndIs(s: seq<Byte>, i: nat, offset: nat, e: nat)
    requires 1 <= offset <= i <= e <= |s| && (forall k :: i <= k < e ==> s[k] == s[k - offset])
    requires e < |s| ==> s[e] != s[e - offset]
    ensures MatchEnd(s, i, offset) == e
    decreases e - i
  {
    if i < e { MatchEndIs(s, i + 1, offset, e); }
  }

  /** The candidate is close enough and starts with the same word. */
  predicate Hit(s: seq<Byte>, c: nat, ip: nat)
    requires c <= ip && ip + 4 <= |s|
  {
    1 <= ip - c <= MAX_OFFSET && Word(s, c) == Word(s, ip)
  }

  lemma HitMatches(s: seq<Byte>, c: nat, ip: nat)
    requires c < ip && ip + 4 <= |s| && Word(s, c) == Word(s, ip)
    ensures MatchEnd(s, ip, ip - c) >= ip + MINMATCH
  {
    WordsEqual(s, c, ip);
    hide Word;
    var e, o := MatchEnd(s, ip, ip - c), ip - c;
    assert s[ip] == s[ip - o] && s[ip + 1] == s[ip + 1 - o] && s[ip + 2] == s[ip + 2 - o] && s[ip + 3] == s[ip + 3 - o];
  }

  lemma HitFacts(s: seq<Byte>, c: nat, ip: nat)
    requires c <= ip && ip + 4 <= |s| && Hit(s, c, ip)
    ensures c < ip && ip + MINMATCH <= MatchEnd(s, ip, ip - c) <= |s|
  {
    HitMatches(s, c, ip);
  }

  lemma WordsEqual(s: seq<Byte>, i: nat, j: nat)
    requires i + 4 <= |s| && j + 4 <= |s| && Word(s, i) == Word(s, j)
    ensures s[i] == s[j] && s[i + 1] == s[j + 1] && s[i + 2] == s[j + 2] && s[i + 3] == s[j + 3]
  {
    var p2, q2 := s[i + 2] as nat + 256 * (s[i + 3] as nat), s[j + 2] as nat + 256 * (s[j + 3] as nat);
    LowByte(s[i], s[i + 1] as nat + 256 * p2, s[j], s[j + 1] as nat + 256 * q2);
    LowByte(s[i + 1], p2, s[j + 1], q2);
    LowByte(s[i + 2], s[i + 3], s[j + 2], s[j + 3]);
  }

  /** How the scan for matches ends: at a sequence whose header, for `lits` literals at `op`, reaches past
      the capacity; at one that is refused with its header inside; or at the end of the input, with
      everything before `anchor` written in `op` bytes. */
  datatype Fate = Over(op: nat, lits: nat) | Refused | Scanned(anchor: nat, op: nat)

  ghost predicate Passed(table: seq<nat>, ip: nat) {
    |table| == HASH_SIZE && forall h :: 0 <= h < HASH_SIZE ==> table[h] <= ip
  }

  ghost function Scan(s: seq<Byte>, table: seq<nat>, ip: nat, anchor: nat, op: nat, cap: nat, step: nat): Fate
    requires step > 0 && Passed(table, ip) && anchor <= ip
    decreases |s| - ip
  {
    if ip + MFLIMIT >= |s| then Scanned(anchor, op)
    else
      var h := Hash(Word(s, ip));
      var c, table' := table[h], table[h := ip];
      if !Hit(s, c, ip) then Scan(s, table', ip + step, anchor, op, cap, step)
      else
        HitMatches(s, c, ip);
        var e := MatchEnd(s, ip, ip - c);
        if op + HeaderSize(ip - anchor) > cap then Over(op, ip - anchor)
        else if op + SequenceSize(ip - anchor, e - ip) > cap then Refused
        else Scan(s, table', e, e, op + SequenceSize(ip - anchor, e - ip), cap, step)
  }

  function Stride(acceleration: int): (n: nat)
    ensures n > 0
  {
    if acceleration > 1 then acceleration else 1
  }

  ghost function FateOf(s: seq<Byte>, cap: nat, acceleration: int): Fate {
    if |s| < MINMATCH then Scanned(0, 0) else Scan(s, seq(HASH_SIZE, _ => 0), 0, 0, 0, cap, Stride(acceleration))
  }

  /** What the call returns. */
  ghost function Returned(fate: Fate, n: nat, cap: nat): int {
    match fate
    case Over(_, _) => -1
    case Refused => -1
    case Scanned(anchor, op) =>
      if anchor >= n then op
      else if op + LastRunNeeds(n - anchor) > cap then -1
      else op + LiteralPartSize(n - anchor)
  }

  /** The index before which everything written lies: beyond the capacity exactly in one case. */
  ghost function Reach(fate: Fate, cap: nat): nat {
    if fate.Over? then fate.op + HeaderSize(fate.lits) else cap
  }

  lemma {:induction false} ScanOver(s: seq<Byte>, table: seq<nat>, ip: nat, anchor: nat, op: nat, cap: nat, step: nat)
    requires step > 0 && Passed(table, ip) && anchor <= ip && anchor <= |s| && op <= cap
    ensures var f := Scan(s, table, ip, anchor, op, cap, step);
            f.Over? ==> f.op <= cap < f.op + HeaderSize(f.lits) && f.lits <= |s|
    decreases |s| - ip
  {
    hide Word, MatchEnd, HeaderSize, SequenceSize, Hash, Scan, Hit;
    if ip + MFLIMIT >= |s| {
      ScanEnds(s, table, ip, anchor, op, cap, step);
    } else {
      var h := Hash(Word(s, ip));
      var c, table' := table[h], table[h := ip];
      if !Hit(s, c, ip) {
        ScanSkip(s, table, ip, anchor, op, cap, step);
        ScanOver(s, table', ip + step, anchor, op, cap, step);
      } else {
        HitFacts(s, c, ip);
        var e := MatchEnd(s, ip, ip - c);
        ScanMatch(s, table, ip, anchor, op, cap, step, e);
        if op + HeaderSize(ip - anchor) <= cap && op + SequenceSize(ip - anchor, e - ip) <= cap {
          ScanOver(s, table', e, e, op + SequenceSize(ip - anchor, e - ip), cap, step);
        }
      }
    }
  }

  /** With the capacity LZ4_COMPRESSBOUND asks for, the scan reaches the end of the input. */
  lemma {:induction false} ScanBound(s: seq<Byte>, table: seq<nat>, ip: nat, anchor: nat, op: nat, cap: nat, step: nat)
    requires step > 0 && Passed(table, ip) && anchor <= ip && anchor <= |s| <= MAX_INPUT_SIZE
    requires 255 * op <= 256 * anchor && CompressBound(|s|) <= cap
    ensures var f := Scan(s, table, ip, anchor, op, cap, step);
            f.Scanned? && f.anchor <= |s| && 255 * f.op <= 256 * f.anchor
    decreases |s| - ip
  {
    hide Word, MatchEnd, Hash, Scan, Hit;
    if ip + MFLIMIT >= |s| {
      ScanEnds(s, table, ip, anchor, op, cap, step);
    } else {
      var h := Hash(Word(s, ip));
      var c, table' := table[h], table[h := ip];
      if !Hit(s, c, ip) {
        ScanSkip(s, table, ip, anchor, op, cap, step);
        ScanBound(s, table', ip + step, anchor, op, cap, step);
      } else {
        HitFacts(s, c, ip);
        var e := MatchEnd(s, ip, ip - c);
        ScanMatch(s, table, ip, anchor, op, cap, step, e);
        SequenceSizeBound(ip - anchor, e - ip);
        hide SequenceSize;
        ScanBound(s, table', e, e, op + SequenceSize(ip - anchor, e - ip), cap, step);
      }
    }
  }

  /** When nothing is written past the capacity: with LZ4_COMPRESSBOUND, and whenever the call succeeds;
      otherwise at most one literal header is. */
  lemma FateFacts(s: seq<Byte>, cap: nat, acceleration: int)
    requires |s| <= MAX_INPUT_SIZE
    ensures var f := FateOf(s, cap, acceleration);
            && (f.Over? ==> f.op <= cap < f.op + HeaderSize(f.lits)) && Reach(f, cap) <= cap + HeaderSize(|s|)
            && (Reach(f, cap) > cap <==> f.Over?) && (f.Over? ==> Returned(f, |s|, cap) == -1)
            && (CompressBound(|s|) <= cap ==> !f.Over? && 0 <= Returned(f, |s|, cap) <= CompressBound(|s|))
  {
    hide Scan, CompressBound;
    if |s| >= MINMATCH {
      ScanOver(s, seq(HASH_SIZE, _ => 0), 0, 0, 0, cap, Stride(acceleration));
      if CompressBound(|s|) <= cap {
        ScanBound(s, seq(HASH_SIZE, _ => 0), 0, 0, 0, cap, Stride(acceleration));
      }
    }
    var f := FateOf(s, cap, acceleration);
    if CompressBound(|s|) <= cap { ReturnedBound(f, |s|, cap); }
  }

  lemma ReturnedBound(f: Fate, n: nat, cap: nat)
    requires f.Scanned? && f.anchor <= n <= MAX_INPUT_SIZE && 255 * f.op <= 256 * f.anchor && CompressBound(n) <= cap
    ensures 0 <= Returned(f, n, cap) <= CompressBound(n)
  {
    if f.anchor < n { LastRunBound(f.op, f.anchor, n); }
  }

  lemma ScanSkip(s: seq<Byte>, table: seq<nat>, ip: nat, anchor: nat, op: nat, cap: nat, step: nat)
    requires step > 0 && Passed(table, ip) && anchor <= ip && ip + MFLIMIT < |s|
    requires !Hit(s, table[Hash(Word(s, ip))], ip)
    ensures Scan(s, table, ip, anchor, op, cap, step)
         == Scan(s, table[Hash(Word(s, ip)) := ip], ip + step, anchor, op, cap, step)
  {
  }

  /** A sequence that is written, refused, or reaches past the capacity. */
  lemma ScanMatch(s: seq<Byte>, table: seq<nat>, ip: nat, anchor: nat, op: nat, cap: nat, step: nat, e: nat)
    requires step > 0 && Passed(table, ip) && anchor <= ip && ip + MFLIMIT < |s|
    requires var c := table[Hash(Word(s, ip))]; Hit(s, c, ip) && e == MatchEnd(s, ip, ip - c) && e >= ip + MINMATCH
    ensures var f, lits := Scan(s, table, ip, anchor, op, cap, step), ip - anchor;
            && (op + HeaderSize(lits) > cap ==> f == Over(op, lits))
            && (op + HeaderSize(lits) <= cap < op + SequenceSize(lits, e - ip) ==> f == Refused)
            && (op + SequenceSize(lits, e - ip) <= cap ==>
                  f == Scan(s, table[Hash(Word(s, ip)) := ip], e, e, op + SequenceSize(lits, e - ip), cap, step))
  {
    hide Word, MatchEnd, Hash;
    assert HeaderSize(ip - anchor) <= SequenceSize(ip - anchor, e - ip);
  }

  lemma ScanEnds(s: seq<Byte>, table: seq<nat>, ip: nat, anchor: nat, op: nat, cap: nat, step: nat)
    requires step > 0 && Passed(table, ip) && anchor <= ip && ip + MFLIMIT >= |s|
    ensures Scan(s, table, ip, anchor, op, cap, step) == Scanned(anchor, op)
  {
  }

  /** Probe looks at the input as Scan does. */
  lemma ProbeIs(src: array<Byte>, n: nat, s: seq<Byte>, table: seq<nat>, ip: nat, offset: nat)
    requires n <= src.Length && s == src[..n] && ip + MFLIMIT < n && Passed(table, ip)
    requires var c := table[Hash(Read32(src, ip))];
             && (offset > 0 <==> 1 <= ip - c <= MAX_OFFSET && Read32(src, c) == Read32(src, ip)) && (offset > 0 ==> offset == ip - c)
    ensures Hash(Read32(src, ip)) == Hash(Word(s, ip))
    ensures var c := table[Hash(Word(s, ip))];
            (offset > 0 <==> Hit(s, c, ip)) && (offset > 0 ==> offset == ip - c)
  {
    hide Hash;
    var c := table[Hash(Read32(src, ip))];
    assert Read32(src, ip) == Word(s, ip) && Read32(src, c) == Word(s, c);
  }

  lemma HeaderAt(d: seq<Byte>, pre: seq<Byte>, lits: nat)
    requires |pre| + HeaderSize(lits) <= |d| && d[..|pre| + HeaderSize(lits)] == pre + Header(lits)
    ensures d[|pre|..|pre| + HeaderSize(lits)] == Header(lits)
  {
    var k := |pre| + HeaderSize(lits);
    assert d[|pre|..k] == d[..k][|pre|..];
  }

  lemma SameRefl(a: seq<Byte>, k: nat)
    ensures SameFrom(a, a, k)
  {
  }

  lemma SameFromLater(a: seq<Byte>, b: seq<Byte>, j: nat, k: nat)
    requires SameFrom(a, b, j) && j <= k
    ensures SameFrom(a, b, k)
  {
  }

  lemma SameFromTrans(a: seq<Byte>, b: seq<Byte>, c: seq<Byte>, j: nat, k: nat)
    requires SameFrom(a, b, j) && SameFrom(b, c, k) && j <= k
    ensures SameFrom(a, c, k)
  {
  }

  /** What the failed call has written past the capacity. */
  ghost predicate HeaderWritten(d: seq<Byte>, fate: Fate, cap: nat) {
    fate.Over? ==> && fate.op <= cap < fate.op + HeaderSize(fate.lits) <= |d|
                   && d[fate.op..fate.op + HeaderSize(fate.lits)] == Header(fate.lits)
  }

  /** The part of lz4_compress_generic that extends a match and writes its sequence. */
  method EmitMatch(src: array<Byte>, n: nat, anchor: nat, ip: nat, offset: nat, dst: array<Byte>, op0: nat, cap: nat,
                   ghost s: seq<Byte>, ghost table: seq<nat>, ghost step: nat, ghost fate: Fate, ghost dst0: seq<Byte>,
                   ghost qs: seq<Sequence>)
    returns (ok: bool, end: nat, op: nat, ghost qs': seq<Sequence>)
    requires src != dst && n <= src.Length && s == src[..n] && anchor <= ip && ip + MFLIMIT < n && op0 <= cap <= dst.Length
    requires step > 0 && Passed(table, ip) && Scan(s, table, ip, anchor, op0, cap, step) == fate && Reach(fate, cap) <= dst.Length
    requires var c := table[Hash(Word(s, ip))]; Hit(s, c, ip) && offset == ip - c && Read32(src, c) == Read32(src, ip)
    requires Written(dst[..op0], s[..anchor], qs) && SameFrom(dst0, dst[..], cap)
    modifies dst
    ensures ip < end <= n
    ensures ok ==> op <= cap && Written(dst[..op], s[..end], qs') && SameFrom(dst0, dst[..], cap)
    ensures ok ==> Scan(s, table[Hash(Word(s, ip)) := ip], end, end, op, cap, step) == fate
    ensures !ok ==> (fate.Over? || fate.Refused?) && HeaderWritten(dst[..], fate, cap) && SameFrom(dst0, dst[..], Reach(fate, cap))
  {
    hide Written, EncodeSequence, LiteralPart, SequenceSize, Read32, HeaderSize, Header, Scan, MatchEnd, Word, Hash, SameFrom,
         LiteralPartSize, Hit, Reach, HeaderWritten;
    HitOffset(s, table[Hash(Word(s, ip))], ip);
    ReachIs(fate, cap);
    end := FindMatchEnd(src, n, ip, offset);
    MatchEndIs(s, ip, offset, end);
    ScanMatch(s, table, ip, anchor, op0, cap, step, end);
    SequenceHoldsHeader(ip - anchor, end - ip);
    ghost var q, dst1 := Sequence(s[anchor..ip], offset, end - ip), dst[..];
    WrittenSequence(dst[..op0], s, anchor, ip, end, offset, qs);
    ok, op := WriteSequence(src, anchor, ip, offset, end - ip, dst, op0, cap);
    SliceOfPrefix(src, n, anchor, ip);
    qs' := qs + [q];
    if ok {
      SameFromTrans(dst0, dst1, dst[..], cap, cap);
    } else {
      EmitFails(fate, dst0, dst1, dst[..], op0, ip - anchor, cap);
    }
  }

  /** A sequence that was not written: its header is there, inside the capacity or across its end. */
  lemma EmitFails(fate: Fate, dst0: seq<Byte>, dst1: seq<Byte>, d: seq<Byte>, op: nat, lits: nat, cap: nat)
    requires SameFrom(dst0, dst1, cap) && op <= cap && op <= |dst1|
    requires fate == if op + HeaderSize(lits) > cap then Over(op, lits) else Refused
    requires op + HeaderSize(lits) <= cap ==> SameFrom(dst1, d, cap)
    requires op + HeaderSize(lits) > cap ==> && SameFrom(dst1, d, op + HeaderSize(lits)) && op + HeaderSize(lits) <= |d|
                                             && d[..op + HeaderSize(lits)] == dst1[..op] + Header(lits)
    ensures HeaderWritten(d, fate, cap) && SameFrom(dst0, d, Reach(fate, cap))
  {
    hide HeaderSize, Header, SameFrom;
    SameFromTrans(dst0, dst1, d, cap, Reach(fate, cap));
    if fate.Over? { HeaderAt(d, dst1[..op], lits); }
  }

  lemma ReachIs(fate: Fate, cap: nat)
    ensures fate.Over? ==> Reach(fate, cap) == fate.op + HeaderSize(fate.lits)
  {
  }

  lemma NoHeader(fate: Fate, cap: nat)
    requires !fate.Over?
    ensures forall d :: HeaderWritten(d, fate, cap)
  {
  }

  lemma HitOffset(s: seq<Byte>, c: nat, ip: nat)
    requires c <= ip && ip + 4 <= |s| && Hit(s, c, ip)
    ensures 1 <= ip - c <= MAX_OFFSET
  {
  }

  lemma SequenceHoldsHeader(lits: nat, matchLen: nat)
    requires matchLen >= MINMATCH
    ensures HeaderSize(lits) <= SequenceSize(lits, matchLen)
  {
  }

  /** lz4_compress_generic.  The literal header of a sequence is written before the capacity is tested, so
      the memory behind the buffer must reach as far as that.  What is returned, and what is written past
      the capacity, is exactly what the scan says: one header in one case, else nothing. */
  method CompressGeneric(src: array<Byte>, n: nat, dst: array<Byte>, cap: nat, acceleration: int)
    returns (r: int, ghost b: Block)
    requires src != dst && n <= src.Length && n <= MAX_INPUT_SIZE
    requires cap <= dst.Length && Reach(FateOf(src[..n], cap, acceleration), cap) <= dst.Length
    modifies dst
    ensures r == -1 || (0 <= r <= cap && Represents(dst[..r], src[..n], b))
    ensures CompressBound(n) <= cap ==> 0 <= r <= CompressBound(n)
    ensures r == Returned(FateOf(src[..n], cap, acceleration), n, cap)
    ensures SameFrom(old(dst[..]), dst[..], Reach(FateOf(src[..n], cap, acceleration), cap))
    ensures HeaderWritten(dst[..], FateOf(src[..n], cap, acceleration), cap)
  {
    hide Written, Represents, LiteralPart, LastRunNeeds, Read32, HeaderSize, Header, Scan, Word, Hash, SameFrom, LiteralPartSize,
         CompressBound, HeaderWritten, Hit;
    ghost var s, qs := src[..n], [];
    ghost var fate, dst0 := FateOf(s, cap, acceleration), dst[..];
    FateFacts(s, cap, acceleration);
    SameRefl(dst0, cap);
    var ip, anchor, op: nat := 0, 0, 0;
    b := Block([], None);
    var table := new nat[HASH_SIZE](_ => 0);
    assert table[..] == seq(HASH_SIZE, _ => 0);
    WrittenNothing(dst[..op], s[..anchor]);
    if n >= MINMATCH {
      while ip < n - MFLIMIT
        invariant 0 <= anchor <= n && anchor <= ip && op <= dst.Length && src[..n] == s
        invariant op <= cap
        invariant Written(dst[..op], s[..anchor], qs) && SameFrom(dst0, dst[..], cap)
        invariant TableOk(table, ip) && fresh(table)
        invariant Passed(table[..], ip) && Scan(s, table[..], ip, anchor, op, cap, Stride(acceleration)) == fate
        decreases n - ip
      {
        ghost var was := table[..];
        var offset := Probe(src, n, ip, table);
        ProbeIs(src, n, s, was, ip, offset);
        if offset == 0 {
          ScanSkip(s, was, ip, anchor, op, cap, Stride(acceleration));
          ip := ip + (if acceleration > 1 then acceleration else 1);
          continue;
        }
        var ok, end;
        ok, end, op, qs := EmitMatch(src, n, anchor, ip, offset, dst, op, cap, s, was, Stride(acceleration), fate, dst0, qs);
        if !ok { return -1, b; }
        anchor, ip := end, end;
      }
      ScanEnds(s, table[..], ip, anchor, op, cap, Stride(acceleration));
    }
    assert fate == Scanned(anchor, op);
    NoHeader(fate, cap);
    if anchor < n {
      FinishedWithTail(dst[..op], s, anchor, qs);
      b := Block(qs, Some(Tail(s[anchor..], 0)));
      ghost var dst1 := dst[..];
      var ok;
      ok, op := WriteLastLiterals(src, n, anchor, dst, op, cap);
      SameFromTrans(dst0, dst1, dst[..], cap, cap);
      if !ok { return -1, b; }
      assert src[anchor..n] == s[anchor..];
    } else {
      assert s[..anchor] == s;
      FinishedWithoutTail(dst[..op], s, qs);
      b := Block(qs, None);
    }
    r := op;
  }

  /** lz4_compress_fast: with the capacity LZ4_COMPRESSBOUND asks for it never fails, and what it
      writes is decoded back to the input in any buffer that can hold it. */
  method CompressFast(src: array<Byte>, n: int, dst: array<Byte>, cap: int, acceleration: int) returns (r: int)
    requires src != dst && n <= src.Length && n <= MAX_INPUT_SIZE
    requires cap <= dst.Length && (n > 0 && cap > 0 ==> Reach(FateOf(src[..n], cap, acceleration), cap) <= dst.Length)
    modifies dst
    ensures n < 0 ==> r == -1
    ensures n >= 0 ==> r == -1 || (0 <= r <= dst.Length && forall m: nat :: n <= m ==> Decode(dst[..r], m) == Some(src[..n]))
    ensures n > 0 && r != -1 ==> r <= cap
    ensures n <= 0 || cap <= 0 ==> dst[..] == old(dst[..])
    ensures n > 0 && cap > 0 ==> SameFrom(old(dst[..]), dst[..], Reach(FateOf(src[..n], cap, acceleration), cap))
    ensures n > 0 && cap > 0 && (CompressBound(n) <= cap || r != -1) ==> SameFrom(old(dst[..]), dst[..], cap)
    ensures n > 0 && cap > 0 ==> SameFrom(old(dst[..]), dst[..], cap + HeaderSize(n))
    ensures n == 0 || (n > 0 && CompressBound(n) <= cap) ==> 0 <= r <= CompressBound(n)
  {
    if n < 0 { return -1; }
    if n == 0 { return 0; }
    if cap < 1 { return -1; }
    hide SameFrom, FateOf, Represents, HeaderSize, Scan;
    FateFacts(src[..n], cap, acceleration);
    ghost var dst0 := dst[..];
    ghost var b;
    r, b := CompressGeneric(src, n, dst, cap, acceleration);
    SameFromLater(dst0, dst[..], Reach(FateOf(src[..n], cap, acceleration), cap), cap + HeaderSize(n));
    if r != -1 {
      forall m: nat | n <= m ensures Decode(dst[..r], m) == Some(src[..n]) {
        DecodeIsTheFormat(dst[..r], m, src[..n]);
      }
    }
  }

  /** Compress, then decompress: the input comes back. */
  method RoundTrip(src: array<Byte>, n: nat, packed: array<Byte>, out: array<Byte>, cap: nat, acceleration: int) returns (r: int)
    requires src != packed && packed != out && src != out && n <= src.Length && n <= MAX_INPUT_SIZE
    requires CompressBound(n) <= packed.Length && n <= cap <= out.Length
    modifies packed, out
    ensures r == n && out[..n] == src[..n]
  {
    FateFacts(src[..n], packed.Length, acceleration);
    var k := CompressFast(src, n, packed, packed.Length, acceleration);
    r := Decompress(packed, k, out, cap);
  }

  // ---------- Past the capacity ----------

  /** Room for one literal header behind the capacity is always enough. */
  lemma RoomEnough(s: seq<Byte>, cap: nat, acceleration: int, length: nat)
    requires |s| <= MAX_INPUT_SIZE && cap + HeaderSize(|s|) <= length
    ensures Reach(FateOf(s, cap, acceleration), cap) <= length
  {
    hide FateOf, HeaderSize;
    FateFacts(s, cap, acceleration);
  }

  /** 29 zeros, scanned in steps of 16, find their first match after 16 literals. */
  lemma ZerosFate()
    ensures FateOf(Zeros(29), 1, 16) == Over(0, 16) && Header(16) == [240, 1]
  {
    hide Word, Hash, Scan, MatchEnd, LenTail, SequenceSize, Hit, HeaderSize, Header;
    var s, table := Zeros(29), seq(HASH_SIZE, _ => 0);
    ZeroFacts(s);
    ScanSkip(s, table, 0, 0, 0, 1, 16);
    var table' := table[0 := 0];
    assert table'[0] == 0;
    HitFacts(s, 0, 16);
    ScanMatch(s, table', 16, 0, 0, 1, 16, MatchEnd(s, 16, 16));
  }

  lemma ZeroFacts(s: seq<Byte>)
    requires s == Zeros(29)
    ensures Word(s, 0) == 0 && Word(s, 16) == 0 && Hash(0) == 0 && !Hit(s, 0, 0) && Hit(s, 0, 16)
    ensures HeaderSize(16) == 2 && Header(16) == [240, 1]
  {
    assert LenTail(16) == [1];
  }

  /** With a capacity of 1 the call fails, and has written its second byte past the capacity. */
  method WritesPastCapacity() returns (dst: array<Byte>, r: int)
    ensures fresh(dst) && dst.Length == 3 && r == -1 && dst[0] == 240 && dst[1] == 1 && dst[2] == 0
  {
    var src := new Byte[29](_ => 0);
    dst := new Byte[3](_ => 0);
    assert src[..29] == Zeros(29);
    ZerosFate();
    hide FateOf, Represents;
    assert HeaderSize(16) == 2;
    ghost var b;
    r, b := CompressGeneric(src, 29, dst, 1, 16);
    assert dst[0..2] == [240, 1];
    assert dst[0] == dst[0..2][0] && dst[1] == dst[0..2][1];
  }
}
