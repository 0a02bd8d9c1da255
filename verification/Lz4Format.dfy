/** The LZ4 block format, independently of how src/misc/lz4.c produces or consumes it.

    A block is a list of sequences (literals followed by a match) and, possibly, a final run of
    literals.  `Encode` is its byte representation and `Expand` its meaning; a match is given the
    byte-by-byte meaning under which a match may overlap the bytes it is producing.
 */
module Lz4Format {
  import opened Bytes
  import opened Lists

  const MINMATCH: nat := 4
  const MAX_OFFSET: nat := 65535

  datatype Option<+T> = None | Some(value: T)

  /** Literals, then a match of `matchLen` bytes found `offset` bytes back. */
  datatype Sequence = Sequence(literals: seq<Byte>, offset: nat, matchLen: nat)

  /** The trailing literal run; `nibble` is the match half of its token, which nothing reads. */
  datatype Tail = Tail(literals: seq<Byte>, nibble: nat)

  datatype Block = Block(sequences: seq<Sequence>, tail: Option<Tail>)

  ghost predicate ValidSequence(q: Sequence) {
    1 <= q.offset <= MAX_OFFSET && q.matchLen >= MINMATCH
  }

  ghost predicate ValidBlock(b: Block) {
    && (forall i :: 0 <= i < |b.sequences| ==> ValidSequence(b.sequences[i]))
    && (b.tail.Some? ==> b.tail.value.nibble < 16)
  }

  // ---------- Bytes ----------

  /** Extension bytes for a length whose nibble is saturated: n is what is left beyond 15. */
  ghost function LenExt(n: nat): (r: seq<Byte>) {
    if n >= 255 then [255] + LenExt(n - 255) else [n]
  }

  ghost function Nibble(n: nat): nat { if n < 15 then n else 15 }

  ghost function LenTail(n: nat): seq<Byte> { if n < 15 then [] else LenExt(n - 15) }

  /** Token, literal length and literals; the match half of the token is given. */
  ghost function LiteralPart(literals: seq<Byte>, nibble: nat): seq<Byte>
    requires nibble < 16
  {
    [16 * Nibble(|literals|) + nibble] + (LenTail(|literals|) + literals)
  }

  /** Offset, low byte first, and what the token could not hold of the match length. */
  ghost function MatchPart(offset: nat, extra: nat): seq<Byte>
    requires offset <= MAX_OFFSET
  {
    [offset % 256, offset / 256] + LenTail(extra)
  }

  ghost function EncodeSequence(q: Sequence): seq<Byte>
    requires ValidSequence(q)
  {
    LiteralPart(q.literals, Nibble(q.matchLen - MINMATCH)) + MatchPart(q.offset, q.matchLen - MINMATCH)
  }

  ghost function EncodeSequences(qs: seq<Sequence>): seq<Byte>
    requires forall i :: 0 <= i < |qs| ==> ValidSequence(qs[i])
  {
    if qs == [] then [] else EncodeSequence(qs[0]) + EncodeSequences(qs[1..])
  }

  ghost function Encode(b: Block): seq<Byte>
    requires ValidBlock(b)
  {
    EncodeSequences(b.sequences) + (if b.tail.Some? then LiteralPart(b.tail.value.literals, b.tail.value.nibble) else [])
  }

  // ---------- Meaning ----------

  /** Append n bytes, each a copy of the byte `offset` places before the current end. */
  ghost function CopyMatch(out: seq<Byte>, offset: nat, n: nat): (r: seq<Byte>)
    requires 1 <= offset <= |out|
    ensures |r| == |out| + n
    decreases n
  {
    if n == 0 then out else CopyMatch(out + [out[|out| - offset]], offset, n - 1)
  }

  /** What the sequences append to `out`; None when a match reaches before the start. */
  ghost function ExpandSequences(out: seq<Byte>, qs: seq<Sequence>): Option<seq<Byte>>
    requires forall i :: 0 <= i < |qs| ==> ValidSequence(qs[i])
    decreases |qs|
  {
    if qs == [] then Some(out)
    else
      var lit := out + qs[0].literals;
      if qs[0].offset > |lit| then None
      else
        assert ValidSequence(qs[0]);
        ExpandSequences(CopyMatch(lit, qs[0].offset, qs[0].matchLen), qs[1..])
  }

  ghost function Expand(b: Block): Option<seq<Byte>>
    requires ValidBlock(b)
  {
    match ExpandSequences([], b.sequences)
    case None => None
    case Some(out) => Some(if b.tail.Some? then out + b.tail.value.literals else out)
  }

  // ---------- The reader, as a function ----------

  /** Sum the extension bytes from `pos`; the length and the position after them. */
  ghost function ReadExt(s: seq<Byte>, pos: nat, acc: nat): (r: Option<(nat, nat)>)
    requires pos <= |s|
    ensures r.Some? ==> pos < r.value.1 <= |s|
    decreases |s| - pos
  {
    if pos == |s| then None
    else if s[pos] == 255 then ReadExt(s, pos + 1, acc + 255)
    else Some((acc + s[pos], pos + 1))
  }

  /** A length whose nibble has been read already. */
  ghost function ReadLen(s: seq<Byte>, pos: nat, nibble: nat): (r: Option<(nat, nat)>)
    requires pos <= |s|
    ensures r.Some? ==> pos <= r.value.1 <= |s|
  {
    if nibble == 15 then ReadExt(s, pos, 15) else Some((nibble, pos))
  }

  /** The literals of the token at `pos` and the position after them. */
  ghost function ReadLiterals(s: seq<Byte>, pos: nat): (r: Option<(seq<Byte>, nat)>)
    requires pos < |s|
    ensures r.Some? ==> pos < r.value.1 <= |s|
  {
    match ReadLen(s, pos + 1, s[pos] / 16)
    case None => None
    case Some((n, p)) => if p + n > |s| then None else Some((s[p..p + n], p + n))
  }

  /** Offset, match length beyond the minimum, and the position after them. */
  ghost function ReadMatch(s: seq<Byte>, pos: nat, nibble: nat): (r: Option<(nat, nat, nat)>)
    requires pos <= |s|
    ensures r.Some? ==> pos < r.value.2 <= |s| && r.value.0 <= MAX_OFFSET
  {
    if pos + 2 > |s| then None
    else
      match ReadLen(s, pos + 2, nibble)
      case None => None
      case Some((extra, p)) => Some((s[pos] as int + 256 * s[pos + 1] as int, extra, p))
  }

  datatype Progress = Fail | Done(out: seq<Byte>) | More(next: nat, out: seq<Byte>)

  /** One token of s at `pos`, appended to `out` in a buffer of `cap` bytes. */
  ghost function Step(s: seq<Byte>, pos: nat, out: seq<Byte>, cap: nat): (r: Progress)
    requires pos < |s| && |out| <= cap
    ensures r.Done? ==> |r.out| <= cap
    ensures r.More? ==> pos < r.next <= |s| && |r.out| <= cap
  {
    match ReadLiterals(s, pos)
    case None => Fail
    case Some((literals, p2)) =>
      var lit := out + literals;
      if |lit| > cap then Fail
      else if p2 == |s| then Done(lit)
      else
        match ReadMatch(s, p2, s[pos] % 16)
        case None => Fail
        case Some((offset, extra, p3)) =>
          if offset == 0 || |lit| + extra + MINMATCH > cap || offset > |lit| then Fail
          else More(p3, CopyMatch(lit, offset, extra + MINMATCH))
  }

  /** Decode s from `pos`, `out` being what earlier bytes produced, in a buffer of `cap` bytes. */
  ghost function DecodeFrom(s: seq<Byte>, pos: nat, out: seq<Byte>, cap: nat): (r: Option<seq<Byte>>)
    requires pos <= |s| && |out| <= cap
    ensures r.Some? ==> |r.value| <= cap
    decreases |s| - pos
  {
    if pos == |s| then Some(out)
    else
      match Step(s, pos, out, cap)
      case Fail => None
      case Done(o) => Some(o)
      case More(p, o) => DecodeFrom(s, p, o, cap)
  }

  ghost function Decode(s: seq<Byte>, cap: nat): (r: Option<seq<Byte>>) {
    DecodeFrom(s, 0, [], cap)
  }

  // ---------- Reading undoes writing ----------

  /** s has `part` at position pos. */
  ghost predicate At(s: seq<Byte>, pos: nat, part: seq<Byte>) {
    pos + |part| <= |s| && s[pos..pos + |part|] == part
  }

  lemma AtSplit(s: seq<Byte>, pos: nat, a: seq<Byte>, b: seq<Byte>)
    requires At(s, pos, a + b)
    ensures At(s, pos, a) && At(s, pos + |a|, b)
  {
    assert a == (a + b)[..|a|] == s[pos..pos + |a|];
    assert b == (a + b)[|a|..] == s[pos + |a|..pos + |a| + |b|];
  }

  lemma AtJoin(s: seq<Byte>, pos: nat, a: seq<Byte>, b: seq<Byte>)
    requires At(s, pos, a) && At(s, pos + |a|, b)
    ensures At(s, pos, a + b)
  {
  }

  lemma {:induction false} ReadExtOfLenExt(s: seq<Byte>, pos: nat, n: nat, acc: nat)
    requires At(s, pos, LenExt(n))
    ensures ReadExt(s, pos, acc) == Some((acc + n, pos + |LenExt(n)|))
    decreases n
  {
    if n >= 255 {
      AtSplit(s, pos, [255], LenExt(n - 255));
      assert s[pos] == s[pos..pos + 1][0];
      ReadExtOfLenExt(s, pos + 1, n - 255, acc + 255);
    } else {
      assert s[pos] == s[pos..pos + 1][0];
    }
  }

  lemma {:induction false} LenExtOfReadExt(s: seq<Byte>, pos: nat, acc: nat) returns (n: nat)
    requires pos <= |s| && ReadExt(s, pos, acc).Some?
    ensures ReadExt(s, pos, acc) == Some((acc + n, pos + |LenExt(n)|))
    ensures At(s, pos, LenExt(n))
    decreases |s| - pos
  {
    if s[pos] == 255 {
      var m := LenExtOfReadExt(s, pos + 1, acc + 255);
      n := m + 255;
      assert LenExt(n) == [255] + LenExt(m);
      assert s[pos..pos + 1] == [255];
      AtJoin(s, pos, [255], LenExt(m));
    } else {
      n := s[pos];
      assert s[pos..pos + 1] == [n];
    }
  }

  lemma ReadLenOfLenTail(s: seq<Byte>, pos: nat, n: nat)
    requires At(s, pos, LenTail(n))
    ensures ReadLen(s, pos, Nibble(n)) == Some((n, pos + |LenTail(n)|))
  {
    if n >= 15 { ReadExtOfLenExt(s, pos, n - 15, 15); }
  }

  lemma LenTailOfReadLen(s: seq<Byte>, pos: nat, nibble: nat)
    requires pos <= |s| && nibble < 16 && ReadLen(s, pos, nibble).Some?
    ensures var (n, p) := ReadLen(s, pos, nibble).value;
            nibble == Nibble(n) && At(s, pos, LenTail(n)) && p == pos + |LenTail(n)|
  {
    if nibble == 15 {
      var m := LenExtOfReadExt(s, pos, 15);
    }
  }

  lemma ReadLiteralPart(s: seq<Byte>, pos: nat, literals: seq<Byte>, nibble: nat)
    requires nibble < 16 && At(s, pos, LiteralPart(literals, nibble))
    ensures ReadLiterals(s, pos) == Some((literals, pos + |LiteralPart(literals, nibble)|))
    ensures s[pos] % 16 == nibble
  {
    var n := |literals|;
    AtSplit(s, pos, [16 * Nibble(n) + nibble], LenTail(n) + literals);
    AtSplit(s, pos + 1, LenTail(n), literals);
    assert s[pos] == s[pos..pos + 1][0];
    ReadLenOfLenTail(s, pos + 1, n);
  }

  lemma LiteralPartOfRead(s: seq<Byte>, pos: nat)
    requires pos < |s| && ReadLiterals(s, pos).Some?
    ensures var (literals, p) := ReadLiterals(s, pos).value;
            At(s, pos, LiteralPart(literals, s[pos] % 16)) && p == pos + |LiteralPart(literals, s[pos] % 16)|
  {
    hide LenTail, ReadLen;
    LenTailOfReadLen(s, pos + 1, s[pos] / 16);
    var (n, p) := ReadLen(s, pos + 1, s[pos] / 16).value;
    AtJoin(s, pos + 1, LenTail(n), s[p..p + n]);
    assert s[pos..pos + 1] == [16 * Nibble(n) + s[pos] % 16];
    AtJoin(s, pos, [16 * Nibble(n) + s[pos] % 16], LenTail(n) + s[p..p + n]);
  }

  lemma ReadMatchPart(s: seq<Byte>, pos: nat, offset: nat, extra: nat)
    requires offset <= MAX_OFFSET && At(s, pos, MatchPart(offset, extra))
    ensures ReadMatch(s, pos, Nibble(extra)) == Some((offset, extra, pos + |MatchPart(offset, extra)|))
  {
    AtSplit(s, pos, [offset % 256, offset / 256], LenTail(extra));
    assert s[pos] == s[pos..pos + 2][0] && s[pos + 1] == s[pos..pos + 2][1];
    ReadLenOfLenTail(s, pos + 2, extra);
  }

  lemma MatchPartOfRead(s: seq<Byte>, pos: nat, nibble: nat)
    requires pos <= |s| && nibble < 16 && ReadMatch(s, pos, nibble).Some?
    ensures var (offset, extra, p) := ReadMatch(s, pos, nibble).value;
            nibble == Nibble(extra) && At(s, pos, MatchPart(offset, extra)) && p == pos + |MatchPart(offset, extra)|
  {
    LenTailOfReadLen(s, pos + 2, nibble);
    var (offset, extra, p) := ReadMatch(s, pos, nibble).value;
    assert s[pos..pos + 2] == [offset % 256, offset / 256];
    AtJoin(s, pos, [offset % 256, offset / 256], LenTail(extra));
  }

  lemma StepOfReads(s: seq<Byte>, pos: nat, out: seq<Byte>, cap: nat, q: Sequence, p2: nat, p3: nat)
    requires pos < |s| && |out| <= cap && ValidSequence(q) && p2 <= |s|
    requires ReadLiterals(s, pos) == Some((q.literals, p2))
    requires ReadMatch(s, p2, s[pos] % 16) == Some((q.offset, q.matchLen - MINMATCH, p3))
    requires q.offset <= |out| + |q.literals| && |out| + |q.literals| + q.matchLen <= cap
    ensures Step(s, pos, out, cap).More? && Step(s, pos, out, cap).next == p3
    ensures Step(s, pos, out, cap).out == CopyMatch(out + q.literals, q.offset, q.matchLen)
  {
    hide CopyMatch, ReadLiterals, ReadMatch;
  }

  /** One encoded sequence takes the reader exactly one step of `ExpandSequences` further. */
  lemma StepOfSequence(s: seq<Byte>, pos: nat, out: seq<Byte>, cap: nat, q: Sequence)
    requires ValidSequence(q) && At(s, pos, EncodeSequence(q))
    requires q.offset <= |out| + |q.literals| && |out| + |q.literals| + q.matchLen <= cap
    ensures Step(s, pos, out, cap).More? && Step(s, pos, out, cap).next == pos + |EncodeSequence(q)|
    ensures Step(s, pos, out, cap).out == CopyMatch(out + q.literals, q.offset, q.matchLen)
  {
    hide CopyMatch, Step, ReadLiterals, ReadMatch, LiteralPart, MatchPart;
    var extra := q.matchLen - MINMATCH;
    var lp := LiteralPart(q.literals, Nibble(extra));
    AtSplit(s, pos, lp, MatchPart(q.offset, extra));
    ReadLiteralPart(s, pos, q.literals, Nibble(extra));
    ReadMatchPart(s, pos + |lp|, q.offset, extra);
    StepOfReads(s, pos, out, cap, q, pos + |lp|, pos + |lp| + |MatchPart(q.offset, extra)|);
  }

  /** From `pos` on, s is the encoding of b. */
  ghost predicate Tiles(s: seq<Byte>, pos: nat, b: Block) {
    ValidBlock(b) && At(s, pos, Encode(b)) && pos + |Encode(b)| == |s|
  }

  /** What b appends to `out` gives res. */
  ghost predicate Means(out: seq<Byte>, b: Block, res: seq<Byte>)
    requires ValidBlock(b)
  {
    match ExpandSequences(out, b.sequences)
    case None => false
    case Some(o) => res == if b.tail.Some? then o + b.tail.value.literals else o
  }

  ghost function Cons(q: Sequence, b: Block): Block { b.(sequences := [q] + b.sequences) }

  lemma EncodeCons(q: Sequence, b: Block)
    requires ValidSequence(q) && ValidBlock(b)
    ensures ValidBlock(Cons(q, b)) && Encode(Cons(q, b)) == EncodeSequence(q) + Encode(b)
  {
    var c := Cons(q, b);
    assert c.sequences[0] == q && c.sequences[1..] == b.sequences;
    forall i | 0 <= i < |c.sequences| ensures ValidSequence(c.sequences[i]) {
      assert c.sequences[i] == if i == 0 then q else b.sequences[i - 1];
    }
    var tail := if b.tail.Some? then LiteralPart(b.tail.value.literals, b.tail.value.nibble) else [];
    Assoc(EncodeSequence(q), EncodeSequences(b.sequences), tail);
  }

  lemma TilesCons(s: seq<Byte>, pos: nat, q: Sequence, b: Block)
    requires ValidSequence(q) && ValidBlock(b)
    ensures Tiles(s, pos, Cons(q, b))
       <==> At(s, pos, EncodeSequence(q)) && Tiles(s, pos + |EncodeSequence(q)|, b)
  {
    EncodeCons(q, b);
    if Tiles(s, pos, Cons(q, b)) { AtSplit(s, pos, EncodeSequence(q), Encode(b)); }
    if At(s, pos, EncodeSequence(q)) && Tiles(s, pos + |EncodeSequence(q)|, b) {
      AtJoin(s, pos, EncodeSequence(q), Encode(b));
    }
  }

  lemma MeansCons(out: seq<Byte>, q: Sequence, b: Block, res: seq<Byte>)
    requires ValidSequence(q) && ValidBlock(b) && ValidBlock(Cons(q, b))
    ensures Means(out, Cons(q, b), res)
       <==> q.offset <= |out| + |q.literals| && Means(CopyMatch(out + q.literals, q.offset, q.matchLen), b, res)
  {
    assert Cons(q, b).sequences[1..] == b.sequences;
  }

  /** Expanding only ever appends. */
  lemma {:induction false} MeansGrows(out: seq<Byte>, b: Block, res: seq<Byte>)
    requires ValidBlock(b) && Means(out, b, res)
    ensures |out| <= |res|
    decreases |b.sequences|
  {
    if b.sequences != [] {
      var q, rest := b.sequences[0], b.(sequences := b.sequences[1..]);
      assert ValidSequence(q);
      MeansGrows(CopyMatch(out + q.literals, q.offset, q.matchLen), rest, res);
    }
  }

  lemma DecodeTail(s: seq<Byte>, pos: nat, out: seq<Byte>, cap: nat, b: Block, res: seq<Byte>)
    requires Tiles(s, pos, b) && Means(out, b, res) && |res| <= cap && b.sequences == []
    ensures DecodeFrom(s, pos, out, cap) == Some(res)
  {
    hide LiteralPart, ReadLiterals, ReadMatch, CopyMatch;
    if b.tail.Some? {
      var t := b.tail.value;
      assert Encode(b) == LiteralPart(t.literals, t.nibble);
      ReadLiteralPart(s, pos, t.literals, t.nibble);
    }
  }

  /** What a well-formed block encodes to is decoded to what the block means. */
  lemma {:induction false} DecodeBlockFrom(s: seq<Byte>, pos: nat, out: seq<Byte>, cap: nat, b: Block, res: seq<Byte>)
    requires Tiles(s, pos, b) && Means(out, b, res) && |out| <= |res| <= cap
    ensures DecodeFrom(s, pos, out, cap) == Some(res)
    decreases |b.sequences|
  {
    if b.sequences == [] {
      DecodeTail(s, pos, out, cap, b, res);
    } else {
      hide CopyMatch, EncodeSequence, Step, Means, Tiles;
      var q, rest := b.sequences[0], b.(sequences := b.sequences[1..]);
      assert ValidSequence(q) && ValidBlock(rest) && b == Cons(q, rest);
      TilesCons(s, pos, q, rest);
      MeansCons(out, q, rest, res);
      var next := CopyMatch(out + q.literals, q.offset, q.matchLen);
      MeansGrows(next, rest, res);
      DecodeBlockFrom(s, pos + |EncodeSequence(q)|, next, cap, rest, res);
      StepOfSequence(s, pos, out, cap, q);
    }
  }

  lemma TilesTail(s: seq<Byte>, pos: nat)
    requires pos < |s| && ReadLiterals(s, pos).Some? && ReadLiterals(s, pos).value.1 == |s|
    ensures Tiles(s, pos, Block([], Some(Tail(ReadLiterals(s, pos).value.0, s[pos] % 16))))
  {
    LiteralPartOfRead(s, pos);
    var literals := ReadLiterals(s, pos).value.0;
    var b := Block([], Some(Tail(literals, s[pos] % 16)));
    assert Encode(b) == LiteralPart(literals, s[pos] % 16);
  }

  /** The sequence the reader sees at `pos`, when it gets as far as its match. */
  lemma SequenceOfRead(s: seq<Byte>, pos: nat) returns (q: Sequence, next: nat)
    requires pos < |s| && ReadLiterals(s, pos).Some?
    requires ReadMatch(s, ReadLiterals(s, pos).value.1, s[pos] % 16).Some?
    requires ReadMatch(s, ReadLiterals(s, pos).value.1, s[pos] % 16).value.0 != 0
    ensures var (literals, p2) := ReadLiterals(s, pos).value;
            var (offset, extra, p3) := ReadMatch(s, p2, s[pos] % 16).value;
            q == Sequence(literals, offset, extra + MINMATCH) && next == p3
    ensures ValidSequence(q) && At(s, pos, EncodeSequence(q)) && next == pos + |EncodeSequence(q)|
  {
    LiteralPartOfRead(s, pos);
    var (literals, p2) := ReadLiterals(s, pos).value;
    MatchPartOfRead(s, p2, s[pos] % 16);
    var (offset, extra, p3) := ReadMatch(s, p2, s[pos] % 16).value;
    q, next := Sequence(literals, offset, extra + MINMATCH), p3;
    AtJoin(s, pos, LiteralPart(literals, s[pos] % 16), MatchPart(offset, extra));
  }

  /** Whatever the reader accepts is the encoding of a well-formed block. */
  lemma {:induction false} ParseFrom(s: seq<Byte>, pos: nat, out: seq<Byte>, cap: nat) returns (b: Block)
    requires pos <= |s| && |out| <= cap && DecodeFrom(s, pos, out, cap).Some?
    ensures Tiles(s, pos, b) && Means(out, b, DecodeFrom(s, pos, out, cap).value)
    decreases |s| - pos
  {
    hide CopyMatch, ReadLiterals, ReadMatch, LiteralPart, EncodeSequence;
    if pos == |s| {
      b := Block([], None);
    } else if ReadLiterals(s, pos).value.1 == |s| {
      TilesTail(s, pos);
      b := Block([], Some(Tail(ReadLiterals(s, pos).value.0, s[pos] % 16)));
    } else {
      var q, next := SequenceOfRead(s, pos);
      var rest := ParseFrom(s, next, CopyMatch(out + q.literals, q.offset, q.matchLen), cap);
      b := Cons(q, rest);
      TilesCons(s, pos, q, rest);
      MeansCons(out, q, rest, DecodeFrom(s, pos, out, cap).value);
    }
  }

  /** s is the encoding of a well-formed block that means o. */
  ghost predicate Represents(s: seq<Byte>, o: seq<Byte>, b: Block) {
    ValidBlock(b) && Encode(b) == s && Expand(b) == Some(o)
  }

  lemma RepresentsTiles(s: seq<Byte>, o: seq<Byte>, b: Block)
    ensures Represents(s, o, b) <==> Tiles(s, 0, b) && Means([], b, o)
  {
    assert s[0..|s|] == s;
  }

  /** The reader accepts exactly the encodings of well-formed blocks whose meaning fits the buffer,
      and yields that meaning; it rejects everything else. */
  lemma DecodeIsTheFormat(s: seq<Byte>, cap: nat, o: seq<Byte>)
    ensures Decode(s, cap) == Some(o) <==> |o| <= cap && exists b :: Represents(s, o, b)
  {
    if Decode(s, cap) == Some(o) {
      var b := ParseFrom(s, 0, [], cap);
      RepresentsTiles(s, o, b);
    }
    if |o| <= cap && exists b :: Represents(s, o, b) {
      var b :| Represents(s, o, b);
      RepresentsTiles(s, o, b);
      DecodeBlockFrom(s, 0, [], cap, b, o);
    }
  }

  // ---------- Appending a sequence, as the compressor does ----------

  lemma {:induction false} EncodeAppend(qs: seq<Sequence>, q: Sequence)
    requires forall i :: 0 <= i < |qs| ==> ValidSequence(qs[i])
    requires ValidSequence(q)
    ensures EncodeSequences(qs + [q]) == EncodeSequences(qs) + EncodeSequence(q)
    decreases |qs|
  {
    if qs == [] {
      assert EncodeSequences([q]) == EncodeSequence(q) + EncodeSequences([]);
    } else {
      EncodeAppend(qs[1..], q);
      assert (qs + [q])[1..] == qs[1..] + [q];
    }
  }

  lemma {:induction false} ExpandAppend(out: seq<Byte>, qs: seq<Sequence>, q: Sequence)
    requires forall i :: 0 <= i < |qs| ==> ValidSequence(qs[i])
    requires ValidSequence(q)
    requires ExpandSequences(out, qs).Some?
    requires q.offset <= |ExpandSequences(out, qs).value| + |q.literals|
    ensures ExpandSequences(out, qs + [q])
         == Some(CopyMatch(ExpandSequences(out, qs).value + q.literals, q.offset, q.matchLen))
    decreases |qs|
  {
    if qs == [] {
      assert (qs + [q])[1..] == [];
    } else {
      assert (qs + [q])[1..] == qs[1..] + [q];
      assert (qs + [q])[0] == qs[0] && ValidSequence(qs[0]);
      ExpandAppend(CopyMatch(out + qs[0].literals, qs[0].offset, qs[0].matchLen), qs[1..], q);
    }
  }

  /** A match against already decoded bytes copies exactly the source bytes it was found on. */
  lemma {:induction false} CopyOfMatch(src: seq<Byte>, at: nat, offset: nat, n: nat)
    requires 1 <= offset <= at && at + n <= |src|
    requires forall i :: at <= i < at + n ==> src[i] == src[i - offset]
    ensures CopyMatch(src[..at], offset, n) == src[..at + n]
    decreases n
  {
    if n > 0 {
      assert src[at] == src[at - offset];
      assert src[..at] + [src[at - offset]] == src[..at + 1];
      CopyOfMatch(src, at + 1, offset, n - 1);
    }
  }

  /** Splitting a copy: the decoder copies the overlapping part first. */
  lemma {:induction false} CopySplit(out: seq<Byte>, offset: nat, n: nat, m: nat)
    requires 1 <= offset <= |out|
    ensures CopyMatch(CopyMatch(out, offset, n), offset, m) == CopyMatch(out, offset, n + m)
    decreases n
  {
    if n > 0 { CopySplit(out + [out[|out| - offset]], offset, n - 1, m); }
  }

  /** The copy extends by one byte at its end. */
  lemma CopyOne(out: seq<Byte>, offset: nat, n: nat)
    requires 1 <= offset <= |out|
    ensures CopyMatch(out, offset, n + 1)
         == CopyMatch(out, offset, n) + [CopyMatch(out, offset, n)[|out| + n - offset]]
  {
    CopySplit(out, offset, n, 1);
    var c := CopyMatch(out, offset, n);
    assert CopyMatch(c, offset, 1) == CopyMatch(c + [c[|c| - offset]], offset, 0);
  }

  /** A copy of no more than `offset` bytes does not overlap: it is one slice. */
  lemma {:induction false} CopyNoOverlap(out: seq<Byte>, offset: nat, n: nat)
    requires 1 <= offset <= |out| && n <= offset
    ensures CopyMatch(out, offset, n) == out + out[|out| - offset..|out| - offset + n]
    decreases n
  {
    if n > 0 {
      CopyNoOverlap(out, offset, n - 1);
      CopyOne(out, offset, n - 1);
      var prev := CopyMatch(out, offset, n - 1);
      assert prev[|prev| - offset] == out[|out| - offset + n - 1];
    }
  }

  // ---------- The format in numbers ----------

  /** The bytes that continue a length of n after a nibble: none below 15; else 255 as often as it goes
      into n - 15, and the remainder. */
  ghost function Run(n: nat): seq<Byte> {
    if n < 15 then [] else seq((n - 15) / 255, _ => 255 as Byte) + [((n - 15) % 255) as Byte]
  }

  ghost function Low(n: nat): (r: nat)
    ensures r < 16
  {
    if n < 15 then n else 15
  }

  /** Token, literal length, literals, the offset with its low byte first, match length less four. */
  ghost function Raw(lits: seq<Byte>, lo: Byte, hi: Byte, m: nat): seq<Byte> {
    [(16 * Low(|lits|) + Low(m)) as Byte] + Run(|lits|) + lits + [lo, hi] + Run(m)
  }

  lemma {:induction false} LenExtIs(n: nat)
    ensures LenExt(n) == seq(n / 255, _ => 255 as Byte) + [(n % 255) as Byte]
  {
    if n >= 255 {
      LenExtIs(n - 255);
      assert n / 255 == (n - 255) / 255 + 1 && n % 255 == (n - 255) % 255;
      assert seq(n / 255, _ => 255 as Byte) == [255 as Byte] + seq((n - 255) / 255, _ => 255 as Byte);
    }
  }

  lemma LenTailIs(n: nat)
    ensures LenTail(n) == Run(n) && Nibble(n) == Low(n)
  {
    if n >= 15 { LenExtIs(n - 15); }
  }

  /** What a sequence is written as. */
  lemma EncodesAs(q: Sequence)
    requires ValidSequence(q)
    ensures EncodeSequence(q) == Raw(q.literals, (q.offset % 256) as Byte, (q.offset / 256) as Byte, q.matchLen - 4)
  {
    LenTailIs(|q.literals|);
    LenTailIs(q.matchLen - 4);
    hide LenTail, Nibble, Low, Run;
  }

  /** What a match copies, byte by byte. */
  lemma {:induction false} CopyMatchIs(out: seq<Byte>, offset: nat, n: nat)
    requires 1 <= offset <= |out|
    ensures var r := CopyMatch(out, offset, n);
            r[..|out|] == out && forall i :: |out| <= i < |r| ==> r[i] == r[i - offset]
    decreases n
  {
    if n > 0 {
      var next := out + [out[|out| - offset]];
      CopyMatchIs(next, offset, n - 1);
      var r := CopyMatch(out, offset, n);
      assert r[..|out|] == r[..|next|][..|out|] == out;
      assert r[|out|] == r[..|next|][|out|] && r[|out| - offset] == r[..|next|][|out| - offset];
    }
  }

  /** The bytes [token, .., lits, lo, hi, ..] anywhere in a stream: the literals come out, and then as many
      bytes as the match says, each the one lo + 256 * hi before it; the rest of the stream follows. */
  lemma RawStep(s: seq<Byte>, pos: nat, out: seq<Byte>, cap: nat, lits: seq<Byte>, lo: Byte, hi: Byte, m: nat) returns (r: seq<Byte>)
    requires At(s, pos, Raw(lits, lo, hi, m))
    requires 1 <= lo as nat + 256 * hi as nat <= |out| + |lits| && |out| + |lits| + m + 4 <= cap
    ensures |r| == |out| + |lits| + m + 4 && r[..|out| + |lits|] == out + lits
    ensures forall i :: |out| + |lits| <= i < |r| ==> r[i] == r[i - (lo as nat + 256 * hi as nat)]
    ensures DecodeFrom(s, pos, out, cap) == DecodeFrom(s, pos + |Raw(lits, lo, hi, m)|, r, cap)
  {
    hide CopyMatch, Step, Raw, EncodeSequence, At;
    var offset := lo as nat + 256 * hi as nat;
    var q := Sequence(lits, offset, m + 4);
    assert offset % 256 == lo as nat && offset / 256 == hi as nat;
    EncodesAs(q);
    StepOfSequence(s, pos, out, cap, q);
    CopyMatchIs(out + lits, offset, m + 4);
    r := CopyMatch(out + lits, offset, m + 4);
  }

  /** The bytes [token, .., lits] at the end of a stream, whatever the lower half of the token. */
  lemma RawEnd(s: seq<Byte>, pos: nat, out: seq<Byte>, cap: nat, lits: seq<Byte>, low: nat)
    requires low < 16 && pos <= |s| && s[pos..] == [(16 * Low(|lits|) + low) as Byte] + Run(|lits|) + lits && |out| + |lits| <= cap
    ensures DecodeFrom(s, pos, out, cap) == Some(out + lits)
  {
    LenTailIs(|lits|);
    hide LenTail, Run, Low, Nibble;
    assert s[pos..|s|] == s[pos..] == LiteralPart(lits, low);
    ReadLiteralPart(s, pos, lits, low);
  }

  /** A block of one sequence. */
  lemma RawDecodes(lits: seq<Byte>, lo: Byte, hi: Byte, m: nat, cap: nat) returns (r: seq<Byte>)
    requires 1 <= lo as nat + 256 * hi as nat <= |lits| && |lits| + m + 4 <= cap
    ensures Decode(Raw(lits, lo, hi, m), cap) == Some(r) && |r| == |lits| + m + 4 && r[..|lits|] == lits
    ensures forall i :: |lits| <= i < |r| ==> r[i] == r[i - (lo as nat + 256 * hi as nat)]
  {
    var s := Raw(lits, lo, hi, m);
    assert s[0..|s|] == s && [] + lits == lits;
    r := RawStep(s, 0, [], cap, lits, lo, hi, m);
  }
}
