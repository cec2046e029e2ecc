/**
 * Little-endian decomposition of a multi-byte write into byte cells at
 * `a0, a0+1, a0+2, a0+3`, and the assembly of a multi-byte read from the
 * bytes at those addresses.
 *
 * `concat(a, b)` of the MultiSemantics policy places `a` in the low-order bits
 * (ROSE's convention).  `AssembleAsWritten` follows the operand order of the
 * read path as written; `Assemble` is the little-endian assembly its comment
 * describes, which the rest of the model uses.
 */
module ByteLanes {
  import opened Wrappers
  import opened MultiValues
  import opened MemoryLog

  /** The access widths the source accepts. */
  predicate ValidWidth(nBits: nat) {
    nBits == 8 || nBits == 16 || nBits == 32
  }

  /** Address of byte `i`: `a0` itself, then the 32-bit symbolic sum `a0 + i`. */
  function AddressAt(a0: SymExpr, i: nat): (a: SymExpr)
    requires i < 4
    ensures i == 0 ==> a == a0
    ensures i > 0 ==> forall env :: Eval(a, env) == (Eval(a0, env) + i) % WORD_SIZE
  {
    if i == 0 then a0 else Add(a0, i)
  }

  /** Byte `i` of the number `w`. */
  function Lane(w: Word, i: nat): Word {
    BitField(w, 8 * i, 8 * i + 8)
  }

  /** The first `n` bytes of `w`, lowest first. */
  function Lanes(w: Word, n: nat): (bs: seq<Word>)
    ensures |bs| == n
  {
    seq(n, i requires 0 <= i < n => Lane(w, i))
  }

  /** The number whose base-256 digits, lowest first, are `bs`. */
  function LittleEndian(bs: seq<Word>): Word
    requires 1 <= |bs| <= 4
  {
    bs[0]
    + (if |bs| > 1 then bs[1] * 0x100 else 0)
    + (if |bs| > 2 then bs[2] * 0x1_0000 else 0)
    + (if |bs| > 3 then bs[3] * 0x100_0000 else 0)
  }

  /** Byte `i` of `data`: `extract<8i, 8i+8>`. */
  function ByteOf(active: Mask, data: MultiValue, i: nat): (b: MultiValue)
    requires i < 4
    ensures IsActive(active, Concrete) && data.concrete.Some? && data.concrete.value.Known? ==>
              b.concrete == Some(Known(Lane(data.concrete.value.bits, i)))
    ensures b.concrete.Some? && b.concrete.value.Known? ==> b.concrete.value.bits < 0x100
  {
    if data.concrete.Some? && data.concrete.value.Known? then
      FieldBound(data.concrete.value.bits, 8 * i, 8 * i + 8);
      Pow2Bytes();
      ExtractOp(active, data, 8 * i, 8 * i + 8)
    else
      ExtractOp(active, data, 8 * i, 8 * i + 8)
  }

  /** The cells a write of `nBits` at `a0` pushes, in push order (byte 0 first). */
  function ByteWrites(active: Mask, a0: SymExpr, data: MultiValue, nBits: nat): (cells: seq<MemoryCell>)
    requires ValidWidth(nBits)
    ensures |cells| == nBits / 8
    ensures forall i :: 0 <= i < |cells| ==>
              cells[i] == MemoryCell(AddressAt(a0, i), ByteOf(active, data, i))
  {
    seq(nBits / 8, i requires 0 <= i < nBits / 8 => MemoryCell(AddressAt(a0, i), ByteOf(active, data, i)))
  }

  /**
   * Byte `b` widened to 32 bits with zero padding so that it occupies bits
   * `[8i, 8i+8)`: `concat(concat(0, b), 0)` with pads of `8i` bits below and
   * `24 - 8i` bits above.
   */
  function LaneAt(active: Mask, i: nat, b: MultiValue): MultiValue
    requires i <= 3
  {
    if i == 0 then BinaryOp(active, ConcatOp(8), b, Constant(0))
    else if i == 1 then BinaryOp(active, ConcatOp(16), BinaryOp(active, ConcatOp(8), Constant(0), b), Constant(0))
    else if i == 2 then BinaryOp(active, ConcatOp(24), BinaryOp(active, ConcatOp(16), Constant(0), b), Constant(0))
    else BinaryOp(active, ConcatOp(24), Constant(0), b)
  }

  /** The widening of byte `i` with the `concat` operands in the order the read path gives them. */
  function WrittenLane(active: Mask, i: nat, b: MultiValue): MultiValue
    requires i <= 3
  {
    if i == 0 then BinaryOp(active, ConcatOp(24), Constant(0), b)
    else if i == 1 then BinaryOp(active, ConcatOp(16), Constant(0), BinaryOp(active, ConcatOp(8), b, Constant(0)))
    else if i == 2 then BinaryOp(active, ConcatOp(8), Constant(0), BinaryOp(active, ConcatOp(8), b, Constant(0)))
    else BinaryOp(active, ConcatOp(8), b, Constant(0))
  }

  /** The read path's assembly, little-endian: byte `i` lands in bits `[8i, 8i+8)`. */
  function Assemble(active: Mask, nBits: nat, bytes: seq<MultiValue>): MultiValue
    requires ValidWidth(nBits) && |bytes| == nBits / 8
  {
    var dword0 := LaneAt(active, 0, bytes[0]);
    var dword1 := if nBits >= 16 then BinaryOp(active, OrOp, dword0, LaneAt(active, 1, bytes[1])) else dword0;
    var dword2 := if nBits >= 24 then BinaryOp(active, OrOp, dword1, LaneAt(active, 2, bytes[2])) else dword1;
    var dword3 := if nBits >= 32 then BinaryOp(active, OrOp, dword2, LaneAt(active, 3, bytes[3])) else dword2;
    ExtractOp(active, dword3, 0, nBits)
  }

  /** The read path's assembly as written: the same steps over `WrittenLane`. */
  function AssembleAsWritten(active: Mask, nBits: nat, bytes: seq<MultiValue>): MultiValue
    requires ValidWidth(nBits) && |bytes| == nBits / 8
  {
    var dword0 := WrittenLane(active, 0, bytes[0]);
    var dword1 := if nBits >= 16 then BinaryOp(active, OrOp, dword0, WrittenLane(active, 1, bytes[1])) else dword0;
    var dword2 := if nBits >= 24 then BinaryOp(active, OrOp, dword1, WrittenLane(active, 2, bytes[2])) else dword1;
    var dword3 := if nBits >= 32 then BinaryOp(active, OrOp, dword2, WrittenLane(active, 3, bytes[3])) else dword2;
    ExtractOp(active, dword3, 0, nBits)
  }

  /** The concrete part of a binary operation on known concrete operands. */
  lemma ConcreteBinary(active: Mask, op: BinOp, a: MultiValue, b: MultiValue, x: Word, y: Word)
    requires IsActive(active, Concrete) && a.concrete == Some(Known(x)) && b.concrete == Some(Known(y))
    ensures BinaryOp(active, op, a, b).concrete == Some(Known(ApplyBin(op, x, y)))
  {
  }

  /** The concrete part of an extraction from a known concrete operand. */
  lemma ConcreteExtraction(active: Mask, a: MultiValue, from: nat, to: nat, x: Word)
    requires IsActive(active, Concrete) && a.concrete == Some(Known(x))
    ensures ExtractOp(active, a, from, to).concrete == Some(Known(BitField(x, from, to)))
  {
  }

  /** A byte padded with `k` zero bits below is the byte times 2^k. */
  lemma PadBelow(x: Word, k: nat, v: Word)
    requires v == x * Pow2(k)
    ensures ConcatBits(0, x, k) == v
  {
    ConcatBelow(0, x, k);
  }

  /** The padded byte values of the little-endian lanes. */
  lemma PadLanes(x: Word)
    requires x < 0x100
    ensures ConcatBits(x, 0, 8) == x
    ensures ConcatBits(ConcatBits(0, x, 8), 0, 16) == x * 0x100
    ensures ConcatBits(ConcatBits(0, x, 16), 0, 24) == x * 0x1_0000
    ensures ConcatBits(0, x, 24) == x * 0x100_0000
  {
    Pow2Bytes();
    ConcatBelow(x, 0, 8);
    PadBelow(x, 8, x * 0x100);
    ConcatBelow(x * 0x100, 0, 16);
    PadBelow(x, 16, x * 0x1_0000);
    ConcatBelow(x * 0x1_0000, 0, 24);
    PadBelow(x, 24, x * 0x100_0000);
  }

  /** The padded byte values of the lanes as written. */
  lemma PadWrittenLanes(x: Word)
    requires x < 0x100
    ensures ConcatBits(0, ConcatBits(x, 0, 8), 16) == x * 0x1_0000
    ensures ConcatBits(0, ConcatBits(x, 0, 8), 8) == x * 0x100
  {
    Pow2Bytes();
    ConcatBelow(x, 0, 8);
    PadBelow(x, 16, x * 0x1_0000);
    PadBelow(x, 8, x * 0x100);
  }

  /** A known byte widened into lane `i` is the byte times 256^i. */
  lemma LaneAtConcrete(active: Mask, i: nat, b: MultiValue, x: Word)
    requires i <= 3 && IsActive(active, Concrete) && b.concrete == Some(Known(x)) && x < 0x100
    ensures i == 0 ==> LaneAt(active, i, b).concrete == Some(Known(x))
    ensures i == 1 ==> LaneAt(active, i, b).concrete == Some(Known(x * 0x100))
    ensures i == 2 ==> LaneAt(active, i, b).concrete == Some(Known(x * 0x1_0000))
    ensures i == 3 ==> LaneAt(active, i, b).concrete == Some(Known(x * 0x100_0000))
  {
    var zero := Constant(0);
    PadLanes(x);
    if i == 0 {
      ConcreteBinary(active, ConcatOp(8), b, zero, x, 0);
    } else if i == 1 {
      ConcreteBinary(active, ConcatOp(8), zero, b, 0, x);
      ConcreteBinary(active, ConcatOp(16), BinaryOp(active, ConcatOp(8), zero, b), zero, ConcatBits(0, x, 8), 0);
    } else if i == 2 {
      ConcreteBinary(active, ConcatOp(16), zero, b, 0, x);
      ConcreteBinary(active, ConcatOp(24), BinaryOp(active, ConcatOp(16), zero, b), zero, ConcatBits(0, x, 16), 0);
    } else {
      ConcreteBinary(active, ConcatOp(24), zero, b, 0, x);
    }
  }

  /** A known byte widened as written lands in lane `3 - i`. */
  lemma WrittenLaneConcrete(active: Mask, i: nat, b: MultiValue, x: Word)
    requires i <= 3 && IsActive(active, Concrete) && b.concrete == Some(Known(x)) && x < 0x100
    ensures i == 0 ==> WrittenLane(active, i, b).concrete == Some(Known(x * 0x100_0000))
    ensures i == 1 ==> WrittenLane(active, i, b).concrete == Some(Known(x * 0x1_0000))
    ensures i == 2 ==> WrittenLane(active, i, b).concrete == Some(Known(x * 0x100))
    ensures i == 3 ==> WrittenLane(active, i, b).concrete == Some(Known(x))
  {
    var zero := Constant(0);
    PadLanes(x);
    PadWrittenLanes(x);
    if i == 0 {
      ConcreteBinary(active, ConcatOp(24), zero, b, 0, x);
    } else if i == 1 {
      ConcreteBinary(active, ConcatOp(8), b, zero, x, 0);
      ConcreteBinary(active, ConcatOp(16), zero, BinaryOp(active, ConcatOp(8), b, zero), 0, ConcatBits(x, 0, 8));
    } else if i == 2 {
      ConcreteBinary(active, ConcatOp(8), b, zero, x, 0);
      ConcreteBinary(active, ConcatOp(8), zero, BinaryOp(active, ConcatOp(8), b, zero), 0, ConcatBits(x, 0, 8));
    } else {
      ConcreteBinary(active, ConcatOp(8), b, zero, x, 0);
    }
  }

  /** Or-ing a byte into lane 1 above a one-byte number adds it. */
  lemma OrLane1(w: Word, x: Word)
    requires w < 0x100
    ensures OrBits(w, x * 0x100) == w + x * 0x100
  {
    Pow2Bytes();
    OrDisjoint(w, x, 8);
  }

  /** Or-ing a byte into lane 2 above a two-byte number adds it. */
  lemma OrLane2(w: Word, x: Word)
    requires w < 0x1_0000
    ensures OrBits(w, x * 0x1_0000) == w + x * 0x1_0000
  {
    Pow2Bytes();
    OrDisjoint(w, x, 16);
  }

  /** Or-ing a byte into lane 3 above a three-byte number adds it. */
  lemma OrLane3(w: Word, x: Word)
    requires w < 0x100_0000
    ensures OrBits(w, x * 0x100_0000) == w + x * 0x100_0000
  {
    Pow2Bytes();
    OrDisjoint(w, x, 24);
  }

  /** Or-ing a number below 2^24 into a multiple of 2^24 adds it. */
  lemma OrBelow24(u: Word, w: Word, x: Word)
    requires u == w * 0x100_0000 && x < 0x100_0000
    ensures OrBits(u, x) == x + u
  {
    OrCommutes(u, x);
    Pow2Bytes();
    OrDisjoint(x, w, 24);
  }

  /** Or-ing a number below 2^16 into a multiple of 2^16 adds it. */
  lemma OrBelow16(u: Word, w: Word, x: Word)
    requires u == w * 0x1_0000 && x < 0x1_0000
    ensures OrBits(u, x) == x + u
  {
    OrCommutes(u, x);
    Pow2Bytes();
    OrDisjoint(x, w, 16);
  }

  /** Or-ing a number below 2^8 into a multiple of 2^8 adds it. */
  lemma OrBelow8(u: Word, w: Word, x: Word)
    requires u == w * 0x100 && x < 0x100
    ensures OrBits(u, x) == x + u
  {
    OrCommutes(u, x);
    Pow2Bytes();
    OrDisjoint(x, w, 8);
  }

  /** Or-ing two known values whose bits do not overlap adds them. */
  lemma OrConcrete(active: Mask, a: MultiValue, b: MultiValue, x: Word, y: Word, sum: Word)
    requires IsActive(active, Concrete) && a.concrete == Some(Known(x)) && b.concrete == Some(Known(y))
    requires OrBits(x, y) == sum
    ensures BinaryOp(active, OrOp, a, b).concrete == Some(Known(sum))
  {
    ConcreteBinary(active, OrOp, a, b, x, y);
  }

  /** `extract<0, n>` of a known number that fits in `n` bits is the number. */
  lemma ExtractWhole(active: Mask, a: MultiValue, n: nat, w: Word)
    requires IsActive(active, Concrete) && a.concrete == Some(Known(w)) && ValidWidth(n) && w < Pow2(n)
    ensures ExtractOp(active, a, 0, n).concrete == Some(Known(w))
  {
    ConcreteExtraction(active, a, 0, n, w);
    FieldWhole(w, n);
  }

  /** `extract<0, n>` of a known multiple of 2^k, `n <= k`, is zero. */
  lemma ExtractBelow(active: Mask, a: MultiValue, n: nat, k: nat, u: Word, w: Word)
    requires IsActive(active, Concrete) && a.concrete == Some(Known(u)) && u == w * Pow2(k) && n <= k
    ensures ExtractOp(active, a, 0, n).concrete == Some(Known(0))
  {
    ConcreteExtraction(active, a, 0, n, u);
    FieldOfMultiple(w, k, n);
  }

  /** Or-ing known lanes 0 and 1 and keeping the low 16 bits gives their sum `v`. */
  lemma TwoLanesValue(active: Mask, l0: MultiValue, l1: MultiValue, b0: Word, b1: Word, v: Word)
    requires IsActive(active, Concrete) && b0 < 0x100 && b1 < 0x100 && v == b0 + b1 * 0x100
    requires l0.concrete == Some(Known(b0)) && l1.concrete == Some(Known(b1 * 0x100))
    ensures ExtractOp(active, BinaryOp(active, OrOp, l0, l1), 0, 16).concrete == Some(Known(v))
  {
    OrLane1(b0, b1);
    OrConcrete(active, l0, l1, b0, b1 * 0x100, v);
    Pow2Bytes();
    ExtractWhole(active, BinaryOp(active, OrOp, l0, l1), 16, v);
  }

  /** Or-ing known lanes 0 to 3 and keeping the low 32 bits gives their weighted sum `v`. */
  lemma FourLanesValue(active: Mask, l0: MultiValue, l1: MultiValue, l2: MultiValue, l3: MultiValue,
                       b0: Word, b1: Word, b2: Word, b3: Word, v: Word)
    requires IsActive(active, Concrete) && b0 < 0x100 && b1 < 0x100 && b2 < 0x100 && b3 < 0x100
    requires v == b0 + b1 * 0x100 + b2 * 0x1_0000 + b3 * 0x100_0000
    requires l0.concrete == Some(Known(b0)) && l1.concrete == Some(Known(b1 * 0x100))
    requires l2.concrete == Some(Known(b2 * 0x1_0000)) && l3.concrete == Some(Known(b3 * 0x100_0000))
    ensures ExtractOp(active, BinaryOp(active, OrOp, BinaryOp(active, OrOp, BinaryOp(active, OrOp, l0, l1), l2), l3),
                      0, 32).concrete == Some(Known(v))
  {
    var dword1 := BinaryOp(active, OrOp, l0, l1);
    var w1 := b0 + b1 * 0x100;
    OrLane1(b0, b1);
    OrConcrete(active, l0, l1, b0, b1 * 0x100, w1);
    var dword2 := BinaryOp(active, OrOp, dword1, l2);
    var w2 := w1 + b2 * 0x1_0000;
    OrLane2(w1, b2);
    OrConcrete(active, dword1, l2, w1, b2 * 0x1_0000, w2);
    var dword3 := BinaryOp(active, OrOp, dword2, l3);
    OrLane3(w2, b3);
    OrConcrete(active, dword2, l3, w2, b3 * 0x100_0000, v);
    Pow2Bytes();
    ExtractWhole(active, dword3, 32, v);
  }

  /** As written, or-ing known lanes 0 to 3 puts byte `i` at weight 256^(3-i). */
  lemma FourWrittenLanesValue(active: Mask, l0: MultiValue, l1: MultiValue, l2: MultiValue, l3: MultiValue,
                              b0: Word, b1: Word, b2: Word, b3: Word, v: Word)
    requires IsActive(active, Concrete) && b0 < 0x100 && b1 < 0x100 && b2 < 0x100 && b3 < 0x100
    requires v == b3 + b2 * 0x100 + b1 * 0x1_0000 + b0 * 0x100_0000
    requires l0.concrete == Some(Known(b0 * 0x100_0000)) && l1.concrete == Some(Known(b1 * 0x1_0000))
    requires l2.concrete == Some(Known(b2 * 0x100)) && l3.concrete == Some(Known(b3))
    ensures ExtractOp(active, BinaryOp(active, OrOp, BinaryOp(active, OrOp, BinaryOp(active, OrOp, l0, l1), l2), l3),
                      0, 32).concrete == Some(Known(v))
  {
    var dword1 := BinaryOp(active, OrOp, l0, l1);
    var w1 := b1 * 0x1_0000 + b0 * 0x100_0000;
    OrBelow24(b0 * 0x100_0000, b0, b1 * 0x1_0000);
    OrConcrete(active, l0, l1, b0 * 0x100_0000, b1 * 0x1_0000, w1);
    var dword2 := BinaryOp(active, OrOp, dword1, l2);
    var w2 := b2 * 0x100 + w1;
    OrBelow16(w1, b1 + b0 * 0x100, b2 * 0x100);
    OrConcrete(active, dword1, l2, w1, b2 * 0x100, w2);
    var dword3 := BinaryOp(active, OrOp, dword2, l3);
    OrBelow8(w2, b2 + b1 * 0x100 + b0 * 0x1_0000, b3);
    OrConcrete(active, dword2, l3, w2, b3, v);
    Pow2Bytes();
    ExtractWhole(active, dword3, 32, v);
  }

  /** `LittleEndian` for each length, as literal arithmetic. */
  lemma LittleEndianDigits(bs: seq<Word>)
    requires 1 <= |bs| <= 4
    ensures |bs| == 1 ==> LittleEndian(bs) == bs[0]
    ensures |bs| == 2 ==> LittleEndian(bs) == bs[0] + bs[1] * 0x100
    ensures |bs| == 4 ==> LittleEndian(bs) == bs[0] + bs[1] * 0x100 + bs[2] * 0x1_0000 + bs[3] * 0x100_0000
  {
  }

  /** A one-byte read of a known byte yields the byte. */
  lemma AssembleOneByte(active: Mask, nBits: nat, bytes: seq<MultiValue>, bs: seq<Word>)
    requires nBits == 8 && |bytes| == 1 && |bs| == 1 && IsActive(active, Concrete)
    requires bytes[0].concrete == Some(Known(bs[0])) && bs[0] < 0x100
    ensures Assemble(active, nBits, bytes).concrete == Some(Known(LittleEndian(bs)))
  {
    LittleEndianDigits(bs);
    LaneAtConcrete(active, 0, bytes[0], bs[0]);
    Pow2Bytes();
    ExtractWhole(active, LaneAt(active, 0, bytes[0]), 8, LittleEndian(bs));
  }

  /** A two-byte read of known bytes yields the number they are the base-256 digits of. */
  lemma AssembleTwoBytes(active: Mask, nBits: nat, bytes: seq<MultiValue>, bs: seq<Word>)
    requires nBits == 16 && |bytes| == 2 && |bs| == 2 && IsActive(active, Concrete)
    requires bytes[0].concrete == Some(Known(bs[0])) && bs[0] < 0x100
    requires bytes[1].concrete == Some(Known(bs[1])) && bs[1] < 0x100
    ensures Assemble(active, nBits, bytes).concrete == Some(Known(LittleEndian(bs)))
  {
    LittleEndianDigits(bs);
    LaneAtConcrete(active, 0, bytes[0], bs[0]);
    LaneAtConcrete(active, 1, bytes[1], bs[1]);
    TwoLanesValue(active, LaneAt(active, 0, bytes[0]), LaneAt(active, 1, bytes[1]), bs[0], bs[1], LittleEndian(bs));
  }

  /** A four-byte read of known bytes yields the number they are the base-256 digits of. */
  lemma AssembleFourBytes(active: Mask, nBits: nat, bytes: seq<MultiValue>, bs: seq<Word>)
    requires nBits == 32 && |bytes| == 4 && |bs| == 4 && IsActive(active, Concrete)
    requires bytes[0].concrete == Some(Known(bs[0])) && bs[0] < 0x100
    requires bytes[1].concrete == Some(Known(bs[1])) && bs[1] < 0x100
    requires bytes[2].concrete == Some(Known(bs[2])) && bs[2] < 0x100
    requires bytes[3].concrete == Some(Known(bs[3])) && bs[3] < 0x100
    ensures Assemble(active, nBits, bytes).concrete == Some(Known(LittleEndian(bs)))
  {
    LittleEndianDigits(bs);
    LaneAtConcrete(active, 0, bytes[0], bs[0]);
    LaneAtConcrete(active, 1, bytes[1], bs[1]);
    LaneAtConcrete(active, 2, bytes[2], bs[2]);
    LaneAtConcrete(active, 3, bytes[3], bs[3]);
    FourLanesValue(active, LaneAt(active, 0, bytes[0]), LaneAt(active, 1, bytes[1]),
                   LaneAt(active, 2, bytes[2]), LaneAt(active, 3, bytes[3]), bs[0], bs[1], bs[2], bs[3],
                   LittleEndian(bs));
  }

  /** Known concrete bytes assemble into the number they are the base-256 digits of. */
  lemma AssembleLittleEndian(active: Mask, nBits: nat, bytes: seq<MultiValue>, bs: seq<Word>)
    requires ValidWidth(nBits) && |bytes| == nBits / 8 && |bs| == |bytes|
    requires IsActive(active, Concrete)
    requires forall i :: 0 <= i < |bytes| ==> bytes[i].concrete == Some(Known(bs[i])) && bs[i] < 0x100
    ensures Assemble(active, nBits, bytes).concrete == Some(Known(LittleEndian(bs)))
  {
    if nBits == 8 {
      AssembleOneByte(active, nBits, bytes, bs);
    } else if nBits == 16 {
      AssembleTwoBytes(active, nBits, bytes, bs);
    } else {
      AssembleFourBytes(active, nBits, bytes, bs);
    }
  }

  /** As written, a one-byte read keeps bits 0..7 of a word whose only byte sits in bits 24..31. */
  lemma AsWrittenOneByte(active: Mask, nBits: nat, bytes: seq<MultiValue>, b0: Word)
    requires nBits == 8 && |bytes| == 1 && IsActive(active, Concrete)
    requires bytes[0].concrete == Some(Known(b0)) && b0 < 0x100
    ensures AssembleAsWritten(active, nBits, bytes).concrete == Some(Known(0))
  {
    WrittenLaneConcrete(active, 0, bytes[0], b0);
    Pow2Bytes();
    ExtractBelow(active, WrittenLane(active, 0, bytes[0]), 8, 24, b0 * 0x100_0000, b0);
  }

  /** As written, a two-byte read keeps bits 0..15 of a word whose bytes sit in bits 16..31. */
  lemma AsWrittenTwoBytes(active: Mask, nBits: nat, bytes: seq<MultiValue>, b0: Word, b1: Word)
    requires nBits == 16 && |bytes| == 2 && IsActive(active, Concrete)
    requires bytes[0].concrete == Some(Known(b0)) && b0 < 0x100
    requires bytes[1].concrete == Some(Known(b1)) && b1 < 0x100
    ensures AssembleAsWritten(active, nBits, bytes).concrete == Some(Known(0))
  {
    var l0, l1 := WrittenLane(active, 0, bytes[0]), WrittenLane(active, 1, bytes[1]);
    WrittenLaneConcrete(active, 0, bytes[0], b0);
    WrittenLaneConcrete(active, 1, bytes[1], b1);
    var w1 := b1 * 0x1_0000 + b0 * 0x100_0000;
    OrBelow24(b0 * 0x100_0000, b0, b1 * 0x1_0000);
    OrConcrete(active, l0, l1, b0 * 0x100_0000, b1 * 0x1_0000, w1);
    Pow2Bytes();
    ExtractBelow(active, BinaryOp(active, OrOp, l0, l1), 16, 16, w1, b1 + b0 * 0x100);
  }

  /** As written, a four-byte read yields its bytes in reverse order. */
  lemma AsWrittenFourBytes(active: Mask, nBits: nat, bytes: seq<MultiValue>, b0: Word, b1: Word, b2: Word, b3: Word)
    requires nBits == 32 && |bytes| == 4 && IsActive(active, Concrete)
    requires bytes[0].concrete == Some(Known(b0)) && b0 < 0x100
    requires bytes[1].concrete == Some(Known(b1)) && b1 < 0x100
    requires bytes[2].concrete == Some(Known(b2)) && b2 < 0x100
    requires bytes[3].concrete == Some(Known(b3)) && b3 < 0x100
    ensures AssembleAsWritten(active, nBits, bytes).concrete == Some(Known(LittleEndian([b3, b2, b1, b0])))
  {
    LittleEndianDigits([b3, b2, b1, b0]);
    WrittenLaneConcrete(active, 0, bytes[0], b0);
    WrittenLaneConcrete(active, 1, bytes[1], b1);
    WrittenLaneConcrete(active, 2, bytes[2], b2);
    WrittenLaneConcrete(active, 3, bytes[3], b3);
    FourWrittenLanesValue(active, WrittenLane(active, 0, bytes[0]), WrittenLane(active, 1, bytes[1]),
                          WrittenLane(active, 2, bytes[2]), WrittenLane(active, 3, bytes[3]), b0, b1, b2, b3,
                          LittleEndian([b3, b2, b1, b0]));
  }

  /**
   * As written, the read path loses one- and two-byte values and reverses
   * four-byte values.
   */
  lemma AssembleAsWrittenConcrete(active: Mask, nBits: nat, bytes: seq<MultiValue>, bs: seq<Word>)
    requires ValidWidth(nBits) && |bytes| == nBits / 8 && |bs| == |bytes|
    requires IsActive(active, Concrete)
    requires forall i :: 0 <= i < |bytes| ==> bytes[i].concrete == Some(Known(bs[i])) && bs[i] < 0x100
    ensures nBits < 32 ==> AssembleAsWritten(active, nBits, bytes).concrete == Some(Known(0))
    ensures nBits == 32 ==>
              AssembleAsWritten(active, nBits, bytes).concrete == Some(Known(LittleEndian([bs[3], bs[2], bs[1], bs[0]])))
  {
    if nBits == 8 {
      AsWrittenOneByte(active, nBits, bytes, bs[0]);
    } else if nBits == 16 {
      AsWrittenTwoBytes(active, nBits, bytes, bs[0], bs[1]);
    } else {
      AsWrittenFourBytes(active, nBits, bytes, bs[0], bs[1], bs[2], bs[3]);
    }
  }

  /** A one-byte read of the byte 0x41 yields 0 as written, and 0x41 little-endian. */
  lemma AssembleAsWrittenDropsByte()
    ensures AssembleAsWritten(CONCRETE, 8, [Constant(0x41)]).concrete == Some(Known(0))
    ensures Assemble(CONCRETE, 8, [Constant(0x41)]).concrete == Some(Known(0x41))
  {
    AsWrittenOneByte(CONCRETE, 8, [Constant(0x41)], 0x41);
    AssembleOneByte(CONCRETE, 8, [Constant(0x41)], [0x41]);
  }

  /**
   * The bytes 44 33 22 11 at increasing addresses read as the 32-bit value
   * 0x44332211 as written, and 0x11223344 little-endian.
   */
  lemma AssembleAsWrittenReversesWord()
    ensures AssembleAsWritten(CONCRETE, 32, [Constant(0x44), Constant(0x33), Constant(0x22), Constant(0x11)]).concrete
            == Some(Known(0x4433_2211))
    ensures Assemble(CONCRETE, 32, [Constant(0x44), Constant(0x33), Constant(0x22), Constant(0x11)]).concrete
            == Some(Known(0x1122_3344))
  {
    var bytes := [Constant(0x44), Constant(0x33), Constant(0x22), Constant(0x11)];
    AsWrittenFourBytes(CONCRETE, 32, bytes, 0x44, 0x33, 0x22, 0x11);
    AssembleFourBytes(CONCRETE, 32, bytes, [0x44, 0x33, 0x22, 0x11]);
  }

  /** The symbolic part of a binary operation on operands that both have one. */
  lemma SymbolicBinary(active: Mask, op: BinOp, a: MultiValue, b: MultiValue)
    requires IsActive(active, Symbolic) && a.symbolic.Some? && b.symbolic.Some?
    ensures BinaryOp(active, op, a, b).symbolic == Some(Bin(op, a.symbolic.value, b.symbolic.value))
  {
  }

  /** The symbolic part of an extraction from an operand that has one. */
  lemma SymbolicExtraction(active: Mask, a: MultiValue, from: nat, to: nat)
    requires IsActive(active, Symbolic) && a.symbolic.Some?
    ensures ExtractOp(active, a, from, to).symbolic == Some(Extract(a.symbolic.value, from, to))
  {
  }

  /**
   * A one-byte read of the byte the read stub returns, with the operand order
   * as written, is symbolically 0 under every assignment.
   */
  lemma StubByteAsWritten(active: Mask, st: DemoState, a0: SymExpr, env: nat -> Word)
    requires IsActive(active, Symbolic)
    ensures var r := AssembleAsWritten(active, 8, [st.MemReadByte(a0)]);
            r.symbolic.Some? && Eval(r.symbolic.value, env) == 0
  {
    var x := env(UNKNOWN_BYTE_VAR);
    var b := st.MemReadByte(a0);
    var lane := BinaryOp(active, ConcatOp(24), Constant(0), b);
    SymbolicBinary(active, ConcatOp(24), Constant(0), b);
    SymbolicExtraction(active, lane, 0, 8);
    var e := Extract(Bin(ConcatOp(24), Const(0), Var(UNKNOWN_BYTE_VAR)), 0, 8);
    assert Eval(e, env) == BitField(ConcatBits(0, x, 24), 0, 8);
    Pow2Bytes();
    PadBelow(x, 24, x * 0x100_0000);
    FieldOfMultiple(x, 24, 8);
  }

  /**
   * The same read assembled little-endian is the low byte of the stub's
   * variable under every assignment.
   */
  lemma StubByteAssembled(active: Mask, st: DemoState, a0: SymExpr, env: nat -> Word)
    requires IsActive(active, Symbolic)
    ensures var r := Assemble(active, 8, [st.MemReadByte(a0)]);
            r.symbolic.Some? && Eval(r.symbolic.value, env) == BitField(env(UNKNOWN_BYTE_VAR), 0, 8)
  {
    var b := st.MemReadByte(a0);
    var lane := BinaryOp(active, ConcatOp(8), b, Constant(0));
    SymbolicBinary(active, ConcatOp(8), b, Constant(0));
    SymbolicExtraction(active, lane, 0, 8);
    var x := env(UNKNOWN_BYTE_VAR);
    var e := Extract(Bin(ConcatOp(8), Var(UNKNOWN_BYTE_VAR), Const(0)), 0, 8);
    assert Eval(e, env) == BitField(ConcatBits(x, 0, 8), 0, 8);
    ConcatLow(x, 0, 8);
  }

  /** Bits `[a, c)` are the byte at `a` plus 256 times bits `[a + 8, c)`. */
  lemma FieldSplitByte(w: Word, a: nat, c: nat)
    requires a + 8 <= c
    ensures BitField(w, a, c) == BitField(w, a, a + 8) + BitField(w, a + 8, c) * 0x100
  {
    FieldSplit(w, a, a + 8, c);
    Pow2Bytes();
    var above := BitField(w, a + 8, c);
    assert Pow2(8) * above == above * 0x100;
  }

  /** A 16- or 32-bit number is its own low 16 or 32 bits. */
  lemma WordWhole(w: Word, n: nat)
    requires (n == 16 && w < 0x1_0000) || (n == 32 && w < WORD_SIZE)
    ensures BitField(w, 0, n) == w
  {
    Pow2Bytes();
    FieldWhole(w, n);
  }

  /** A one-byte number is its own lowest byte. */
  lemma LaneDigits1(w: Word)
    requires w < 0x100
    ensures Lane(w, 0) == w
  {
    Pow2Bytes();
    FieldWhole(w, 8);
  }

  /** A two-byte number is its low byte plus 256 times its high byte. */
  lemma LaneDigits2(w: Word)
    requires w < 0x1_0000
    ensures Lane(w, 0) + Lane(w, 1) * 0x100 == w
  {
    FieldSplitByte(w, 0, 16);
    WordWhole(w, 16);
    DigitPair(w, BitField(w, 0, 16), Lane(w, 0), Lane(w, 1));
  }

  /** A number equal to a two-digit base-256 sum. */
  lemma DigitPair(w: Word, whole: Word, lo: Word, hi: Word)
    requires whole == w && whole == lo + hi * 0x100
    ensures lo + hi * 0x100 == w
  {
  }

  /** Three nested byte splits of a number, flattened. */
  lemma NestedDigits(w: Word, f0: Word, f1: Word, f2: Word, f3: Word, r1: Word, r2: Word)
    requires w == f0 + r1 * 0x100 && r1 == f1 + r2 * 0x100 && r2 == f2 + f3 * 0x100
    ensures f0 + f1 * 0x100 + f2 * 0x1_0000 + f3 * 0x100_0000 == w
  {
  }

  /** A four-byte number is the sum of its bytes at their weights. */
  lemma LaneDigits4(w: Word)
    requires w < WORD_SIZE
    ensures Lane(w, 0) + Lane(w, 1) * 0x100 + Lane(w, 2) * 0x1_0000 + Lane(w, 3) * 0x100_0000 == w
  {
    WordWhole(w, 32);
    FieldSplitByte(w, 0, 32);
    FieldSplitByte(w, 8, 32);
    FieldSplitByte(w, 16, 32);
    NestedDigits(w, Lane(w, 0), Lane(w, 1), Lane(w, 2), Lane(w, 3), BitField(w, 8, 32), BitField(w, 16, 32));
  }

  /** Splitting a number of `nBits` bits into its bytes and joining them again gives it back. */
  lemma LanesLittleEndian(w: Word, nBits: nat)
    requires ValidWidth(nBits) && w < Pow2(nBits)
    ensures LittleEndian(Lanes(w, nBits / 8)) == w
  {
    Pow2Bytes();
    var bs := Lanes(w, nBits / 8);
    LittleEndianDigits(bs);
    if nBits == 8 {
      LaneDigits1(w);
    } else if nBits == 16 {
      LaneDigits2(w);
    } else {
      LaneDigits4(w);
    }
  }

  /**
   * The bytes a write of `nBits` pushes, read back in address order and
   * assembled, give back the written value.
   */
  lemma ByteRoundTrip(active: Mask, nBits: nat, data: MultiValue, w: Word, bytes: seq<MultiValue>)
    requires ValidWidth(nBits) && IsActive(active, Concrete)
    requires data.concrete == Some(Known(w)) && w < Pow2(nBits)
    requires |bytes| == nBits / 8 && forall i :: 0 <= i < |bytes| ==> bytes[i] == ByteOf(active, data, i)
    ensures Assemble(active, nBits, bytes).concrete == Some(Known(w))
  {
    var bs := Lanes(w, nBits / 8);
    forall i | 0 <= i < |bytes|
      ensures bytes[i].concrete == Some(Known(bs[i])) && bs[i] < 0x100
    {
    }
    AssembleLittleEndian(active, nBits, bytes, bs);
    LanesLittleEndian(w, nBits);
  }

  /** A first byte whose concrete bits are unknown makes the whole concrete read unknown. */
  lemma AssembleUnknown(active: Mask, nBits: nat, bytes: seq<MultiValue>)
    requires ValidWidth(nBits) && |bytes| == nBits / 8 && IsActive(active, Concrete)
    requires forall i :: 0 <= i < |bytes| ==> bytes[i].concrete.Some?
    requires bytes[0].concrete == Some(Unknown)
    ensures Assemble(active, nBits, bytes).concrete == Some(Unknown)
  {
    var dword := LaneAt(active, 0, bytes[0]);
    assert dword.concrete == Some(Unknown);
    if nBits >= 16 {
      dword := BinaryOp(active, OrOp, dword, LaneAt(active, 1, bytes[1]));
      assert dword.concrete == Some(Unknown);
    }
    if nBits >= 32 {
      dword := BinaryOp(active, OrOp, dword, LaneAt(active, 2, bytes[2]));
      assert dword.concrete == Some(Unknown);
      dword := BinaryOp(active, OrOp, dword, LaneAt(active, 3, bytes[3]));
      assert dword.concrete == Some(Unknown);
    }
  }

  /** A widened byte is consistent when the byte is. */
  lemma LaneAtConsistent(active: Mask, i: nat, b: MultiValue, env: nat -> Word)
    requires i <= 3 && Consistent(b, env)
    ensures Consistent(LaneAt(active, i, b), env)
  {
    var zero := Constant(0);
    ConstantConsistent(0, env);
    if i == 0 {
      BinaryOpConsistent(active, ConcatOp(8), b, zero, env);
    } else if i == 1 {
      BinaryOpConsistent(active, ConcatOp(8), zero, b, env);
      BinaryOpConsistent(active, ConcatOp(16), BinaryOp(active, ConcatOp(8), zero, b), zero, env);
    } else if i == 2 {
      BinaryOpConsistent(active, ConcatOp(16), zero, b, env);
      BinaryOpConsistent(active, ConcatOp(24), BinaryOp(active, ConcatOp(16), zero, b), zero, env);
    } else {
      BinaryOpConsistent(active, ConcatOp(24), zero, b, env);
    }
  }

  /** The sub-domains of an assembled read agree whenever those of its bytes do. */
  lemma AssembleConsistent(active: Mask, nBits: nat, bytes: seq<MultiValue>, env: nat -> Word)
    requires ValidWidth(nBits) && |bytes| == nBits / 8
    requires forall i :: 0 <= i < |bytes| ==> Consistent(bytes[i], env)
    ensures Consistent(Assemble(active, nBits, bytes), env)
  {
    var dword := LaneAt(active, 0, bytes[0]);
    LaneAtConsistent(active, 0, bytes[0], env);
    if nBits >= 16 {
      LaneAtConsistent(active, 1, bytes[1], env);
      BinaryOpConsistent(active, OrOp, dword, LaneAt(active, 1, bytes[1]), env);
      dword := BinaryOp(active, OrOp, dword, LaneAt(active, 1, bytes[1]));
    }
    if nBits >= 32 {
      LaneAtConsistent(active, 2, bytes[2], env);
      BinaryOpConsistent(active, OrOp, dword, LaneAt(active, 2, bytes[2]), env);
      dword := BinaryOp(active, OrOp, dword, LaneAt(active, 2, bytes[2]));
      LaneAtConsistent(active, 3, bytes[3], env);
      BinaryOpConsistent(active, OrOp, dword, LaneAt(active, 3, bytes[3]), env);
      dword := BinaryOp(active, OrOp, dword, LaneAt(active, 3, bytes[3]));
    }
    ExtractOpConsistent(active, dword, 0, nBits, env);
  }
}
