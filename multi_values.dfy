/**
 * The values the multi-domain policy works on: a multi-value holds one
 * optional sub-value per sub-domain (concrete, interval, symbolic).
 *
 * The operations of ROSE's MultiSemantics policy that the demo policy calls
 * (xor_, or_, concat, extract, writeRegister, the number constructor) are
 * framework code that is not part of this model.  They are given here the
 * meaning the demo relies on: each operation is carried out only in the
 * active sub-domains whose operands are valid; in the concrete domain it has
 * its bit-field meaning on known bits; in the interval and symbolic domains
 * its result is an uninterpreted term.  `Eval` gives the symbolic terms their
 * meaning under an assignment of the variables, and `Consistent` says when
 * the sub-values of one multi-value describe the same bits.
 */
module MultiValues {
  import opened Wrappers

  /** The sub-domains of the demo policy. */
  datatype Domain = Concrete | Interval | Symbolic

  /** The active-policy set, an `unsigned` bit mask with one bit per sub-domain. */
  type Mask = bv32

  const CONCRETE: Mask := 1
  const INTERVAL: Mask := 2
  const SYMBOLIC: Mask := 4

  function MaskOf(d: Domain): (m: Mask)
    ensures m == CONCRETE || m == INTERVAL || m == SYMBOLIC
  {
    match d
    case Concrete => CONCRETE
    case Interval => INTERVAL
    case Symbolic => SYMBOLIC
  }

  predicate IsActive(mask: Mask, d: Domain) {
    mask & MaskOf(d) != 0
  }

  /** The number of distinct 32-bit values. */
  const WORD_SIZE: nat := 0x1_0000_0000

  /**
   * The bits of a value of at most 32 bits, read as an unsigned number.  A
   * `ValueType<n>` holds a number below 2^n; the operations below keep to
   * that width where the framework truncates.
   */
  type Word = nat

  /** Truncates an address to the 32-bit value the demo builds from it. */
  function AddressWord(va: nat): (w: Word)
    ensures w < WORD_SIZE && (va < WORD_SIZE ==> w == va)
  {
    va % WORD_SIZE
  }

  /** Binary operations the demo asks of its sub-domains. */
  datatype BinOp =
    | XorOp
    | OrOp
    | ConcatOp(loWidth: nat)  // first operand in the low `loWidth` bits, second above it

  /** A concrete sub-value: known bits, or a value the concrete domain does not know. */
  datatype ConcreteValue = Known(bits: Word) | Unknown

  /** An interval sub-value: a range, or the uninterpreted result of an interval operation. */
  datatype IntervalValue =
    | Range(lo: Word, hi: Word)
    | IntervalBin(op: BinOp, left: IntervalValue, right: IntervalValue)
    | IntervalExtract(arg: IntervalValue, from: nat, to: nat)

  /** A symbolic sub-value: an expression over 32-bit variables. */
  datatype SymExpr =
    | Const(bits: Word)
    | Var(name: nat)
    | Add(base: SymExpr, offset: Word)
    | Bin(op: BinOp, left: SymExpr, right: SymExpr)
    | Extract(arg: SymExpr, from: nat, to: nat)

  /** One sub-value per sub-domain; `None` where the sub-value is not valid. */
  datatype MultiValue = MultiValue(
    concrete: Option<ConcreteValue>,
    interval: Option<IntervalValue>,
    symbolic: Option<SymExpr>)

  /** The singleton interval {0}. */
  const ZERO_INTERVAL: IntervalValue := Range(0, 0)

  function Pow2(n: nat): (p: nat)
    ensures p >= 1
  {
    if n == 0 then 1 else 2 * Pow2(n - 1)
  }

  /** The powers of two the byte lanes use. */
  lemma Pow2Bytes()
    ensures Pow2(0) == 1 && Pow2(8) == 0x100 && Pow2(16) == 0x1_0000
    ensures Pow2(24) == 0x100_0000 && Pow2(32) == WORD_SIZE
  {
  }

  /** Bitwise or, one bit at a time from the lowest. */
  function OrBits(x: Word, y: Word): Word
    decreases x + y
  {
    if x == 0 then y
    else if y == 0 then x
    else 2 * OrBits(x / 2, y / 2) + (if x % 2 == 1 || y % 2 == 1 then 1 else 0)
  }

  /** Bitwise exclusive or, one bit at a time from the lowest. */
  function XorBits(x: Word, y: Word): Word
    decreases x + y
  {
    if x == 0 then y
    else if y == 0 then x
    else 2 * XorBits(x / 2, y / 2) + (if x % 2 == y % 2 then 0 else 1)
  }

  /** `lo`'s low `loWidth` bits with `hi` placed above them, one bit at a time. */
  function ConcatBits(lo: Word, hi: Word, loWidth: nat): Word
    decreases loWidth
  {
    if loWidth == 0 then hi else lo % 2 + 2 * ConcatBits(lo / 2, hi, loWidth - 1)
  }

  /** Bits `[from, until)` of `w`, moved down to bit 0, one bit at a time. */
  function BitField(w: Word, from: nat, until: nat): Word
    decreases until
  {
    if until <= from then 0
    else if from > 0 then BitField(w / 2, from - 1, until - 1)
    else w % 2 + 2 * BitField(w / 2, 0, until - 1)
  }

  /** The concrete meaning of a binary operation. */
  function ApplyBin(op: BinOp, x: Word, y: Word): Word {
    match op
    case XorOp => XorBits(x, y)
    case OrOp => OrBits(x, y)
    case ConcatOp(loWidth) => ConcatBits(x, y, loWidth)
  }

  /** The bits a symbolic expression stands for when variable `v` holds `env(v)`. */
  function Eval(e: SymExpr, env: nat -> Word): Word {
    match e
    case Const(bits) => bits
    case Var(name) => env(name)
    case Add(base, offset) => (Eval(base, env) + offset) % WORD_SIZE
    case Bin(op, left, right) => ApplyBin(op, Eval(left, env), Eval(right, env))
    case Extract(arg, from, to) => BitField(Eval(arg, env), from, to)
  }

  /** A value xor-ed with itself is zero. */
  lemma {:induction false} XorSelf(x: Word)
    ensures XorBits(x, x) == 0
  {
    if x != 0 {
      XorSelf(x / 2);
    }
  }

  /** Bitwise or does not depend on the order of its operands. */
  lemma {:induction false} OrCommutes(x: Word, y: Word)
    ensures OrBits(x, y) == OrBits(y, x)
    decreases x + y
  {
    if x != 0 && y != 0 {
      OrCommutes(x / 2, y / 2);
    }
  }

  /** Or-ing bits above the low `k` bits of `lo` adds them. */
  lemma {:induction false} OrDisjoint(lo: Word, hi: Word, k: nat)
    requires lo < Pow2(k)
    ensures OrBits(lo, hi * Pow2(k)) == lo + hi * Pow2(k)
  {
    if k > 0 && lo != 0 && hi != 0 {
      var m := hi * Pow2(k - 1);
      assert hi * Pow2(k) == 2 * m;
      OrDisjoint(lo / 2, hi, k - 1);
    }
  }

  /** Concatenating below a number that fits its width is adding the shifted high part. */
  lemma {:induction false} ConcatBelow(lo: Word, hi: Word, k: nat)
    requires lo < Pow2(k)
    ensures ConcatBits(lo, hi, k) == lo + hi * Pow2(k)
  {
    if k > 0 {
      var m := hi * Pow2(k - 1);
      assert hi * Pow2(k) == 2 * m;
      ConcatBelow(lo / 2, hi, k - 1);
    }
  }

  /** The lowest bit and the rest of `b + 2 * r`, for a bit `b`. */
  lemma DigitSplit(b: nat, r: nat)
    requires b < 2
    ensures (b + 2 * r) % 2 == b && (b + 2 * r) / 2 == r
  {
  }

  /** The low `k` bits of a concatenation are those of its low operand. */
  lemma {:induction false} ConcatLow(lo: Word, hi: Word, k: nat)
    ensures BitField(ConcatBits(lo, hi, k), 0, k) == BitField(lo, 0, k)
  {
    if k > 0 {
      var rest := ConcatBits(lo / 2, hi, k - 1);
      ConcatLow(lo / 2, hi, k - 1);
      DigitSplit(lo % 2, rest);
    }
  }

  /** A field of `until - from` bits is below 2^(until - from). */
  lemma {:induction false} FieldBound(w: Word, from: nat, until: nat)
    requires from <= until
    ensures BitField(w, from, until) < Pow2(until - from)
    decreases until
  {
    if from < until {
      if from > 0 {
        FieldBound(w / 2, from - 1, until - 1);
      } else {
        FieldBound(w / 2, 0, until - 1);
      }
    }
  }

  /** The low `n` bits of a number below 2^n are the number. */
  lemma {:induction false} FieldWhole(w: Word, n: nat)
    requires w < Pow2(n)
    ensures BitField(w, 0, n) == w
  {
    if n > 0 {
      FieldWhole(w / 2, n - 1);
    }
  }

  /** Bits `[a, c)` are bits `[a, b)` with bits `[b, c)` placed above them. */
  lemma {:induction false} FieldSplit(w: Word, a: nat, b: nat, c: nat)
    requires a <= b <= c
    ensures BitField(w, a, c) == BitField(w, a, b) + Pow2(b - a) * BitField(w, b, c)
    decreases c
  {
    if a < b < c {
      if a > 0 {
        FieldSplit(w / 2, a - 1, b - 1, c - 1);
      } else {
        FieldSplit(w / 2, 0, b - 1, c - 1);
        var x := BitField(w, b, c);
        assert Pow2(b) * x == 2 * (Pow2(b - 1) * x);
      }
    }
  }

  /** The low `n` bits of a multiple of 2^k, `n <= k`, are zero. */
  lemma {:induction false} FieldOfMultiple(hi: Word, k: nat, n: nat)
    requires n <= k
    ensures BitField(hi * Pow2(k), 0, n) == 0
  {
    if n > 0 {
      var m := hi * Pow2(k - 1);
      assert hi * Pow2(k) == 2 * m;
      FieldOfMultiple(hi, k - 1, n - 1);
    }
  }

  /**
   * The sub-values of `v` agree under `env`: when the concrete bits are known,
   * the symbolic expression evaluates to them and a range contains them.
   * Uninterpreted interval terms constrain nothing.
   */
  ghost predicate Consistent(v: MultiValue, env: nat -> Word) {
    v.concrete.Some? && v.concrete.value.Known? ==>
      var c := v.concrete.value.bits;
      && (v.symbolic.Some? ==> Eval(v.symbolic.value, env) == c)
      && (v.interval.Some? && v.interval.value.Range? ==>
            v.interval.value.lo <= c <= v.interval.value.hi)
  }

  /** `ValueType<n>(bits)`: the same number in every sub-domain. */
  function Constant(bits: Word): MultiValue {
    MultiValue(Some(Known(bits)), Some(Range(bits, bits)), Some(Const(bits)))
  }

  /** A number is consistent in every sub-domain. */
  lemma ConstantConsistent(bits: Word, env: nat -> Word)
    ensures Consistent(Constant(bits), env)
  {
  }

  function ConcreteBin(op: BinOp, x: ConcreteValue, y: ConcreteValue): ConcreteValue {
    if x.Known? && y.Known? then Known(ApplyBin(op, x.bits, y.bits)) else Unknown
  }

  function ConcreteExtract(x: ConcreteValue, from: nat, to: nat): ConcreteValue {
    if x.Known? then Known(BitField(x.bits, from, to)) else Unknown
  }

  /** A MultiSemantics binary operation (`xor_`, `or_`, `concat`) under the active set. */
  function BinaryOp(active: Mask, op: BinOp, a: MultiValue, b: MultiValue): MultiValue {
    MultiValue(
      if IsActive(active, Concrete) && a.concrete.Some? && b.concrete.Some?
      then Some(ConcreteBin(op, a.concrete.value, b.concrete.value)) else None,
      if IsActive(active, Interval) && a.interval.Some? && b.interval.Some?
      then Some(IntervalBin(op, a.interval.value, b.interval.value)) else None,
      if IsActive(active, Symbolic) && a.symbolic.Some? && b.symbolic.Some?
      then Some(Bin(op, a.symbolic.value, b.symbolic.value)) else None)
  }

  /** The MultiSemantics `extract<from, to>` under the active set. */
  function ExtractOp(active: Mask, a: MultiValue, from: nat, to: nat): MultiValue {
    MultiValue(
      if IsActive(active, Concrete) && a.concrete.Some?
      then Some(ConcreteExtract(a.concrete.value, from, to)) else None,
      if IsActive(active, Interval) && a.interval.Some?
      then Some(IntervalExtract(a.interval.value, from, to)) else None,
      if IsActive(active, Symbolic) && a.symbolic.Some?
      then Some(Extract(a.symbolic.value, from, to)) else None)
  }

  /** The MultiSemantics `writeRegister`: the active sub-domains take the new value. */
  function RegisterWrite(active: Mask, current: MultiValue, value: MultiValue): MultiValue {
    MultiValue(
      if IsActive(active, Concrete) then value.concrete else current.concrete,
      if IsActive(active, Interval) then value.interval else current.interval,
      if IsActive(active, Symbolic) then value.symbolic else current.symbolic)
  }

  /** Every active sub-domain of `reg` holds exactly the 32-bit number `bits`. */
  predicate HoldsInActive(reg: MultiValue, active: Mask, bits: Word) {
    && (IsActive(active, Concrete) ==> reg.concrete == Some(Known(bits)))
    && (IsActive(active, Interval) ==> reg.interval == Some(Range(bits, bits)))
    && (IsActive(active, Symbolic) ==> reg.symbolic == Some(Const(bits)))
  }

  /** Writing a number through the active set makes every active sub-domain hold it. */
  lemma RegisterWriteHolds(active: Mask, current: MultiValue, bits: Word)
    ensures HoldsInActive(RegisterWrite(active, current, Constant(bits)), active, bits)
  {
  }

  /** A binary operation on consistent operands gives a consistent result. */
  lemma BinaryOpConsistent(active: Mask, op: BinOp, a: MultiValue, b: MultiValue, env: nat -> Word)
    requires Consistent(a, env) && Consistent(b, env)
    ensures Consistent(BinaryOp(active, op, a, b), env)
  {
  }

  /** An extraction from a consistent operand gives a consistent result. */
  lemma ExtractOpConsistent(active: Mask, a: MultiValue, from: nat, to: nat, env: nat -> Word)
    requires Consistent(a, env)
    ensures Consistent(ExtractOp(active, a, from, to), env)
  {
  }
}
