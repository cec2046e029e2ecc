/**
 * `MultiDomainDemoPolicy`: the multi-domain policy the simulator runs each
 * x86 instruction under.  Before it is triggered only the concrete domain is
 * active; once triggered it enables the allowed sub-domains, restricts INT
 * instructions to the concrete domain, governs the symbolic domain's
 * complexity, reports solver statistics every hundred instructions, zeroes
 * the interval of provably-zero xors, and mirrors memory writes into its own
 * byte log.
 */
module DemoPolicy {
  import opened Wrappers
  import opened MultiValues
  import opened AddressBridge
  import opened ByteLanes
  import opened Governor
  import opened MemoryLog

  /** What the symbolic domain's `equalToZero` answers: a known 1-bit result, or nothing known. */
  datatype ZeroAnswer = Decided(isZero: bool) | Undecided

  /** The instruction kinds the policy tells apart. */
  datatype InsnKind = X86Int | OtherInsn

  /** The instruction being started: its kind and its virtual address. */
  datatype Instruction = Instruction(kind: InsnKind, address: nat)

  /** The SMT solver of the symbolic sub-policy, reduced to its call count since the last reset. */
  class Solver {
    var statsCalls: nat

    constructor (statsCalls: nat)
      ensures this.statsCalls == statsCalls
    {
      this.statsCalls := statsCalls;
    }

    /** `reset_stats`. */
    method ResetStats()
      modifies this
      ensures statsCalls == 0
    {
      statsCalls := 0;
    }
  }

  /** When `xor_` replaces the interval sub-value of the framework's result `retval`. */
  predicate XorOverrides(triggered: bool, active: Mask, retval: MultiValue, equalToZero: SymExpr -> ZeroAnswer) {
    && triggered
    && IsActive(active, Symbolic)
    && retval.symbolic.Some?
    && equalToZero(retval.symbolic.value) == Decided(true)
  }

  /**
   * The result of `xor_`: the framework's xor, with its interval sub-value
   * replaced by the singleton {0} when the symbolic domain proves it zero.
   */
  function XorResult(triggered: bool, active: Mask, a: MultiValue, b: MultiValue,
                     equalToZero: SymExpr -> ZeroAnswer): (r: MultiValue)
    ensures var retval := BinaryOp(active, XorOp, a, b);
            && r.concrete == retval.concrete
            && r.symbolic == retval.symbolic
            && (XorOverrides(triggered, active, retval, equalToZero) ==> r.interval == Some(ZERO_INTERVAL))
            && (!XorOverrides(triggered, active, retval, equalToZero) ==> r == retval)
  {
    var retval := BinaryOp(active, XorOp, a, b);
    if XorOverrides(triggered, active, retval, equalToZero) then retval.(interval := Some(ZERO_INTERVAL)) else retval
  }

  /**
   * When the symbolic domain's zero answers are sound, the override keeps the
   * sub-values of a consistent xor consistent.
   */
  lemma XorResultConsistent(triggered: bool, active: Mask, a: MultiValue, b: MultiValue,
                            equalToZero: SymExpr -> ZeroAnswer, env: nat -> Word)
    requires Consistent(a, env) && Consistent(b, env)
    requires forall e :: equalToZero(e) == Decided(true) ==> Eval(e, env) == 0
    ensures Consistent(XorResult(triggered, active, a, b, equalToZero), env)
  {
    BinaryOpConsistent(active, XorOp, a, b, env);
  }

  /**
   * A value xor-ed with itself: when its concrete bits are known, the
   * framework's concrete result is 0, the value the override gives the
   * interval domain.
   */
  lemma XorSelfConcrete(triggered: bool, active: Mask, a: MultiValue, equalToZero: SymExpr -> ZeroAnswer, x: Word)
    requires IsActive(active, Concrete) && a.concrete == Some(Known(x))
    ensures XorResult(triggered, active, a, a, equalToZero).concrete == Some(Known(0))
  {
    XorSelf(x);
  }

  /**
   * The case the override is for: a value xor-ed with itself.  When the
   * symbolic domain is active, the value has a symbolic part and the solver
   * decides every expression that is zero under all assignments, the
   * interval of the result is {0}.
   */
  lemma XorSelfInterval(active: Mask, a: MultiValue, equalToZero: SymExpr -> ZeroAnswer)
    requires IsActive(active, Symbolic) && a.symbolic.Some?
    requires forall e :: (forall env: nat -> Word :: Eval(e, env) == 0) ==> equalToZero(e) == Decided(true)
    ensures XorResult(true, active, a, a, equalToZero).interval == Some(ZERO_INTERVAL)
  {
    var e := a.symbolic.value;
    forall env: nat -> Word
      ensures Eval(Bin(XorOp, e, e), env) == 0
    {
      XorSelf(Eval(e, env));
    }
  }

  /** The bytes the read path asks the demo state for, at `a0, a0+1, ...`. */
  function ReadBytes(st: DemoState, a0: SymExpr, nBits: nat): (bytes: seq<MultiValue>)
    requires ValidWidth(nBits)
    ensures |bytes| == nBits / 8
    ensures forall i :: 0 <= i < |bytes| ==> bytes[i] == st.MemReadByte(AddressAt(a0, i))
  {
    seq(nBits / 8, i requires 0 <= i < nBits / 8 => st.MemReadByte(AddressAt(a0, i)))
  }

  /**
   * The invariant of the policy's masks and counter: before the trigger only
   * the concrete domain is active and nothing has been counted or governed;
   * the active mask is always either the concrete mask or the allowed mask;
   * the allowed mask only ever loses bits of the one it started with.
   */
  predicate PolicyInvariant(triggered: bool, active: Mask, allowed: Mask, ncalls: nat, initialAllowed: Mask) {
    && (active == CONCRETE || active == allowed)
    && (!triggered ==> active == CONCRETE && ncalls == 0 && allowed == initialAllowed)
    && allowed & !initialAllowed == 0
  }

  /** The mask a triggered `startInstruction` activates for an instruction of kind `kind`. */
  function InstructionMask(kind: InsnKind, allowed: Mask): Mask {
    match kind
    case X86Int => CONCRETE
    case OtherInsn => allowed
  }

  /** A triggered `startInstruction` keeps the invariant, whatever the complexity and instruction. */
  lemma StartKeepsInvariant(active: Mask, allowed: Mask, ncalls: nat, initialAllowed: Mask,
                            complexity: nat, kind: InsnKind)
    requires PolicyInvariant(true, active, allowed, ncalls, initialAllowed)
    ensures var governed := GovernedAllowed(allowed, complexity);
            PolicyInvariant(true, InstructionMask(kind, governed), governed, ncalls + 1, initialAllowed)
  {
    GovernedOnlyClears(allowed, complexity);
    SubsetTransitive(GovernedAllowed(allowed, complexity), allowed, initialAllowed);
  }

  /** `trigger` keeps the invariant. */
  lemma TriggerKeepsInvariant(triggered: bool, active: Mask, allowed: Mask, ncalls: nat, initialAllowed: Mask)
    requires PolicyInvariant(triggered, active, allowed, ncalls, initialAllowed)
    ensures PolicyInvariant(true, allowed, allowed, ncalls, initialAllowed)
  {
  }

  class Policy {
    /** Set by `trigger`; never cleared. */
    var triggered: bool
    /** The sub-domains the policy may enable. */
    var allowedPolicies: Mask
    /** The active-policy mask of the underlying multi-domain policy. */
    var active: Mask
    /** Triggered instructions started so far. */
    var ncalls: nat
    /** The `eip` register in every sub-domain. */
    var eip: MultiValue
    /** The demo's own memory log. */
    const state: DemoState
    /** The symbolic sub-policy's solver, if it has one. */
    const solver: Solver?
    /** The allowed mask the policy was created with. */
    ghost const initialAllowed: Mask
    /** The active mask in force at each call of the framework's `writeMemory`. */
    ghost var superWriteMasks: seq<Mask>

    /**
     * Before the trigger only the concrete domain is active and nothing has
     * been counted or governed; the active mask is always either the concrete
     * mask or the allowed mask; the allowed mask only ever loses bits.
     */
    ghost predicate Valid()
      reads this`triggered, this`active, this`allowedPolicies, this`ncalls
    {
      PolicyInvariant(triggered, active, allowedPolicies, ncalls, initialAllowed)
    }

    /** Construction followed by `init`: only the concrete domain is active. */
    constructor Init(allowedPolicies: Mask, solver: Solver?, eip: MultiValue)
      ensures Valid()
      ensures !triggered && active == CONCRETE && ncalls == 0
      ensures this.allowedPolicies == allowedPolicies && this.solver == solver && this.eip == eip
      ensures fresh(state) && state.memory == [] && superWriteMasks == []
    {
      triggered := false;
      this.allowedPolicies := allowedPolicies;
      active := CONCRETE;
      ncalls := 0;
      this.eip := eip;
      state := new DemoState();
      this.solver := solver;
      initialAllowed := allowedPolicies;
      superWriteMasks := [];
      KeepMask(allowedPolicies);
    }

    /** `trigger`: enable the allowed sub-domains and branch to `targetVa`. */
    method Trigger(targetVa: nat)
      requires Valid()
      modifies this
      ensures Valid()
      ensures triggered && active == allowedPolicies
      ensures HoldsInActive(eip, active, AddressWord(targetVa))
      ensures eip == RegisterWrite(active, old(eip), Constant(AddressWord(targetVa)))
      ensures allowedPolicies == old(allowedPolicies) && ncalls == old(ncalls)
      ensures superWriteMasks == old(superWriteMasks)
    {
      TriggerKeepsInvariant(triggered, active, allowedPolicies, ncalls, initialAllowed);
      active := allowedPolicies;
      WriteEip(targetVa);
      triggered := true;
    }

    /** `symbolic_state_complexity`: the node count over the symbolic register dictionary. */
    method SymbolicStateComplexity(regs: seq<RegisterEntry>) returns (nnodes: nat)
      ensures nnodes == StateComplexity(regs)
    {
      nnodes := 0;
      var i := 0;
      while i < |regs|
        invariant 0 <= i <= |regs|
        invariant nnodes == StateComplexity(regs[..i])
      {
        var reg := regs[i];
        if reg.nbits == 1 || reg.nbits == 8 || reg.nbits == 16 || reg.nbits == 32 {
          match reg.nodes {
            case Some(n) => nnodes := nnodes + n;
            case None =>
          }
        }
        assert regs[..i + 1][..i] == regs[..i];
        i := i + 1;
      }
      assert regs[..i] == regs;
    }

    /**
     * `startInstruction`: when triggered, govern the symbolic domain, pick the
     * active set for the instruction, write its address to `eip`, count it and,
     * every hundredth time, reset the solver's statistics if it has any.
     * Returns whether the statistics were reported and reset.
     */
    method StartInstruction(insn: Instruction, regs: seq<RegisterEntry>) returns (reported: bool)
      requires Valid()
      modifies this, solver
      ensures Valid()
      ensures triggered == old(triggered) && superWriteMasks == old(superWriteMasks)
      ensures !old(triggered) ==>
                && active == old(active) && allowedPolicies == old(allowedPolicies)
                && ncalls == old(ncalls) && eip == old(eip) && !reported
                && (solver != null ==> solver.statsCalls == old(solver.statsCalls))
      ensures old(triggered) ==>
                && allowedPolicies == GovernedAllowed(old(allowedPolicies), StateComplexity(regs))
                && active == InstructionMask(insn.kind, allowedPolicies)
                && eip == RegisterWrite(active, old(eip), Constant(AddressWord(insn.address)))
                && HoldsInActive(eip, active, AddressWord(insn.address))
                && ncalls == old(ncalls) + 1
                && (reported <==> ReportDue(ncalls) && solver != null && old(solver.statsCalls) > 0)
                && (solver != null ==> solver.statsCalls == if reported then 0 else old(solver.statsCalls))
    {
      reported := false;
      if triggered {
        Govern(regs);
        StartKeepsInvariant(old(active), old(allowedPolicies), old(ncalls), initialAllowed,
                            StateComplexity(regs), insn.kind);

        SelectMask(insn.kind);
        WriteEip(insn.address);
        reported := CountInstruction();
      }
    }

    /** The per-instruction mask step of `startInstruction`. */
    method SelectMask(kind: InsnKind)
      modifies this
      ensures active == InstructionMask(kind, allowedPolicies)
      ensures triggered == old(triggered) && allowedPolicies == old(allowedPolicies) && ncalls == old(ncalls)
      ensures eip == old(eip) && superWriteMasks == old(superWriteMasks)
    {
      match kind {
        case X86Int => active := CONCRETE;
        case OtherInsn => active := allowedPolicies;
      }
    }

    /** Write the 32-bit number `va` to `eip` in every active sub-domain. */
    method WriteEip(va: nat)
      modifies this
      ensures eip == RegisterWrite(active, old(eip), Constant(AddressWord(va)))
      ensures HoldsInActive(eip, active, AddressWord(va))
      ensures triggered == old(triggered) && allowedPolicies == old(allowedPolicies) && ncalls == old(ncalls)
      ensures active == old(active) && superWriteMasks == old(superWriteMasks)
    {
      eip := RegisterWrite(active, eip, Constant(AddressWord(va)));
      RegisterWriteHolds(active, old(eip), AddressWord(va));
    }

    /** The governor step of `startInstruction`. */
    method Govern(regs: seq<RegisterEntry>)
      modifies this
      ensures allowedPolicies == GovernedAllowed(old(allowedPolicies), StateComplexity(regs))
      ensures triggered == old(triggered) && active == old(active) && ncalls == old(ncalls) && eip == old(eip)
      ensures superWriteMasks == old(superWriteMasks)
    {
      if allowedPolicies & SYMBOLIC != 0 {
        var complexity := SymbolicStateComplexity(regs);
        if complexity > COMPLEXITY_LIMIT {
          allowedPolicies := allowedPolicies & !SYMBOLIC;
        }
      }
    }

    /**
     * The counting step of `startInstruction`: count the instruction and, on
     * every hundredth, reset the solver's statistics if it has any.
     */
    method CountInstruction() returns (reported: bool)
      modifies this, solver
      ensures ncalls == old(ncalls) + 1
      ensures reported <==> ReportDue(ncalls) && solver != null && old(solver.statsCalls) > 0
      ensures solver != null ==> solver.statsCalls == if reported then 0 else old(solver.statsCalls)
      ensures triggered == old(triggered) && active == old(active) && allowedPolicies == old(allowedPolicies)
      ensures eip == old(eip) && superWriteMasks == old(superWriteMasks)
    {
      reported := false;
      ncalls := ncalls + 1;
      if ncalls % REPORT_INTERVAL == 0 {
        if solver != null {
          if solver.statsCalls > 0 {
            solver.ResetStats();
            reported := true;
          }
        }
      }
    }

    /** `xor_`: the framework's xor, with the interval override of `XorResult`. */
    method Xor(a: MultiValue, b: MultiValue, equalToZero: SymExpr -> ZeroAnswer) returns (r: MultiValue)
      ensures r == XorResult(triggered, active, a, b, equalToZero)
    {
      r := BinaryOp(active, XorOp, a, b);
      if triggered {
        if IsActive(active, Symbolic) && r.symbolic.Some? {
          var answer := equalToZero(r.symbolic.value);
          if answer.Decided? && answer.isZero {
            r := r.(interval := Some(ZERO_INTERVAL));
          }
        }
      }
    }

    /**
     * `readMemory` of `nBits` bits at `addr`.  Untriggered it returns the
     * framework's read, `superRead`; triggered it bridges the address to the
     * symbolic domain and assembles the bytes the demo state returns, lowest
     * address first.
     */
    method ReadMemory(addr: MultiValue, nBits: nat, superRead: MultiValue) returns (r: MultiValue)
      requires triggered ==> BridgeDefined(addr) && Bridgeable(addr) && ValidWidth(nBits)
      ensures !triggered ==> r == superRead
      ensures triggered ==>
                r == Assemble(active, nBits, ReadBytes(state, SymbolicAddress(addr).symbolic.value, nBits))
      ensures triggered && IsActive(active, Concrete) ==> r.concrete == Some(Unknown)
    {
      if !triggered {
        return superRead;
      }
      var bridged := SymbolicAddress(addr);
      var a0 := bridged.symbolic.value;
      var dword := LaneAt(active, 0, state.MemReadByte(a0));
      if nBits >= 16 {
        dword := BinaryOp(active, OrOp, dword, LaneAt(active, 1, state.MemReadByte(AddressAt(a0, 1))));
      }
      if nBits >= 24 {
        dword := BinaryOp(active, OrOp, dword, LaneAt(active, 2, state.MemReadByte(AddressAt(a0, 2))));
      }
      if nBits >= 32 {
        dword := BinaryOp(active, OrOp, dword, LaneAt(active, 3, state.MemReadByte(AddressAt(a0, 3))));
      }
      r := ExtractOp(active, dword, 0, nBits);
      var bytes := ReadBytes(state, a0, nBits);
      assert r == Assemble(active, nBits, bytes);
      if IsActive(active, Concrete) {
        AssembleUnknown(active, nBits, bytes);
      }
    }

    /**
     * `writeMemory` of `nBits` bits of `data` at `addr`.  The framework's write
     * runs with only the concrete domain active, and the previous mask is put
     * back whether it returns or throws (`superThrows`).  When it returned and
     * the policy is triggered, the address is bridged to the symbolic domain
     * and, if that gives a symbolic address, the bytes of `data` are pushed
     * onto the demo's log, lowest address first.  Returns whether the write
     * threw.
     */
    method WriteMemory(addr: MultiValue, data: MultiValue, nBits: nat, superThrows: bool) returns (threw: bool)
      requires Valid()
      requires triggered && !superThrows ==> BridgeDefined(addr)
      requires triggered && !superThrows && Bridgeable(addr) ==> ValidWidth(nBits)
      modifies this, state
      ensures Valid()
      ensures threw == superThrows
      ensures active == old(active)
      ensures superWriteMasks == old(superWriteMasks) + [CONCRETE]
      ensures triggered == old(triggered) && allowedPolicies == old(allowedPolicies)
      ensures ncalls == old(ncalls) && eip == old(eip)
      ensures triggered && !threw && Bridgeable(addr) ==>
                state.memory == NewestFirst(ByteWrites(active, SymbolicAddress(addr).symbolic.value, data, nBits))
                                + old(state.memory)
      ensures !(triggered && !threw && Bridgeable(addr)) ==> state.memory == old(state.memory)
    {
      threw := SuperWrite(superThrows);
      if threw {
        return;
      }

      if triggered {
        var bridged := SymbolicAddress(addr);
        if bridged.symbolic.Some? {
          PushBytes(bridged.symbolic.value, data, nBits);
        }
      }
    }

    /**
     * The framework's own write, run with only the concrete domain active; the
     * previous mask is put back whether it returns or throws (`superThrows`).
     */
    method SuperWrite(superThrows: bool) returns (threw: bool)
      requires Valid()
      modifies this
      ensures Valid()
      ensures threw == superThrows && active == old(active)
      ensures superWriteMasks == old(superWriteMasks) + [CONCRETE]
      ensures triggered == old(triggered) && allowedPolicies == old(allowedPolicies)
      ensures ncalls == old(ncalls) && eip == old(eip)
    {
      var oldPolicies := active;
      active := CONCRETE;
      superWriteMasks := superWriteMasks + [active];
      threw := superThrows;
      active := oldPolicies;
    }

    /** Push the `nBits / 8` bytes of `data` onto the log at `a0, a0+1, ...`, lowest address first. */
    method PushBytes(a0: SymExpr, data: MultiValue, nBits: nat)
      requires ValidWidth(nBits)
      modifies state
      ensures state.memory == NewestFirst(ByteWrites(active, a0, data, nBits)) + old(state.memory)
    {
      ghost var cells := ByteWrites(active, a0, data, nBits);
      ghost var base := state.memory;
      assert |cells| == nBits / 8 by { assert nBits == 8 || nBits == 16 || nBits == 32; }
      assert state.memory == NewestFirst(cells[..0]) + base;
      PushByte(a0, data, nBits, 0, cells, base);
      ghost var pushed := 1;
      if nBits >= 16 {
        PushByte(a0, data, nBits, 1, cells, base);
        pushed := 2;
      }
      if nBits >= 24 {
        PushByte(a0, data, nBits, 2, cells, base);
        pushed := 3;
      }
      if nBits >= 32 {
        PushByte(a0, data, nBits, 3, cells, base);
        pushed := 4;
      }
      assert cells[..pushed] == cells;
    }

    /** Push byte `i` of `data` at `a0 + i` (`a0` itself for byte 0), after bytes `0..i-1`. */
    method PushByte(a0: SymExpr, data: MultiValue, nBits: nat, i: nat, ghost cells: seq<MemoryCell>, ghost base: seq<MemoryCell>)
      requires ValidWidth(nBits) && cells == ByteWrites(active, a0, data, nBits)
      requires 8 * i < nBits
      requires state.memory == NewestFirst(cells[..i]) + base
      modifies state
      ensures state.memory == NewestFirst(cells[..i + 1]) + base
    {
      assert i < |cells|;
      state.MemWriteByte(AddressAt(a0, i), ByteOf(active, data, i));
      NewestFirstPush(cells, i);
    }
  }
}
