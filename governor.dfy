/**
 * The pure parts of `startInstruction` and `symbolic_state_complexity`: the
 * one-way complexity governor over the allowed-policy mask, the node count of
 * the symbolic register state, and the every-hundredth-call report schedule.
 */
module Governor {
  import opened Wrappers
  import opened MultiValues

  /** Above this many expression nodes the symbolic domain is disallowed. */
  const COMPLEXITY_LIMIT: nat := 10000

  /** Solver statistics are looked at once every this many triggered instructions. */
  const REPORT_INTERVAL: nat := 100

  /**
   * The allowed-policy mask after the governor has looked at a symbolic state
   * of `complexity` nodes.
   */
  function GovernedAllowed(allowed: Mask, complexity: nat): Mask {
    if allowed & SYMBOLIC != 0 && complexity > COMPLEXITY_LIMIT then allowed & !SYMBOLIC else allowed
  }

  /** The governor keeps every bit other than SYMBOLIC. */
  lemma GovernedKeepsOthers(allowed: Mask, complexity: nat)
    ensures GovernedAllowed(allowed, complexity) & !SYMBOLIC == allowed & !SYMBOLIC
  {
  }

  /** The governor never sets a bit. */
  lemma GovernedOnlyClears(allowed: Mask, complexity: nat)
    ensures GovernedAllowed(allowed, complexity) & !allowed == 0
  {
  }

  /** The SYMBOLIC bit survives the governor exactly when it was set and the state is not too complex. */
  lemma GovernedSymbolic(allowed: Mask, complexity: nat)
    ensures IsActive(GovernedAllowed(allowed, complexity), Symbolic) <==>
              IsActive(allowed, Symbolic) && complexity <= COMPLEXITY_LIMIT
  {
  }

  /** The allowed-policy mask after the governor has seen the complexities `cs`, in order. */
  function AllowedAfter(allowed: Mask, cs: seq<nat>): Mask
    decreases |cs|
  {
    if cs == [] then allowed else AllowedAfter(GovernedAllowed(allowed, cs[0]), cs[1..])
  }

  /** A mask has no bit outside itself. */
  lemma KeepMask(allowed: Mask)
    ensures allowed & !allowed == 0
  {
  }

  /** Over any run the governor keeps every bit other than SYMBOLIC. */
  lemma {:induction false} GovernorKeepsOthers(allowed: Mask, cs: seq<nat>)
    ensures AllowedAfter(allowed, cs) & !SYMBOLIC == allowed & !SYMBOLIC
    decreases |cs|
  {
    if cs != [] {
      GovernedKeepsOthers(allowed, cs[0]);
      GovernorKeepsOthers(GovernedAllowed(allowed, cs[0]), cs[1..]);
    }
  }

  /** Over any run the governor never sets a bit that was clear. */
  lemma {:induction false} GovernorOnlyClears(allowed: Mask, cs: seq<nat>)
    ensures AllowedAfter(allowed, cs) & !allowed == 0
    decreases |cs|
  {
    if cs == [] {
      KeepMask(allowed);
    } else {
      var next := GovernedAllowed(allowed, cs[0]);
      GovernedOnlyClears(allowed, cs[0]);
      GovernorOnlyClears(next, cs[1..]);
      SubsetTransitive(AllowedAfter(next, cs[1..]), next, allowed);
    }
  }

  /**
   * Over any run the SYMBOLIC bit survives exactly when it was set and no
   * complexity the governor saw exceeded the limit.
   */
  lemma {:induction false} GovernorOneWay(allowed: Mask, cs: seq<nat>)
    ensures IsActive(AllowedAfter(allowed, cs), Symbolic) <==>
              IsActive(allowed, Symbolic) && forall i :: 0 <= i < |cs| ==> cs[i] <= COMPLEXITY_LIMIT
    decreases |cs|
  {
    if cs != [] {
      GovernedSymbolic(allowed, cs[0]);
      GovernorOneWay(GovernedAllowed(allowed, cs[0]), cs[1..]);
      assert forall i :: 0 <= i < |cs[1..]| ==> cs[1..][i] == cs[i + 1];
    }
  }

  /** Mask inclusion is transitive. */
  lemma SubsetTransitive(a: Mask, b: Mask, c: Mask)
    requires a & !b == 0 && b & !c == 0
    ensures a & !c == 0
  {
  }

  /** Once the SYMBOLIC bit is gone from the allowed mask, no complexity brings it back. */
  lemma {:induction false} SymbolicStaysOff(allowed: Mask, cs: seq<nat>)
    requires !IsActive(allowed, Symbolic)
    ensures AllowedAfter(allowed, cs) == allowed
    decreases |cs|
  {
    if cs != [] {
      SymbolicStaysOff(GovernedAllowed(allowed, cs[0]), cs[1..]);
    }
  }

  /** Whether the counter value `n`, just incremented, triggers a statistics report. */
  predicate ReportDue(n: nat) {
    n % REPORT_INTERVAL == 0
  }

  /** How many of the counter values `1..n` trigger a report. */
  function ReportsUpTo(n: nat): nat {
    if n == 0 then 0 else ReportsUpTo(n - 1) + (if ReportDue(n) then 1 else 0)
  }

  /** After `n` triggered instructions exactly `n / 100` reports have fallen due. */
  lemma {:induction false} ReportsUpToCount(n: nat)
    ensures ReportsUpTo(n) == n / REPORT_INTERVAL
  {
    if n > 0 {
      ReportsUpToCount(n - 1);
      if n % REPORT_INTERVAL == 0 {
        assert n / REPORT_INTERVAL == (n - 1) / REPORT_INTERVAL + 1;
      } else {
        assert n / REPORT_INTERVAL == (n - 1) / REPORT_INTERVAL;
      }
    }
  }

  /**
   * One entry of the symbolic register dictionary: the register's width and
   * the node count of its expression, `None` where reading the register
   * throws because the state does not implement it.
   */
  datatype RegisterEntry = RegisterEntry(nbits: nat, nodes: Option<nat>)

  /** Only registers of width 1, 8, 16 or 32 are read, and only readable ones counted. */
  predicate Counted(r: RegisterEntry) {
    (r.nbits == 1 || r.nbits == 8 || r.nbits == 16 || r.nbits == 32) && r.nodes.Some?
  }

  /** What one register adds to the node count. */
  function Contribution(r: RegisterEntry): nat {
    if Counted(r) then r.nodes.value else 0
  }

  /** The node count over the registers `regs`, in dictionary order. */
  function StateComplexity(regs: seq<RegisterEntry>): nat {
    if regs == [] then 0 else StateComplexity(regs[..|regs| - 1]) + Contribution(regs[|regs| - 1])
  }

  /** The node count of two runs of registers is the sum of their counts. */
  lemma {:induction false} StateComplexityAppend(a: seq<RegisterEntry>, b: seq<RegisterEntry>)
    ensures StateComplexity(a + b) == StateComplexity(a) + StateComplexity(b)
    decreases |b|
  {
    if b == [] {
      assert a + b == a;
    } else {
      var b' := b[..|b| - 1];
      assert (a + b)[..|a + b| - 1] == a + b';
      assert (a + b)[|a + b| - 1] == b[|b| - 1];
      StateComplexityAppend(a, b');
    }
  }

  /** The state counts zero nodes exactly when no register contributes any. */
  lemma {:induction false} StateComplexityZero(regs: seq<RegisterEntry>)
    ensures StateComplexity(regs) == 0 <==> forall i :: 0 <= i < |regs| ==> Contribution(regs[i]) == 0
    decreases |regs|
  {
    if regs != [] {
      var init := regs[..|regs| - 1];
      StateComplexityZero(init);
      assert forall i :: 0 <= i < |init| ==> init[i] == regs[i];
    }
  }
}
