/**
 * The concrete-to-symbolic address bridge that both `readMemory` and
 * `writeMemory` run before touching the demo's own memory: a missing symbolic
 * address is built from the concrete one; the interval-to-symbolic direction
 * is an unimplemented FIXME and leaves the symbolic address missing.
 */
module AddressBridge {
  import opened Wrappers
  import opened MultiValues

  /** The source asserts that a valid concrete address it converts is known. */
  predicate BridgeDefined(addr: MultiValue) {
    addr.symbolic.None? && addr.interval.None? && addr.concrete.Some? ==> addr.concrete.value.Known?
  }

  /** After the bridge the address has a symbolic sub-value. */
  predicate Bridgeable(addr: MultiValue) {
    addr.symbolic.Some? || (addr.interval.None? && addr.concrete.Some?)
  }

  /** The address with its symbolic sub-value filled in where the bridge can do so. */
  function SymbolicAddress(addr: MultiValue): (r: MultiValue)
    requires BridgeDefined(addr)
    ensures r.concrete == addr.concrete && r.interval == addr.interval
    ensures addr.symbolic.Some? ==> r.symbolic == addr.symbolic
    ensures r.symbolic.Some? <==> Bridgeable(addr)
    ensures addr.symbolic.None? && r.symbolic.Some? ==>
              forall env :: Eval(r.symbolic.value, env) == addr.concrete.value.bits
  {
    if addr.symbolic.Some? then addr
    else if addr.interval.Some? then addr  // interval-to-symbolic conversion is not implemented
    else if addr.concrete.Some? then addr.(symbolic := Some(Const(addr.concrete.value.bits)))
    else addr
  }

  /** The bridge keeps the sub-values consistent. */
  lemma SymbolicAddressConsistent(addr: MultiValue, env: nat -> Word)
    requires BridgeDefined(addr) && Consistent(addr, env)
    ensures Consistent(SymbolicAddress(addr), env)
  {
  }

  /** Bridging twice is bridging once. */
  lemma SymbolicAddressIdempotent(addr: MultiValue)
    requires BridgeDefined(addr)
    ensures BridgeDefined(SymbolicAddress(addr))
    ensures SymbolicAddress(SymbolicAddress(addr)) == SymbolicAddress(addr)
  {
  }
}
