# MultiDomainDemoPolicy, modelled in Dafny

This project models the ROSE simulator's demonstration multi-domain policy,
`MultiDomainDemoPolicy` and its memory state `MultiDomainDemoState`. The policy
runs each simulated x86 instruction in up to three semantic sub-domains at once:
concrete, interval and symbolic. The model covers the following:

- **Activation.** Before `trigger` only the concrete sub-domain is active
  (`init`). `trigger` enables the allowed sub-domains and branches to the
  target address by writing `eip`.
- **`startInstruction`, when triggered.**
  - A one-way complexity governor: the symbolic sub-domain is disallowed for
    good once the symbolic register state holds more than 10000 expression
    nodes.
  - A per-instruction mask: `INT` runs in the concrete domain only; every other
    instruction runs in all allowed domains.
  - The instruction address is written to `eip` in every active domain.
  - An instruction counter: on every hundredth instruction the solver's
    statistics are reported and reset, provided a solver exists and has been
    called.
- **`xor_`.** It sets the interval sub-value to {0} when the symbolic domain
  proves the result is zero.
- **`symbolic_state_complexity`.** A sum of node counts over the registers of
  width 1, 8, 16 and 32 that can be read.
- **`readMemory` and `writeMemory`.**
  - The concrete-to-symbolic address bridge.
  - Little-endian decomposition of a write into bytes, pushed onto the demo's
    cell list.
  - Assembly of a read from per-byte reads. The source's `concat` operand
    order does not give little-endian values (see Findings). The policy
    model uses the corrected little-endian assembly, and the as-written
    order is modelled next to it.
  - Restoring the active mask after the framework's own write, whether that
    write returns or throws.
- **The demo state.** `mem_write_byte` pushes a cell onto the front of the
  list. `mem_read_byte` is a stub that returns a default byte and never looks
  at the list. For that reason the model makes no read-after-write claim.

## Modules

- `wrappers.dfy`: `Option`.
- `multi_values.dfy`: the sub-domain mask and the values.
  - Masks and values: the sub-domain bits (CONCRETE = 1, INTERVAL = 2,
    SYMBOLIC = 4), multi-domain values with optional concrete, interval and
    symbolic sub-values, and symbolic expressions with their evaluation.
  - Bit arithmetic on unbounded naturals: `or`, `xor`, `concat` with ROSE's
    operand order (first operand low), and bit-field extraction.
  - The framework's operations as this file uses them: `or_`, `xor_`,
    `concat`, `extract` and register writes. Each is applied in every active
    domain where both operands have a sub-value.
- `address_bridge.dfy`: the concrete-to-symbolic address bridge.
- `memory_log.dfy`: `MultiDomainDemoState`. The cell list, `mem_write_byte` and
  `mem_read_byte`.
- `byte_lanes.dfy`:
  - the byte decomposition of a write and the lane assembly of a read;
  - the little-endian round trip;
  - the as-written assembly of the Finding below.
- `governor.dfy`: the complexity governor, the report schedule and the register
  node count.
- `demo_policy.dfy`: the policy class. It holds the active and allowed masks,
  `triggered`, the instruction counter, `eip`, the demo state and the solver.
  - `xor_`'s specification.
  - The mask invariant: the active mask is either CONCRETE or the allowed mask,
    and the allowed mask only loses bits.

## Model

| member | source | states |
|---|---|---|
| DemoPolicy.Policy.Init | projects/simulator/demos/MultiWithConversionTpl.h:8-15 | after `init` the policy is untriggered, only the concrete domain is active, nothing is counted and the memory log is empty; the invariant holds |
| DemoPolicy.Policy.Trigger | projects/simulator/demos/MultiWithConversionTpl.h:45-51 | the active mask becomes the allowed mask, `eip` holds the target address in every active domain, the policy is triggered; allowed mask and counter unchanged; the invariant is kept |
| DemoPolicy.TriggerKeepsInvariant | projects/simulator/demos/MultiWithConversionTpl.h:45-51 | activating the allowed mask keeps the mask invariant from any state that satisfies it |
| DemoPolicy.Policy.StartInstruction | projects/simulator/demos/MultiWithConversionTpl.h:55-120 | untriggered: nothing changes. Triggered: the allowed mask is the governed one, the active mask is CONCRETE for INT and the allowed mask otherwise, `eip` holds the instruction address in every active domain, the counter goes up by one, and a report happens (and the solver's statistics become 0) exactly when the count is a multiple of 100, a solver exists and its call count is positive; the invariant is kept |
| DemoPolicy.StartKeepsInvariant | projects/simulator/demos/MultiWithConversionTpl.h:69-92 | governing and then selecting the instruction's mask keeps the invariant: active is CONCRETE or the allowed mask, and the allowed mask stays within the initial one |
| DemoPolicy.Policy.Govern | projects/simulator/demos/MultiWithConversionTpl.h:69-75 | the allowed mask becomes the governor's function of the old mask and the state's node count; nothing else changes |
| DemoPolicy.Policy.SelectMask | projects/simulator/demos/MultiWithConversionTpl.h:78-92 | the active mask is CONCRETE for INT, the allowed mask for any other instruction; nothing else changes |
| DemoPolicy.Policy.WriteEip | projects/simulator/demos/MultiWithConversionTpl.h:99 | the 32-bit address holds in `eip` in every active domain; sub-values of inactive domains are kept |
| DemoPolicy.Policy.CountInstruction | projects/simulator/demos/MultiWithConversionTpl.h:105-117 | the counter goes up by one; reported iff the new count is a multiple of 100, the solver exists and its call count was positive; the solver's count is reset exactly when reported |
| Governor.GovernorOneWay | projects/simulator/demos/MultiWithConversionTpl.h:69-75 | over any run of complexities, SYMBOLIC stays allowed iff it was allowed and no complexity exceeded 10000 |
| Governor.GovernorOnlyClears | projects/simulator/demos/MultiWithConversionTpl.h:69-75 | over any run the governor never sets a bit that was clear |
| Governor.GovernorKeepsOthers | projects/simulator/demos/MultiWithConversionTpl.h:69-75 | over any run every bit other than SYMBOLIC is unchanged |
| Governor.SymbolicStaysOff | projects/simulator/demos/MultiWithConversionTpl.h:69-75 | once SYMBOLIC is disallowed, the allowed mask never changes again |
| Governor.GovernedKeepsOthers | projects/simulator/demos/MultiWithConversionTpl.h:73 | one governor step keeps every bit other than SYMBOLIC |
| Governor.GovernedOnlyClears | projects/simulator/demos/MultiWithConversionTpl.h:73 | one governor step never sets a bit |
| Governor.GovernedSymbolic | projects/simulator/demos/MultiWithConversionTpl.h:69-75 | after one step SYMBOLIC is allowed iff it was and the complexity is at most 10000 |
| Governor.ReportsUpToCount | projects/simulator/demos/MultiWithConversionTpl.h:105-107 | after n counted instructions exactly n / 100 of them fell due for a report |
| DemoPolicy.Policy.SymbolicStateComplexity | projects/simulator/demos/MultiWithConversionTpl.h:176-195 | the loop's result is the node count summed over the registers of width 1, 8, 16 or 32 that can be read, in dictionary order |
| Governor.StateComplexityAppend | projects/simulator/demos/MultiWithConversionTpl.h:180-194 | the count over two runs of registers is the sum of the two counts |
| Governor.StateComplexityZero | projects/simulator/demos/MultiWithConversionTpl.h:180-194 | the count is zero iff no register contributes a node |
| DemoPolicy.XorResult | projects/simulator/demos/MultiWithConversionTpl.h:148-172 | concrete and symbolic sub-values are the framework's xor; when triggered, symbolic active, the symbolic result present and proved zero, the interval becomes {0}; otherwise the result is the framework's xor unchanged |
| DemoPolicy.Policy.Xor | projects/simulator/demos/MultiWithConversionTpl.h:148-172 | the method's result is `XorResult` of the policy's state |
| DemoPolicy.XorResultConsistent | projects/simulator/demos/MultiWithConversionTpl.h:158-168 | if the solver's zero answers are sound, the override keeps consistent operands' result consistent across domains |
| DemoPolicy.XorSelfInterval | projects/simulator/demos/MultiWithConversionTpl.h:152-167 | a value xor-ed with itself gets the interval {0} when triggered, with the symbolic domain active and a symbolic part, provided the solver decides every expression that is zero under all assignments |
| DemoPolicy.XorSelfConcrete | projects/simulator/demos/MultiWithConversionTpl.h:152-157 | a known value xor-ed with itself is concretely 0, the value the override gives the interval |
| AddressBridge.SymbolicAddress | projects/simulator/demos/MultiWithConversionTpl.h:208-217 | concrete and interval parts are kept; an existing symbolic address is kept; a symbolic address exists afterwards iff one existed or the address has a concrete part and no interval part; a built one evaluates to the concrete address |
| AddressBridge.SymbolicAddressConsistent | projects/simulator/demos/MultiWithConversionTpl.h:212-215 | the bridge keeps an address's sub-values consistent |
| AddressBridge.SymbolicAddressIdempotent | projects/simulator/demos/MultiWithConversionTpl.h:259-268 | bridging an already bridged address changes nothing |
| DemoPolicy.Policy.ReadMemory | projects/simulator/demos/MultiWithConversionTpl.h:200-238 | untriggered: the framework's read. Triggered: the corrected little-endian assembly (`Assemble`, not the as-written operand order) of the stub's bytes at the bridged address plus 0..n/8-1; with the concrete domain active the concrete result is unknown |
| ByteLanes.AssembleLittleEndian | projects/simulator/demos/MultiWithConversionTpl.h:219-237 | bytes with known concrete values assemble to their little-endian number, lowest address least significant |
| ByteLanes.AssembleUnknown | projects/simulator/demos/MultiWithConversionTpl.h:222 | an unknown first byte makes the assembled concrete value unknown |
| ByteLanes.AssembleConsistent | projects/simulator/demos/MultiWithConversionTpl.h:219-237 | consistent bytes assemble to a consistent value |
| ByteLanes.AddressAt | projects/simulator/demos/MultiWithConversionTpl.h:224 | byte i's address is the base for i = 0 and evaluates to base + i modulo 2^32 otherwise |
| DemoPolicy.Policy.WriteMemory | projects/simulator/demos/MultiWithConversionTpl.h:243-293 | the framework's write runs with only CONCRETE active and the previous mask is back afterwards, on the throwing path too; when triggered, not thrown and bridgeable, the log is the write's byte cells (newest first) in front of the old log, else the log is unchanged; the invariant is kept |
| DemoPolicy.Policy.SuperWrite | projects/simulator/demos/MultiWithConversionTpl.h:247-255 | the framework's write is recorded as running with only CONCRETE active; the mask in force before is back afterwards, whether the write threw or not; the invariant is kept and nothing else changes |
| DemoPolicy.Policy.PushBytes | projects/simulator/demos/MultiWithConversionTpl.h:270-291 | the log becomes the cells for bytes 0..n/8-1, newest first, in front of the old log |
| DemoPolicy.Policy.PushByte | projects/simulator/demos/MultiWithConversionTpl.h:276-280 | pushing byte i extends the pushed prefix of the cell run by one |
| ByteLanes.ByteWrites | projects/simulator/demos/MultiWithConversionTpl.h:273-290 | there are n/8 cells, and cell i holds bits 8i..8i+8 of the data at the base address plus i |
| ByteLanes.ByteRoundTrip | projects/simulator/demos/MultiWithConversionTpl.h:219-237 | reading back, in the assembly's order, the bytes a write of a known word produced gives the word |
| ByteLanes.AssembleAsWrittenConcrete | projects/simulator/demos/MultiWithConversionTpl.h:222-237 | with the operand order as written, 8- and 16-bit reads are 0 and a 32-bit read has its bytes reversed |
| ByteLanes.AssembleAsWrittenDropsByte | projects/simulator/demos/MultiWithConversionTpl.h:222 | the byte 0x41 reads back as 0 as written and as 0x41 in the corrected assembly |
| ByteLanes.StubByteAsWritten | projects/simulator/demos/MultiWithConversionTpl.h:222 | as written, a one-byte read of the byte the read stub returns is symbolically 0 under every assignment |
| ByteLanes.StubByteAssembled | projects/simulator/demos/MultiWithConversionTpl.h:222 | assembled little-endian, the same read is the low byte of the stub's variable under every assignment |
| ByteLanes.AssembleAsWrittenReversesWord | projects/simulator/demos/MultiWithConversionTpl.h:222-237 | bytes 44 33 22 11 read as 0x44332211 as written and as 0x11223344 in the corrected assembly |
| MemoryLog.DemoState.MemWriteByte | projects/simulator/demos/MultiWithConversionTpl.h:297-300 | the new cell is at the front and the old list follows it |
| MemoryLog.DemoState.MemReadByte | projects/simulator/demos/MultiWithConversionTpl.h:304-307 | the result is a default byte: concrete unknown, interval 0..255, symbolic a free variable, whatever the address |
| MemoryLog.NewestFirstPush | projects/simulator/demos/MultiWithConversionTpl.h:299 | pushing the next cell of a run puts it in front of the cells pushed before it |

## Left out

- Creating the Yices solver in `init`, its debug output, the policy's name and the disabled read-pruning block: the solver is a constructor parameter that may be absent.
- All trace messages, `trace()` and `finishInstruction`: these are output only.
- The framework's `startInstruction`, `readMemory` and `writeMemory`, which lie outside this file. The framework's read is the `superRead` parameter. Whether its write throws is the `superThrows` parameter; the model records the mask in force during that write.
- The framework's own operations (`xor_`, `or_`, `concat`, `extract`, register writes and the solver's `equalToZero`) are modelled as functions applied per active domain. The zero test is a function parameter.
- The segment register and the condition arguments of `readMemory` and `writeMemory` are unused by this file and are left out.
- `DemoPolicy.Policy.ncalls`: the source's counter is a function-level `static size_t`, shared by every policy object and wrapping at 2^64. The model keeps one unbounded counter per policy.
- `Governor.StateComplexity`: sharing of nodes between register expressions is not modelled. Each register's count is a given number, or none where reading it throws.
- Values carry no per-value bit width. The byte and lane widths are fixed by the operations themselves.
- `MemoryLog.DemoState.MemReadByte`: the fresh symbolic variable of each default byte is always variable 0. Resolving the cell list (the McCarthy expression the source leaves as a FIXME) is not modelled, so no read-after-write property is stated.
- The interval-to-symbolic address conversion is an unimplemented FIXME in the source. The model leaves the symbolic address missing, as the source does.
- DemoPolicy.Policy.ReadMemory: assembles with the corrected lane order `ByteLanes.Assemble`. The source's operand order at lines 222-235 is modelled as `ByteLanes.AssembleAsWritten` (see Findings).
- The source's assertions (a known concrete address at lines 213 and 265; a symbolic address at 216; a width of 8, 16 or 32 at 220 and 272) are preconditions of `ReadMemory` and `WriteMemory`.
- The solver's statistics are reduced to the call count; input and output sizes appear only in the trace.

## Findings

| source | as written | input that shows it | evidently intended | confidence | as-written member | corrected member |
|---|---|---|---|---|---|---|
| projects/simulator/demos/MultiWithConversionTpl.h:222-235 | `concat` takes its first operand as the low bits, so byte 0 lands in bits 24..31, byte 1 in 16..23, byte 2 in 8..15 and byte 3 in 0..7, and `extract<0, nBits>` then keeps only the padding for 8- and 16-bit reads | an 8-bit read of a byte 0x41 gives 0; a 32-bit read of bytes 44 33 22 11 gives 0x44332211; with the read stub as it stands, an 8-bit read is symbolically 0 under every assignment (`ByteLanes.StubByteAsWritten`) | little-endian assembly matching the write path: byte i in bits 8i..8i+8 (0x41 and 0x11223344) | not executed | ByteLanes.AssembleAsWrittenConcrete | ByteLanes.AssembleLittleEndian |
