/**
 * `MultiDomainDemoState`: the demo's own memory, a list of (symbolic address,
 * byte) cells with the newest write at the front.  Reading it is still a stub
 * that ignores the list.
 */
module MemoryLog {
  import opened Wrappers
  import opened MultiValues

  /** One byte written at a 32-bit symbolic address. */
  datatype MemoryCell = MemoryCell(addr: SymExpr, value: MultiValue)

  /**
   * The variable standing for the default-constructed byte the read stub
   * returns.  The symbolic domain names a fresh variable for each such value;
   * that naming is not part of this model.
   */
  const UNKNOWN_BYTE_VAR: nat := 0

  class DemoState {
    /** Every byte written while triggered, newest first. */
    var memory: seq<MemoryCell>

    constructor ()
      ensures memory == []
    {
      memory := [];
    }

    /** `mem_write_byte`: push one cell onto the front of the list. */
    method MemWriteByte(addr: SymExpr, value: MultiValue)
      modifies this
      ensures memory == [MemoryCell(addr, value)] + old(memory)
      ensures |memory| == |old(memory)| + 1 && memory[1..] == old(memory)
    {
      memory := [MemoryCell(addr, value)] + memory;
    }

    /**
     * `mem_read_byte`: a stub that returns a default byte, whatever was written
     * and whatever the address; it does not resolve the list.
     */
    function MemReadByte(addr: SymExpr): (r: MultiValue)
      ensures r.concrete == Some(Unknown)
      ensures r.interval == Some(Range(0, 0xFF))
      ensures r.symbolic.Some? && r.symbolic.value.Var?
    {
      MultiValue(Some(Unknown), Some(Range(0, 0xFF)), Some(Var(UNKNOWN_BYTE_VAR)))
    }
  }

  /** Cells in the order they are pushed, as they stand in the list afterwards. */
  function NewestFirst(cells: seq<MemoryCell>): (r: seq<MemoryCell>)
    ensures |r| == |cells|
    ensures forall k :: 0 <= k < |r| ==> r[k] == cells[|cells| - 1 - k]
  {
    seq(|cells|, k requires 0 <= k < |cells| => cells[|cells| - 1 - k])
  }

  /** Pushing the next cell of a run puts it in front of the cells pushed before it. */
  lemma NewestFirstPush(cells: seq<MemoryCell>, k: nat)
    requires k < |cells|
    ensures NewestFirst(cells[..k + 1]) == [cells[k]] + NewestFirst(cells[..k])
  {
    var r, r' := NewestFirst(cells[..k + 1]), [cells[k]] + NewestFirst(cells[..k]);
    assert |r| == |r'|;
    forall j | 0 <= j < |r|
      ensures r[j] == r'[j]
    {
      if j > 0 {
        assert r'[j] == NewestFirst(cells[..k])[j - 1];
      }
    }
  }
}
