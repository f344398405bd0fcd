/**
 * The debug build's registry of open MSI handles (TMsi.cpp): a vector
 * indexed by handle value whose slots remember where each handle was
 * opened. Closing clears a slot; dumping counts the slots still open.
 */
module HandleDiagnostics {

  /** MSI_HANDLE_INFO: the handle (0 for an empty slot), the source file and line that opened it. */
  datatype HandleInfo = HandleInfo(handle: nat, file: string, line: int)

  /** The entry a resize appends (the default constructor). */
  const EmptySlot: HandleInfo := HandleInfo(0, "", 0)

  /** std::vector::resize(n): truncated to n entries, or padded with empty slots. */
  function Resized(slots: seq<HandleInfo>, n: nat): (r: seq<HandleInfo>)
    ensures |r| == n
    ensures forall i | 0 <= i < n :: r[i] == if i < |slots| then slots[i] else EmptySlot
  {
    if n <= |slots| then slots[..n] else slots + seq(n - |slots|, _ => EmptySlot)
  }

  /** The number of slots holding an open handle. */
  function OpenCount(slots: seq<HandleInfo>): nat
    ensures OpenCount(slots) <= |slots|
  {
    if slots == [] then 0
    else OpenCount(slots[..|slots| - 1]) + (if slots[|slots| - 1].handle != 0 then 1 else 0)
  }

  /** Clearing one open slot lowers the count by exactly one; clearing a cleared slot changes nothing. */
  lemma {:induction false} OpenCountAfterClear(slots: seq<HandleInfo>, i: nat)
    requires i < |slots|
    ensures var cleared := slots[i := slots[i].(handle := 0)];
      OpenCount(cleared) == OpenCount(slots) - (if slots[i].handle != 0 then 1 else 0)
    decreases |slots|
  {
    var cleared := slots[i := slots[i].(handle := 0)];
    if i < |slots| - 1 {
      assert cleared[..|slots| - 1] == slots[..|slots| - 1][i := slots[i].(handle := 0)];
      OpenCountAfterClear(slots[..|slots| - 1], i);
    } else {
      assert cleared[..|slots| - 1] == slots[..|slots| - 1];
    }
  }

  class HandleList {
    var slots: seq<HandleInfo>

    constructor()
      ensures slots == []
    {
      slots := [];
    }

    /**
     * MSI_LOG_OPEN_HANDLE_EX: resizes the list to exactly handle + 1 slots,
     * which drops every slot of a larger index, and records the handle with
     * its origin in its own slot.
     */
    method LogOpen(handle: nat, file: string, line: int)
      modifies this
      ensures slots == Resized(old(slots), handle + 1)[handle := HandleInfo(handle, file, line)]
      ensures |slots| == handle + 1
      ensures forall i | 0 <= i < handle :: slots[i] == if i < |old(slots)| then old(slots)[i] else EmptySlot
    {
      slots := Resized(slots, handle + 1);
      slots := slots[handle := HandleInfo(handle, file, line)];
    }

    /**
     * MSI_CLOSE_HANDLE: clears the handle's slot when the index is in range
     * and leaves every other slot, and every slot when it is out of range,
     * as it was. The call of MsiCloseHandle that follows is not modelled.
     */
    method Close(handle: nat)
      modifies this
      ensures handle < |old(slots)| ==> slots == old(slots)[handle := old(slots)[handle].(handle := 0)]
      ensures handle >= |old(slots)| ==> slots == old(slots)
      ensures handle < |old(slots)| ==> OpenCount(slots) == OpenCount(old(slots)) - (if old(slots)[handle].handle != 0 then 1 else 0)
    {
      if handle < |slots| {
        OpenCountAfterClear(slots, handle);
        slots := slots[handle := slots[handle].(handle := 0)];
      }
    }

    /** MSI_DUMP_HANDLES: the number of slots that still hold a handle. */
    method DumpHandles() returns (openHandles: nat)
      ensures openHandles == OpenCount(slots)
    {
      openHandles := 0;
      for i := 0 to |slots|
        invariant openHandles == OpenCount(slots[..i])
      {
        assert slots[..i + 1][..i] == slots[..i];
        if slots[i].handle != 0 {
          openHandles := openHandles + 1;
        }
      }
      assert slots[..|slots|] == slots;
    }
  }
}
