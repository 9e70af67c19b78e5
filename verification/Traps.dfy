/** Trap causes (include/trap.h). */
module Traps {
  import opened Words

  /** The cause codes of the enum all have an index below 16 under the interrupt bit. */
  type Cause = c: u64 | c % 0x8000_0000_0000_0000 < 16

  const ILLEGAL_INSTRUCTION: Cause := 2
  const LOAD_ACCESS_FAULT: Cause := 5
  const STORE_ACCESS_FAULT: Cause := 7
  const ECALL_FROM_USER: Cause := 8
  const ECALL_FROM_SUPERVISOR: Cause := 9
  const ECALL_FROM_MACHINE: Cause := 11
  const INSTRUCTION_PAGE_FAULT: Cause := 12

  predicate IsInterrupt(c: Cause) {
    c >= TWO63
  }

  /** `cause & ~interrupt_bit`. */
  function CauseIndex(c: Cause): (i: nat)
    ensures i < 16
  {
    c % TWO63
  }

  /** The interrupt whose mip bit has index i. */
  function InterruptCause(i: nat): Cause
    requires i < 16
  {
    TWO63 + i
  }

  /** How a load ends: with data, with a thrown trap, or outside what C++ defines (a read past an
      array, an indeterminate value, endless recursion). */
  datatype Access =
    | Data(value: u64)
    | Fault(cause: Cause)
    | NoValue

  /** How a method that changes state ends. */
  datatype Outcome =
    | Normal
    | Thrown(cause: Cause)
    | Undefined
}
