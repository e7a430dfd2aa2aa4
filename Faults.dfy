/** The exceptions the core raises, as values, and the result types that
    carry them back to the caller. */
module Faults {
  import opened Arch

  datatype Fault =
      /** IllegalAccess(addr): no bus client claims the address */
    | IllegalAccess(addr: u64)
      /** IllegalAccess(addr, size): a memory region refuses a sized access */
    | IllegalAccessSized(addr: u64, size: nat)
      /** IllegalAccess(what): a device refuses an access */
    | IllegalAccessMessage(what: string)
      /** std::out_of_range raised by the register file */
    | RegisterOutOfRange(regnum: RegNumber)
      /** InstructionFetchFailure(PC): any fault while fetching */
    | InstructionFetchFailure(addr: u64)

  /** A value or the fault that was raised instead */
  datatype Result<T> = Ok(value: T) | Err(fault: Fault)

  /** Completion of an operation that returns nothing, or its fault */
  datatype Outcome = Pass | Fail(fault: Fault)

  /** A value that may be missing (a null pointer) */
  datatype Option<T> = None | Some(value: T)
}
