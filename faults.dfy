/**
 * The ways a run of the simulator can stop abnormally.  Where the simulator
 * panics, the model returns one of these and leaves the machine
 * state as it was before the failing instruction.
 */
module Faults {
  import opened Bits

  datatype Fault =
    /** The opcode field names none of the three instruction forms. */
    | UnknownOpcode(op: u32)
    /** A register-form instruction whose function code has no semantics. */
    | UnknownFunction(fun: u32)
    /** An immediate- or jump-form instruction whose opcode its form does
        not handle; decoding never produces one. */
    | UnhandledOpcode(op: u32)
    /** A load from an address that no store has written. */
    | UnwrittenMemory(addr: u32)
    /** The program has 2^32 words or more, so its length is not a `u32`. */
    | ProgramTooLong

  datatype Result<+T> = Ok(value: T) | Err(fault: Fault)
}
