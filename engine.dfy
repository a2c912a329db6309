/**
 * The execution engine as functions of the machine state: what one
 * decoded instruction does (the three `exucute` implementations), what one
 * cycle of the machine does (`Vm::exucute`) and what the run loop does,
 * bounded by a number of cycles because a jump can make it run forever.
 * The class in vm.dfy performs the same updates in place and is proved
 * to agree with these functions.
 *
 * Arithmetic wraps around at 32 bits, as a release build of the simulator
 * does.  Where the simulator panics, the result is `Err` and the state is
 * left as it was.
 */
module Engine {
  import opened Bits
  import opened Fields
  import opened Faults
  import opened Decoder

  /** The machine state: 32 registers, the program counter (a byte
      address) and the sparse data memory. */
  datatype State = State(regs: seq<i32>, pc: u32, mem: map<u32, i32>)

  predicate Valid(s: State)
  {
    |s.regs| == 32
  }

  /** `Vm::new`: every register 0, pc 0, no memory written. */
  function Init(): (s: State)
  {
    State(seq(32, _ => 0), 0, map[])
  }

  function SetReg(s: State, r: u32, v: i32): (t: State)
    requires Valid(s) && r < 32
    ensures Valid(t)
  {
    s.(regs := s.regs[r := v])
  }

  /** The address a load or store uses: `(regs[rs] + read_imm(im)) as u32`. */
  function EffectiveAddress(base: i32, im: u32): (a: u32)
  {
    AsU32(WrapI32(base + ReadImm(im)))
  }

  /** The function codes the register form gives a meaning. */
  const RFunctions: set<u32> := {0x20, 0x21, 0x24, 0x25, 0x27, 0x00, 0x02, 0x22, 0x23, 0x08, 0x2A}

  /** `RType::exucute`, dispatched on the function code. */
  function ExecR(i: Inst, s: State): (r: Result<State>)
    requires i.RType? && InRange(i) && Valid(s)
    ensures r.Ok? ==> Valid(r.value)
  {
    var a := s.regs[i.rs];
    var b := s.regs[i.rt];
    match i.fun
    case 0x20 => Ok(SetReg(s, i.rd, WrapI32(a as int + b)))                // ADD
    case 0x21 => Ok(SetReg(s, i.rd, WrapI32(a as int + b)))                // ADDU
    case 0x24 => Ok(SetReg(s, i.rd, AndI32(a, b)))                  // AND
    case 0x25 => Ok(SetReg(s, i.rd, OrI32(a, b)))                   // OR
    case 0x27 => Ok(SetReg(s, i.rd, NotI32(OrI32(a, b))))           // NOR
    case 0x00 => Ok(SetReg(s, i.rd, ShlI32(b, i.sh)))               // SLL
    case 0x02 => Ok(SetReg(s, i.rd, ShrI32(b, i.sh)))               // SRL
    case 0x22 => Ok(SetReg(s, i.rd, WrapI32(a as int - b)))                // SUB
    case 0x23 => Ok(SetReg(s, i.rd, WrapI32(a as int - b)))                // SUBU
    case 0x08 => Ok(s.(pc := WrapU32(AsU32(a) - 4)))                // JR
    case 0x2A => Ok(SetReg(s, i.rd, if a < b then 1 else 0))        // SLT
    case _ => Err(UnknownFunction(i.fun))
  }

  /** `IType::exucute`, dispatched on the opcode. */
  function ExecI(i: Inst, s: State): (r: Result<State>)
    requires i.IType? && InRange(i) && Valid(s)
    ensures r.Ok? ==> Valid(r.value)
  {
    var a := s.regs[i.rs];
    var t := s.regs[i.rt];
    match i.op
    case 0x8 => Ok(SetReg(s, i.rt, WrapI32(a as int + ReadImm(i.im))))     // ADDI
    case 0x9 => Ok(SetReg(s, i.rt, WrapI32(a as int + ReadImm(i.im))))     // ADDIU
    case 0xC => Ok(SetReg(s, i.rt, AsI32(And32(i.im, AsU32(a)))))   // ANDI
    case 0x4 =>                                                      // BEQ
      Ok(if t == a then s.(pc := WrapU32(s.pc + WrapU32(4 + i.im))) else s)
    case 0x5 =>                                                      // BNE
      Ok(if t != a then s.(pc := WrapU32(s.pc + WrapU32(4 + i.im))) else s)
    case 0xD => Ok(SetReg(s, i.rt, AsI32(Or32(i.im, AsU32(a)))))    // ORI
    case 0xA => Ok(SetReg(s, i.rt, if a < ReadImm(i.im) then 1 else 0))  // SLTI
    case 0x2B => Ok(s.(mem := s.mem[EffectiveAddress(a, i.im) := t]))    // SW
    case 0x23 =>                                                     // LW
      var loc := EffectiveAddress(a, i.im);
      if loc in s.mem then Ok(SetReg(s, i.rt, s.mem[loc])) else Err(UnwrittenMemory(loc))
    case _ => Err(UnhandledOpcode(i.op))
  }

  /** `JType::exucute`, dispatched on the opcode. */
  function ExecJ(i: Inst, s: State): (r: Result<State>)
    requires i.JType? && InRange(i) && Valid(s)
    ensures r.Ok? ==> Valid(r.value)
  {
    match i.op
    case 0x2 => Ok(s.(pc := i.ad))                                               // J
    case 0x3 => Ok(s.(regs := s.regs[31 := AsI32(WrapU32(s.pc + 4))], pc := i.ad))  // JAL
    case _ => Err(UnhandledOpcode(i.op))
  }

  /** `instruction.exucute(vm)`: the call through the instruction's form. */
  function Execute(i: Inst, s: State): (r: Result<State>)
    requires InRange(i) && Valid(s)
    ensures r.Ok? ==> Valid(r.value)
  {
    match i
    case RType(_, _, _, _, _, _) => ExecR(i, s)
    case IType(_, _, _, _) => ExecI(i, s)
    case JType(_, _) => ExecJ(i, s)
  }

  /** `InstSpace::word_at`: the word at byte address `i`. */
  function WordAt(prog: seq<u32>, i: u32): (w: u32)
    requires i / 4 < |prog|
  {
    prog[i / 4]
  }

  /** What a cycle of the machine reports: it executed an instruction
      (`true`), it found the pc past the program (`false`), or it failed. */
  datatype Status = Running | Halted | Failed(fault: Fault)

  datatype Transition = Transition(status: Status, after: State)

  /** `Vm::exucute`: one fetch-decode-execute cycle, then pc += 4. */
  function Step(prog: seq<u32>, s: State): (t: Transition)
    requires Valid(s)
    ensures Valid(t.after)
  {
    if |prog| >= TWO_32 then Transition(Failed(ProgramTooLong), s)
    else if s.pc / 4 >= |prog| then Transition(Halted, s)
    else
      match Decode(WordAt(prog, s.pc))
      case Err(f) => Transition(Failed(f), s)
      case Ok(inst) =>
        match Execute(inst, s)
        case Err(f) => Transition(Failed(f), s)
        case Ok(next) => Transition(Running, next.(pc := WrapU32(next.pc + 4)))
  }

  /** The outcome of running at most `fuel` cycles: how the last cycle
      ended (`Running` if the fuel ran out first), the final state and the
      number of instructions executed. */
  datatype RunResult = RunResult(status: Status, final: State, steps: nat)

  /** The run loop `while running { running = vm.exucute(); }`, cut off
      after `fuel` cycles. */
  function Run(prog: seq<u32>, s: State, fuel: nat): (r: RunResult)
    requires Valid(s)
    ensures Valid(r.final)
    ensures r.steps <= fuel
    ensures r.status == Running ==> r.steps == fuel
    decreases fuel
  {
    if fuel == 0 then RunResult(Running, s, 0)
    else
      var t := Step(prog, s);
      if t.status == Running then
        var r := Run(prog, t.after, fuel - 1);
        r.(steps := r.steps + 1)
      else
        RunResult(t.status, t.after, 0)
  }
}
