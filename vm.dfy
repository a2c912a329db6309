/**
 * The simulator's machine object (`struct Vm`): a register file updated in
 * place, a program counter and a data memory, with the three `exucute`
 * implementations, the fetch-decode-execute cycle and the run loop as
 * methods.  Each method is proved to leave the machine in the state the
 * functions of module Engine compute, so everything proved about those
 * functions holds for the object too.
 */
module Simulator {
  import opened Bits
  import opened Faults
  import opened Decoder
  import Fields
  import Engine
  import Properties

  class Vm {
    /** The loaded program (`inst_space.prog`), one word per instruction. */
    const prog: seq<u32>
    /** `regs: [i32; 32]`. */
    const regs: array<i32>
    var pc: u32
    /** `mem: HashMap<u32, i32>`: the words stores have written, by address. */
    var mem: map<u32, i32>

    ghost predicate Valid()
      reads this
    {
      regs.Length == 32
    }

    /** The machine state as a value. */
    function State(): (s: Engine.State)
      requires Valid()
      reads this, regs
      ensures Engine.Valid(s)
    {
      Engine.State(regs[..], pc, mem)
    }

    /** `Vm::new`: the program loaded, every register 0, pc 0, memory empty. */
    constructor (program: seq<u32>)
      ensures Valid() && fresh(regs)
      ensures prog == program && State() == Engine.Init()
    {
      prog := program;
      regs := new i32[32](_ => 0);
      pc := 0;
      mem := map[];
    }

    /** `vm.regs[r] = v`. */
    method SetReg(r: u32, v: i32)
      requires Valid() && r < 32
      modifies regs
      ensures Valid() && State() == Engine.SetReg(old(State()), r, v)
    {
      regs[r] := v;
    }

    /** `RType::exucute`; an unknown function code fails with the machine
        unchanged. */
    method ExecR(i: Inst) returns (r: Result<()>)
      requires Valid() && i.RType? && InRange(i)
      modifies this, regs
      ensures Valid()
      ensures match Engine.ExecR(i, old(State()))
        case Ok(t) => r == Ok(()) && State() == t
        case Err(f) => r == Err(f) && State() == old(State())
    {
      var a, b := regs[i.rs], regs[i.rt];
      r := Ok(());
      match i.fun
      case 0x20 => SetReg(i.rd, WrapI32(a as int + b));          // ADD
      case 0x21 => SetReg(i.rd, WrapI32(a as int + b));          // ADDU
      case 0x24 => SetReg(i.rd, AndI32(a, b));                    // AND
      case 0x25 => SetReg(i.rd, OrI32(a, b));                     // OR
      case 0x27 => SetReg(i.rd, NotI32(OrI32(a, b)));             // NOR
      case 0x00 => SetReg(i.rd, ShlI32(b, i.sh));                 // SLL
      case 0x02 => SetReg(i.rd, ShrI32(b, i.sh));                 // SRL
      case 0x22 => SetReg(i.rd, WrapI32(a as int - b));          // SUB
      case 0x23 => SetReg(i.rd, WrapI32(a as int - b));          // SUBU
      case 0x08 => pc := WrapU32(AsU32(a) - 4);                   // JR
      case 0x2A =>                                                // SLT
        if a < b {
          SetReg(i.rd, 1);
        } else {
          SetReg(i.rd, 0);
        }
      case _ => r := Err(UnknownFunction(i.fun));
    }

    /** `IType::exucute`; a load from an unwritten address fails with the
        machine unchanged. */
    method ExecI(i: Inst) returns (r: Result<()>)
      requires Valid() && i.IType? && InRange(i)
      modifies this, regs
      ensures Valid()
      ensures match Engine.ExecI(i, old(State()))
        case Ok(t) => r == Ok(()) && State() == t
        case Err(f) => r == Err(f) && State() == old(State())
    {
      var a, t := regs[i.rs], regs[i.rt];
      r := Ok(());
      match i.op
      case 0x8 => SetReg(i.rt, WrapI32(a as int + Fields.ReadImm(i.im)));     // ADDI
      case 0x9 => SetReg(i.rt, WrapI32(a as int + Fields.ReadImm(i.im)));     // ADDIU
      case 0xC => SetReg(i.rt, AsI32(And32(i.im, AsU32(a))));          // ANDI
      case 0x4 =>                                                      // BEQ
        if t == a {
          pc := WrapU32(pc + WrapU32(4 + i.im));
        }
      case 0x5 =>                                                      // BNE
        if t != a {
          pc := WrapU32(pc + WrapU32(4 + i.im));
        }
      case 0xD => SetReg(i.rt, AsI32(Or32(i.im, AsU32(a))));           // ORI
      case 0xA =>                                                      // SLTI
        if a < Fields.ReadImm(i.im) {
          SetReg(i.rt, 1);
        } else {
          SetReg(i.rt, 0);
        }
      case 0x2B => mem := mem[Engine.EffectiveAddress(a, i.im) := t];  // SW
      case 0x23 =>                                                     // LW
        var loc := Engine.EffectiveAddress(a, i.im);
        if loc in mem {
          SetReg(i.rt, mem[loc]);
        } else {
          r := Err(UnwrittenMemory(loc));
        }
      case _ => r := Err(UnhandledOpcode(i.op));
    }

    /** `JType::exucute`. */
    method ExecJ(i: Inst) returns (r: Result<()>)
      requires Valid() && i.JType? && InRange(i)
      modifies this, regs
      ensures Valid()
      ensures match Engine.ExecJ(i, old(State()))
        case Ok(t) => r == Ok(()) && State() == t
        case Err(f) => r == Err(f) && State() == old(State())
    {
      r := Ok(());
      match i.op
      case 0x2 => pc := i.ad;                                          // J
      case 0x3 =>                                                      // JAL
        SetReg(31, AsI32(WrapU32(pc + 4)));
        pc := i.ad;
      case _ => r := Err(UnhandledOpcode(i.op));
    }

    /** `instruction.exucute(vm)`: the call through the instruction's form. */
    method Execute(i: Inst) returns (r: Result<()>)
      requires Valid() && InRange(i)
      modifies this, regs
      ensures Valid()
      ensures match Engine.Execute(i, old(State()))
        case Ok(t) => r == Ok(()) && State() == t
        case Err(f) => r == Err(f) && State() == old(State())
    {
      match i
      case RType(_, _, _, _, _, _) => r := ExecR(i);
      case IType(_, _, _, _) => r := ExecI(i);
      case JType(_, _) => r := ExecJ(i);
    }

    /** `Vm::exucute`: one cycle.  Past the end of the program it reports
        `Halted` and changes nothing; otherwise it fetches, decodes and
        executes the word at the pc and advances the pc by 4. */
    method Step() returns (status: Engine.Status)
      requires Valid()
      modifies this, regs
      ensures Valid()
      ensures Engine.Transition(status, State()) == Engine.Step(prog, old(State()))
    {
      if |prog| >= TWO_32 {
        return Engine.Failed(ProgramTooLong);
      }
      if pc / 4 >= |prog| {
        return Engine.Halted;
      }
      var word := Engine.WordAt(prog, pc);
      match Decode(word)
      case Err(f) =>
        status := Engine.Failed(f);
      case Ok(inst) =>
        var r := Execute(inst);
        if r.Err? {
          status := Engine.Failed(r.fault);
        } else {
          pc := WrapU32(pc + 4);
          status := Engine.Running;
        }
    }

    /** The run loop `while running { running = vm.exucute(); }`, cut off
        after `fuel` cycles: how the last cycle ended (`Running` if the fuel
        ran out first) and the number of instructions executed. */
    method Run(fuel: nat) returns (status: Engine.Status, steps: nat)
      requires Valid()
      modifies this, regs
      ensures Valid()
      ensures Engine.RunResult(status, State(), steps) == Engine.Run(prog, old(State()), fuel)
    {
      status := Engine.Running;
      steps := 0;
      var left := fuel;
      while left > 0
        invariant Valid() && steps + left == fuel && status == Engine.Running
        invariant Engine.Run(prog, old(State()), fuel)
               == Engine.Run(prog, State(), left).(steps := Engine.Run(prog, State(), left).steps + steps)
        decreases left
      {
        ghost var before := State();
        status := Step();
        Properties.RunUnfolds(prog, before, left);
        if status != Engine.Running {
          return;
        }
        steps := steps + 1;
        left := left - 1;
      }
    }
  }
}
