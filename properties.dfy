/**
 * What the execution engine guarantees: the only ways a decoded
 * instruction can fail, when a cycle halts, that a program without jumps
 * or branches halts after one cycle per word, which part of the state each
 * kind of instruction changes, where control-flow instructions leave the
 * pc, and how stores and loads interact.
 */
module Properties {
  import opened Bits
  import opened Fields
  import opened Faults
  import opened Decoder
  import opened Engine

  // ---------------------------------------------------------------------
  // Failures

  /** After decoding there are exactly two ways to fail: a register-form
      function code without semantics, and a load from an address never
      stored to.  The catch-all arms of the immediate and jump forms are
      never reached. */
  lemma ExecuteFailures(i: Inst, s: State)
    requires Decodable(i) && Valid(s)
    ensures Execute(i, s).Err? <==>
      || (i.RType? && i.fun !in RFunctions)
      || (i.IType? && i.op == 0x23 && EffectiveAddress(s.regs[i.rs], i.im) !in s.mem)
    ensures Execute(i, s).Err? ==>
      || (i.RType? && Execute(i, s) == Err(UnknownFunction(i.fun)))
      || (i.IType? && Execute(i, s) == Err(UnwrittenMemory(EffectiveAddress(s.regs[i.rs], i.im))))
  {
  }

  // ---------------------------------------------------------------------
  // One cycle

  /** A cycle reports `false` (halts) exactly when the pc is past the last
      word, and then changes nothing; a cycle that fails changes nothing
      either; a cycle that runs executes the word at the pc and adds 4 to
      the pc the instruction left. */
  lemma StepOutcome(prog: seq<u32>, s: State)
    requires Valid(s) && |prog| < TWO_32
    ensures Step(prog, s).status == Halted <==> s.pc / 4 >= |prog|
    ensures Step(prog, s).status != Running ==> Step(prog, s).after == s
    ensures Step(prog, s).status == Running ==>
      && s.pc / 4 < |prog|
      && Decode(prog[s.pc / 4]).Ok?
      && var r := Execute(Decode(prog[s.pc / 4]).value, s);
        r.Ok? && Step(prog, s).after == r.value.(pc := WrapU32(r.value.pc + 4))
    ensures s.pc / 4 < |prog| && Decode(prog[s.pc / 4]).Ok? && Execute(Decode(prog[s.pc / 4]).value, s).Ok? ==>
      Step(prog, s).status == Running
    ensures Step(prog, s).status.Failed? ==>
      && s.pc / 4 < |prog|
      && Step(prog, s).status.fault ==
           if Decode(prog[s.pc / 4]).Err? then Decode(prog[s.pc / 4]).fault
           else Execute(Decode(prog[s.pc / 4]).value, s).fault
  {
  }

  /** The cycle at a pc inside the program whose word decodes to `i`. */
  lemma StepDecoded(prog: seq<u32>, s: State, i: Inst)
    requires Valid(s) && |prog| < TWO_32 && s.pc / 4 < |prog| && Decode(prog[s.pc / 4]) == Ok(i)
    ensures Step(prog, s) ==
      match Execute(i, s)
      case Err(f) => Transition(Failed(f), s)
      case Ok(next) => Transition(Running, next.(pc := WrapU32(next.pc + 4)))
  {
  }

  /** A run whose first cycle executes an instruction is that cycle
      followed by a run with one cycle less. */
  lemma RunUnfolds(prog: seq<u32>, s: State, fuel: nat)
    requires Valid(s) && fuel > 0
    ensures var t := Step(prog, s);
      Run(prog, s, fuel) ==
        if t.status == Running then
          Run(prog, t.after, fuel - 1).(steps := Run(prog, t.after, fuel - 1).steps + 1)
        else RunResult(t.status, t.after, 0)
  {
  }

  /** A run started past the last word halts at once. */
  lemma RunPastEnd(prog: seq<u32>, s: State, fuel: nat)
    requires Valid(s) && |prog| < TWO_32 && s.pc / 4 >= |prog| && fuel > 0
    ensures Run(prog, s, fuel) == RunResult(Halted, s, 0)
  {
    assert Step(prog, s) == Transition(Halted, s);
    RunUnfolds(prog, s, fuel);
  }

  /** A program of no words halts at the first cycle. */
  lemma EmptyProgramHalts(s: State, fuel: nat)
    requires Valid(s) && fuel > 0
    ensures Run([], s, fuel) == RunResult(Halted, s, 0)
  {
  }

  /** A program of 2^30 words or more never halts: every pc a `u32` can
      hold addresses a word inside it, so the halting test never holds. */
  lemma LongProgramNeverHalts(prog: seq<u32>, s: State)
    requires Valid(s) && 0x4000_0000 <= |prog| < TWO_32
    ensures Step(prog, s).status != Halted
  {
  }

  /** So a run of such a program, however long, never ends by halting:
      it fails or is still running when the fuel runs out. */
  lemma {:induction false} LongProgramRunNeverHalts(prog: seq<u32>, s: State, fuel: nat)
    requires Valid(s) && 0x4000_0000 <= |prog| < TWO_32
    ensures Run(prog, s, fuel).status != Halted
    decreases fuel
  {
    if fuel > 0 {
      LongProgramNeverHalts(prog, s);
      if Step(prog, s).status == Running {
        LongProgramRunNeverHalts(prog, Step(prog, s).after, fuel - 1);
      }
    }
  }

  // ---------------------------------------------------------------------
  // Straight-line programs

  /** The words that decode to an instruction which neither transfers
      control nor loads from memory, and so can neither jump nor fail. */
  predicate Sequential(w: u32)
  {
    var d := Decode(w);
    && d.Ok?
    && match d.value
       case RType(_, _, _, _, _, fun) => fun in RFunctions - {0x08}
       case IType(op, _, _, _) => op in {0x8, 0x9, 0xC, 0xD, 0xA, 0x2B}
       case JType(_, _) => false
  }

  /** A sequential word executes and leaves the pc 4 further on. */
  lemma SequentialStep(prog: seq<u32>, s: State)
    requires Valid(s) && |prog| < TWO_32 && s.pc / 4 < |prog| && Sequential(prog[s.pc / 4])
    ensures Step(prog, s).status == Running
    ensures Step(prog, s).after.pc == WrapU32(s.pc + 4)
  {
    var i := Decode(prog[s.pc / 4]).value;
    StepDecoded(prog, s, i);
    SequentialExecutes(i, s);
  }

  /** A sequential instruction succeeds and leaves the pc alone. */
  lemma SequentialExecutes(i: Inst, s: State)
    requires Valid(s) && Decodable(i)
    requires i.RType? ==> i.fun in RFunctions - {0x08}
    requires i.IType? ==> i.op in {0x8, 0x9, 0xC, 0xD, 0xA, 0x2B}
    requires !i.JType?
    ensures Execute(i, s).Ok? && Execute(i, s).value.pc == s.pc
  {
    if i.RType? {
      assert ExecR(i, s).Ok?;
    } else {
      assert ExecI(i, s).Ok?;
    }
  }

  /** Every cycle that starts at word `k` executes it and moves on to
      word `k + 1`. */
  ghost predicate AdvancesAt(prog: seq<u32>, k: nat)
  {
    forall st {:trigger Step(prog, st)} :: Valid(st) && st.pc == 4 * k ==>
      Step(prog, st).status == Running && Step(prog, st).after.pc == 4 * (k + 1)
  }

  /** Every word from `at` on advances. */
  ghost predicate AdvancesFrom(prog: seq<u32>, at: nat)
    decreases |prog| - at
  {
    at >= |prog| || (AdvancesAt(prog, at) && AdvancesFrom(prog, at + 1))
  }

  /** A sequential word inside a program that fits the address space
      advances. */
  lemma SequentialAdvances(prog: seq<u32>, k: nat)
    requires 4 * |prog| < TWO_32 && k < |prog| && Sequential(prog[k])
    ensures AdvancesAt(prog, k)
  {
    forall st | Valid(st) && st.pc == 4 * k
      ensures Step(prog, st).status == Running && Step(prog, st).after.pc == 4 * (k + 1)
    {
      DivModUnique(st.pc, 4, k, 0);
      SequentialStep(prog, st);
    }
  }

  lemma {:induction false} AllSequential(prog: seq<u32>, at: nat)
    requires 4 * |prog| < TWO_32
    requires forall k :: at <= k < |prog| ==> Sequential(prog[k])
    ensures AdvancesFrom(prog, at)
    decreases |prog| - at
  {
    if at < |prog| {
      SequentialAdvances(prog, at);
      AllSequential(prog, at + 1);
    }
  }

  /** How a run of a straight-line stretch of `n` words ends within
      `fuel` cycles: halted after `n` instructions with the pc at `end` when
      the fuel suffices, still running after `fuel` instructions when not. */
  predicate Counted(r: RunResult, fuel: nat, n: nat, end: u32)
  {
    && (r.status == Halted <==> fuel > n)
    && (fuel <= n ==> r.status == Running)
    && r.steps == (if fuel > n then n else fuel)
    && (fuel > n ==> r.final.pc == end)
  }

  /** A run that executes one instruction and then runs `m` more words
      has run `m + 1`. */
  lemma RunAdvance(prog: seq<u32>, s: State, t: State, fuel: nat, m: nat, end: u32)
    requires Valid(s) && Valid(t) && fuel > 0
    requires Step(prog, s).status == Running && Step(prog, s).after == t
    requires Counted(Run(prog, t, fuel - 1), fuel - 1, m, end)
    ensures Counted(Run(prog, s, fuel), fuel, m + 1, end)
  {
    RunUnfolds(prog, s, fuel);
  }

  /** Running a program made only of sequential words from word `at`
      of it: the run halts at the first cycle after the last word and not
      before, having executed one instruction per remaining word. */
  lemma {:induction false} StraightLineRun(prog: seq<u32>, s: State, at: nat, fuel: nat)
    requires Valid(s) && 4 * |prog| < TWO_32
    requires s.pc == 4 * at && at <= |prog|
    requires AdvancesFrom(prog, at)
    ensures Counted(Run(prog, s, fuel), fuel, |prog| - at, 4 * |prog|)
    decreases fuel, 1
  {
    if fuel == 0 {
    } else if at == |prog| {
      assert s.pc / 4 == at by {
        DivModUnique(s.pc, 4, at, 0);
      }
      RunPastEnd(prog, s, fuel);
    } else {
      StraightLineAdvance(prog, s, at, fuel);
    }
  }

  /** The inductive step of `StraightLineRun`: one word that advances,
      then the rest of the stretch. */
  lemma {:induction false} StraightLineAdvance(prog: seq<u32>, s: State, at: nat, fuel: nat)
    requires Valid(s) && 4 * |prog| < TWO_32
    requires s.pc == 4 * at && at < |prog| && fuel > 0
    requires AdvancesFrom(prog, at)
    ensures Counted(Run(prog, s, fuel), fuel, |prog| - at, 4 * |prog|)
    decreases fuel, 0
  {
    var t := Step(prog, s).after;
    assert AdvancesAt(prog, at) && AdvancesFrom(prog, at + 1);
    assert Valid(t) && t.pc == 4 * (at + 1);
    StraightLineRun(prog, t, at + 1, fuel - 1);
    RunAdvance(prog, s, t, fuel, |prog| - (at + 1), 4 * |prog|);
  }

  /** A program of N sequential words started from the initial state halts
      after exactly N instructions, with the pc at 4 * N. */
  lemma StraightLineHalts(prog: seq<u32>)
    requires 4 * |prog| < TWO_32
    requires forall k :: 0 <= k < |prog| ==> Sequential(prog[k])
    ensures Run(prog, Init(), |prog| + 1).status == Halted
    ensures Run(prog, Init(), |prog| + 1).steps == |prog|
    ensures Run(prog, Init(), |prog| + 1).final.pc == 4 * |prog|
    ensures Run(prog, Init(), |prog|).status == Running
  {
    AllSequential(prog, 0);
    StraightLineRun(prog, Init(), 0, |prog| + 1);
    StraightLineRun(prog, Init(), 0, |prog|);
  }

  // ---------------------------------------------------------------------
  // Frames of the instructions that write a register

  /** The instructions whose only effect is to write one register. */
  predicate WritesRegister(i: Inst)
  {
    || (i.RType? && i.fun in RFunctions - {0x08})
    || (i.IType? && i.op in {0x8, 0x9, 0xC, 0xD, 0xA, 0x23})
  }

  /** The register such an instruction writes: `rd` in the register form,
      `rt` in the immediate form. */
  function Dest(i: Inst): (r: u32)
    requires i.RType? || i.IType?
  {
    if i.RType? then i.rd else i.rt
  }

  /** A register-writing instruction changes that register and nothing
      else: not the pc, not memory, not another register. */
  lemma RegisterWriteFrame(i: Inst, s: State)
    requires Decodable(i) && Valid(s) && WritesRegister(i) && Execute(i, s).Ok?
    ensures var t := Execute(i, s).value;
      && t.pc == s.pc
      && t.mem == s.mem
      && |t.regs| == 32
      && forall r :: 0 <= r < 32 && r != Dest(i) ==> t.regs[r] == s.regs[r]
  {
  }

  /** So the cycle that executes one advances the pc by exactly 4. */
  lemma RegisterWriteStep(prog: seq<u32>, s: State)
    requires Valid(s) && |prog| < TWO_32 && s.pc / 4 < |prog|
    requires Decode(prog[s.pc / 4]).Ok? && WritesRegister(Decode(prog[s.pc / 4]).value)
    requires Step(prog, s).status == Running
    ensures Step(prog, s).after.pc == WrapU32(s.pc + 4)
    ensures Step(prog, s).after.mem == s.mem
  {
    RegisterWriteFrame(Decode(prog[s.pc / 4]).value, s);
  }

  /** The value each register-form operation writes. */
  lemma RFormResults(i: Inst, s: State)
    requires Decodable(i) && i.RType? && Valid(s) && i.fun in RFunctions - {0x08}
    ensures Execute(i, s).Ok?
    ensures var v := Execute(i, s).value.regs[i.rd];
      var a, b := s.regs[i.rs], s.regs[i.rt];
      && (i.fun in {0x20, 0x21} ==>
            (v - (a + b)) % TWO_32 == 0 && (-TWO_31 <= a + b < TWO_31 ==> v == a + b))
      && (i.fun in {0x22, 0x23} ==>
            (v - (a - b)) % TWO_32 == 0 && (-TWO_31 <= a - b < TWO_31 ==> v == a - b))
      && (i.fun == 0x24 ==> AsU32(v) == And32(AsU32(a), AsU32(b)))
      && (i.fun == 0x25 ==> AsU32(v) == Or32(AsU32(a), AsU32(b)))
      && (i.fun == 0x27 ==> v == -1 - OrI32(a, b))
      && (i.fun == 0x00 ==> AsU32(v) == (AsU32(b) * Pow2(i.sh)) % TWO_32)
      && (i.fun == 0x02 ==> v * Pow2(i.sh) <= b < (v + 1) * Pow2(i.sh))
      && (i.fun == 0x2A ==> (v == 1 <==> a < b) && (v == 0 <==> a >= b))
  {
    var a, b := s.regs[i.rs], s.regs[i.rt];
    if i.fun in {0x20, 0x21} {
      assert Execute(i, s).value.regs[i.rd] == WrapI32(a as int + b);
    } else if i.fun in {0x22, 0x23} {
      assert Execute(i, s).value.regs[i.rd] == WrapI32(a as int - b);
    } else if i.fun == 0x24 {
      assert Execute(i, s).value.regs[i.rd] == AndI32(a, b);
    } else if i.fun == 0x25 {
      assert Execute(i, s).value.regs[i.rd] == OrI32(a, b);
    } else if i.fun == 0x27 {
      assert Execute(i, s).value.regs[i.rd] == NotI32(OrI32(a, b));
      NotIsMinusOneMinus(OrI32(a, b));
    } else if i.fun == 0x00 {
      assert Execute(i, s).value.regs[i.rd] == ShlI32(b, i.sh);
      Shl32Value(AsU32(b), i.sh);
    } else if i.fun == 0x02 {
      assert Execute(i, s).value.regs[i.rd] == ShrI32(b, i.sh);
    } else {
      assert Execute(i, s).value.regs[i.rd] == if a < b then 1 else 0;
    }
  }

  /** The value each register-writing immediate-form operation (other than
      a load) writes: ADDI and SLTI use the sign-extended immediate, ANDI
      and ORI the zero-extended one. */
  lemma IFormResults(i: Inst, s: State)
    requires Decodable(i) && i.IType? && Valid(s) && i.op in {0x8, 0x9, 0xC, 0xD, 0xA}
    ensures Execute(i, s).Ok?
    ensures var v := Execute(i, s).value.regs[i.rt];
      var a := s.regs[i.rs];
      var imm := if i.im < 0x8000 then i.im else i.im - 0x1_0000;
      && (i.op in {0x8, 0x9} ==>
            (v - (a + imm)) % TWO_32 == 0 && (-TWO_31 <= a + imm < TWO_31 ==> v == a + imm))
      && (i.op == 0xC ==> 0 <= v <= i.im && v == And32(i.im, AsU32(a)))
      && (i.op == 0xD ==> AsU32(v) == Or32(i.im, AsU32(a)) && AsU32(v) >= i.im)
      && (i.op == 0xA ==> (v == 1 <==> a < imm) && (v == 0 <==> a >= imm))
  {
    var a := s.regs[i.rs];
    if i.op in {0x8, 0x9} {
      assert Execute(i, s).value.regs[i.rt] == WrapI32(a as int + ReadImm(i.im));
      ReadImmSignExtends(i.im);
    } else if i.op == 0xA {
      assert Execute(i, s).value.regs[i.rt] == if a < ReadImm(i.im) then 1 else 0;
      ReadImmSignExtends(i.im);
    } else if i.op == 0xC {
      assert Execute(i, s).value.regs[i.rt] == AsI32(And32(i.im, AsU32(a)));
      Pow2Values();
      AndAtMost(i.im, AsU32(a), 32);
    } else {
      assert Execute(i, s).value.regs[i.rt] == AsI32(Or32(i.im, AsU32(a)));
      Pow2Values();
      OrAtLeast(i.im, AsU32(a), 32);
    }
  }

  /** Register 0 is not wired to zero: ADDI $0, $0, 5 leaves 5 in it. */
  lemma RegisterZeroIsWritable()
    ensures Execute(IType(0x8, 0, 0, 5), Init()) == Ok(Init().(regs := Init().regs[0 := 5]))
  {
    ReadImmSignExtends(5);
  }

  // ---------------------------------------------------------------------
  // Control flow

  /** JR sets the pc to `regs[rs] - 4`, so after the cycle's advance the
      next fetch is from `regs[rs]` exactly; nothing else changes. */
  lemma JumpRegisterStep(prog: seq<u32>, s: State)
    requires Valid(s) && |prog| < TWO_32 && s.pc / 4 < |prog|
    requires Decode(prog[s.pc / 4]).Ok?
    requires var i := Decode(prog[s.pc / 4]).value; i.RType? && i.fun == 0x08
    ensures Step(prog, s) ==
      Transition(Running, s.(pc := AsU32(s.regs[Decode(prog[s.pc / 4]).value.rs])))
  {
    var i := Decode(prog[s.pc / 4]).value;
    StepDecoded(prog, s, i);
    WrapAdd(AsU32(s.regs[i.rs]) - 4, 4);
  }

  /** J and JAL set the pc to the target, so the next fetch is from the
      target plus 4; JAL also puts the address after itself in register
      31. */
  lemma JumpStep(prog: seq<u32>, s: State)
    requires Valid(s) && |prog| < TWO_32 && s.pc / 4 < |prog|
    requires Decode(prog[s.pc / 4]).Ok? && Decode(prog[s.pc / 4]).value.JType?
    ensures var i := Decode(prog[s.pc / 4]).value;
      && Step(prog, s).status == Running
      && Step(prog, s).after.pc == i.ad + 4
      && Step(prog, s).after.mem == s.mem
      && (i.op == 0x2 ==> Step(prog, s).after.regs == s.regs)
      && (i.op == 0x3 ==> Step(prog, s).after.regs == s.regs[31 := AsI32(WrapU32(s.pc + 4))])
  {
    StepDecoded(prog, s, Decode(prog[s.pc / 4]).value);
  }

  /** BEQ and BNE add the raw, unsigned and unscaled immediate: a taken
      branch leaves the pc at pc + 8 + im after the cycle, one not taken at
      pc + 4.  Registers and memory are unchanged. */
  lemma BranchStep(prog: seq<u32>, s: State)
    requires Valid(s) && |prog| < TWO_32 && s.pc / 4 < |prog|
    requires Decode(prog[s.pc / 4]).Ok?
    requires var i := Decode(prog[s.pc / 4]).value; i.IType? && i.op in {0x4, 0x5}
    ensures var i := Decode(prog[s.pc / 4]).value;
      var taken := if i.op == 0x4 then s.regs[i.rt] == s.regs[i.rs] else s.regs[i.rt] != s.regs[i.rs];
      && Step(prog, s).status == Running
      && Step(prog, s).after.regs == s.regs
      && Step(prog, s).after.mem == s.mem
      && Step(prog, s).after.pc == if taken then WrapU32(s.pc + 8 + i.im) else WrapU32(s.pc + 4)
  {
    var i := Decode(prog[s.pc / 4]).value;
    StepDecoded(prog, s, i);
    WrapAdd(s.pc + 4 + i.im, 4);
  }

  /** BEQ with im = 8 at pc 100: the next fetch is from 116 when its
      registers are equal and from 104 when they differ. */
  lemma BranchExample(prog: seq<u32>, s: State, rs: u32, rt: u32)
    requires Valid(s) && 25 < |prog| < TWO_32 && s.pc == 100 && rs < 32 && rt < 32
    requires prog[25] == Encode(IType(0x4, rs, rt, 8))
    ensures Step(prog, s).after.pc == if s.regs[rs] == s.regs[rt] then 116 else 104
  {
    DecodeEncode(IType(0x4, rs, rt, 8));
    BranchStep(prog, s);
  }

  /** JR of a register holding 200: the next fetch is from 200. */
  lemma JumpRegisterExample(prog: seq<u32>, s: State, rs: u32)
    requires Valid(s) && s.pc / 4 < |prog| < TWO_32 && rs < 32 && s.regs[rs] == 200
    requires prog[s.pc / 4] == Encode(RType(0, rs, 0, 0, 0, 0x08))
    ensures Step(prog, s).status == Running && Step(prog, s).after.pc == 200
  {
    DecodeEncode(RType(0, rs, 0, 0, 0, 0x08));
    JumpRegisterStep(prog, s);
  }

  // ---------------------------------------------------------------------
  // Memory

  /** SW writes the stored register to its effective address and changes
      no register, not the pc and no other address. */
  lemma StoreWordFrame(i: Inst, s: State)
    requires Decodable(i) && i.IType? && i.op == 0x2B && Valid(s)
    ensures Execute(i, s).Ok?
    ensures var t := Execute(i, s).value;
      var addr := EffectiveAddress(s.regs[i.rs], i.im);
      && t.regs == s.regs && t.pc == s.pc
      && addr in t.mem && t.mem[addr] == s.regs[i.rt]
      && t.mem.Keys == s.mem.Keys + {addr}
      && forall a :: a in s.mem && a != addr ==> t.mem[a] == s.mem[a]
  {
  }

  /** A load from the address a store just wrote reads the stored value. */
  lemma StoreThenLoad(sw: Inst, lw: Inst, s: State)
    requires Valid(s) && Decodable(sw) && Decodable(lw)
    requires sw.IType? && sw.op == 0x2B && lw.IType? && lw.op == 0x23
    requires EffectiveAddress(s.regs[lw.rs], lw.im) == EffectiveAddress(s.regs[sw.rs], sw.im)
    ensures Execute(sw, s).Ok?
    ensures var t := Execute(sw, s).value;
      Execute(lw, t) == Ok(t.(regs := t.regs[lw.rt := s.regs[sw.rt]]))
  {
  }

  /** A load from an address that has been written puts the word stored
      there into `rt`, at the address `rs` plus the sign-extended
      immediate, and changes nothing else. */
  lemma LoadReads(i: Inst, s: State, loc: u32)
    requires Decodable(i) && i.IType? && i.op == 0x23 && Valid(s)
    requires loc == AsU32(WrapI32(s.regs[i.rs] + (if i.im < 0x8000 then i.im else i.im - 0x1_0000)))
    requires loc in s.mem
    ensures Execute(i, s) == Ok(s.(regs := s.regs[i.rt := s.mem[loc]]))
  {
    ReadImmSignExtends(i.im);
    assert EffectiveAddress(s.regs[i.rs], i.im) == loc;
  }

  /** A load from an address no store has written fails, rather than
      reading a default value, and the state is left alone. */
  lemma LoadUnwrittenFails(prog: seq<u32>, s: State)
    requires Valid(s) && |prog| < TWO_32 && s.pc / 4 < |prog|
    requires Decode(prog[s.pc / 4]).Ok?
    requires var i := Decode(prog[s.pc / 4]).value;
      i.IType? && i.op == 0x23 && EffectiveAddress(s.regs[i.rs], i.im) !in s.mem
    ensures var i := Decode(prog[s.pc / 4]).value;
      Step(prog, s) == Transition(Failed(UnwrittenMemory(EffectiveAddress(s.regs[i.rs], i.im))), s)
  {
  }

  /** In the initial state nothing has been stored, so every load fails. */
  lemma LoadBeforeStoreFails(i: Inst)
    requires Decodable(i) && i.IType? && i.op == 0x23
    ensures Execute(i, Init()) == Err(UnwrittenMemory(EffectiveAddress(0, i.im)))
  {
  }
}
