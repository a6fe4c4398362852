/**
  IT blocks that the relocator breaks.  It copies `it` like any other instruction, and knows
  nothing of the conditions that this puts on what it emits: a block whose instructions are
  all copied stays right (ThumbMeaning); this module says what becomes of one with an
  instruction that is rewritten, and of one that the window cuts.
 */
module ThumbBlocks {
  import opened Words
  import opened ThumbMachine
  import opened ThumbEncoding
  import opened ThumbSteps
  import opened ThumbGadgets
  import opened ThumbSetting
  import opened ThumbMeaning
  import L = ThumbLimits
  import R = ThumbRelocate

  // ---------------------------------------------------------------- the state of a block

  /** How many instructions are still to come in the block. */
  function Remaining(it: nat): nat {
    if it % 16 == 0 then 0
    else if it % 8 == 0 then 1
    else if it % 4 == 0 then 2
    else if it % 2 == 0 then 3
    else 4
  }

  lemma AdvanceRemains(it: nat)
    ensures Remaining(Advance(it)) == if Remaining(it) == 0 then 0 else Remaining(it) - 1
    ensures Remaining(it) == 1 ==> Advance(it) == 0
    ensures Remaining(it) >= 2 ==> Advance(it) != 0
  {
    var q, a := it / 32, it % 32;
    SameRemaining(q, a);
    LowRemains(a);
    if it % 8 != 0 {
      ModIs(2 * it, 32, 2 * q + 2 * a / 32, 2 * a % 32);
      SameRemaining(q, 2 * a % 32);
      assert Advance(it) == 32 * q + 2 * a % 32;
    }
  }

  /** Only the lower bits count the instructions. */
  lemma SameRemaining(q: nat, a: nat)
    requires a < 32
    ensures Remaining(32 * q + a) == Remaining(a) && (32 * q + a) % 8 == a % 8
  {
    ModIs(32 * q + a, 16, 2 * q + a / 16, a % 16);
    ModIs(32 * q + a, 8, 4 * q + a / 8, a % 8);
    ModIs(32 * q + a, 4, 8 * q + a / 4, a % 4);
    ModIs(32 * q + a, 2, 16 * q + a / 2, a % 2);
  }

  lemma LowRemains(a: nat)
    requires a < 32
    ensures a % 8 == 0 ==> Remaining(a) <= 1
    ensures a % 8 != 0 ==> Remaining(a) >= 2 && Remaining(2 * a % 32) == Remaining(a) - 1 && 2 * a % 32 != 0
  {
    var b, q := if a < 16 then a else a - 16, if a < 16 then 0 else 1;
    ModIs(2 * a, 32, q, 2 * b);
    ModIs(a, 16, q, b);
    ModIs(a, 8, 2 * q + b / 8, b % 8);
    ModIs(a, 4, 4 * q + b / 4, b % 4);
    ModIs(a, 2, 8 * q + b / 2, b % 2);
    ModIs(2 * b, 16, b / 8, 2 * (b % 8));
    ModIs(2 * b, 8, b / 4, 2 * (b % 4));
    ModIs(2 * b, 4, b / 2, 2 * (b % 2));
    ModIs(2 * b, 2, b, 0);
  }

  // ---------------------------------------------------------------- one instruction

  /** The instruction `i`, of two or four bytes, lies at `pc`. */
  ghost predicate Decodes(rom: Rom, pc: int, i: Insn, wide: bool) {
    pc in rom && Is32Bit(rom[pc]) == wide && (wide ==> pc + 2 in rom) &&
    i == if wide then Decode32(rom[pc], rom[pc + 2]) else Decode16(rom[pc])
  }

  function Bytes(wide: bool): nat { if wide then 4 else 2 }

  /** Instructions of the gadgets that fall through. */
  predicate IsStraight(i: Insn) {
    match i
    case LdrLit(rt, _) => 0 <= rt < 15
    case LdrImm(rt, rn, _) => 0 <= rt < 15 && 0 <= rn < 15
    case MovReg(rd, rm) => 0 <= rd < 15 && 0 <= rm < 15
    case AddReg(rd, rm) => 0 <= rd < 15 && 0 <= rm < 15
    case Push(r) => 0 <= r < 8
    case Pop(r) => 0 <= r < 8
    case _ => false
  }

  /** The stack pointer after one of them that does not load it. */
  function SpAfter(i: Insn, sp: Word): Word {
    if i.Push? then Plus(sp, -4) else if i.Pop? then Plus(sp, 4) else sp
  }

  predicate KeepsSp(i: Insn) {
    (i.LdrLit? ==> i.rt != SP) && (i.LdrImm? ==> i.rt != SP) && (i.MovReg? || i.AddReg? ==> i.rd != SP)
  }

  /** Executed or not, it takes one place of the block. */
  lemma StraightStep(env: Env, core: Core, pc: int, it: nat, i: Insn, wide: bool) returns (core': Core)
    requires 0 <= pc && pc + 4 < 0x1_0000_0000 && Decodes(env.rom, pc, i, wide) && IsStraight(i)
    ensures Step(env, Run(core, pc, Thumb, it)) == Run(core', pc + Bytes(wide), Thumb, Advance(it))
    ensures it == 0 && KeepsSp(i) ==> core'.regs[SP] == SpAfter(i, core.regs[SP])
  {
    hide Decode16, Decode32, Is32Bit, LoadWord, StoreWord, ConditionHolds, Align4, View;
    PlusSmall(pc, 2);
    PlusSmall(pc, 4);
    if it == 0 {
      if wide {
        StepWide(env, core, pc, i);
      } else {
        StepNarrow(env, core, pc, i);
      }
    } else {
      StepUnder(env, core, pc, it, i, wide);
    }
    core' := Step(env, Run(core, pc, Thumb, it)).core;
  }

  /** Executed as the last of its block, an instruction does what it does outside of one. */
  lemma LastExecuted(env: Env, core: Core, pc: Word, it: nat, i: Insn, wide: bool)
    requires Decodes(env.rom, pc, i, wide) && it != 0 && Advance(it) == 0 && ConditionHolds(it / 16, core.flags)
    requires MayStand(i, true) && !i.Plain?
    ensures Step(env, Run(core, pc, Thumb, it)) == Step(env, Run(core, pc, Thumb))
  {
    hide Decode16, Decode32, Is32Bit, LoadWord, StoreWord, ConditionHolds, Align4, View, PlainEffect, Plus, TableEntry,
      ShortValue, Even;
    StepUnder(env, core, pc, it, i, wide);
    if wide {
      StepWide(env, core, pc, i);
    } else {
      StepNarrow(env, core, pc, i);
    }
  }

  lemma Skipped(env: Env, core: Core, pc: int, it: nat, i: Insn, wide: bool)
    requires 0 <= pc && pc + 4 < 0x1_0000_0000 && Decodes(env.rom, pc, i, wide)
    requires it != 0 && !ConditionHolds(it / 16, core.flags) && MayStand(i, Advance(it) == 0)
    ensures Step(env, Run(core, pc, Thumb, it)) == Run(core, pc + Bytes(wide), Thumb, Advance(it))
  {
    hide Decode16, Decode32, Is32Bit, ConditionHolds, Exec, UnderEffect, MayStand, Advance;
    PlusSmall(pc, 2);
    PlusSmall(pc, 4);
    StepUnder(env, core, pc, it, i, wide);
  }

  lemma ReachesOn(env: Env, s: State, t: State, u: State)
    requires Step(env, s) == t && Reaches(env, t, u)
    ensures Reaches(env, s, u)
  {
    hide Step;
    ReachesStep(env, s, t);
    ReachesTrans(env, s, t, u);
  }

  // ---------------------------------------------------------------- rewritten instructions

  /** The instruction at `off` is rewritten, and falls through. */
  predicate Rewrites(s: Setting, off: nat)
    requires off < |s.win|
  {
    match R.KindAt(s.win, off)
    case KLdr => true
    case KLdrW => R.Second(s.win, off) / 0x1000 != PC
    case KAdd => !R.Refused(s.win[off], R.Second(s.win, off))
    case _ => false
  }

  /** The register that a rewritten literal load fills. */
  function Target(s: Setting, off: nat): int
    requires off < |s.win|
  {
    if R.KindAt(s.win, off) == KLdr then s.win[off] / 0x100 % 8 else R.Second(s.win, off) / 0x1000
  }

  predicate IsLoad(s: Setting, off: nat)
    requires off < |s.win|
  { R.KindAt(s.win, off) == KLdr || R.KindAt(s.win, off) == KLdrW }

  /** The two instructions of a rewritten load. */
  lemma LoadLies(s: Setting, off: nat, start: nat, end: nat) returns (d: int)
    requires Laid(s, off, start, end) && off < |s.win| && Rewrites(s, off) && IsLoad(s, off)
    ensures var rd, pc, wide := Target(s, off), s.buf + 2 * start, R.KindAt(s.win, off) == KLdrW;
            0 <= rd < 15 && (!wide ==> rd < 8) && 0 <= pc && pc + 12 < 0x1_0000_0000 &&
            CodeAddress(pc + Bytes(wide)) &&
            Decodes(s.rom', pc, LdrLit(rd, d), wide) && Decodes(s.rom', pc + Bytes(wide), LdrImm(rd, rd, 0), wide) &&
            Holds(s.rom', pc + Bytes(wide),
                  if wide then [Ldr1Half(rd), Ldr2Half(rd, 0)] else [LdrImmHalf(rd, rd, 0)])
  {
    hide Laid, R.Gadget, Holds, Setting.Valid, R.Splits, R.Need, Classify, Label, R.Pair, Decode16, Decode32, Is32Bit,
      LdrPcHalf, LdrImmHalf, Ldr1Half, Ldr2Half, Align4, Plus;
    LaidNext(s, off, start, end);
    LaidFacts(s, off, start, end);
    var h0, h1, at, rd := s.win[off], R.Second(s.win, off), Plus(s.area, 2 * off), Target(s, off);
    var pc := s.buf + 2 * start;
    var code := R.Gadget(h0, h1, at, start, end).code;
    LoadRoom(R.KindAt(s.win, off), start, end);
    FrontAddresses(s.buf, start, end);
    LabelNamesPoolWord(s.buf, start, end - 2);
    HoldsAt(s.rom', pc, code, 0);
    HoldsAt(s.rom', pc, code, 1);
    if R.KindAt(s.win, off) == KLdrW {
      LdrWPiece(h0, h1, at, start, end);
      HoldsAt(s.rom', pc, code, 2);
      HoldsAt(s.rom', pc, code, 3);
      HoldsTwo(s.rom', pc, code, 2);
      d := Label(start, end - 2);
      LdrWDecodes(rd, d);
      LdrWDecodes(rd, 0);
    } else {
      LdrPiece(h0, h1, at, start, end);
      HoldsOne(s.rom', pc, code, 1);
      d := 4 * (Label(start, end - 2) / 4);
      LdrPcDecodes(rd, Label(start, end - 2) / 4);
      LdrImmDecodes(rd);
    }
  }

  lemma LoadRoom(k: Kind, start: nat, end: nat)
    requires R.Room(k, start, end) && (k == KLdr || k == KLdrW)
    ensures start + 7 <= end <= start + 142 && end % 2 == 0
  {
  }

  /** The five instructions of a rewritten addition. */
  lemma AddLies(s: Setting, off: nat, start: nat, end: nat) returns (d: int)
    requires Laid(s, off, start, end) && off < |s.win| && R.KindAt(s.win, off) == KAdd && Rewrites(s, off)
    ensures var rd, pc := s.win[off] % 8, s.buf + 2 * start;
            var rt := R.Scratch(rd);
            0 <= pc && pc + 14 < 0x1_0000_0000 &&
            Decodes(s.rom', pc, Push(rt), false) && Decodes(s.rom', pc + 2, MovReg(rt, rd), false) &&
            Decodes(s.rom', pc + 4, LdrLit(rd, d), false) && Decodes(s.rom', pc + 6, AddReg(rd, rt), false) &&
            Decodes(s.rom', pc + 8, Pop(rt), false)
  {
    hide Laid, R.Gadget, Holds, Setting.Valid, R.Splits, R.Need, Classify, Label, R.Pair, Decode16, Decode32, Is32Bit,
      LdrPcHalf, PushHalf, PopHalf, MovHalf, AddHalf, Align4, Plus;
    LaidNext(s, off, start, end);
    LaidFacts(s, off, start, end);
    var h0, h1, at, pc := s.win[off], R.Second(s.win, off), Plus(s.area, 2 * off), s.buf + 2 * start;
    var rd := h0 % 8;
    var rt := R.Scratch(rd);
    var code := R.Gadget(h0, h1, at, start, end).code;
    FrontAddresses(s.buf, start, end);
    LabelNamesPoolWord(s.buf, start + 2, end - 2);
    AddPiece(h0, h1, at, start, end);
    HoldsAt(s.rom', pc, code, 0);
    HoldsAt(s.rom', pc, code, 1);
    HoldsAt(s.rom', pc, code, 2);
    HoldsAt(s.rom', pc, code, 3);
    HoldsAt(s.rom', pc, code, 4);
    PushDecodes(rt);
    MovDecodes(rt, rd);
    d := 4 * (Label(start + 2, end - 2) / 4);
    LdrPcDecodes(rd, Label(start + 2, end - 2) / 4);
    AddDecodes(rd, rt);
  }

  /** The gadget of a rewritten instruction takes as many places of the block as it has
      instructions. */
  lemma LoadTakes(s: Setting, off: nat, start: nat, end: nat, c': Core, it: nat) returns (r: State)
    requires Laid(s, off, start, end) && off < |s.win| && Rewrites(s, off) && IsLoad(s, off)
    ensures Reaches(s.Hooked(), Run(c', s.buf + 2 * start, Thumb, it), r)
    ensures r.Run? && r.isa == Thumb && r.pc == s.buf + 2 * (start + R.CodeSize(R.KindAt(s.win, off))) &&
            r.it == Advance(Advance(it))
  {
    hide Laid, Step, Reaches, Decodes, Setting.Valid, Classify, R.Need, R.Splits, Advance, R.Refused, Plus;
    LaidFacts(s, off, start, end);
    var env, pc := s.Hooked(), s.buf + 2 * start;
    var d := LoadLies(s, off, start, end);
    var rd, wide := Target(s, off), R.KindAt(s.win, off) == KLdrW;
    var w := Bytes(wide);
    var c1 := StraightStep(env, c', pc, it, LdrLit(rd, d), wide);
    var c2 := StraightStep(env, c1, pc + w, Advance(it), LdrImm(rd, rd, 0), wide);
    r := Run(c2, pc + 2 * w, Thumb, Advance(Advance(it)));
    ReachesNow(env, r);
    ReachesOn(env, Run(c1, pc + w, Thumb, Advance(it)), r, r);
    ReachesOn(env, Run(c', pc, Thumb, it), Run(c1, pc + w, Thumb, Advance(it)), r);
  }

  /** The state after the second instruction, and two more. */
  function Twice(it: nat): nat { Advance(Advance(it)) }

  lemma AddTakes(s: Setting, off: nat, start: nat, end: nat, c': Core, it: nat) returns (r: State)
    requires Laid(s, off, start, end) && off < |s.win| && Rewrites(s, off) && R.KindAt(s.win, off) == KAdd
    ensures Reaches(s.Hooked(), Run(c', s.buf + 2 * start, Thumb, it), r)
    ensures r.Run? && r.isa == Thumb && r.pc == s.buf + 2 * (start + 5) && r.it == Advance(Twice(Twice(it)))
  {
    hide Laid, Step, Reaches, Decodes, Setting.Valid, Classify, R.Need, R.Splits, Advance, R.Refused, Plus;
    LaidFacts(s, off, start, end);
    var env, pc := s.Hooked(), s.buf + 2 * start;
    var d := AddLies(s, off, start, end);
    var rd := s.win[off] % 8;
    var rt := R.Scratch(rd);
    var c1 := StraightStep(env, c', pc, it, Push(rt), false);
    var s1 := Run(c1, pc + 2, Thumb, Advance(it));
    var c2 := StraightStep(env, c1, pc + 2, Advance(it), MovReg(rt, rd), false);
    var s2 := Run(c2, pc + 4, Thumb, Twice(it));
    r := AddTail(env, c2, pc + 4, Twice(it), rd, rt, d);
    ReachesOn(env, s1, s2, r);
    ReachesOn(env, Run(c', pc, Thumb, it), s1, r);
  }

  /** The last three instructions of a rewritten addition. */
  lemma AddTail(env: Env, core: Core, pc: int, it: nat, rd: int, rt: int, d: int) returns (r: State)
    requires 0 <= pc && pc + 10 < 0x1_0000_0000 && 0 <= rd < 8 && 0 <= rt < 8
    requires Decodes(env.rom, pc, LdrLit(rd, d), false) && Decodes(env.rom, pc + 2, AddReg(rd, rt), false)
    requires Decodes(env.rom, pc + 4, Pop(rt), false)
    ensures Reaches(env, Run(core, pc, Thumb, it), r)
    ensures r.Run? && r.isa == Thumb && r.pc == pc + 6 && r.it == Advance(Twice(it))
    ensures it == 0 ==> r.core.regs[SP] == Plus(core.regs[SP], 4)
  {
    hide Step, Reaches, Decodes, Advance, Plus;
    StaysClosed();
    var c1 := StraightStep(env, core, pc, it, LdrLit(rd, d), false);
    var s1 := Run(c1, pc + 2, Thumb, Advance(it));
    var c2 := StraightStep(env, c1, pc + 2, Advance(it), AddReg(rd, rt), false);
    var s2 := Run(c2, pc + 4, Thumb, Twice(it));
    var c3 := StraightStep(env, c2, pc + 4, Twice(it), Pop(rt), false);
    r := Run(c3, pc + 6, Thumb, Advance(Twice(it)));
    ReachesNow(env, r);
    ReachesOn(env, s2, r, r);
    ReachesOn(env, s1, s2, r);
    ReachesOn(env, Run(core, pc, Thumb, it), s1, r);
  }

  lemma StaysClosed()
    ensures Advance(0) == 0
  {
  }

  // ---------------------------------------------------------------- what the original does

  lemma RewrittenDecoded(h0: Half, h1: Half)
    ensures Classify(h0, h1) == KLdr ==> IsFallThrough(OriginalInsn(h0, h1))
    ensures Classify(h0, h1) == KLdrW && h1 / 0x1000 != PC ==> IsFallThrough(OriginalInsn(h0, h1))
    ensures Classify(h0, h1) == KAdd && !R.Refused(h0, h1) ==> IsFallThrough(OriginalInsn(h0, h1))
  {
    hide OriginalInsn, Classify, R.Refused;
    if Classify(h0, h1) == KLdr {
      LdrDecoded(h0, h1);
    } else if Classify(h0, h1) == KLdrW && h1 / 0x1000 != PC {
      LdrWDecoded(h0, h1);
    } else if Classify(h0, h1) == KAdd && !R.Refused(h0, h1) {
      AddDecoded(h0, h1);
    }
  }

  /** Literal loads and additions of the program counter, into a register. */
  predicate IsFallThrough(i: Insn) {
    (i.LdrLit? && 0 <= i.rt < 15) || (i.AddReg? && 0 <= i.rd < 15 && i.rm == PC)
  }

  lemma OriginalUnder(s: Setting, off: nat, c: Core, it: nat)
    requires s.Valid() && off < |s.win| && off + R.WidthAt(s.win, off) <= |s.win| && Rewrites(s, off) && it != 0
    ensures var o := UnderStep(s, off, c, it);
            o.Run? && o.isa == Thumb && o.it == Advance(it) && o.pc == s.area + 2 * (off + R.WidthAt(s.win, off)) &&
            (!ConditionHolds(it / 16, c.flags) ==> o.core == c) &&
            (ConditionHolds(it / 16, c.flags) && Advance(it) == 0 ==> o == OriginalStep(s, off, c))
  {
    hide OriginalInsn, Classify, R.Refused, R.IsWindow, R.AnyRefused, R.Trampoline, Holds, Hides, InSpace, LoadWord,
      ConditionHolds, Align4, Advance, OriginalStep, UnderStep;
    RewrittenDecoded(s.win[off], R.Second(s.win, off));
    UnderRuns(s, off, c, it);
    OriginalRuns(s, off, c);
    PlainAddress(s.area, |s.win|, off);
  }

  // ---------------------------------------------------------------- inside a block

  /** Before the last place of its block, a rewritten instruction is never right: its gadget
      takes the conditions of the instructions behind it. */
  lemma InsideBlockNeverRight(s: Setting, off: nat, start: nat, end: nat, c: Core, c': Core, it: nat)
    returns (r: State)
    requires Laid(s, off, start, end) && off < |s.win| && Rewrites(s, off) && Remaining(it) >= 2
    ensures Reaches(s.Hooked(), Run(c', s.buf + 2 * start, Thumb, it), r) && UnderStep(s, off, c, it).Run?
    ensures var k := R.KindAt(s.win, off);
            r.Run? && r.pc == s.buf + 2 * (start + R.CodeSize(k)) &&
            !FellThrough(s, UnderStep(s, off, c, it), r, off + Width(k), start + R.CodeSize(k))
  {
    hide Laid, Step, Reaches, Setting.Valid, Classify, R.Need, R.Splits, Advance, UnderStep, R.Refused, Agree;
    LaidFacts(s, off, start, end);
    OriginalUnder(s, off, c, it);
    TakenRemains(it);
    if IsLoad(s, off) {
      r := LoadTakes(s, off, start, end, c', it);
    } else {
      r := AddTakes(s, off, start, end, c', it);
    }
  }

  lemma TakenRemains(it: nat)
    requires Remaining(it) >= 2
    ensures it != 0 && Advance(it) != Advance(Advance(it)) && Advance(it) != Advance(Twice(Twice(it)))
  {
    hide Advance, Remaining;
    StaysClosed();
    RemainingNone();
    AdvanceRemains(it);
    AdvanceRemains(Advance(it));
    AdvanceRemains(Twice(it));
    AdvanceRemains(Advance(Twice(it)));
    AdvanceRemains(Twice(Twice(it)));
  }

  lemma RemainingNone()
    ensures Remaining(0) == 0
  {
  }

  // ---------------------------------------------------------------- the last of a block

  /** Loading from the register that should have been loaded does no harm when the word there
      is the register itself, or when the register is not compared. */
  ghost predicate LoadHarmless(s: Setting, off: nat, c': Core)
    requires off < |s.win|
  {
    IsLoad(s, off) && 0 <= Target(s, off) < 15 &&
    (LoadWord(s.rom', c'.mem, c'.regs[Target(s, off)]) == c'.regs[Target(s, off)] || (Target(s, off) == LR && !s.link))
  }

  /** At the last place of its block, a rewritten instruction is right exactly when its
      condition holds, or it is a load and the second half of its gadget, which is executed in
      any case, does no harm. */
  lemma LastOfBlockRightIff(s: Setting, off: nat, start: nat, end: nat, c: Core, c': Core, it: nat) returns (r: State)
    requires Laid(s, off, start, end) && off < |s.win| && Rewrites(s, off) && Remaining(it) == 1
    requires Agree(c, c', s) && (ConditionHolds(it / 16, c.flags) ==> Quiet(s, off, c))
    ensures Reaches(s.Hooked(), Run(c', s.buf + 2 * start, Thumb, it), r)
    ensures var k := R.KindAt(s.win, off);
            FellThrough(s, UnderStep(s, off, c, it), r, off + Width(k), start + R.CodeSize(k)) <==>
            ConditionHolds(it / 16, c.flags) || LoadHarmless(s, off, c')
  {
    hide Laid, Step, Reaches, Setting.Valid, Classify, R.Need, R.Splits, Advance, R.Refused, Agree, Quiet, OriginalStep,
      UnderStep, LoadHarmless, CodeAddress, InSpace;
    LaidFacts(s, off, start, end);
    RemainingNone();
    AdvanceRemains(it);
    OriginalUnder(s, off, c, it);
    AgreeFlags(c, c', s);
    if ConditionHolds(it / 16, c.flags) {
      r := LastTaken(s, off, start, end, c, c', it);
    } else if IsLoad(s, off) {
      r := LoadSkipped(s, off, start, end, c, c', it);
    } else {
      r := AddSkipped(s, off, start, end, c, c', it);
      NoLoad(s, off, c');
    }
  }

  lemma NoLoad(s: Setting, off: nat, c': Core)
    requires off < |s.win| && !IsLoad(s, off)
    ensures !LoadHarmless(s, off, c')
  {
    hide IsLoad;
  }

  /** Executed, the first instruction of the gadget closes the block. */
  lemma LastTaken(s: Setting, off: nat, start: nat, end: nat, c: Core, c': Core, it: nat) returns (r: State)
    requires Laid(s, off, start, end) && off < |s.win| && Rewrites(s, off) && it != 0 && Advance(it) == 0
    requires Agree(c, c', s) && ConditionHolds(it / 16, c.flags) && Quiet(s, off, c)
    ensures Reaches(s.Hooked(), Run(c', s.buf + 2 * start, Thumb, it), r)
    ensures var k := R.KindAt(s.win, off);
            FellThrough(s, OriginalStep(s, off, c), r, off + Width(k), start + R.CodeSize(k))
  {
    hide Laid, Step, Reaches, Setting.Valid, Classify, R.Need, R.Splits, Advance, R.Refused, Agree, Quiet, OriginalStep,
      Decodes, CodeAddress, InSpace, ConditionHolds;
    LaidFacts(s, off, start, end);
    AgreeFlags(c, c', s);
    var env, pc := s.Hooked(), s.buf + 2 * start;
    if IsLoad(s, off) {
      var d := LoadLies(s, off, start, end);
      LastExecuted(env, c', pc, it, LdrLit(Target(s, off), d), R.KindAt(s.win, off) == KLdrW);
      if R.KindAt(s.win, off) == KLdr {
        r := SimulateLdr(s, off, start, end, c, c');
      } else {
        r := SimulateLdrW(s, off, start, end, c, c');
      }
    } else {
      var d := AddLies(s, off, start, end);
      LastExecuted(env, c', pc, it, Push(R.Scratch(s.win[off] % 8)), false);
      r := SimulateAdd(s, off, start, end, c, c');
    }
    ReachesLater(env, Run(c', pc, Thumb), r);
    ReachesOn(env, Run(c', pc, Thumb, it), Step(env, Run(c', pc, Thumb)), r);
  }

  /** Not executed, a load still loads from whatever its register holds. */
  lemma LoadSkipped(s: Setting, off: nat, start: nat, end: nat, c: Core, c': Core, it: nat) returns (r: State)
    requires Laid(s, off, start, end) && off < |s.win| && Rewrites(s, off) && IsLoad(s, off)
    requires it != 0 && Advance(it) == 0 && Agree(c, c', s) && !ConditionHolds(it / 16, c.flags)
    ensures Reaches(s.Hooked(), Run(c', s.buf + 2 * start, Thumb, it), r)
    ensures r.Run? && r.isa == Thumb && r.it == 0 && r.pc == s.buf + 2 * (start + R.CodeSize(R.KindAt(s.win, off)))
    ensures Agree(c, r.core, s) <==> LoadHarmless(s, off, c')
  {
    hide Laid, Step, Reaches, Setting.Valid, Classify, R.Need, R.Splits, Advance, R.Refused, Agree, Decodes, InSpace,
      ConditionHolds, LoadWord, Holds, CodeAddress, LdrImmHalf, Ldr1Half, Ldr2Half;
    LaidFacts(s, off, start, end);
    AgreeFlags(c, c', s);
    var env, pc := s.Hooked(), s.buf + 2 * start;
    var d := LoadLies(s, off, start, end);
    var rd, wide := Target(s, off), R.KindAt(s.win, off) == KLdrW;
    var w := Bytes(wide);
    Skipped(env, c', pc, it, LdrLit(rd, d), wide);
    if wide {
      DoLdrWImm(env, c', pc + w, rd);
    } else {
      LdrImmDecodes(rd);
      HoldsAt(s.rom', pc + w, [LdrImmHalf(rd, rd, 0)], 0);
      DoLdrImm(env, c', pc + w, rd, LdrImmHalf(rd, rd, 0));
    }
    var v := LoadWord(s.rom', c'.mem, c'.regs[rd]);
    r := Run(SetReg(c', rd, v), pc + 2 * w, Thumb);
    ReachesOn(env, Run(c', pc, Thumb, it), Run(c', pc + w, Thumb), r);
    ReplacedAgrees(s, c, c', rd, v);
  }

  lemma ReplacedAgrees(s: Setting, c: Core, c': Core, rd: int, v: Word)
    requires Agree(c, c', s) && 0 <= rd < 15
    ensures Agree(c, SetReg(c', rd, v), s) <==> v == c'.regs[rd] || (rd == LR && !s.link)
  {
    hide ReadRam;
    assert SetReg(c', rd, v).regs[rd] == v;
  }

  /** Not executed, an addition still restores a register that was not saved. */
  lemma AddSkipped(s: Setting, off: nat, start: nat, end: nat, c: Core, c': Core, it: nat) returns (r: State)
    requires Laid(s, off, start, end) && off < |s.win| && Rewrites(s, off) && R.KindAt(s.win, off) == KAdd
    requires it != 0 && Advance(it) == 0 && Agree(c, c', s) && !ConditionHolds(it / 16, c.flags)
    ensures Reaches(s.Hooked(), Run(c', s.buf + 2 * start, Thumb, it), r)
    ensures r.Run? && !Agree(c, r.core, s)
  {
    hide Laid, Step, Reaches, Setting.Valid, Classify, R.Need, R.Splits, Advance, R.Refused, Decodes, InSpace,
      ConditionHolds, CodeAddress, Plus, ReadRam;
    LaidFacts(s, off, start, end);
    StaysClosed();
    var env, pc := s.Hooked(), s.buf + 2 * start;
    var d := AddLies(s, off, start, end);
    var rd := s.win[off] % 8;
    var rt := R.Scratch(rd);
    Skipped(env, c', pc, it, Push(rt), false);
    var c1 := StraightStep(env, c', pc + 2, 0, MovReg(rt, rd), false);
    r := AddTail(env, c1, pc + 4, 0, rd, rt, d);
    ReachesOn(env, Run(c', pc + 2, Thumb), Run(c1, pc + 4, Thumb), r);
    ReachesOn(env, Run(c', pc, Thumb, it), Run(c', pc + 2, Thumb), r);
    MovedStack(c'.regs[SP]);
  }

  lemma MovedStack(sp: Word)
    ensures Plus(sp, 4) != sp
  {
  }

  // ---------------------------------------------------------------- calls

  /** The five instructions of a rewritten call. */
  lemma CallLies(s: Setting, off: nat, start: nat, end: nat) returns (d: int)
    requires Laid(s, off, start, end) && off < |s.win| && R.KindAt(s.win, off) == KBl
    ensures var pc := s.buf + 2 * start;
            0 <= pc && pc + 14 < 0x1_0000_0000 && CodeAddress(pc + 8) &&
            Decodes(s.rom', pc, Push(7), false) && Decodes(s.rom', pc + 2, LdrLit(7, d), false) &&
            Decodes(s.rom', pc + 4, MovReg(14, 7), false) && Decodes(s.rom', pc + 6, Pop(7), false) &&
            Holds(s.rom', pc + 8, [BlxHalf(14)])
  {
    hide Laid, R.Gadget, Holds, Setting.Valid, R.Splits, R.Need, Classify, R.Pair, Decode16, Decode32, Is32Bit,
      LdrPcHalf, PushHalf, PopHalf, MovHalf, BlxHalf, Align4, Plus, R.BlJump;
    LaidNext(s, off, start, end);
    LaidFacts(s, off, start, end);
    var h0, h1, at, pc := s.win[off], R.Second(s.win, off), Plus(s.area, 2 * off), s.buf + 2 * start;
    var code := R.Gadget(h0, h1, at, start, end).code;
    FrontAddresses(s.buf, start, end);
    CallLabel(start + 1, end - 2);
    LabelNamesPoolWord(s.buf, start + 1, end - 2);
    BlPiece(h0, h1, at, start, end);
    HoldsAt(s.rom', pc, code, 0);
    HoldsAt(s.rom', pc, code, 1);
    HoldsAt(s.rom', pc, code, 2);
    HoldsAt(s.rom', pc, code, 3);
    HoldsOne(s.rom', pc, code, 4);
    PushDecodes(7);
    var im := ((end - 2 - (start + 1)) * 2 - 4 + 2) / 4;
    d := 4 * im;
    LdrPcDecodes(7, im);
    MovDecodes(14, 7);
  }

  lemma OriginalDecodes(s: Setting, off: nat)
    requires s.Valid() && off < |s.win| && off + R.WidthAt(s.win, off) <= |s.win|
    ensures var h0, h1 := s.win[off], R.Second(s.win, off);
            Decodes(s.rom, s.area + 2 * off, OriginalInsn(h0, h1), Is32(h0)) &&
            0 <= s.area && s.area + 2 * off + 4 < 0x1_0000_0000
  {
    hide Decode16, Decode32, R.IsWindow, R.AnyRefused, R.Trampoline, R.Total;
    HoldsAt(s.rom, s.area, s.win, off);
    if Is32(s.win[off]) {
      HoldsAt(s.rom, s.area, s.win, off + 1);
    }
  }

  /** A call at the last place of a block. */
  lemma CallUnder(s: Setting, off: nat, c: Core, it: nat)
    requires s.Valid() && off < |s.win| && off + R.WidthAt(s.win, off) <= |s.win| && R.KindAt(s.win, off) == KBl
    requires it != 0 && Advance(it) == 0
    ensures UnderStep(s, off, c, it)
            == if ConditionHolds(it / 16, c.flags) then OriginalStep(s, off, c)
               else Run(c, s.area + 2 * (off + 2), Thumb)
  {
    hide OriginalInsn, Decodes, R.IsWindow, R.AnyRefused, R.Trampoline, R.Total, Holds, Hides, InSpace, ConditionHolds,
      Advance, Step, R.BlJump;
    var h0, h1 := s.win[off], R.Second(s.win, off);
    OriginalDecodes(s, off);
    BlDecoded(h0, h1);
    CallIsWide(h0, h1);
    hide Classify;
    if ConditionHolds(it / 16, c.flags) {
      LastExecuted(s.Orig(), c, s.area + 2 * off, it, OriginalInsn(h0, h1), true);
    } else {
      Skipped(s.Orig(), c, s.area + 2 * off, it, OriginalInsn(h0, h1), true);
    }
  }

  lemma CallIsWide(h0: Half, h1: Half)
    requires Classify(h0, h1) == KBl
    ensures Is32(h0)
  {
  }

  /** Not executed, the gadget of a call still calls, with the stack pointer moved. */
  lemma CallSkipped(s: Setting, off: nat, start: nat, end: nat, c': Core, it: nat) returns (r: State)
    requires Laid(s, off, start, end) && off < |s.win| && R.KindAt(s.win, off) == KBl
    requires it != 0 && Advance(it) == 0 && !ConditionHolds(it / 16, c'.flags)
    ensures Reaches(s.Hooked(), Run(c', s.buf + 2 * start, Thumb, it), r)
    ensures r.Run? ==> r.core.regs[SP] == Plus(c'.regs[SP], 4)
  {
    hide Laid, Step, Reaches, Setting.Valid, Classify, R.Need, R.Splits, Advance, Decodes, InSpace, ConditionHolds,
      CodeAddress, Plus, Holds, BlxHalf;
    LaidFacts(s, off, start, end);
    StaysClosed();
    var env, pc := s.Hooked(), s.buf + 2 * start;
    var d := CallLies(s, off, start, end);
    Skipped(env, c', pc, it, Push(7), false);
    var c1 := StraightStep(env, c', pc + 2, 0, LdrLit(7, d), false);
    var c2 := StraightStep(env, c1, pc + 4, 0, MovReg(14, 7), false);
    var c3 := StraightStep(env, c2, pc + 6, 0, Pop(7), false);
    DoBlx(env, c3, pc + 8, 14);
    r := Interwork(SetReg(c3, LR, Plus(pc + 8, 3)), c3.regs[14]);
    ReachesOn(env, Run(c2, pc + 6, Thumb), Run(c3, pc + 8, Thumb), r);
    ReachesOn(env, Run(c1, pc + 4, Thumb), Run(c2, pc + 6, Thumb), r);
    ReachesOn(env, Run(c', pc + 2, Thumb), Run(c1, pc + 4, Thumb), r);
    ReachesOn(env, Run(c', pc, Thumb, it), Run(c', pc + 2, Thumb), r);
  }

  /** Executed, the first instruction of the gadget closes the block. */
  lemma CallTaken(s: Setting, off: nat, start: nat, end: nat, c: Core, c': Core, it: nat) returns (r: State)
    requires Laid(s, off, start, end) && off < |s.win| && R.KindAt(s.win, off) == KBl
    requires Agree(c, c', s) && Quiet(s, off, c) && it != 0 && Advance(it) == 0 && ConditionHolds(it / 16, c.flags)
    ensures Reaches(s.Hooked(), Run(c', s.buf + 2 * start, Thumb, it), r)
    ensures Matches(s, OriginalStep(s, off, c), r, off + 2, start + 5) <==> CallsRightly(s, off)
  {
    hide Laid, Step, Reaches, Setting.Valid, Classify, R.Need, R.Splits, Advance, Agree, Quiet, OriginalStep,
      Decodes, CodeAddress, InSpace, ConditionHolds, AgreeButLr;
    LaidFacts(s, off, start, end);
    AgreeFlags(c, c', s);
    var env, pc := s.Hooked(), s.buf + 2 * start;
    var d := CallLies(s, off, start, end);
    LastExecuted(env, c', pc, it, Push(7), false);
    if CallsRightly(s, off) {
      r := SimulateBl(s, off, start, end, c, c');
    } else {
      r := L.BlxRightIffAligned(s, off, start, end, c, c');
      ReachesLater(env, Run(c', pc, Thumb), r);
    }
    ReachesOn(env, Run(c', pc, Thumb, it), Step(env, Run(c', pc, Thumb)), r);
  }

  /** Original and relocated code have come to the same, in one of the three ways. */
  ghost predicate Matches(s: Setting, o: State, r: State, off: nat, start: nat) {
    FellThrough(s, o, r, off, start) || Left(s, o, r) || Called(s, o, r, off, start)
  }

  /** BL, or BLX at a multiple of four (see ThumbLimits.BlxRightIffAligned). */
  predicate CallsRightly(s: Setting, off: nat)
    requires off < |s.win|
  { R.Second(s.win, off) / 0x1000 % 2 == 1 || (s.area + 2 * off) % 4 == 0 }

  /** A call at the last place of its block is right exactly when its condition holds, and it
      is right outside of a block. */
  lemma CallInBlockRightIff(s: Setting, off: nat, start: nat, end: nat, c: Core, c': Core, it: nat) returns (r: State)
    requires Laid(s, off, start, end) && off < |s.win| && R.KindAt(s.win, off) == KBl && Remaining(it) == 1
    requires Agree(c, c', s) && (ConditionHolds(it / 16, c.flags) ==> Quiet(s, off, c))
    ensures Reaches(s.Hooked(), Run(c', s.buf + 2 * start, Thumb, it), r)
    ensures Matches(s, UnderStep(s, off, c, it), r, off + 2, start + 5) <==>
            ConditionHolds(it / 16, c.flags) && CallsRightly(s, off)
  {
    hide Laid, Step, Reaches, Setting.Valid, Classify, R.Need, R.Splits, Advance, Remaining, Agree, Quiet, OriginalStep,
      UnderStep, Decodes, CodeAddress, InSpace, ConditionHolds, AgreeButLr, Relocatable, FellThrough, Left,
      Called, CallsRightly, Matches;
    LaidFacts(s, off, start, end);
    RemainingNone();
    AdvanceRemains(it);
    CallUnder(s, off, c, it);
    AgreeFlags(c, c', s);
    var env, pc := s.Hooked(), s.buf + 2 * start;
    if ConditionHolds(it / 16, c.flags) {
      r := CallTaken(s, off, start, end, c, c', it);
    } else {
      r := CallSkipped(s, off, start, end, c', it);
      StackMoved(s, c, c', Run(c, s.area + 2 * (off + 2), Thumb), r, off + 2, start + 5);
    }
  }

  lemma StackMoved(s: Setting, c: Core, c': Core, o: State, r: State, off: nat, start: nat)
    requires Agree(c, c', s) && o.Run? && o.core == c && (r.Run? ==> r.core.regs[SP] == Plus(c'.regs[SP], 4))
    ensures !Matches(s, o, r, off, start)
  {
    hide Plus, ReadRam;
    MovedStack(c'.regs[SP]);
  }

  // ---------------------------------------------------------------- copied readers of the program counter

  /** A copied instruction that may stand in a block, and reads the program counter, is right
      there exactly when it is not executed, or the copy is right outside of a block (which
      ThumbLimits decides). */
  lemma CopiedInBlockRightIff(s: Setting, off: nat, start: nat, end: nat, c: Core, c': Core, it: nat)
    requires Laid(s, off, start, end) && off < |s.win| && it != 0 && Agree(c, c', s)
    requires R.KindAt(s.win, off) == KCopy16 || R.KindAt(s.win, off) == KCopy32
    requires var i := OriginalInsn(s.win[off], R.Second(s.win, off));
             !PositionIndependent(i) && MayStand(i, Advance(it) == 0)
    ensures 0 <= s.buf && s.buf + 2 * start < 0x1_0000_0000
    ensures var w, here := R.WidthAt(s.win, off), s.buf + 2 * start;
            var o, r := UnderStep(s, off, c, it), Step(s.Hooked(), Run(c', here, Thumb, it));
            if ConditionHolds(it / 16, c.flags)
            then Matches(s, o, r, off + w, start + w) <==>
                 Matches(s, OriginalStep(s, off, c), Step(s.Hooked(), Run(c', here, Thumb)), off + w, start + w)
            else FellThrough(s, o, r, off + w, start + w)
  {
    hide Laid, Step, Agree, AgreeButLr, OriginalInsn, Plus, Setting.Valid, InSpace, CodeAddress, R.Splits, R.Need,
      Classify, Advance, ConditionHolds, PositionIndependent, Exec, UnderEffect, OriginalStep, UnderStep;
    LaidFacts(s, off, start, end);
    PlainAddress(s.area, |s.win|, off);
    AgreeFlags(c, c', s);
    var i, w := OriginalInsn(s.win[off], R.Second(s.win, off)), R.WidthAt(s.win, off);
    UnderRuns(s, off, c, it);
    OriginalRuns(s, off, c);
    CopyRunsUnder(s, off, start, end, c', it);
    CopyRuns(s, off, start, end, c');
    CopyAddress(s.buf, start, w);
    ReaderCloses(s.Orig(), i, c, s.area + 2 * off, 2 * w, Advance(it));
    ReaderCloses(s.Hooked(), i, c', s.buf + 2 * start, 2 * w, Advance(it));
  }

  /** Such an instruction opens no block itself. */
  lemma ReaderCloses(env: Env, i: Insn, core: Core, pc: Word, width: int, it: nat)
    requires !PositionIndependent(i) && MayStand(i, it == 0)
    ensures Exec(env, i, core, pc, width).Run? ==> Exec(env, i, core, pc, width).it == 0
  {
    hide PositionIndependent, LoadWord, ConditionHolds, Align4, Plus, PlainEffect, ShortValue, TableEntry, Even;
  }

  // ---------------------------------------------------------------- wide loads of the program counter

  /** Where the second half of a relocated `ldr.w pc` finds its word: behind the gadget. */
  function SecondLiteral(s: Setting, start: nat): Word { Align4(Wrap(s.buf + 2 * (start + 2) + 4)) }

  /** `ldr.w pc` from a literal at the last place of its block: executed, it jumps to the
      literal as it does outside of a block; not executed, its second half jumps to wherever
      the words behind the gadget say. */
  lemma LoadOfPcInBlockRightIff(s: Setting, off: nat, start: nat, end: nat, c: Core, c': Core, it: nat)
    returns (r: State)
    requires Laid(s, off, start, end) && off < |s.win| && R.KindAt(s.win, off) == KLdrW && Remaining(it) == 1
    requires R.Second(s.win, off) / 0x1000 == PC && Agree(c, c', s)
    ensures Reaches(s.Hooked(), Run(c', s.buf + 2 * start, Thumb, it), r)
    ensures var a := LiteralOf(s.win[off], R.Second(s.win, off), Plus(s.area, 2 * off));
            var v := LoadWord(s.rom, c.mem, a);
            if ConditionHolds(it / 16, c.flags)
            then Left(s, UnderStep(s, off, c, it), r) <==> v == a || (v % 4 == 2 && a % 4 == 2)
            else FellThrough(s, UnderStep(s, off, c, it), r, off + 2, start + 4) <==>
                 LoadWord(s.rom', c'.mem, SecondLiteral(s, start)) == s.buf + 2 * (start + 4) + 1
  {
    hide Laid, Step, Reaches, Agree, LoadWord, LiteralOf, Left, OriginalStep, UnderStep, OriginalInsn, Setting.Valid,
      InSpace, CodeAddress, R.Splits, R.Need, Classify, Advance, Remaining, ConditionHolds, Decodes, SecondLiteral,
      Interwork, Plus, FellThrough;
    LaidFacts(s, off, start, end);
    PlainAddress(s.area, |s.win|, off);
    RemainingNone();
    AdvanceRemains(it);
    AgreeFlags(c, c', s);
    var env, pc, at := s.Hooked(), s.buf + 2 * start, s.area + 2 * off;
    var d := PcLoadLies(s, off, start, end);
    PcLoadUnder(s, off, c, it);
    if ConditionHolds(it / 16, c.flags) {
      r := L.LoadOfPcRightIff(s, off, start, end, c, c');
      LastExecuted(env, c', pc, it, LdrLit(PC, d), true);
      ReachesNow(env, r);
      ReachesOn(env, Run(c', pc, Thumb, it), r, r);
    } else {
      r := PcLoadSkipped(s, off, start, end, c, c', it);
    }
  }

  lemma PcLoadSkipped(s: Setting, off: nat, start: nat, end: nat, c: Core, c': Core, it: nat) returns (r: State)
    requires Laid(s, off, start, end) && off < |s.win| && R.KindAt(s.win, off) == KLdrW
    requires R.Second(s.win, off) / 0x1000 == PC && Agree(c, c', s)
    requires it != 0 && Advance(it) == 0 && !ConditionHolds(it / 16, c'.flags)
    ensures Reaches(s.Hooked(), Run(c', s.buf + 2 * start, Thumb, it), r)
    ensures 0 <= s.area && s.area + 2 * (off + 2) < 0x1_0000_0000
    ensures FellThrough(s, Run(c, s.area + 2 * (off + 2), Thumb), r, off + 2, start + 4) <==>
            LoadWord(s.rom', c'.mem, SecondLiteral(s, start)) == s.buf + 2 * (start + 4) + 1
  {
    hide Laid, Step, Reaches, Agree, LoadWord, Setting.Valid, InSpace, CodeAddress, R.Splits, R.Need, Classify, Advance,
      ConditionHolds, Decodes, SecondLiteral, Interwork;
    LaidFacts(s, off, start, end);
    var env, pc := s.Hooked(), s.buf + 2 * start;
    var d := PcLoadLies(s, off, start, end);
    var v := LoadWord(s.rom', c'.mem, SecondLiteral(s, start));
    Skipped(env, c', pc, it, LdrLit(PC, d), true);
    SecondHalf(s, start, c');
    r := Interwork(c', v);
    ReachesNow(env, r);
    ReachesOn(env, Run(c', pc + 4, Thumb), r, r);
    ReachesOn(env, Run(c', pc, Thumb, it), Run(c', pc + 4, Thumb), r);
    EvenPlace(pc, s.buf + 2 * (start + 4));
    OnlyThumb(c', v, s.buf + 2 * (start + 4));
  }

  lemma PcLoadLies(s: Setting, off: nat, start: nat, end: nat) returns (d: int)
    requires Laid(s, off, start, end) && off < |s.win| && R.KindAt(s.win, off) == KLdrW
    requires R.Second(s.win, off) / 0x1000 == PC
    ensures var pc := s.buf + 2 * start;
            0 <= pc && pc + 12 < 0x1_0000_0000 && Decodes(s.rom', pc, LdrLit(PC, d), true) &&
            Decodes(s.rom', pc + 4, LdrLit(PC, 0), true)
  {
    hide Laid, R.Gadget, Holds, Setting.Valid, R.Splits, R.Need, Classify, Label, R.Pair, Decode16, Decode32, Is32Bit,
      Ldr1Half, Ldr2Half, Align4, Plus, LiteralOf;
    LaidNext(s, off, start, end);
    LaidFacts(s, off, start, end);
    var h0, h1, at, pc := s.win[off], R.Second(s.win, off), Plus(s.area, 2 * off), s.buf + 2 * start;
    var code := R.Gadget(h0, h1, at, start, end).code;
    WidePiece(h0, h1, at, start, end);
    HoldsAt(s.rom', pc, code, 0);
    HoldsAt(s.rom', pc, code, 1);
    HoldsAt(s.rom', pc, code, 2);
    HoldsAt(s.rom', pc, code, 3);
    d := Label(start, end - 2);
    L.LdrWPcDecodes(d);
    L.LdrWPcDecodes(0);
  }

  lemma PcLoadUnder(s: Setting, off: nat, c: Core, it: nat)
    requires s.Valid() && off < |s.win| && off + R.WidthAt(s.win, off) <= |s.win| && R.KindAt(s.win, off) == KLdrW
    requires R.Second(s.win, off) / 0x1000 == PC && it != 0 && Advance(it) == 0
    ensures UnderStep(s, off, c, it)
            == if ConditionHolds(it / 16, c.flags) then OriginalStep(s, off, c)
               else Run(c, s.area + 2 * (off + 2), Thumb)
  {
    hide OriginalInsn, Decodes, R.IsWindow, R.AnyRefused, R.Trampoline, R.Total, Holds, Hides, InSpace, ConditionHolds,
      Advance, Step;
    var h0, h1 := s.win[off], R.Second(s.win, off);
    OriginalDecodes(s, off);
    LdrWDecoded(h0, h1);
    WideIsWide(h0, h1);
    hide Classify;
    if ConditionHolds(it / 16, c.flags) {
      LastExecuted(s.Orig(), c, s.area + 2 * off, it, OriginalInsn(h0, h1), true);
    } else {
      Skipped(s.Orig(), c, s.area + 2 * off, it, OriginalInsn(h0, h1), true);
    }
  }

  lemma WideIsWide(h0: Half, h1: Half)
    requires Classify(h0, h1) == KLdrW
    ensures Is32(h0)
  {
  }

  lemma SecondHalf(s: Setting, start: nat, c': Core)
    requires var pc := s.buf + 2 * start + 4;
             0 <= pc && pc + 8 < 0x1_0000_0000 && Decodes(s.rom', pc, LdrLit(PC, 0), true)
    ensures Step(s.Hooked(), Run(c', s.buf + 2 * start + 4, Thumb))
            == Interwork(c', LoadWord(s.rom', c'.mem, SecondLiteral(s, start)))
  {
    hide Decode32, Is32Bit, LoadWord, Step, Interwork, Align4;
    var pc := s.buf + 2 * start + 4;
    StepWide(s.Hooked(), c', pc, LdrLit(PC, 0));
    PlusNothing(SecondLiteral(s, start));
  }

  lemma PlusNothing(a: Word)
    ensures Plus(a, 0) == a
  {
  }

  lemma EvenPlace(pc: int, x: int)
    requires CodeAddress(pc) && x == pc + 8
    ensures x % 2 == 0
  {
  }

  lemma OnlyThumb(core: Core, v: Word, pc: Word)
    requires pc % 2 == 0
    ensures var r := Interwork(core, v);
            r.Run? && r.isa == Thumb && r.pc == pc <==> v == pc + 1
    ensures Interwork(core, v).Run? ==> Interwork(core, v).core == core && Interwork(core, v).it == 0
  {
  }

  // ---------------------------------------------------------------- wide unconditional branches

  /** The halfword that a wide unconditional branch becomes is not allowed in a block. */
  lemma WideAlwaysInBlock(s: Setting, off: nat, start: nat, end: nat, c: Core, c': Core, it: nat)
    requires Laid(s, off, start, end) && off < |s.win| && R.KindAt(s.win, off) == KWideB && Remaining(it) == 1
    requires R.Second(s.win, off) / 0x1000 % 2 == 1
    ensures 0 <= s.buf && s.buf + 2 * start < 0x1_0000_0000
    ensures UnderStep(s, off, c, it).Run? && Step(s.Hooked(), Run(c', s.buf + 2 * start, Thumb, it)) == Stuck
  {
    hide Laid, Step, Setting.Valid, R.Need, R.Splits, Advance, Remaining, OriginalInsn, R.WideBJump, CodeAddress,
      InSpace, R.Gadget, Holds, Plus, ConditionHolds, Classify;
    LaidFacts(s, off, start, end);
    LaidNext(s, off, start, end);
    RemainingNone();
    AdvanceRemains(it);
    var h0, h1 := s.win[off], R.Second(s.win, off);
    WideBAlwaysDecoded(h0, h1);
    UnderRuns(s, off, c, it);
    WideAlwaysCode(h0, h1, Plus(s.area, 2 * off), start, end);
    MovsDecodes();
    HoldsAt(s.rom', s.buf + 2 * start, R.Gadget(h0, h1, Plus(s.area, 2 * off), start, end).code, 0);
    StepUnder(s.Hooked(), c', s.buf + 2 * start, it, MovsReg(6, 1), false);
  }

  lemma WideAlwaysCode(h0: Half, h1: Half, at: Word, start: nat, end: nat)
    requires Classify(h0, h1) == KWideB && R.Room(KWideB, start, end) && h1 / 0x1000 % 2 == 1
    ensures R.Gadget(h0, h1, at, start, end).code == [14]
  {
    hide R.WideBJump, R.Pair, Decode16, Decode32;
  }

  lemma MovsDecodes()
    ensures Decode16(14) == MovsReg(6, 1) && !Is32Bit(14)
  {
  }

  // ---------------------------------------------------------------- blocks that the window cuts

  /** A block that is still open at the end of the window is never right: the closing jump
      takes one of its places, or its ARM half is executed as Thumb code. */
  lemma CutBlockNeverRight(s: Setting, off: nat, start: nat, end: nat, c: Core, c': Core, it: nat) returns (r: State)
    requires Laid(s, off, start, end) && off == |s.win| && Remaining(it) > 0
    ensures Reaches(s.Hooked(), Run(c', s.buf + 2 * start, Thumb, it), r)
    ensures 0 <= s.area && s.area + 2 * off < 0x1_0000_0000
    ensures if Remaining(it) == 1 && ConditionHolds(it / 16, c'.flags) then r == Run(c', s.area + 2 * off, Thumb)
            else r == Stuck
    ensures !Left(s, Run(c, s.area + 2 * off, Thumb, it), r)
  {
    hide Step, Reaches, Holds, R.LongJump, R.Need, R.Splits, Plus, Laid, Setting.Valid, Advance, Remaining, Agree,
      Decodes, ConditionHolds, Decode16, Decode32, Is32Bit, Interwork;
    LaidFacts(s, off, start, end);
    PlainAddress(s.area, |s.win|, off);
    LaidClosing(s, off, start, end);
    RemainingNone();
    AdvanceRemains(it);
    var env, pc, dest := s.Hooked(), s.buf + 2 * start, Plus(s.area, 2 * |s.win| + 1);
    JumpDecodes(env.rom, pc, dest);
    if Advance(it) != 0 {
      BlockedStep(env, c', pc, it);
      r := Stuck;
      ReachesStep(env, Run(c', pc, Thumb, it), r);
    } else if ConditionHolds(it / 16, c'.flags) {
      LastExecuted(env, c', pc, it, Bx(PC), false);
      EntersArm(env, c', pc, dest);
      LeavesArm(env, c', pc, dest);
      ThumbState(c', s.area + 2 * off);
      r := Interwork(c', dest);
      ReachesOn(env, Run(c', pc, Thumb, it), Run(c', pc + 4, Arm), r);
    } else {
      Skipped(env, c', pc, it, Bx(PC), false);
      StaysClosed();
      var c1 := StraightStep(env, c', pc + 2, 0, MovReg(8, 8), false);
      UndefinedStep(env, c1, pc + 4);
      r := Stuck;
      ReachesStep(env, Run(c1, pc + 4, Thumb), r);
      ReachesOn(env, Run(c', pc + 2, Thumb), Run(c1, pc + 4, Thumb), r);
      ReachesOn(env, Run(c', pc, Thumb, it), Run(c', pc + 2, Thumb), r);
    }
  }

  lemma JumpDecodes(rom: Rom, pc: int, dest: Word)
    requires Holds(rom, pc, R.LongJump(dest))
    ensures Decodes(rom, pc, Bx(PC), false) && Decodes(rom, pc + 2, MovReg(8, 8), false)
    ensures Decodes(rom, pc + 4, Unmodelled, true)
  {
    hide Holds, Decode16, Decode32, Is32Bit, R.LongJump, R.Pair;
    LongJumpHalves(rom, pc, dest);
    NopOfJump(rom, pc, dest);
    MovDecodes(8, 8);
    BxDecodes();
    ArmLoadUndefined();
  }

  lemma NopOfJump(rom: Rom, pc: int, dest: Word)
    requires Holds(rom, pc, R.LongJump(dest))
    ensures pc + 2 in rom && rom[pc + 2] == MovHalf(8, 8)
  {
    hide Holds, R.Pair;
    HoldsAt(rom, pc, R.LongJump(dest), 1);
  }

  /** The ARM load of the long jump is no Thumb instruction. */
  lemma ArmLoadUndefined()
    ensures Is32Bit(LDR_PC_LOW) && Decode32(LDR_PC_LOW, LDR_PC_HIGH) == Unmodelled
  {
  }

  /** `bx` may only be the last of a block. */
  lemma BlockedStep(env: Env, core: Core, pc: Word, it: nat)
    requires Decodes(env.rom, pc, Bx(PC), false) && it != 0 && Advance(it) != 0
    ensures Step(env, Run(core, pc, Thumb, it)) == Stuck
  {
    hide Decode16, Is32Bit, Step;
    StepUnder(env, core, pc, it, Bx(PC), false);
  }

  lemma UndefinedStep(env: Env, core: Core, pc: Word)
    requires Decodes(env.rom, pc, Unmodelled, true)
    ensures Step(env, Run(core, pc, Thumb)) == Stuck
  {
    hide Decode32, Is32Bit, Step;
    StepWide(env, core, pc, Unmodelled);
  }
}
