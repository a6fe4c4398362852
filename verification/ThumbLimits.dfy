/**
  Where the Thumb relocator stops meaning the same: for each form that the relocation
  theorem excludes, the exact condition under which its gadget is still right.
 */
module ThumbLimits {
  import opened Words
  import opened ThumbMachine
  import opened ThumbEncoding
  import opened ThumbSteps
  import opened ThumbGadgets
  import opened ThumbSetting
  import opened ThumbMeaning
  import R = ThumbRelocate

  // ---------------------------------------------------------------- blx to an immediate

  /** The literal of a relocated BLX is not aligned to a word first, so the call is right
      exactly when the instruction itself was word-aligned. */
  lemma BlxRightIffAligned(s: Setting, off: nat, start: nat, end: nat, c: Core, c': Core) returns (r: State)
    requires Laid(s, off, start, end) && off < |s.win| && R.KindAt(s.win, off) == KBl
    requires R.Second(s.win, off) / 0x1000 % 2 == 0
    requires Agree(c, c', s) && Quiet(s, off, c)
    ensures Reaches(s.Hooked(), Run(c', s.buf + 2 * start, Thumb), r)
    ensures Called(s, OriginalStep(s, off, c), r, off + 2, start + 5) <==> (s.area + 2 * off) % 4 == 0
    ensures (s.area + 2 * off) % 4 != 0 ==> r == Stuck && OriginalStep(s, off, c).Run?
  {
    hide R.Gadget, Laid, Holds, Align4, Reaches, Step, Agree, ScratchDead, R.Room, OriginalInsn, Plus, Interwork,
      R.BlJump, Sits, Scratched, SetReg, SlotFree, AgreeButLr, Setting.Valid, Classify, R.Need, InSpace, CodeAddress;
    var at := s.area + 2 * off;
    var h0, h1 := s.win[off], R.Second(s.win, off);
    LaidFacts(s, off, start, end);
    PlainAddress(s.area, |s.win|, off);
    if at % 4 == 0 {
      r := SimulateBl(s, off, start, end, c, c');
    } else {
      LaidNext(s, off, start, end);
      OriginalRuns(s, off, c);
      BlDecoded(h0, h1);
      ScratchAgrees(s, c, c', 7);
      BlRuns(s.Hooked(), c', s.buf, start, end, h0, h1, at);
      r := Interwork(SetReg(Scratched(c', 7), LR, s.buf + 2 * (start + 5) + 1), Plus(at, 4 + R.BlJump(h0, h1)));
      Unaligned(SetReg(Scratched(c', 7), LR, s.buf + 2 * (start + 5) + 1), at, R.BlJump(h0, h1));
    }
  }

  lemma Unaligned(core: Core, at: int, jump: int)
    requires at % 2 == 0 && at % 4 != 0 && jump % 4 == 0
    ensures Interwork(core, Plus(at, 4 + jump)) == Stuck
  {
    HalfAligned(at, jump);
  }

  lemma HalfAligned(at: int, jump: int)
    requires at % 2 == 0 && at % 4 != 0 && jump % 4 == 0
    ensures Plus(at, 4 + jump) % 4 == 2 && Plus(at, 4 + jump) % 2 == 0
  {
    hide Wrap;
    LowBits(at);
    var a, j := at / 4, jump / 4;
    WrapTwo(at + (4 + jump), a + 1 + j);
  }

  lemma WrapTwo(x: int, k: int)
    requires x == 4 * k + 2
    ensures Wrap(x) % 4 == 2 && Wrap(x) % 2 == 0
  {
    var q := x / 0x1_0000_0000;
    assert Wrap(x) == 4 * (k - 0x4000_0000 * q) + 2;
    TwoModFour(Wrap(x), k - 0x4000_0000 * q);
  }

  lemma TwoModFour(x: int, k: int)
    requires x == 4 * k + 2
    ensures x % 4 == 2 && x % 2 == 0
  {
    ModFour(x, k, 2);
    TwiceIsEven(x, 2 * k + 1);
  }

  // ---------------------------------------------------------------- wide unconditional branches

  /** A wide unconditional branch is relocated to the halfword 0x000e, which is
      `movs r6, r1`.  The relocated code goes on to the next gadget; that is right exactly
      when the branch leads to the next instruction and the move changes nothing. */
  lemma WideAlwaysRightIff(s: Setting, off: nat, start: nat, end: nat, c: Core, c': Core) returns (r: State)
    requires Laid(s, off, start, end) && off < |s.win| && R.KindAt(s.win, off) == KWideB
    requires R.Second(s.win, off) / 0x1000 % 2 == 1 && Agree(c, c', s)
    ensures Step(s.Hooked(), Run(c', s.buf + 2 * start, Thumb)) == r
    ensures r == Run(MovedWithFlags(c', 6, c'.regs[1]), s.buf + 2 * (start + 1), Thumb)
    ensures OriginalStep(s, off, c) == Run(c, WideAlwaysDest(s, off), Thumb)
    ensures FellThrough(s, OriginalStep(s, off, c), r, off + 2, start + 1) <==>
            WideAlwaysDest(s, off) == s.area + 2 * (off + 2) && c.regs[6] == c.regs[1] &&
            c.flags.n == (c.regs[1] >= 0x8000_0000) && c.flags.z == (c.regs[1] == 0)
  {
    hide R.Gadget, Laid, Holds, Step, R.Room, R.WideBJump, Setting.Valid, InSpace, Plus, OriginalInsn, ReadRam, Agree;
    LaidFacts(s, off, start, end);
    PlainAddress(s.area, |s.win|, off);
    OriginalRuns(s, off, c);
    WideBAlwaysDecoded(s.win[off], R.Second(s.win, off));
    LaidNext(s, off, start, end);
    WideAlwaysPiece(s.win[off], R.Second(s.win, off), s.area + 2 * off, start, end);
    WideAlwaysRuns(s.Hooked(), c', s.buf + 2 * start);
    r := Step(s.Hooked(), Run(c', s.buf + 2 * start, Thumb));
    MoveAgreesIff(s, c, c');
  }

  /** Where the branch at `off` leads. */
  function WideAlwaysDest(s: Setting, off: nat): Word
    requires off < |s.win|
  {
    Plus(Plus(s.area + 2 * off, 4), R.WideBJump(s.win[off], R.Second(s.win, off)) - 1)
  }

  lemma MoveAgreesIff(s: Setting, c: Core, c': Core)
    requires Agree(c, c', s)
    ensures Agree(c, MovedWithFlags(c', 6, c'.regs[1]), s) <==>
            c.regs[6] == c.regs[1] && c.flags.n == (c.regs[1] >= 0x8000_0000) && c.flags.z == (c.regs[1] == 0)
  {
    hide ReadRam;
    var m := MovedWithFlags(c', 6, c'.regs[1]);
    assert m.regs[6] == c.regs[1];
  }

  lemma WideAlwaysRuns(env: Env, core: Core, pc: int)
    requires 0 <= pc && pc + 4 < 0x1_0000_0000 && Holds(env.rom, pc, [14])
    ensures Step(env, Run(core, pc, Thumb)) == Run(MovedWithFlags(core, 6, core.regs[1]), pc + 2, Thumb)
  {
    hide Step, Holds, Decode32;
    HoldsAt(env.rom, pc, [14], 0);
    assert Decode16(14) == MovsReg(6, 1);
    StepNarrow(env, core, pc, MovsReg(6, 1));
  }

  lemma WideAlwaysPiece(h0: Half, h1: Half, at: Word, start: nat, end: nat)
    requires Classify(h0, h1) == KWideB && R.Room(KWideB, start, end) && h1 / 0x1000 % 2 == 1
    ensures R.Gadget(h0, h1, at, start, end).code == [14]
  {
  }

  // ---------------------------------------------------------------- wide loads of the program counter

  /** `ldr.w pc, [pc, #im]` is relocated to a load of the literal's address into the
      program counter: the relocated code jumps to the literal, the original jumps to
      where the literal says. */
  lemma LoadOfPcRightIff(s: Setting, off: nat, start: nat, end: nat, c: Core, c': Core) returns (r: State)
    requires Laid(s, off, start, end) && off < |s.win| && R.KindAt(s.win, off) == KLdrW
    requires R.Second(s.win, off) / 0x1000 == PC
    requires Agree(c, c', s)
    ensures Step(s.Hooked(), Run(c', s.buf + 2 * start, Thumb)) == r
    ensures var a := LiteralOf(s.win[off], R.Second(s.win, off), s.area + 2 * off);
            var v := LoadWord(s.rom, c.mem, a);
            Left(s, OriginalStep(s, off, c), r) <==> v == a || (v % 4 == 2 && a % 4 == 2)
  {
    hide Laid, Step, Agree, LoadWord, LiteralOf, Interwork, Left, OriginalStep, Setting.Valid, InSpace, CodeAddress,
      R.Splits, R.Need, Classify;
    LaidFacts(s, off, start, end);
    PlainAddress(s.area, |s.win|, off);
    var a := LiteralOf(s.win[off], R.Second(s.win, off), s.area + 2 * off);
    OriginalLoadOfPc(s, off, c);
    RelocatedLoadOfPc(s, off, start, end, c');
    r := Interwork(c', a);
    SameInterwork(s, c, c', LoadWord(s.rom, c.mem, a), a);
  }

  lemma OriginalLoadOfPc(s: Setting, off: nat, c: Core)
    requires s.Valid() && off < |s.win| && off + R.WidthAt(s.win, off) <= |s.win|
    requires R.KindAt(s.win, off) == KLdrW && R.Second(s.win, off) / 0x1000 == PC
    ensures 0 <= s.area && s.area + 2 * off < 0x1_0000_0000
    ensures OriginalStep(s, off, c)
            == Interwork(c, LoadWord(s.rom, c.mem, LiteralOf(s.win[off], R.Second(s.win, off), s.area + 2 * off)))
  {
    hide OriginalStep, OriginalInsn, LoadWord, Align4, Plus, Interwork, LiteralOf, Classify, InSpace, R.IsWindow,
      R.AnyRefused, R.Trampoline, Holds, Hides;
    OriginalRuns(s, off, c);
    LdrWDecoded(s.win[off], R.Second(s.win, off));
    LiteralWide(s.win[off], R.Second(s.win, off), s.area + 2 * off);
  }

  lemma RelocatedLoadOfPc(s: Setting, off: nat, start: nat, end: nat, c': Core)
    requires Laid(s, off, start, end) && off < |s.win| && R.KindAt(s.win, off) == KLdrW
    requires R.Second(s.win, off) / 0x1000 == PC
    ensures 0 <= s.buf && s.buf + 2 * start < 0x1_0000_0000 && 0 <= s.area && s.area + 2 * off < 0x1_0000_0000
    ensures Step(s.Hooked(), Run(c', s.buf + 2 * start, Thumb))
            == Interwork(c', LiteralOf(s.win[off], R.Second(s.win, off), s.area + 2 * off))
  {
    hide R.Gadget, Laid, Holds, Step, R.Room, LoadWord, Align4, Plus, LiteralOf, Interwork, Label, Ldr1Half, Ldr2Half,
      CodeAddress, WordAddress, R.Need, R.Splits, R.Pair, Setting.Valid, Classify;
    LaidNext(s, off, start, end);
    LaidFacts(s, off, start, end);
    PlainAddress(s.area, |s.win|, off);
    var h0, h1, at, pc := s.win[off], R.Second(s.win, off), s.area + 2 * off, s.buf + 2 * start;
    WidePiece(h0, h1, at, start, end);
    FrontAddresses(s.buf, start, end);
    BackAddress(s.buf, end, end - 2);
    LabelNamesPoolWord(s.buf, start, end - 2);
    HoldsTwo(s.rom', pc, R.Gadget(h0, h1, at, start, end).code, 0);
    LdrWPcRuns(s.Hooked(), c', pc, Label(start, end - 2), s.buf + 2 * (end - 2), LiteralOf(h0, h1, at));
  }

  lemma SameInterwork(s: Setting, c: Core, c': Core, v: Word, v': Word)
    requires Agree(c, c', s)
    ensures Left(s, Interwork(c, v), Interwork(c', v')) <==> v == v' || (v % 4 == 2 && v' % 4 == 2)
  {
    hide Agree;
    LowBits(v);
    LowBits(v');
    if v % 4 == 2 {
      assert Interwork(c, v) == Stuck;
    } else if v' % 4 == 2 {
      assert Interwork(c', v') == Stuck;
    } else if v % 2 == 1 {
      assert Interwork(c, v) == Run(c, v - 1, Thumb);
    } else {
      assert Interwork(c, v) == Run(c, v, Arm);
    }
  }

  lemma LiteralWide(h0: Half, h1: Half, at: Word)
    requires Classify(h0, h1) == KLdrW
    ensures LiteralOf(h0, h1, at)
            == Plus(Align4(Plus(at, 4)), if h0 / 0x80 % 2 == 0 then -(h1 % 0x1000) else h1 % 0x1000)
  {
  }

  lemma LdrWPcRuns(env: Env, core: Core, pc: int, im: nat, lit: int, a: Word)
    requires CodeAddress(pc) && im < 0x1000 && Holds(env.rom, pc, [Ldr1Half(15), Ldr2Half(PC, im)])
    requires lit == Align4(pc + 4) + im && WordAddress(lit) && Holds(env.rom, lit, R.Pair(a))
    ensures Step(env, Run(core, pc, Thumb)) == Interwork(core, a)
  {
    hide LoadWord, Align4, Plus, Ldr1Half, Ldr2Half, R.Pair, Step, Interwork, Decode32, Decode16, Is32Bit,
      PlainEffect, InRom,
      Holds;
    var code: seq<Half> := [Ldr1Half(15), Ldr2Half(PC, im)];
    HoldsAt(env.rom, pc, code, 0);
    HoldsAt(env.rom, pc, code, 1);
    LdrWPcDecodes(im);
    StepWide(env, core, pc, LdrLit(PC, im));
    LiteralAddress(pc, im, lit);
    LoadsCodeWord(env.rom, core.mem, lit, a);
  }

  lemma LdrWPcDecodes(im: nat)
    requires im < 0x1000
    ensures Decode32(Ldr1Half(15), Ldr2Half(PC, im)) == LdrLit(PC, im) && Is32Bit(Ldr1Half(15))
  {
  }

  // ---------------------------------------------------------------- reach of cbz and cbnz

  /** The displacement field of the emitted cbz keeps seven bits. */
  lemma CbzFieldRightIff(op: int, rn: int, im: nat)
    requires 0 <= op < 2 && 0 <= rn < 8 && im % 2 == 0
    ensures Decode16(CbzHalf(op, rn, im)) == Cbz(op == 1, rn, im) <==> im <= 126
  {
    var i, k := im / 0x40 % 2, im / 2 % 0x20;
    CbzFields(CbzHalf(op, rn, im), op, i, k, rn);
    if im <= 126 {
      CbzDecodes(op, rn, im);
    }
  }

  /** A relocated cbz or cbnz that is not taken is right.  One that is taken leads, with
      registers and flags restored, to the original destination exactly when at most 72
      halfwords are still to be emitted, its own 17 included; otherwise it lands, with the
      scratch register still pushed, in front of its pool. */
  lemma CbzRightIff(s: Setting, off: nat, start: nat, end: nat, c: Core, c': Core) returns (r: State)
    requires Laid(s, off, start, end) && off < |s.win| && R.KindAt(s.win, off) == KCbz
    requires Agree(c, c', s) && Quiet(s, off, c)
    ensures Reaches(s.Hooked(), Run(c', s.buf + 2 * start, Thumb), r)
    ensures if !Transfers(s, off, c) then FellThrough(s, OriginalStep(s, off, c), r, off + 1, start + 7)
            else Left(s, OriginalStep(s, off, c), r) <==> R.Need(s.win, off) <= 72
    ensures Transfers(s, off, c) && R.Need(s.win, off) > 72 ==>
              start + 17 <= end && r == Run(Saved(c', R.Scratch(s.win[off] % 8)),
                  s.buf + 2 * start + 10 + CbzDistance(start, end), Thumb)
  {
    hide R.Gadget, Laid, Holds, LoadWord, Align4, Reaches, Step, Agree, ScratchDead, OriginalInsn, Plus, Setting.Valid,
      Interwork, R.CbzJump, Sits, Scratched, SlotFree, CodeAddress, InSpace, R.Splits, R.Need, Classify, Saved,
      CbzDistance;
    LaidFacts(s, off, start, end);
    if R.Need(s.win, off) <= 72 {
      r := SimulateCbz(s, off, start, end, c, c');
    } else {
      LaidNext(s, off, start, end);
      PlainAddress(s.area, |s.win|, off);
      var h0, h1, at, rt := s.win[off], R.Second(s.win, off), s.area + 2 * off, R.Scratch(s.win[off] % 8);
      OriginalRuns(s, off, c);
      CbzDecoded(h0, h1);
      AgreeFlags(c, c', s);
      ScratchAgrees(s, c, c', rt);
      CbzRuns(s.Hooked(), c', s.buf, start, end, h0, h1, at);
      if Transfers(s, off, c) {
        r := Run(Saved(c', rt), s.buf + 2 * start + 10 + CbzDistance(start, end), Thumb);
        SavedDiffers(s, c, c', rt);
      } else {
        r := Run(Scratched(c', rt), s.buf + 2 * (start + 7), Thumb);
      }
    }
  }

  /** With a register pushed, the stack pointers differ. */
  lemma SavedDiffers(s: Setting, c: Core, c': Core, rt: int)
    requires Agree(c, c', s) && 0 <= rt < 8
    ensures !Agree(c, Saved(c', rt), s)
  {
    hide ReadRam, Saved;
    SavedIs(c', rt);
    assert c.regs[SP] == c'.regs[SP];
    SameShift(c.regs[SP], Plus(c.regs[SP], -4), 4);
    PlusBack(c.regs[SP]);
    assert Plus(c.regs[SP], -4) != c.regs[SP];
  }

  function Insns(win: seq<Half>, off: nat): nat
    decreases |win| - off
  {
    if off >= |win| then 0 else 1 + Insns(win, off + R.WidthAt(win, off))
  }

  function Cbzs(win: seq<Half>, off: nat): nat
    decreases |win| - off
  {
    if off >= |win| then 0
    else (if R.KindAt(win, off) == KCbz then 1 else 0) + Cbzs(win, off + R.WidthAt(win, off))
  }

  lemma {:induction false} NeedByCount(win: seq<Half>, off: nat)
    ensures R.Need(win, off) <= 7 * Insns(win, off) + 10 * Cbzs(win, off)
    decreases |win| - off
  {
    hide Classify;
    if off < |win| {
      NeedByCount(win, off + R.WidthAt(win, off));
    }
  }

  /** A window without a 32-bit instruction has a boundary everywhere. */
  lemma {:induction false} AllNarrow(win: seq<Half>, off: nat, k: nat)
    requires off <= k <= |win| && R.Splits(win, off, |win|)
    ensures Insns(win, off) <= |win| - off
    ensures Insns(win, off) == |win| - off ==> R.Splits(win, off, k)
    decreases |win| - off
  {
    if off < |win| {
      var next := off + R.WidthAt(win, off);
      AllNarrow(win, next, if next <= k then k else |win|);
    }
  }

  /** The window the width loop measures: it stops at the first boundary at or past the
      end of the 12 or 14 patched bytes. */
  predicate Measured(win: seq<Half>, required: nat) {
    (required == 12 || required == 14) && R.IsWindow(win) &&
    required <= 2 * |win| <= required + 2 &&
    forall u: nat :: required / 2 <= u < |win| ==> !R.Splits(win, 0, u)
  }

  lemma MeasuredInsns(win: seq<Half>, required: nat)
    requires Measured(win, required)
    ensures Insns(win, 0) <= 7
  {
    if |win| == 8 {
      AllNarrow(win, 0, 7);
    } else {
      AllNarrow(win, 0, 0);
    }
  }

  lemma {:induction false} CountsGrow(win: seq<Half>, from: nat, off: nat)
    requires from <= off <= |win| && R.Splits(win, from, off)
    ensures Insns(win, off) <= Insns(win, from) && Cbzs(win, off) <= Cbzs(win, from)
    decreases off - from
  {
    hide Classify;
    if from < off {
      CountsGrow(win, from + R.WidthAt(win, from), off);
    }
  }

  /** With at most two cbz or cbnz in the window, every one of them reaches its pool. */
  lemma TwoCbzReach(win: seq<Half>, required: nat, off: nat)
    requires Measured(win, required) && Cbzs(win, 0) <= 2
    requires off <= |win| && R.Splits(win, 0, off)
    ensures R.Need(win, off) <= 72
  {
    MeasuredInsns(win, required);
    CountsGrow(win, 0, off);
    NeedByCount(win, off);
  }

  /** Three do not always: `cbz r0` three times, four conditional branches and a call. */
  lemma ThreeCbzTooFar()
    ensures var win := [0xb100, 0xb100, 0xb100, 0xd000, 0xd000, 0xd000, 0xf000, 0xf800];
            Measured(win, 14) && R.KindAt(win, 0) == KCbz && R.Need(win, 0) > 72
  {
    hide R.Need, R.Splits, Classify;
    var win: seq<Half> := [0xb100, 0xb100, 0xb100, 0xd000, 0xd000, 0xd000, 0xf000, 0xf800];
    ThreeCbzKinds();
    assert R.Need(win, 8) == 0 by { NeedEnd(win); }
    NeedStep(win, 6, KBl);
    NeedStep(win, 5, KB);
    NeedStep(win, 4, KB);
    NeedStep(win, 3, KB);
    NeedStep(win, 2, KCbz);
    NeedStep(win, 1, KCbz);
    NeedStep(win, 0, KCbz);
    SplitsStep(win, 8);
    SplitsStep(win, 7);
  }

  lemma ThreeCbzKinds()
    ensures forall x: Half :: Classify(0xb100, x) == KCbz && Classify(0xd000, x) == KB
    ensures Classify(0xf000, 0xf800) == KBl
  {
  }

  lemma NeedEnd(win: seq<Half>)
    ensures R.Need(win, |win|) == 0
  {
  }

  lemma NeedStep(win: seq<Half>, off: nat, k: Kind)
    requires off < |win| && R.KindAt(win, off) == k
    ensures R.Need(win, off) == R.CodeSize(k) + R.PoolSize(k) + R.Need(win, off + Width(k))
  {
  }

  lemma SplitsStep(win: seq<Half>, stop: nat)
    requires |win| == 8 && (stop == 7 || stop == 8) && Is32(win[6]) && forall i :: 0 <= i < 6 ==> !Is32(win[i])
    ensures R.Splits(win, 0, stop) == (stop == 8)
  {
    assert R.Splits(win, 6, stop) == (stop == 8);
    assert R.Splits(win, 5, stop) == R.Splits(win, 6, stop);
    assert R.Splits(win, 4, stop) == R.Splits(win, 5, stop);
    assert R.Splits(win, 3, stop) == R.Splits(win, 4, stop);
    assert R.Splits(win, 2, stop) == R.Splits(win, 3, stop);
    assert R.Splits(win, 1, stop) == R.Splits(win, 2, stop);
  }

  // ---------------------------------------------------------------- copied readers of the program counter

  /** Original and copy of an instruction, side by side. */
  lemma CopiedSteps(s: Setting, off: nat, start: nat, end: nat, c: Core, c': Core)
    requires Laid(s, off, start, end) && off < |s.win| && IsCopied(s, off)
    ensures s.Valid() && Placed(s.area, off) && Placed(s.buf, start)
    ensures var i, w := InsnAt(s, off), R.WidthAt(s.win, off);
            Placed(s.area, off + w) && Placed(s.buf, start + w) && (w == 1 || w == 2) &&
            Plus(s.area + 2 * off, 4) == s.area + 2 * off + 4 && Plus(s.buf + 2 * start, 4) == s.buf + 2 * start + 4 &&
            Plus(s.area + 2 * off, 2 * w) == s.area + 2 * (off + w) &&
            Plus(s.buf + 2 * start, 2 * w) == s.buf + 2 * (start + w) &&
            OriginalStep(s, off, c) == Exec(s.Orig(), i, c, s.area + 2 * off, 2 * w) &&
            CopiedStep(s, start, c') == Exec(s.Hooked(), i, c', s.buf + 2 * start, 2 * w)
  {
    hide Laid, Step, Decode16, Decode32, R.Gadget, Exec, OriginalInsn, Setting.Valid, CodeAddress, InSpace, Classify,
      R.Splits, R.Need;
    LaidFacts(s, off, start, end);
    OriginalRuns(s, off, c);
    CopyRuns(s, off, start, end, c');
    var w := R.WidthAt(s.win, off);
    PlainAddress(s.area, |s.win|, off);
    CopyAddress(s.area, off, w);
    CopyAddress(s.buf, start, w);
    CopyAddress(s.buf, start, 2);
  }

  /** A halfword of code at an address below the top of the address space. */
  predicate Placed(base: int, off: nat) { 0 <= base && base + 2 * off + 4 < 0x1_0000_0000 }

  predicate IsCopied(s: Setting, off: nat)
    requires off < |s.win|
  {
    R.KindAt(s.win, off) == KCopy16 || R.KindAt(s.win, off) == KCopy32
  }

  function InsnAt(s: Setting, off: nat): Insn
    requires off < |s.win|
  {
    OriginalInsn(s.win[off], R.Second(s.win, off))
  }

  /** The copy's step, from the place where the relocated code lies. */
  ghost function CopiedStep(s: Setting, start: nat, c': Core): State
    requires Placed(s.buf, start)
  {
    Step(s.Hooked(), Run(c', s.buf + 2 * start, Thumb))
  }

  /** An unconditional branch of 16 bits is copied as it is: it goes to the same place
      exactly when the copy lies where the original lay. */
  lemma CopiedBranchRightIff(s: Setting, off: nat, start: nat, end: nat, c: Core, c': Core)
    requires Laid(s, off, start, end) && off < |s.win| && IsCopied(s, off) && InsnAt(s, off).B? && Agree(c, c', s)
    ensures Placed(s.buf, start)
    ensures Left(s, OriginalStep(s, off, c), CopiedStep(s, start, c')) <==> s.area + 2 * off == s.buf + 2 * start
  {
    hide Laid, Step, InsnAt, Agree, OriginalStep, CopiedStep, Setting.Valid, IsCopied;
    CopiedSteps(s, off, start, end, c, c');
    SameShift(s.area + 2 * off + 4, s.buf + 2 * start + 4, InsnAt(s, off).off);
  }

  /** `adr`, narrow or wide, is copied as it is: it computes the same address exactly when
      both read the same word-aligned program counter. */
  lemma CopiedAdrRightIff(s: Setting, off: nat, start: nat, end: nat, c: Core, c': Core)
    requires Laid(s, off, start, end) && off < |s.win| && IsCopied(s, off) && Agree(c, c', s)
    requires var i := InsnAt(s, off); i.Adr? && IsResult(s, i.rd)
    ensures Placed(s.buf, start)
    ensures var w := R.WidthAt(s.win, off);
            FellThrough(s, OriginalStep(s, off, c), CopiedStep(s, start, c'), off + w, start + w)
            <==> Align4(s.area + 2 * off + 4) == Align4(s.buf + 2 * start + 4)
  {
    hide Laid, Step, InsnAt, Agree, OriginalStep, CopiedStep, Setting.Valid, SetReg, Align4, IsCopied;
    CopiedSteps(s, off, start, end, c, c');
    var a, a', d := Align4(s.area + 2 * off + 4), Align4(s.buf + 2 * start + 4), InsnAt(s, off).off;
    AlignedWord(s.area + 2 * off + 4);
    AlignedWord(s.buf + 2 * start + 4);
    SameShift(a, a', d);
    CopiedSetReg(s, c, c', InsnAt(s, off).rd, Plus(a, d), Plus(a', d));
  }

  /** A register that an instruction may write and that is compared. */
  predicate IsResult(s: Setting, rd: int) { 0 <= rd < 15 && rd != SP && (rd == LR ==> s.link) }

  lemma AlignedWord(x: Word)
    ensures 0 <= Align4(x) < 0x1_0000_0000
  {
  }

  /** `mov rd, pc` is copied as it is: the same exactly when the copy lies where the
      original lay. */
  lemma CopiedMovPcRightIff(s: Setting, off: nat, start: nat, end: nat, c: Core, c': Core)
    requires Laid(s, off, start, end) && off < |s.win| && IsCopied(s, off) && Agree(c, c', s)
    requires var i := InsnAt(s, off); i.MovReg? && i.rm == PC && 0 <= i.rd < 15 && (i.rd == LR ==> s.link)
    ensures Placed(s.buf, start)
    ensures var w := R.WidthAt(s.win, off);
            FellThrough(s, OriginalStep(s, off, c), CopiedStep(s, start, c'), off + w, start + w)
            <==> s.area + 2 * off == s.buf + 2 * start
  {
    hide Laid, Step, InsnAt, Agree, OriginalStep, CopiedStep, Setting.Valid, SetReg, IsCopied;
    CopiedSteps(s, off, start, end, c, c');
    CopiedSetReg(s, c, c', InsnAt(s, off).rd, s.area + 2 * off + 4, s.buf + 2 * start + 4);
  }

  /** The address that a copied literal load reads from, at `at`. */
  function LiteralAt(at: int, d: int): Word { Plus(Align4(Plus(at, 4)), d) }

  /** A literal load of a byte or halfword is copied as it is: it is right exactly when the
      bytes found beside the copy extend to the value found beside the original. */
  lemma CopiedShortLoadRightIff(s: Setting, off: nat, start: nat, end: nat, c: Core, c': Core)
    requires Laid(s, off, start, end) && off < |s.win| && IsCopied(s, off) && Agree(c, c', s)
    requires var i := InsnAt(s, off); i.LoadLit? && IsResult(s, i.rt)
    ensures Placed(s.buf, start)
    ensures var w, i := R.WidthAt(s.win, off), InsnAt(s, off);
            FellThrough(s, OriginalStep(s, off, c), CopiedStep(s, start, c'), off + w, start + w)
            <==> ShortValue(s.rom, c.mem, i.half, i.signed, LiteralAt(s.area + 2 * off, i.off))
                 == ShortValue(s.rom', c'.mem, i.half, i.signed, LiteralAt(s.buf + 2 * start, i.off))
  {
    hide Laid, Step, InsnAt, Agree, OriginalStep, CopiedStep, Setting.Valid, SetReg, Align4, IsCopied, ShortValue;
    CopiedSteps(s, off, start, end, c, c');
    var i := InsnAt(s, off);
    CopiedSetReg(s, c, c', i.rt,
                 ShortValue(s.rom, c.mem, i.half, i.signed, LiteralAt(s.area + 2 * off, i.off)),
                 ShortValue(s.rom', c'.mem, i.half, i.signed, LiteralAt(s.buf + 2 * start, i.off)));
  }

  /** A literal load of two words is copied as it is: right exactly when both words beside
      the copy are those beside the original. */
  lemma CopiedDoubleLoadRightIff(s: Setting, off: nat, start: nat, end: nat, c: Core, c': Core)
    requires Laid(s, off, start, end) && off < |s.win| && IsCopied(s, off) && Agree(c, c', s)
    requires var i := InsnAt(s, off); i.LdrdLit? && IsResult(s, i.rt) && IsResult(s, i.rt2) && i.rt != i.rt2
    ensures Placed(s.buf, start)
    ensures var w, i := R.WidthAt(s.win, off), InsnAt(s, off);
            var a, a' := LiteralAt(s.area + 2 * off, i.off), LiteralAt(s.buf + 2 * start, i.off);
            FellThrough(s, OriginalStep(s, off, c), CopiedStep(s, start, c'), off + w, start + w)
            <==> LoadWord(s.rom, c.mem, a) == LoadWord(s.rom', c'.mem, a') &&
                 LoadWord(s.rom, c.mem, Plus(a, 4)) == LoadWord(s.rom', c'.mem, Plus(a', 4))
  {
    hide Laid, Step, InsnAt, Agree, OriginalStep, CopiedStep, Setting.Valid, SetReg, Align4, IsCopied, LoadWord;
    CopiedSteps(s, off, start, end, c, c');
    var i := InsnAt(s, off);
    var a, a' := LiteralAt(s.area + 2 * off, i.off), LiteralAt(s.buf + 2 * start, i.off);
    CopiedTwoRegs(s, c, c', i.rt, i.rt2, LoadWord(s.rom, c.mem, a), LoadWord(s.rom', c'.mem, a'),
                  LoadWord(s.rom, c.mem, Plus(a, 4)), LoadWord(s.rom', c'.mem, Plus(a', 4)));
  }

  /** A table branch is copied as it is, and its distances count from the program counter:
      it goes to the same place exactly when the two entries make up for the move. */
  lemma CopiedTableBranchRightIff(s: Setting, off: nat, start: nat, end: nat, c: Core, c': Core)
    requires Laid(s, off, start, end) && off < |s.win| && IsCopied(s, off) && Agree(c, c', s)
    requires var i := InsnAt(s, off); i.TableBranch? && 0 <= i.rn <= 15 && i.rn != SP && 0 <= i.rm < 15 && i.rm != SP
    ensures Placed(s.buf, start)
    ensures var i, here, here' := InsnAt(s, off), Plus(s.area + 2 * off, 4), Plus(s.buf + 2 * start, 4);
            Left(s, OriginalStep(s, off, c), CopiedStep(s, start, c'))
            <==> Plus(here, 2 * TableEntry(s.rom, c, i.half, i.rn, i.rm, here))
                 == Plus(here', 2 * TableEntry(s.rom', c', i.half, i.rn, i.rm, here'))
  {
    hide Laid, Step, InsnAt, Agree, OriginalStep, CopiedStep, Setting.Valid, IsCopied, TableEntry;
    CopiedSteps(s, off, start, end, c, c');
  }

  /** `add pc, rm` is copied as it is: it goes to the same place exactly when the copy lies
      where the original lay. */
  lemma CopiedAddToPcRightIff(s: Setting, off: nat, start: nat, end: nat, c: Core, c': Core)
    requires Laid(s, off, start, end) && off < |s.win| && IsCopied(s, off) && Agree(c, c', s)
    requires var i := InsnAt(s, off); i.AddReg? && i.rd == PC && 0 <= i.rm < 15 && (i.rm == LR ==> s.link)
    ensures Placed(s.buf, start)
    ensures Left(s, OriginalStep(s, off, c), CopiedStep(s, start, c')) <==> s.area + 2 * off == s.buf + 2 * start
  {
    hide Laid, Step, InsnAt, OriginalStep, CopiedStep, Setting.Valid, IsCopied, ReadRam;
    CopiedSteps(s, off, start, end, c, c');
    LaidFacts(s, off, start, end);
    PlacesEven(s.area, off, s.buf, start);
    SameEvenShift(s.area + 2 * off + 4, s.buf + 2 * start + 4, c.regs[InsnAt(s, off).rm]);
  }

  /** `bx pc` is copied as it is: both stop being predictable when unaligned; otherwise it
      goes to the same place exactly when the copy lies where the original lay. */
  lemma CopiedBxPcRightIff(s: Setting, off: nat, start: nat, end: nat, c: Core, c': Core)
    requires Laid(s, off, start, end) && off < |s.win| && IsCopied(s, off) && Agree(c, c', s)
    requires var i := InsnAt(s, off); i.Bx? && i.rm == PC
    ensures Placed(s.buf, start)
    ensures var here, here' := s.area + 2 * off + 4, s.buf + 2 * start + 4;
            Left(s, OriginalStep(s, off, c), CopiedStep(s, start, c'))
            <==> here == here' || (here % 4 == 2 && here' % 4 == 2)
  {
    hide Laid, Step, InsnAt, OriginalStep, CopiedStep, Setting.Valid, IsCopied, Agree, Interwork;
    CopiedSteps(s, off, start, end, c, c');
    SameInterwork(s, c, c', s.area + 2 * off + 4, s.buf + 2 * start + 4);
  }

  lemma PlacesEven(area: int, off: nat, buf: int, start: nat)
    requires area % 2 == 0 && buf % 4 == 0
    ensures (area + 2 * off + 4) % 2 == 0 && (buf + 2 * start + 4) % 2 == 0
  {
    var a, b := area / 2, buf / 4;
    assert area == 2 * a && buf == 4 * b;
    TwiceIsEven(area + 2 * off + 4, a + off + 2);
    TwiceIsEven(buf + 2 * start + 4, 2 * b + start + 2);
  }

  lemma SameEvenShift(x: Word, y: Word, d: Word)
    requires x % 2 == 0 && y % 2 == 0
    ensures Even(Plus(x, d)) == Even(Plus(y, d)) <==> x == y
  {
    var e := d / 2;
    assert x == 2 * (x / 2) && y == 2 * (y / 2);
    EvenShift(x, d);
    EvenShift(y, d);
    SameShift(x, y, 2 * e);
  }

  lemma EvenShift(x: Word, d: Word)
    requires x % 2 == 0
    ensures Even(Plus(x, d)) == Plus(x, 2 * (d / 2))
  {
    var k, e := x / 2, d / 2;
    WrapEven(k + e);
    assert x + 2 * e == 2 * (k + e);
    if d % 2 == 1 {
      assert x + d == 2 * (k + e) + 1;
    }
  }

  lemma SameShift(x: Word, y: Word, d: int)
    ensures Plus(x, d) == Plus(y, d) <==> x == y
  {
    if Plus(x, d) == Plus(y, d) {
      assert x + d - 0x1_0000_0000 * ((x + d) / 0x1_0000_0000) == y + d - 0x1_0000_0000 * ((y + d) / 0x1_0000_0000);
    }
  }

  lemma CopiedSetReg(s: Setting, c: Core, c': Core, rd: int, v: Word, v': Word)
    requires Agree(c, c', s) && 0 <= rd < 15 && (rd == LR ==> s.link)
    ensures Agree(SetReg(c, rd, v), SetReg(c', rd, v'), s) <==> v == v'
  {
    hide ReadRam;
    assert SetReg(c, rd, v).regs[rd] == v && SetReg(c', rd, v').regs[rd] == v';
  }

  lemma CopiedTwoRegs(s: Setting, c: Core, c': Core, r1: int, r2: int, v: Word, v': Word, w: Word, w': Word)
    requires Agree(c, c', s) && IsResult(s, r1) && IsResult(s, r2) && r1 != r2
    ensures Agree(SetReg(SetReg(c, r1, v), r2, w), SetReg(SetReg(c', r1, v'), r2, w'), s) <==> v == v' && w == w'
  {
    hide ReadRam;
    var x, x' := SetReg(SetReg(c, r1, v), r2, w), SetReg(SetReg(c', r1, v'), r2, w');
    assert x.regs[r1] == v && x'.regs[r1] == v' && x.regs[r2] == w && x'.regs[r2] == w';
  }
}
