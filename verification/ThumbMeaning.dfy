/**
  The relocated prologue means what the displaced one meant: one simulation lemma for
  each kind of instruction, and the theorem for whole prologues.
 */
module ThumbMeaning {
  import opened Words
  import opened ThumbMachine
  import opened ThumbEncoding
  import opened ThumbSteps
  import opened ThumbGadgets
  import opened ThumbSetting
  import R = ThumbRelocate

  // ---------------------------------------------------------------- how two states correspond

  /** Both machines are at the boundary (off, start), with agreeing cores. */
  ghost predicate FellThrough(s: Setting, o: State, r: State, off: nat, start: nat) {
    o.Run? && r.Run? && o.isa == r.isa == Thumb && o.it == r.it &&
    o.pc == s.area + 2 * off && r.pc == s.buf + 2 * start && Agree(o.core, r.core, s)
  }

  /** Both machines have left for the same address and instruction set. */
  ghost predicate Left(s: Setting, o: State, r: State) {
    (o.Stuck? && r.Stuck?) ||
    (o.Run? && r.Run? && o.pc == r.pc && o.isa == r.isa && o.it == r.it && Agree(o.core, r.core, s))
  }

  /** Both machines have called the same routine; it returns to the boundary (off, start)
      of each. */
  ghost predicate Called(s: Setting, o: State, r: State, off: nat, start: nat) {
    (o.Stuck? && r.Stuck?) ||
    (o.Run? && r.Run? && o.pc == r.pc && o.isa == r.isa && o.it == r.it && AgreeButLr(o.core, r.core, s) &&
     o.core.regs[LR] == Plus(s.area, 2 * off + 1) && r.core.regs[LR] == s.buf + 2 * start + 1)
  }

  // ---------------------------------------------------------------- what is asked of the prologue

  ghost predicate LiteralVisible(s: Setting, a: Word) {
    forall b :: InWord(a, b) ==> b !in s.hidden
  }

  /** The word below the stack pointer is dead: it may differ between the machines, and
      holds no code. */
  ghost predicate ScratchDead(s: Setting, c: Core) {
    forall b :: InWord(Plus(c.regs[SP], -4), b) ==> b in s.hidden && !InRom(s.rom', b)
  }

  /** From the state `c`, the instruction does not depend on hidden bytes. */
  ghost predicate Oblivious(s: Setting, i: Insn, c: Core) {
    PositionIndependent(i) &&
    forall c': Core :: Agree(c, c', s) ==>
      EffectsAgree(PlainEffect(s.Orig(), i, c), PlainEffect(s.Hooked(), i, c'), s)
  }

  function LiteralOf(h0: Half, h1: Half, at: Word): Word {
    if Classify(h0, h1) == KLdr then Plus(Align4(Plus(at, 4)), h0 % 0x100 * 4)
    else Plus(Align4(Plus(at, 4)), if h0 / 0x80 % 2 == 0 then -(h1 % 0x1000) else h1 % 0x1000)
  }

  /** The forms that the relocator handles, at the address `at`, with `need` halfwords
      still to be emitted (its own included). */
  predicate Relocatable(h0: Half, h1: Half, at: int, need: int) {
    match Classify(h0, h1)
    case KLdr => true
    case KB => true
    case KWideB => h1 / 0x1000 % 2 == 0
    case KBl => h1 / 0x1000 % 2 == 1 || at % 4 == 0
    case KCbz => need <= 72
    case KLdrW => h1 / 0x1000 != PC
    case KAdd => !R.Refused(h0, h1)
    case KCopy32 => PositionIndependent(Decode32(h0, h1))
    case KCopy16 => PositionIndependent(Decode16(h0)) || Decode16(h0).It?
  }

  /** What the instruction at `off` touches when it runs from `c`. */
  ghost predicate Quiet(s: Setting, off: nat, c: Core)
    requires off < |s.win|
  {
    var h0, h1 := s.win[off], R.Second(s.win, off);
    match Classify(h0, h1)
    case KLdr => LiteralVisible(s, LiteralOf(h0, h1, Plus(s.area, 2 * off)))
    case KLdrW => LiteralVisible(s, LiteralOf(h0, h1, Plus(s.area, 2 * off)))
    case KB => true
    case KWideB => true
    case KBl => ScratchDead(s, c)
    case KCbz => ScratchDead(s, c)
    case KAdd => ScratchDead(s, c)
    case KCopy32 => Oblivious(s, OriginalInsn(h0, h1), c)
    case KCopy16 => OriginalInsn(h0, h1).It? || Oblivious(s, OriginalInsn(h0, h1), c)
  }

  /** Whether the instruction at `off`, run from `c`, transfers control. */
  ghost predicate Transfers(s: Setting, off: nat, c: Core)
    requires off < |s.win|
  {
    var h0, h1 := s.win[off], R.Second(s.win, off);
    match Classify(h0, h1)
    case KLdr => false
    case KLdrW => false
    case KAdd => false
    case KB => ConditionHolds(h0 / 0x100 % 16, c.flags)
    case KWideB => ConditionHolds(h0 / 0x40 % 16, c.flags)
    case KBl => true
    case KCbz => (c.regs[h0 % 8] != 0) == (h0 / 0x800 % 2 == 1)
    case KCopy32 =>
      PositionIndependent(OriginalInsn(h0, h1)) && !PlainEffect(s.Orig(), OriginalInsn(h0, h1), c).Fall?
    case KCopy16 =>
      PositionIndependent(OriginalInsn(h0, h1)) && !PlainEffect(s.Orig(), OriginalInsn(h0, h1), c).Fall?
  }

  // ---------------------------------------------------------------- agreement is kept

  lemma SameLoad(s: Setting, c: Core, c': Core, a: Word)
    requires s.Valid() && Agree(c, c', s) && LiteralVisible(s, a)
    ensures LoadWord(s.rom, c.mem, a) == LoadWord(s.rom', c'.mem, a)
  {
    hide R.IsWindow, R.AnyRefused, R.Trampoline, Holds;
    forall b | InWord(a, b) ensures LoadByte(s.rom, c.mem, b) == LoadByte(s.rom', c'.mem, b) {
      assert b !in s.hidden;
      VisibleIsNotCode(s.hidden, s.rom, b);
      VisibleIsNotCode(s.hidden, s.rom', b);
      assert ReadRam(c.mem, b) == ReadRam(c'.mem, b);
    }
    assert InWord(a, a) && InWord(a, Plus(a, 1)) && InWord(a, Plus(a, 2)) && InWord(a, Plus(a, 3));
  }

  lemma SetAgrees(s: Setting, c: Core, c': Core, r: int, v: Word)
    requires Agree(c, c', s) && 0 <= r < 15
    ensures Agree(SetReg(c, r, v), SetReg(c', r, v), s)
  {
    hide ReadRam;
  }

  lemma ScratchAgrees(s: Setting, c: Core, c': Core, r: int)
    requires Agree(c, c', s) && ScratchDead(s, c) && 0 <= r < 8
    ensures Agree(c, Scratched(c', r), s) && SlotFree(s.rom', c')
  {
    hide InRom, StoreWord, Plus;
    var sp := Plus(c.regs[SP], -4);
    forall a | a !in s.hidden ensures ReadRam(c.mem, a) == ReadRam(Scratched(c', r).mem, a) {
      assert !InWord(sp, a);
      StoreElsewhere(c'.mem, sp, c'.regs[r], a);
    }
  }

  /** A literal with bit 0 set is a Thumb destination. */
  lemma ThumbDest(core: Core, at: int, jump: int)
    requires at % 2 == 0 && jump % 2 == 1
    ensures Interwork(core, Plus(at, 4 + jump)) == Run(core, Plus(Plus(at, 4), jump - 1), Thumb)
  {
    hide Wrap, Interwork;
    var a, j := at / 2, (jump - 1) / 2;
    var k := a + 2 + j;
    assert at == 2 * a && jump == 2 * j + 1;
    WrapEven(k);
    assert at + (4 + jump) == 2 * k + 1 && at + 4 + (jump - 1) == 2 * k;
    WrapAgain(at + 4, jump - 1);
    ThumbState(core, Wrap(2 * k));
  }

  lemma PlainAddress(area: int, size: nat, off: nat)
    requires 0 <= area && area % 2 == 0 && area + 2 * size + 4 < 0x1_0000_0000 && off <= size
    ensures Plus(area, 2 * off) == area + 2 * off && (area + 2 * off) % 2 == 0
    ensures Plus(area, 2 * off + 1) == Plus(area + 2 * off, 1) == area + 2 * off + 1
    ensures Plus(area + 2 * off, 4) == area + 2 * off + 4
    ensures off < size ==> Plus(area + 2 * off, 2) == area + 2 * (off + 1)
    ensures off + 2 <= size ==> Plus(area + 2 * off, 4) == area + 2 * (off + 2)
  {
    TwiceIsEven(area + 2 * off, area / 2 + off);
  }

  // ---------------------------------------------------------------- one simulation lemma a kind

  lemma LaidFacts(s: Setting, off: nat, start: nat, end: nat)
    ensures Laid(s, off, start, end) ==>
              s.Valid() && InSpace(s.buf, end) && start + 6 <= end && R.Need(s.win, off) == end - start - 6 &&
              0 <= s.area && s.area % 2 == 0 && s.area + 2 * |s.win| + 4 < 0x1_0000_0000 &&
              off <= |s.win| && R.Splits(s.win, off, |s.win|) &&
              (off < |s.win| ==> off + R.WidthAt(s.win, off) <= |s.win|) &&
              CodeAddress(s.buf + 2 * start) && 0 <= s.buf && s.buf + 2 * start + 14 <= 0x1_0000_0000
  {
    hide R.Emit, R.Trampoline, R.LongJump, Holds, Hides, R.AnyRefused, Classify;
    if Laid(s, off, start, end) {
      BackAddress(s.buf, end, start);
    }
  }

  lemma SimulateLdr(s: Setting, off: nat, start: nat, end: nat, c: Core, c': Core) returns (r: State)
    requires Laid(s, off, start, end) && off < |s.win| && R.KindAt(s.win, off) == KLdr
    requires Agree(c, c', s) && Quiet(s, off, c)
    ensures Reaches(s.Hooked(), Run(c', s.buf + 2 * start, Thumb), r)
    ensures FellThrough(s, OriginalStep(s, off, c), r, off + 1, start + 2)
  {
    hide Setting.Valid, CodeAddress, InSpace, R.Splits, R.Need, Classify;
    hide R.Gadget, Laid, Holds, LoadWord, Align4, Reaches, Step, Agree, LiteralVisible, R.Room, OriginalInsn,
      SetReg, Sits, Plus;
    LaidNext(s, off, start, end);
    LaidFacts(s, off, start, end);
    PlainAddress(s.area, |s.win|, off);
    var h0, h1, at := s.win[off], R.Second(s.win, off), s.area + 2 * off;
    OriginalRuns(s, off, c);
    LdrDecoded(h0, h1);
    var a := LiteralOf(h0, h1, at);
    SameLoad(s, c, c', a);
    var rd, v := h0 / 0x100 % 8, LoadWord(s.rom, c.mem, a);
    LdrRuns(s.Hooked(), c', s.buf, start, end, h0, h1, at);
    SetAgrees(s, c, c', rd, v);
    r := Run(SetReg(c', rd, v), s.buf + 2 * (start + 2), Thumb);
  }

  lemma WidePiece(h0: Half, h1: Half, at: Word, start: nat, end: nat)
    requires Classify(h0, h1) == KLdrW && R.Room(KLdrW, start, end)
    ensures start + 7 <= end <= start + 142 && end % 2 == 0 && 0 <= Label(start, end - 2) < 0x1000
    ensures var rt := h1 / 0x1000;
            R.Gadget(h0, h1, at, start, end)
            == R.Piece([Ldr1Half(15), Ldr2Half(rt, Label(start, end - 2)), Ldr1Half(rt), Ldr2Half(rt, 0)],
                       R.Pair(LiteralOf(h0, h1, at)))
  {
    hide R.Gadget, Label, Ldr1Half, Ldr2Half, R.Pair, Plus;
    LabelNamesPoolWord(0, start, end - 2);
    LdrWPiece(h0, h1, at, start, end);
  }

  lemma SimulateLdrW(s: Setting, off: nat, start: nat, end: nat, c: Core, c': Core) returns (r: State)
    requires Laid(s, off, start, end) && off < |s.win| && R.KindAt(s.win, off) == KLdrW
    requires R.Second(s.win, off) / 0x1000 != PC
    requires Agree(c, c', s) && Quiet(s, off, c)
    ensures Reaches(s.Hooked(), Run(c', s.buf + 2 * start, Thumb), r)
    ensures FellThrough(s, OriginalStep(s, off, c), r, off + 2, start + 4)
  {
    hide Setting.Valid, CodeAddress, InSpace, R.Splits, R.Need, Classify;
    hide R.Gadget, Laid, Holds, LoadWord, Align4, Reaches, Step, Agree, LiteralVisible, R.Room, OriginalInsn, Plus,
      SetReg, Sits;
    LaidNext(s, off, start, end);
    LaidFacts(s, off, start, end);
    PlainAddress(s.area, |s.win|, off);
    var h0, h1, at := s.win[off], R.Second(s.win, off), s.area + 2 * off;
    OriginalRuns(s, off, c);
    LdrWDecoded(h0, h1);
    var a := LiteralOf(h0, h1, at);
    SameLoad(s, c, c', a);
    var rt, v := h1 / 0x1000, LoadWord(s.rom, c.mem, a);
    WidePiece(h0, h1, at, start, end);
    LdrWRuns(s.Hooked(), c', s.buf, start, end, rt, a);
    SetAgrees(s, c, c', rt, v);
    r := Run(SetReg(c', rt, v), s.buf + 2 * (start + 4), Thumb);
  }

  lemma SimulateB(s: Setting, off: nat, start: nat, end: nat, c: Core, c': Core) returns (r: State)
    requires Laid(s, off, start, end) && off < |s.win| && R.KindAt(s.win, off) == KB
    requires Agree(c, c', s)
    ensures Reaches(s.Hooked(), Run(c', s.buf + 2 * start, Thumb), r)
    ensures if Transfers(s, off, c) then Left(s, OriginalStep(s, off, c), r)
            else FellThrough(s, OriginalStep(s, off, c), r, off + 1, start + 1)
  {
    hide Setting.Valid, CodeAddress, InSpace, R.Splits, R.Need, Classify;
    hide R.Gadget, Laid, Holds, LoadWord, Align4, Reaches, Step, Agree, LiteralVisible, R.Room, OriginalInsn, Plus,
      Interwork, R.BJump, ConditionHolds, BranchHalf, R.LongJump;
    LaidNext(s, off, start, end);
    LaidFacts(s, off, start, end);
    PlainAddress(s.area, |s.win|, off);
    var h0, h1, at := s.win[off], R.Second(s.win, off), s.area + 2 * off;
    OriginalRuns(s, off, c);
    BDecoded(h0, h1);
    var cond, dest := h0 / 0x100 % 16, Plus(at, 4 + R.BJump(h0));
    BPiece(h0, h1, at, start, end);
    BranchReach(s, off, start, end);
    BranchPairRuns(s.Hooked(), c', s.buf, start, end, cond, dest);
    AgreeFlags(c, c', s);
    BJumpOdd(h0);
    ThumbDest(c', at, R.BJump(h0));
    r := if ConditionHolds(cond, c.flags) then Interwork(c', dest)
    else Run(c', s.buf + 2 * (start + 1), Thumb);
  }

  lemma SimulateWideB(s: Setting, off: nat, start: nat, end: nat, c: Core, c': Core) returns (r: State)
    requires Laid(s, off, start, end) && off < |s.win| && R.KindAt(s.win, off) == KWideB
    requires R.Second(s.win, off) / 0x1000 % 2 == 0
    requires Agree(c, c', s)
    ensures Reaches(s.Hooked(), Run(c', s.buf + 2 * start, Thumb), r)
    ensures if Transfers(s, off, c) then Left(s, OriginalStep(s, off, c), r)
            else FellThrough(s, OriginalStep(s, off, c), r, off + 2, start + 1)
  {
    hide Setting.Valid, CodeAddress, InSpace, R.Splits, R.Need, Classify;
    hide R.Gadget, Laid, Holds, LoadWord, Align4, Reaches, Step, Agree, LiteralVisible, R.Room, OriginalInsn, Plus,
      Interwork, R.WideBJump, ConditionHolds, BranchHalf, R.LongJump;
    LaidNext(s, off, start, end);
    LaidFacts(s, off, start, end);
    PlainAddress(s.area, |s.win|, off);
    var h0, h1, at := s.win[off], R.Second(s.win, off), s.area + 2 * off;
    OriginalRuns(s, off, c);
    WideBDecoded(h0, h1);
    var cond, dest := h0 / 0x40 % 16, Plus(at, 4 + R.WideBJump(h0, h1));
    WideBPiece(h0, h1, at, start, end);
    BranchReach(s, off, start, end);
    BranchPairRuns(s.Hooked(), c', s.buf, start, end, cond, dest);
    AgreeFlags(c, c', s);
    WideBJumpOdd(h0, h1);
    ThumbDest(c', at, R.WideBJump(h0, h1));
    r := if ConditionHolds(cond, c.flags) then Interwork(c', dest)
    else Run(c', s.buf + 2 * (start + 1), Thumb);
  }

  lemma AgreeFlags(c: Core, c': Core, s: Setting)
    requires Agree(c, c', s)
    ensures c.flags == c'.flags && forall r :: 0 <= r < LR ==> c.regs[r] == c'.regs[r]
  {
    hide ReadRam;
  }

  lemma BJumpOdd(h0: Half)
    ensures R.BJump(h0) % 2 == 1
  {
  }

  lemma WideBJumpOdd(h0: Half, h1: Half)
    ensures R.WideBJump(h0, h1) % 2 == 1
  {
    var s, j1, j2 := h0 / 0x400 % 2, h1 / 0x2000 % 2, h1 / 0x800 % 2;
    var low := h1 % 0x800 + h0 % 0x40 * 0x800;
    if h1 / 0x1000 % 2 == 1 {
      OddSigned(low + s * 0x80_0000 + R.Xnor(s, j1) * 0x40_0000 + R.Xnor(s, j2) * 0x20_0000
                + h0 / 0x40 % 16 * 0x2_0000, 0x100_0000);
    } else {
      OddSigned(low + s * 0x8_0000 + j2 * 0x4_0000 + j1 * 0x2_0000, 0x10_0000);
    }
  }

  lemma BPiece(h0: Half, h1: Half, at: Word, start: nat, end: nat)
    requires Classify(h0, h1) == KB && R.Room(KB, start, end)
    ensures R.Gadget(h0, h1, at, start, end)
            == R.Piece([BranchHalf(h0 / 0x100 % 16, (end - 6 - start) * 2 - 4)], R.LongJump(Plus(at, 4 + R.BJump(h0))))
  {
  }

  lemma WideBPiece(h0: Half, h1: Half, at: Word, start: nat, end: nat)
    requires Classify(h0, h1) == KWideB && R.Room(KWideB, start, end) && h1 / 0x1000 % 2 == 0
    ensures R.Gadget(h0, h1, at, start, end)
            == R.Piece([BranchHalf(h0 / 0x40 % 16, (end - 6 - start) * 2 - 4)],
                       R.LongJump(Plus(at, 4 + R.WideBJump(h0, h1))))
  {
  }

  /** A window of at most 16 bytes leaves every conditional branch within its field. */
  lemma BranchReach(s: Setting, off: nat, start: nat, end: nat)
    requires Laid(s, off, start, end) && off < |s.win|
    requires R.KindAt(s.win, off) == KB || R.KindAt(s.win, off) == KWideB
    ensures end % 2 == 0 && start + 8 <= end && (end - 6 - start) * 2 - 4 <= 254
  {
    hide R.Emit, R.Trampoline, Holds, InRom, R.AnyRefused;
    R.FitsRoom(s.win, off, start, end);
    R.NeedBound(s.win, off + R.WidthAt(s.win, off));
    var n := end - start;
    assert n == R.Need(s.win, off) + 6;
    assert n <= 7 + 17 * 7 + 6;
  }

  lemma SimulateBl(s: Setting, off: nat, start: nat, end: nat, c: Core, c': Core) returns (r: State)
    requires Laid(s, off, start, end) && off < |s.win| && R.KindAt(s.win, off) == KBl
    requires Relocatable(s.win[off], R.Second(s.win, off), s.area + 2 * off, end - start - 6)
    requires Agree(c, c', s) && Quiet(s, off, c)
    ensures Reaches(s.Hooked(), Run(c', s.buf + 2 * start, Thumb), r)
    ensures Reaches(s.Hooked(), Step(s.Hooked(), Run(c', s.buf + 2 * start, Thumb)), r)
    ensures Called(s, OriginalStep(s, off, c), r, off + 2, start + 5)
  {
    hide Setting.Valid, CodeAddress, InSpace, R.Splits, R.Need, Classify;
    hide R.Gadget, Laid, Holds, LoadWord, Align4, Reaches, Step, Agree, ScratchDead, R.Room, OriginalInsn, Plus,
      Interwork, R.BlJump, Sits, Scratched, SetReg, SlotFree, AgreeButLr;
    LaidNext(s, off, start, end);
    LaidFacts(s, off, start, end);
    PlainAddress(s.area, |s.win|, off);
    PlainAddress(s.area, |s.win|, off + 2);
    var h0, h1, at := s.win[off], R.Second(s.win, off), s.area + 2 * off;
    OriginalRuns(s, off, c);
    BlDecoded(h0, h1);
    var dest := Plus(at, 4 + R.BlJump(h0, h1));
    ScratchAgrees(s, c, c', 7);
    BlRuns(s.Hooked(), c', s.buf, start, end, h0, h1, at);
    var back := s.buf + 2 * (start + 5) + 1;
    var core := SetReg(Scratched(c', 7), LR, back);
    LinkAgrees(s, c, Scratched(c', 7), s.area + 2 * (off + 2) + 1, back);
    r := Interwork(core, dest);
    if h1 / 0x1000 % 2 == 1 {
      BlJumpOdd(h0, h1);
      ThumbDest(core, at, R.BlJump(h0, h1));
    } else {
      ArmDest(core, at, R.BlJump(h0, h1));
    }
  }

  lemma BlJumpOdd(h0: Half, h1: Half)
    requires h1 / 0x1000 % 2 == 1
    ensures R.BlJump(h0, h1) % 2 == 1
  {
    var s, j1, j2 := h0 / 0x400 % 2, h1 / 0x2000 % 2, h1 / 0x800 % 2;
    var k := s * 0x80_0000 + R.Xnor(s, j1) * 0x40_0000 + R.Xnor(s, j2) * 0x20_0000 + h0 % 0x400 * 0x800 + h1 % 0x800;
    OddSigned(k, 0x100_0000);
  }

  lemma OddSigned(k: int, m: int)
    requires 0 < m
    ensures Signed(2 * k + 1, 2 * m) % 2 == 1
  {
    if 2 * (2 * k + 1) < 2 * m {
      OddIs(2 * k + 1, k);
    } else {
      OddIs(2 * k + 1 - 2 * m, k - m);
    }
  }

  /** BLX: from a word-aligned address the literal is the ARM destination. */
  lemma ArmDest(core: Core, at: int, jump: int)
    requires at % 4 == 0 && jump % 4 == 0 && 0 <= at && at + 4 < 0x1_0000_0000
    ensures Interwork(core, Plus(at, 4 + jump)) == Run(core, Plus(Align4(Plus(at, 4)), jump), Arm)
  {
    hide Wrap;
    var k := (at + 4 + jump) / 4;
    WrapUnique(at + 4, 0, at + 4);
    assert at + (4 + jump) == 4 * k && at + 4 + jump == 4 * k;
    WrapWord(k);
  }

  lemma LinkAgrees(s: Setting, c: Core, c': Core, link: Word, link': Word)
    requires Agree(c, c', s)
    ensures AgreeButLr(SetReg(c, LR, link), SetReg(c', LR, link'), s)
    ensures SetReg(c, LR, link).regs[LR] == link && SetReg(c', LR, link').regs[LR] == link'
  {
    hide ReadRam;
  }

  lemma SimulateCbz(s: Setting, off: nat, start: nat, end: nat, c: Core, c': Core) returns (r: State)
    requires Laid(s, off, start, end) && off < |s.win| && R.KindAt(s.win, off) == KCbz
    requires end - start <= 78
    requires Agree(c, c', s) && Quiet(s, off, c)
    ensures Reaches(s.Hooked(), Run(c', s.buf + 2 * start, Thumb), r)
    ensures if Transfers(s, off, c) then Left(s, OriginalStep(s, off, c), r)
            else FellThrough(s, OriginalStep(s, off, c), r, off + 1, start + 7)
  {
    hide Setting.Valid, CodeAddress, InSpace, R.Splits, R.Need, Classify;
    hide R.Gadget, Laid, Holds, LoadWord, Align4, Reaches, Step, Agree, ScratchDead, R.Room, OriginalInsn, Plus,
      Interwork, R.CbzJump, Sits, Scratched, SlotFree;
    LaidNext(s, off, start, end);
    LaidFacts(s, off, start, end);
    PlainAddress(s.area, |s.win|, off);
    var h0, h1, at := s.win[off], R.Second(s.win, off), s.area + 2 * off;
    OriginalRuns(s, off, c);
    CbzDecoded(h0, h1);
    AgreeFlags(c, c', s);
    var rt := R.Scratch(h0 % 8);
    ScratchAgrees(s, c, c', rt);
    CbzRuns(s.Hooked(), c', s.buf, start, end, h0, h1, at);
    CbzJumpOdd(h0);
    var after := Scratched(c', rt);
    ThumbDest(after, at, R.CbzJump(h0));
    r := if Transfers(s, off, c) then Interwork(after, Plus(at, 4 + R.CbzJump(h0)))
    else Run(after, s.buf + 2 * (start + 7), Thumb);
  }

  lemma CbzJumpOdd(h0: Half)
    ensures R.CbzJump(h0) % 2 == 1
  {
  }

  lemma SimulateAdd(s: Setting, off: nat, start: nat, end: nat, c: Core, c': Core) returns (r: State)
    requires Laid(s, off, start, end) && off < |s.win| && R.KindAt(s.win, off) == KAdd
    requires !R.Refused(s.win[off], R.Second(s.win, off))
    requires Agree(c, c', s) && Quiet(s, off, c)
    ensures Reaches(s.Hooked(), Run(c', s.buf + 2 * start, Thumb), r)
    ensures FellThrough(s, OriginalStep(s, off, c), r, off + 1, start + 5)
  {
    hide Setting.Valid, CodeAddress, InSpace, R.Splits, R.Need, Classify;
    hide R.Gadget, Laid, Holds, LoadWord, Align4, Reaches, Step, Agree, ScratchDead, R.Room, OriginalInsn, Plus, Sits,
      Scratched, SetReg, SlotFree;
    LaidNext(s, off, start, end);
    LaidFacts(s, off, start, end);
    PlainAddress(s.area, |s.win|, off);
    var h0, h1, at := s.win[off], R.Second(s.win, off), s.area + 2 * off;
    OriginalRuns(s, off, c);
    AddDecoded(h0, h1);
    AgreeFlags(c, c', s);
    var rd, rt := h0 % 8, R.Scratch(h0 % 8);
    ScratchAgrees(s, c, c', rt);
    AddRuns(s.Hooked(), c', s.buf, start, end, h0, h1, at);
    var sum := Plus(Plus(at, 4), c.regs[rd]);
    assert Plus(c.regs[rd], Plus(at, 4)) == sum by { PlusCommutes(c.regs[rd], Plus(at, 4)); }
    SetAgrees(s, c, Scratched(c', rt), rd, sum);
    r := Run(SetReg(Scratched(c', rt), rd, sum), s.buf + 2 * (start + 5), Thumb);
  }

  lemma PlusCommutes(x: int, y: int)
    ensures Plus(x, y) == Plus(y, x)
  {
  }

  // ---------------------------------------------------------------- copied instructions

  lemma CopyPiece(h0: Half, h1: Half, at: Word, start: nat, end: nat)
    requires R.Room(Classify(h0, h1), start, end)
    ensures Classify(h0, h1) == KCopy16 ==> R.Gadget(h0, h1, at, start, end) == R.Piece([h0], [])
    ensures Classify(h0, h1) == KCopy32 ==> R.Gadget(h0, h1, at, start, end) == R.Piece([h0, h1], [])
  {
  }

  lemma CopyWidth(h0: Half, h1: Half)
    ensures Classify(h0, h1) == KCopy16 ==> !Is32Bit(h0) && OriginalInsn(h0, h1) == Decode16(h0)
    ensures Classify(h0, h1) == KCopy32 ==> Is32Bit(h0) && OriginalInsn(h0, h1) == Decode32(h0, h1)
  {
    hide Decode16, Decode32;
  }

  /** The copy executes the same instruction at its new place. */
  lemma CopyRuns(s: Setting, off: nat, start: nat, end: nat, c': Core)
    requires Laid(s, off, start, end) && off < |s.win|
    requires R.KindAt(s.win, off) == KCopy16 || R.KindAt(s.win, off) == KCopy32
    ensures Step(s.Hooked(), Run(c', s.buf + 2 * start, Thumb))
            == Exec(s.Hooked(), OriginalInsn(s.win[off], R.Second(s.win, off)), c', s.buf + 2 * start,
                    2 * R.WidthAt(s.win, off))
  {
    hide R.Gadget, Laid, Holds, Step, Exec, Decode16, Decode32, R.Room, Plus, InRom, R.IsWindow, R.AnyRefused,
      R.Trampoline, R.Splits;
    LaidNext(s, off, start, end);
    LaidFacts(s, off, start, end);
    var h0, h1, pc := s.win[off], R.Second(s.win, off), s.buf + 2 * start;
    CopyWidth(h0, h1);
    hide Classify, Is32;
    CopyPiece(h0, h1, Plus(s.area, 2 * off), start, end);
    var code := R.Gadget(h0, h1, Plus(s.area, 2 * off), start, end).code;
    HoldsAt(s.rom', pc, code, 0);
    if Classify(h0, h1) == KCopy32 {
      HoldsAt(s.rom', pc, code, 1);
      StepWide(s.Hooked(), c', pc, OriginalInsn(h0, h1));
    } else {
      StepNarrow(s.Hooked(), c', pc, OriginalInsn(h0, h1));
    }
  }

  /** So it does in an IT block. */
  lemma CopyRunsUnder(s: Setting, off: nat, start: nat, end: nat, c': Core, it: nat)
    requires Laid(s, off, start, end) && off < |s.win| && it != 0
    requires R.KindAt(s.win, off) == KCopy16 || R.KindAt(s.win, off) == KCopy32
    ensures Step(s.Hooked(), Run(c', s.buf + 2 * start, Thumb, it))
            == ExecUnder(s.Hooked(), OriginalInsn(s.win[off], R.Second(s.win, off)), c', s.buf + 2 * start,
                         2 * R.WidthAt(s.win, off), it)
  {
    hide R.Gadget, Laid, Holds, Step, ExecUnder, Decode16, Decode32, R.Room, Plus, InRom, Setting.Valid, R.Splits,
      CodeAddress, InSpace;
    LaidNext(s, off, start, end);
    LaidFacts(s, off, start, end);
    var h0, h1, pc := s.win[off], R.Second(s.win, off), s.buf + 2 * start;
    CopyWidth(h0, h1);
    hide Classify, Is32;
    CopyPiece(h0, h1, Plus(s.area, 2 * off), start, end);
    var code := R.Gadget(h0, h1, Plus(s.area, 2 * off), start, end).code;
    HoldsAt(s.rom', pc, code, 0);
    if Classify(h0, h1) == KCopy32 {
      HoldsAt(s.rom', pc, code, 1);
    }
    StepUnder(s.Hooked(), c', pc, it, OriginalInsn(h0, h1), Classify(h0, h1) == KCopy32);
  }

  lemma SimulateCopy(s: Setting, off: nat, start: nat, end: nat, c: Core, c': Core) returns (r: State)
    requires Laid(s, off, start, end) && off < |s.win|
    requires R.KindAt(s.win, off) == KCopy16 || R.KindAt(s.win, off) == KCopy32
    requires !OriginalInsn(s.win[off], R.Second(s.win, off)).It?
    requires Agree(c, c', s) && Quiet(s, off, c)
    ensures Reaches(s.Hooked(), Run(c', s.buf + 2 * start, Thumb), r)
    ensures var o := OriginalStep(s, off, c);
            var off', start' := off + R.WidthAt(s.win, off), start + R.WidthAt(s.win, off);
            if Transfers(s, off, c) then Left(s, o, r) || Called(s, o, r, off', start')
            else FellThrough(s, o, r, off', start')
  {
    hide Laid, Step, Agree, Reaches, PlainEffect, Interwork, OriginalInsn, AgreeButLr, SetReg, Plus,
      R.IsWindow, R.AnyRefused, R.Trampoline, Holds, InRom, R.Splits, Classify, Is32;
    LaidFacts(s, off, start, end);
    PlainAddress(s.area, |s.win|, off);
    var i := OriginalInsn(s.win[off], R.Second(s.win, off));
    OriginalRuns(s, off, c);
    CopyRuns(s, off, start, end, c');
    var w := R.WidthAt(s.win, off);
    var e, e' := PlainEffect(s.Orig(), i, c), PlainEffect(s.Hooked(), i, c');
    QuietCopy(s, off, c);
    assert EffectsAgree(e, e', s);
    CopyAddress(s.buf, start, w);
    r := Continue(e', s.buf + 2 * (start + w));
    ReachesStep(s.Hooked(), Run(c', s.buf + 2 * start, Thumb), r);
    ContinueAgrees(s, e, e', off + w, start + w);
  }

  lemma QuietCopy(s: Setting, off: nat, c: Core)
    requires off < |s.win| && Quiet(s, off, c)
    requires R.KindAt(s.win, off) == KCopy16 || R.KindAt(s.win, off) == KCopy32
    requires !OriginalInsn(s.win[off], R.Second(s.win, off)).It?
    ensures var i := OriginalInsn(s.win[off], R.Second(s.win, off));
            Oblivious(s, i, c) && Transfers(s, off, c) == !PlainEffect(s.Orig(), i, c).Fall?
  {
    hide Agree, OriginalInsn, Classify, PlainEffect;
  }

  lemma CopyAddress(buf: int, start: nat, w: nat)
    requires 0 <= buf && buf + 2 * start + 4 < 0x1_0000_0000 && w <= 2
    ensures Plus(buf + 2 * start, 2 * w) == buf + 2 * (start + w)
  {
  }

  lemma ContinueAgrees(s: Setting, e: Effect, e': Effect, off: nat, start: nat)
    requires EffectsAgree(e, e', s)
    requires 0 <= s.area && s.area + 2 * off + 1 < 0x1_0000_0000 && 0 <= s.buf && s.buf + 2 * start + 1 < 0x1_0000_0000
    ensures var o, r := Continue(e, s.area + 2 * off), Continue(e', s.buf + 2 * start);
            match e
            case Fall(_) => FellThrough(s, o, r, off, start)
            case Goto(_, _) => Left(s, o, r)
            case Call(_, _) => Called(s, o, r, off, start)
  {
    hide Agree, SetReg, AgreeButLr;
    match e
    case Fall(_) =>
    case Goto(_, _) =>
    case Call(c, _) => LinkAgrees(s, c, e'.core, s.area + 2 * off + 1, s.buf + 2 * start + 1);
  }

  // ---------------------------------------------------------------- IT blocks

  /** A displaced `it` is copied, and opens its block in both processes. */
  lemma SimulateIt(s: Setting, off: nat, start: nat, end: nat, c: Core, c': Core) returns (r: State)
    requires Laid(s, off, start, end) && off < |s.win| && R.KindAt(s.win, off) == KCopy16
    requires OriginalInsn(s.win[off], R.Second(s.win, off)).It? && Agree(c, c', s)
    ensures Reaches(s.Hooked(), Run(c', s.buf + 2 * start, Thumb), r)
    ensures FellThrough(s, OriginalStep(s, off, c), r, off + 1, start + 1)
    ensures r.it == OriginalInsn(s.win[off], R.Second(s.win, off)).state
  {
    hide Laid, Step, Agree, Reaches, OriginalInsn, Plus, Setting.Valid, InSpace, CodeAddress, R.Splits, R.Need,
      Classify;
    LaidFacts(s, off, start, end);
    PlainAddress(s.area, |s.win|, off);
    OriginalRuns(s, off, c);
    CopyRuns(s, off, start, end, c');
    CopyAddress(s.buf, start, 1);
    r := Run(c', s.buf + 2 * (start + 1), Thumb, OriginalInsn(s.win[off], R.Second(s.win, off)).state);
    ReachesStep(s.Hooked(), Run(c', s.buf + 2 * start, Thumb), r);
  }

  /** The instructions that may follow in a displaced block: they must be copied, and not be
      UNPREDICTABLE there. */
  predicate FitsBlock(h0: Half, h1: Half, it: nat) {
    (Classify(h0, h1) == KCopy16 || Classify(h0, h1) == KCopy32) &&
    PositionIndependent(OriginalInsn(h0, h1)) && MayStand(OriginalInsn(h0, h1), Advance(it) == 0)
  }

  /** Executed from the state `c`, the instruction does not depend on hidden bytes. */
  ghost predicate QuietUnder(s: Setting, off: nat, c: Core, it: nat)
    requires off < |s.win|
  {
    var i := OriginalInsn(s.win[off], R.Second(s.win, off));
    ConditionHolds(it / 16, c.flags) ==>
      PositionIndependent(i) &&
      forall c': Core :: Agree(c, c', s) ==>
        EffectsAgree(UnderEffect(s.Orig(), i, c), UnderEffect(s.Hooked(), i, c'), s)
  }

  ghost predicate TransfersUnder(s: Setting, off: nat, c: Core, it: nat)
    requires off < |s.win|
  {
    var i := OriginalInsn(s.win[off], R.Second(s.win, off));
    ConditionHolds(it / 16, c.flags) && PositionIndependent(i) && !UnderEffect(s.Orig(), i, c).Fall?
  }

  /** A copied instruction of a block does what the original does, and leaves the same state
      of the block. */
  lemma SimulateUnder(s: Setting, off: nat, start: nat, end: nat, c: Core, c': Core, it: nat) returns (r: State)
    requires Laid(s, off, start, end) && off < |s.win| && it != 0
    requires FitsBlock(s.win[off], R.Second(s.win, off), it) && Agree(c, c', s) && QuietUnder(s, off, c, it)
    ensures Reaches(s.Hooked(), Run(c', s.buf + 2 * start, Thumb, it), r)
    ensures var o, w := UnderStep(s, off, c, it), R.WidthAt(s.win, off);
            if TransfersUnder(s, off, c, it) then
              Left(s, o, r) || (Called(s, o, r, off + w, start + w) && Advance(it) == 0)
            else FellThrough(s, o, r, off + w, start + w) && r.it == Advance(it)
  {
    hide Laid, Step, Agree, Reaches, UnderEffect, OriginalInsn, Plus, Setting.Valid, InSpace, CodeAddress, R.Splits,
      R.Need, Classify, MayStand, Advance, ConditionHolds, PositionIndependent, Exec, Continue, AgreeButLr;
    LaidFacts(s, off, start, end);
    PlainAddress(s.area, |s.win|, off);
    var w, i := R.WidthAt(s.win, off), OriginalInsn(s.win[off], R.Second(s.win, off));
    UnderRuns(s, off, c, it);
    CopyRunsUnder(s, off, start, end, c', it);
    CopyAddress(s.buf, start, w);
    AgreeFlags(c, c', s);
    r := Step(s.Hooked(), Run(c', s.buf + 2 * start, Thumb, it));
    ReachesStep(s.Hooked(), Run(c', s.buf + 2 * start, Thumb, it), r);
    if ConditionHolds(it / 16, c.flags) {
      var e, e' := UnderEffect(s.Orig(), i, c), UnderEffect(s.Hooked(), i, c');
      assert EffectsAgree(e, e', s);
      ContinueAgrees(s, e, e', off + w, start + w);
    }
  }

  // ---------------------------------------------------------------- whole prologues

  /** The state of the block, `it`, after the instruction. */
  function NextIt(h0: Half, h1: Half, it: nat): nat {
    if it != 0 then Advance(it)
    else if Classify(h0, h1) == KCopy16 && OriginalInsn(h0, h1).It? then OriginalInsn(h0, h1).state
    else 0
  }

  /** Static condition on the displaced instructions from `off` on, in the state `it`: an IT
      block must end in the window. */
  predicate AllRelocatable(area: int, win: seq<Half>, off: nat, it: nat := 0)
    decreases |win| - off
  {
    if off < |win| then
      var h0, h1 := win[off], R.Second(win, off);
      (if it == 0 then Relocatable(h0, h1, area + 2 * off, R.Need(win, off)) else FitsBlock(h0, h1, it)) &&
      AllRelocatable(area, win, off + R.WidthAt(win, off), NextIt(h0, h1, it))
    else it == 0
  }

  /** One displaced instruction, from any boundary and any pair of agreeing cores. */
  lemma SimulateOne(s: Setting, off: nat, start: nat, end: nat, c: Core, c': Core) returns (r: State)
    requires Laid(s, off, start, end) && off < |s.win|
    requires Relocatable(s.win[off], R.Second(s.win, off), s.area + 2 * off, R.Need(s.win, off))
    requires Agree(c, c', s) && Quiet(s, off, c)
    ensures Reaches(s.Hooked(), Run(c', s.buf + 2 * start, Thumb), r)
    ensures var o := OriginalStep(s, off, c);
            var k := R.KindAt(s.win, off);
            if Transfers(s, off, c) then
              Left(s, o, r) || Called(s, o, r, off + Width(k), start + R.CodeSize(k))
            else
              FellThrough(s, o, r, off + Width(k), start + R.CodeSize(k))
  {
    LaidFacts(s, off, start, end);
    hide Laid, Step, Agree, Reaches, Quiet, Left, Called, FellThrough, R.Need, Exec, Classify, ScratchDead,
      Setting.Valid, OriginalInsn,
      CodeAddress, InSpace, R.Splits, PositionIndependent, PlainEffect, Decode16, Decode32, ConditionHolds, R.Refused;
    match R.KindAt(s.win, off)
    case KLdr => r := SimulateLdr(s, off, start, end, c, c');
    case KB => r := SimulateB(s, off, start, end, c, c');
    case KWideB => r := SimulateWideB(s, off, start, end, c, c');
    case KBl => r := SimulateBl(s, off, start, end, c, c');
    case KCbz => r := SimulateCbz(s, off, start, end, c, c');
    case KLdrW => r := SimulateLdrW(s, off, start, end, c, c');
    case KAdd => r := SimulateAdd(s, off, start, end, c, c');
    case KCopy32 =>
      WideIsNoIt(s.win[off], R.Second(s.win, off));
      r := SimulateCopy(s, off, start, end, c, c');
    case KCopy16 =>
      if OriginalInsn(s.win[off], R.Second(s.win, off)).It? {
        r := SimulateIt(s, off, start, end, c, c');
        ItFallsThrough(s, off, c);
      } else {
        r := SimulateCopy(s, off, start, end, c, c');
      }
  }

  lemma WideIsNoIt(h0: Half, h1: Half)
    requires Classify(h0, h1) == KCopy32
    ensures !OriginalInsn(h0, h1).It?
  {
    hide Classify, Decode16, Signed, BranchOffset20, BranchOffset24, WideAdrOffset;
    CopyWidth(h0, h1);
  }

  lemma ItFallsThrough(s: Setting, off: nat, c: Core)
    requires off < |s.win| && R.KindAt(s.win, off) == KCopy16 && OriginalInsn(s.win[off], R.Second(s.win, off)).It?
    ensures !Transfers(s, off, c)
  {
    hide OriginalInsn, Classify;
  }

  ghost predicate QuietAt(s: Setting, off: nat, c: Core, it: nat)
    requires off < |s.win|
  { if it == 0 then Quiet(s, off, c) else QuietUnder(s, off, c, it) }

  ghost predicate TransfersAt(s: Setting, off: nat, c: Core, it: nat)
    requires off < |s.win|
  { if it == 0 then Transfers(s, off, c) else TransfersUnder(s, off, c, it) }

  /** One step of the original, in or outside of a block. */
  ghost function StepAt(s: Setting, off: nat, c: Core, it: nat): State
    requires s.Valid() && off < |s.win|
  { if it == 0 then OriginalStep(s, off, c) else UnderStep(s, off, c, it) }

  lemma SimulateAt(s: Setting, off: nat, start: nat, end: nat, c: Core, c': Core, it: nat) returns (r: State)
    requires Laid(s, off, start, end) && off < |s.win| && AllRelocatable(s.area, s.win, off, it)
    requires Agree(c, c', s) && QuietAt(s, off, c, it)
    ensures Reaches(s.Hooked(), Run(c', s.buf + 2 * start, Thumb, it), r)
    ensures var o, k, it' := StepAt(s, off, c, it), R.KindAt(s.win, off), NextIt(s.win[off], R.Second(s.win, off), it);
            if TransfersAt(s, off, c, it) then Left(s, o, r) || Called(s, o, r, off + Width(k), start + R.CodeSize(k))
            else FellThrough(s, o, r, off + Width(k), start + R.CodeSize(k)) && o.it == it'
  {
    hide Laid, Step, Agree, Reaches, Quiet, QuietUnder, TransfersUnder, Left, Called, R.Need, Relocatable, OriginalInsn,
      PositionIndependent, MayStand, Advance, OriginalStep, UnderStep, Classify;
    LaidFacts(s, off, start, end);
    if it == 0 {
      r := SimulateOne(s, off, start, end, c, c');
      StepsTo(s, off, c);
    } else {
      r := SimulateUnder(s, off, start, end, c, c', it);
    }
  }

  /** Only an `it` leaves a block open. */
  lemma StepsTo(s: Setting, off: nat, c: Core)
    requires s.Valid() && off < |s.win| && off + R.WidthAt(s.win, off) <= |s.win|
    ensures OriginalStep(s, off, c).Run? ==> OriginalStep(s, off, c).it == NextIt(s.win[off], R.Second(s.win, off), 0)
  {
    hide Setting.Valid, OriginalInsn, PlainEffect, ConditionHolds, Classify, OriginalStep;
    OriginalRuns(s, off, c);
    ItIsCopied(s.win[off], R.Second(s.win, off));
  }

  lemma ItIsCopied(h0: Half, h1: Half)
    ensures OriginalInsn(h0, h1).It? ==> Classify(h0, h1) == KCopy16
  {
    hide Signed, BranchOffset20, BranchOffset24, WideAdrOffset;
    if !Is32Bit(h0) && Decode16(h0).It? {
      BlockOpcode(h0, h1);
    }
  }

  lemma BlockOpcode(h0: Half, h1: Half)
    requires h0 / 0x100 == 0xbf
    ensures Classify(h0, h1) == KCopy16
  {
    var low := h0 % 0x100;
    assert h0 == 0xbf00 + low;
  }

  /** Dynamic condition on the run of the displaced instructions from `off` on. */
  ghost predicate QuietRun(s: Setting, off: nat, c: Core, it: nat := 0)
    requires s.Valid()
    decreases |s.win| - off
  {
    off < |s.win| ==>
      QuietAt(s, off, c, it) &&
      var o := StepAt(s, off, c, it);
      (!TransfersAt(s, off, c, it) && o.Run? ==> QuietRun(s, off + R.WidthAt(s.win, off), o.core, o.it))
  }

  /** The state in which the original run, straight down the window from `off`, first
      transfers control or reaches the end of the window; and the boundary after the last
      instruction it executed. */
  ghost function OriginalExit(s: Setting, off: nat, c: Core, it: nat := 0): (State, nat)
    requires s.Valid() && off <= |s.win|
    requires R.Splits(s.win, off, |s.win|)
    decreases |s.win| - off
  {
    hide Step, StepAt, TransfersAt, R.IsWindow, R.Trampoline, R.Total, Holds, Hides, InSpace, R.AnyRefused, Classify;
    if off == |s.win| then (Run(c, s.area + 2 * off, Thumb, it), off)
    else
      var o := StepAt(s, off, c, it);
      var next := off + R.WidthAt(s.win, off);
      if TransfersAt(s, off, c, it) || !o.Run? then (o, next) else OriginalExit(s, next, o.core, o.it)
  }

  /** The relocated prologue reaches the state that the original reaches: the same
      address, instruction set, registers, flags and visible memory, or the same called
      routine with LR pointing to the corresponding boundary.  `ReturnResumes` goes on from
      there. */
  lemma {:induction false} RelocatedRun(s: Setting, off: nat, start: nat, end: nat, c: Core, c': Core, it: nat)
    returns (r: State, start': nat, end': nat)
    requires Laid(s, off, start, end)
    requires AllRelocatable(s.area, s.win, off, it) && QuietRun(s, off, c, it) && Agree(c, c', s)
    ensures R.Splits(s.win, off, |s.win|) && off <= |s.win|
    ensures Reaches(s.Hooked(), Run(c', s.buf + 2 * start, Thumb, it), r)
    ensures var (o, off') := OriginalExit(s, off, c, it);
            Laid(s, off', start', end') && (Left(s, o, r) || Called(s, o, r, off', start'))
    decreases |s.win| - off
  {
    hide Step, Agree, Reaches, QuietAt, Left, Called, R.Need, Exec, Classify, TransfersAt, StepAt, Relocatable,
      FitsBlock,
      NextIt, Laid, Setting.Valid, InSpace, CodeAddress, Interwork;
    LaidFacts(s, off, start, end);
    if off == |s.win| {
      r := ClosingJump(s, off, start, end, c, c');
      start', end' := start, end;
    } else {
      var k := R.KindAt(s.win, off);
      var r1 := SimulateAt(s, off, start, end, c, c', it);
      LaidNext(s, off, start, end);
      var o := StepAt(s, off, c, it);
      if TransfersAt(s, off, c, it) {
        r, start', end' := r1, start + R.CodeSize(k), end - R.PoolSize(k);
      } else {
        r, start', end' :=
          RelocatedRun(s, off + Width(k), start + R.CodeSize(k), end - R.PoolSize(k), o.core, r1.core, o.it);
        ReachesTrans(s.Hooked(), Run(c', s.buf + 2 * start, Thumb, it), r1, r);
      }
    }
  }

  /** Code and pool leave exactly the six halfwords of the closing jump, word-aligned. */
  lemma LaidClosing(s: Setting, off: nat, start: nat, end: nat)
    requires Laid(s, off, start, end) && off == |s.win|
    ensures start + 6 == end && (s.buf + 2 * start) % 4 == 0
    ensures Holds(s.rom', s.buf + 2 * start, R.LongJump(Plus(s.area, 2 * |s.win| + 1)))
  {
    hide Holds, InRom, R.Trampoline, R.LongJump, Plus;
    var jump := R.LongJump(Plus(s.area, 2 * |s.win| + 1));
    assert R.Emit(s.area, s.win, off, start, end).code + jump == jump;
    var b, k := s.buf / 4, start / 2;
    assert s.buf == 4 * b && start == 2 * k;
    FourTimes(s.buf + 2 * start, b + k);
  }

  lemma ClosingJump(s: Setting, off: nat, start: nat, end: nat, c: Core, c': Core) returns (r: State)
    requires Laid(s, off, start, end) && off == |s.win| && Agree(c, c', s)
    ensures Reaches(s.Hooked(), Run(c', s.buf + 2 * start, Thumb), r)
    ensures Left(s, Run(c, s.area + 2 * off, Thumb), r)
  {
    hide Step, Agree, Reaches, Holds, InRom, R.Trampoline, R.LongJump, R.Need, R.Splits, Plus, Laid, Setting.Valid;
    LaidFacts(s, off, start, end);
    PlainAddress(s.area, |s.win|, off);
    LaidClosing(s, off, start, end);
    LaidFacts(s, off, start, end);
    hide InSpace, Interwork, CodeAddress;
    var dest := Plus(s.area, 2 * |s.win| + 1);
    ThumbState(c', s.area + 2 * off);
    DoLongJump(s.Hooked(), c', s.buf + 2 * start, dest);
    r := Interwork(c', dest);
  }

  lemma EntryState(core: Core, buf: int, pad: nat)
    requires 0 <= buf && buf % 4 == 0 && buf + 2 * pad + 1 < 0x1_0000_0000
    ensures Interwork(core, buf + 2 * pad + 1) == Run(core, buf + 2 * pad, Thumb)
  {
    var b := buf / 4;
    assert buf == 4 * b;
    TwiceIsEven(buf + 2 * pad, 2 * b + pad);
    ThumbState(core, buf + 2 * pad);
  }

  /** The relocation theorem.  Calling the trampoline in the hooked process does what
      the displaced prologue did in the original one. */
  lemma RelocationPreservesMeaning(s: Setting, c: Core, c': Core) returns (r: State, start: nat, end: nat)
    requires s.Valid()
    requires AllRelocatable(s.area, s.win, 0) && QuietRun(s, 0, c) && Agree(c, c', s)
    ensures Reaches(s.Hooked(), Interwork(c', s.buf + 2 * R.Pad(s.win) + 1), r)
    ensures var (o, off) := OriginalExit(s, 0, c);
            Laid(s, off, start, end) && (Left(s, o, r) || Called(s, o, r, off, start))
  {
    hide Step, Agree, Reaches, R.Need, Laid, Left, Called, OriginalExit, AllRelocatable, QuietRun, Holds, InRom,
      R.Trampoline, R.AnyRefused;
    LaidFirst(s);
    r, start, end := RelocatedRun(s, 0, R.Pad(s.win), R.Total(s.win), c, c', 0);
    EntryState(c', s.buf, R.Pad(s.win));
  }

  /** The setting in which LR is no longer compared. */
  ghost function AfterCall(s: Setting): Setting { s.(link := false) }

  lemma LaidAfterCall(s: Setting, off: nat, start: nat, end: nat)
    ensures Laid(s, off, start, end) ==> Laid(AfterCall(s), off, start, end)
  {
    hide R.Emit, R.Trampoline, R.Fits, Holds, Hides, R.AnyRefused, R.IsWindow, R.LongJump;
  }

  /** The exit is a state of the original run. */
  lemma {:induction false} ExitReached(s: Setting, off: nat, start: nat, end: nat, c: Core, it: nat)
    requires Laid(s, off, start, end)
    requires AllRelocatable(s.area, s.win, off, it) && QuietRun(s, off, c, it)
    ensures s.Valid() && off <= |s.win| && R.Splits(s.win, off, |s.win|) && s.area + 2 * off < 0x1_0000_0000 &&
            0 <= s.area
    ensures Reaches(s.Orig(), Run(c, s.area + 2 * off, Thumb, it), OriginalExit(s, off, c, it).0)
    decreases |s.win| - off
  {
    hide Laid, Step, Agree, Reaches, QuietAt, Left, Called, R.Need, Exec, Classify, TransfersAt, Relocatable, FitsBlock,
      NextIt, Setting.Valid, CodeAddress, InSpace;
    LaidFacts(s, off, start, end);
    var here := Run(c, s.area + 2 * off, Thumb, it);
    if off == |s.win| {
      ReachesNow(s.Orig(), here);
    } else {
      var o := StepAt(s, off, c, it);
      ReachesStep(s.Orig(), here, o);
      if !TransfersAt(s, off, c, it) {
        var k := R.KindAt(s.win, off);
        AgreesWithItself(s, c);
        var _ := SimulateAt(s, off, start, end, c, c, it);
        LaidNext(s, off, start, end);
        ExitReached(s, off + Width(k), start + R.CodeSize(k), end - R.PoolSize(k), o.core, o.it);
        ReachesTrans(s.Orig(), here, o, OriginalExit(s, off, c, it).0);
      }
    }
  }

  lemma ReachesNow(env: Env, t: State)
    ensures Reaches(env, t, t)
  {
    assert Steps(env, 0, t) == t;
  }

  lemma AgreesWithItself(s: Setting, c: Core)
    ensures Agree(c, c, s)
  {
  }

  /** After a call in the middle of the window: when the routine returns in both processes to
      where LR pointed, with cores that agree but for LR, the relocated code again reaches
      what the original reaches.  The result is of the same kind, so that this goes on for any
      number of calls. */
  lemma ReturnResumes(s: Setting, off: nat, start: nat, end: nat, o: State, r: State, c: Core, c': Core)
    returns (r': State, start': nat, end': nat)
    requires Laid(s, off, start, end) && Called(s, o, r, off, start)
    requires Reaches(s.Orig(), o, Run(c, s.area + 2 * off, Thumb)) &&
             Reaches(s.Hooked(), r, Run(c', s.buf + 2 * start, Thumb))
    requires AgreeButLr(c, c', s)
    requires AllRelocatable(s.area, s.win, off) && QuietRun(AfterCall(s), off, c)
    ensures off <= |s.win| && R.Splits(s.win, off, |s.win|)
    ensures Reaches(s.Hooked(), r, r')
    ensures var (x, off') := OriginalExit(AfterCall(s), off, c);
            Reaches(s.Orig(), o, x) && Laid(AfterCall(s), off', start', end') &&
            (Left(AfterCall(s), x, r') || Called(AfterCall(s), x, r', off', start'))
  {
    hide Laid, Step, Agree, Reaches, R.Need, Called, Left, AllRelocatable, QuietRun, OriginalExit, Setting.Valid,
      R.Splits, CodeAddress, InSpace;
    LaidFacts(s, off, start, end);
    LaidAfterCall(s, off, start, end);
    LaidFacts(AfterCall(s), off, start, end);
    r', start', end' := RelocatedRun(AfterCall(s), off, start, end, c, c', 0);
    ReachesTrans(s.Hooked(), r, Run(c', s.buf + 2 * start, Thumb), r');
    ExitReached(AfterCall(s), off, start, end, c, 0);
    ReachesTrans(s.Orig(), o, Run(c, s.area + 2 * off, Thumb), OriginalExit(AfterCall(s), off, c).0);
  }
}
