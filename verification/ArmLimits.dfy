/**
  What the ARM relocator does to the words for which ArmMeaning asks more than that the
  run is quiet, each with the exact condition under which the relocated form is right.
 */
module ArmLimits {
  import opened Words
  import opened ThumbMachine
  import opened ArmRelocate
  import opened ArmMedia
  import opened A = ArmMachine
  import opened ArmMeaning
  import S = ThumbSteps

  /** A word without guard whose register is the program counter: its scratch load already
      jumps to the literal, whatever the word is and whether or not its condition holds.  So
      it is right exactly when the word loads, and loads the address of the literal itself. */
  lemma TransferOfPcRightIff(s: Setting, k: nat, c: Core, c': Core) returns (r: State)
    requires s.Valid() && k < 2 && IsPcRel(s.win[k]) && !Guarded(s.win[k]) && Rd(s.win[k]) == PC
    requires Agree(c, c', s)
    ensures A.Reaches(s.Hooked(), Run(c', s.buf + 4 * Start(s.win, k), Arm), r)
    ensures r == Run(c', LiteralOf(s, k), Arm)
    ensures var ic := s.win[k];
            Left(s, OriginalStep(s, k, c), r) <==>
            LoadsPc(ic, c) && LoadWord(s.rom, c.mem, AddressOf(ic, c, LiteralOf(s, k))) == LiteralOf(s, k)
    ensures FellThrough(s, OriginalStep(s, k, c), r, k + 1) ==> LiteralOf(s, k) == s.buf + 4 * Start(s.win, k + 1)
  {
    hide HoldsWord, HoldsWords, Trampoline, InRom, A.Reaches, A.Step, LoadWord, AddressOf, ReadRam, LoadsPc,
      ConditionHolds, LdrPc, WithBase, Cond, End, Start, A.Exec, IsRegister, Hi, Transfer, OriginalStep, IsPcRel;
    Addresses(s, k);
    JumpsToLiteral(s, k, c');
    r := Run(c', LiteralOf(s, k), Arm);
    A.ReachesStep(s.Hooked(), Run(c', s.buf + 4 * Start(s.win, k), Arm), r);
    OriginalOfPc(s, k, c);
    NotNext(s.area, k);
    if LoadsPc(s.win[k], c) {
      S.ArmState(c, LiteralOf(s, k));
      var v := LoadWord(s.rom, c.mem, AddressOf(s.win[k], c, LiteralOf(s, k)));
      if v != LiteralOf(s, k) {
        OnlyFrom(c, v, LiteralOf(s, k));
      }
    }
  }

  /** The word is executed and loads the program counter. */
  ghost predicate LoadsPc(ic: Word, c: Core) {
    IsTransfer(ic) && ConditionHolds(Cond(ic), c.flags) && IsOffsetForm(ic) && IsLoad(ic) && !IsByte(ic)
  }

  /** The scratch load of such a word is already its end. */
  lemma JumpsToLiteral(s: Setting, k: nat, c': Core)
    requires s.Valid() && k < 2 && IsPcRel(s.win[k]) && !Guarded(s.win[k]) && Rd(s.win[k]) == PC
    ensures 0 <= s.buf && s.buf + 4 * Start(s.win, k) < 0x1_0000_0000 && LiteralOf(s, k) % 4 == 0
    ensures A.Step(s.Hooked(), Run(c', s.buf + 4 * Start(s.win, k), Arm)) == Run(c', LiteralOf(s, k), Arm)
  {
    hide HoldsWord, HoldsWords, Trampoline, InRom, A.Step, LdrPc, WithBase, Cond, End, IsRegister, Hi;
    var lit, start, end := LiteralOf(s, k), Start(s.win, k), End(s.win, k);
    var pc := s.buf + 4 * start;
    Addresses(s, k);
    var p := PieceOf(s.area, s.win, k);
    PiecesSit(s);
    GadgetIs(s, k);
    StartNext(s.win, k);
    WordAt(s.rom', pc, p.code, 0);
    WordAt(s.rom', s.buf + 4 * (end - 1), p.pool, 0);
    FourTimes(s.buf + 4 * (end - 1), s.buf / 4 + end - 1);
    DoLdrPc(s.Hooked(), c', pc, PC, (end - 1 - start) * 4 - 8, lit);
    WrapWord(s.area / 4 + k + 2);
    S.ArmState(c', lit);
  }

  /** In its place the word loads the program counter, or stores it, or does nothing, or is
      UNPREDICTABLE. */
  lemma OriginalOfPc(s: Setting, k: nat, c: Core)
    requires s.Valid() && k < 2 && IsPcRel(s.win[k]) && !Guarded(s.win[k]) && Rd(s.win[k]) == PC
    ensures var o, ic := OriginalStep(s, k, c), s.win[k];
            if LoadsPc(ic, c) then o == Interwork(c, LoadWord(s.rom, c.mem, AddressOf(ic, c, LiteralOf(s, k))))
            else o.Stuck? || (o.Run? && o.pc == s.area + 4 * k + 4)
  {
    hide HoldsWord, HoldsWords, Trampoline, InRom, LoadWord, AddressOf, IsTransfer, IsOffsetForm, IsLoad, IsByte,
      ConditionHolds, Cond, A.Exec, IsRegister, Hi, Lo, A.Step, IsMedia, MediaOf, IsPcSum, IsBranch, IsStack;
    var ic, at := s.win[k], s.area + 4 * k;
    Addresses(s, k);
    NextWord(at);
    WordAt(s.rom, s.area, s.win, k);
    A.StepAt(s.Orig(), c, at, ic);
    TransferOrMedia(ic);
    if IsTransfer(ic) {
      ExecTransfer(s.Orig(), ic, c, at);
    } else {
      MediaIsOther(ic);
      ExecUnpredictable(s.Orig(), ic, c, at);
    }
  }

  lemma TransferOrMedia(ic: Word)
    requires IsPcRel(ic)
    ensures IsTransfer(ic) || IsMedia(ic)
  {
    hide Rn, Rd, Rm, Cond;
    HiParts(Hi(ic));
  }

  lemma ExecUnpredictable(env: ArmEnv, ic: Word, core: Core, pc: Word)
    requires IsMedia(ic) && Rn(ic) == PC && Rd(ic) == PC
    ensures A.Exec(env, ic, core, pc) == if ConditionHolds(Cond(ic), core.flags) then Stuck
                else Run(core, Plus(pc, 4), Arm)
  {
    hide IsTransfer, IsMedia, MediaOf, IsPcSum, IsBranch, IsStack, ConditionHolds, Cond;
    MediaIsOther(ic);
  }

  lemma NotNext(area: int, k: nat)
    requires CodeAddress(area) && k < 2
    ensures Plus(area, 4 * k + 8) != area + 4 * k + 4
  {
  }

  lemma OnlyFrom(core: Core, v: Word, dest: Word)
    requires v != dest
    ensures Interwork(core, v) != Run(core, dest, Arm)
  {
  }

  /** A branch, to an immediate of either instruction set, is copied as it stands: it is right
      exactly when it is not taken, or the copy lies where the original did. */
  lemma CopiedBranchRightIff(s: Setting, k: nat, c: Core, c': Core)
    requires s.Valid() && k < 2 && IsBranch(s.win[k])
    requires Agree(c, c', s)
    ensures var o, r := OriginalStep(s, k, c), A.Step(s.Hooked(), Run(c', s.buf + 4 * Start(s.win, k), Arm));
            if ConditionHolds(Cond(s.win[k]), c.flags)
            then Left(s, o, r) || Called(s, o, r, k + 1) <==> s.area + 4 * k == s.buf + 4 * Start(s.win, k)
            else FellThrough(s, o, r, k + 1)
  {
    hide HoldsWord, HoldsWords, Trampoline, InRom, A.Step, Start, ReadRam, IsTransfer, ConditionHolds, Cond, Hi,
      IsPcRel, End, BranchTarget, IsStack, UsesPc, IsPcSum, PcSum, WordEffect, Unpredictable, Transfer;
    var ic := s.win[k];
    BranchIsCopied(ic);
    CopySits(s, k);
    Addresses(s, k);
    Addresses(s, k + 1);
    WordAt(s.rom, s.area, s.win, k);
    var at, pc := s.area + 4 * k, s.buf + 4 * Start(s.win, k);
    BranchIsNoStack(ic);
    A.StepAt(s.Orig(), c, at, ic);
    A.StepAt(s.Hooked(), c', pc, ic);
    TargetMoves(ic, at, pc);
    NextWord(at);
    NextWord(pc);
    LinkAgrees(s, c, c', at + 4, pc + 4);
  }

  lemma BranchIsCopied(ic: Word)
    requires IsBranch(ic)
    ensures !IsPcRel(ic) && !IsTransfer(ic)
  {
  }

  lemma TargetMoves(ic: Word, at: Word, pc: Word)
    ensures BranchTarget(ic, at) == BranchTarget(ic, pc) <==> at == pc
    ensures forall n :: Plus(BranchTarget(ic, at), n) == Plus(BranchTarget(ic, pc), n) <==> at == pc
  {
    var d := 8 + Signed(4 * (ic % 0x100_0000), 0x400_0000);
    PlusMoves(at, pc, d);
    forall n ensures Plus(BranchTarget(ic, at), n) == Plus(BranchTarget(ic, pc), n) <==> at == pc {
      PlusMoves(BranchTarget(ic, at), BranchTarget(ic, pc), n);
    }
  }

  lemma PlusMoves(x: Word, y: Word, d: int)
    ensures Plus(x, d) == Plus(y, d) <==> x == y
  {
    assert x + d == 0x1_0000_0000 * ((x + d) / 0x1_0000_0000) + Plus(x, d);
    assert y + d == 0x1_0000_0000 * ((y + d) / 0x1_0000_0000) + Plus(y, d);
  }

  /** A copied word that adds the program counter to something (`adr`, `mov rd, pc`, `add`
      with the program counter) is right exactly when it is not executed, or the copy lies
      where the original did. */
  lemma CopiedPcSumRightIff(s: Setting, k: nat, c: Core, c': Core)
    requires s.Valid() && k < 2 && IsPcSum(s.win[k])
    requires Agree(c, c', s) && s.link
    ensures FellThrough(s, OriginalStep(s, k, c), A.Step(s.Hooked(), Run(c', s.buf + 4 * Start(s.win, k), Arm)), k + 1)
            <==> !ConditionHolds(Cond(s.win[k]), c.flags) || s.area + 4 * k == s.buf + 4 * Start(s.win, k)
  {
    hide HoldsWord, HoldsWords, Trampoline, InRom, A.Step, Start, ReadRam, ConditionHolds, IsPcRel, End, IsPcSum,
      PcOffset,
      Plus;
    var ic := s.win[k];
    PcSumIsOther(ic);
    PcSumRegister(ic);
    CopySits(s, k);
    Addresses(s, k);
    Addresses(s, k + 1);
    WordAt(s.rom, s.area, s.win, k);
    var at, pc := s.area + 4 * k, s.buf + 4 * Start(s.win, k);
    DoPcSum(s.Orig(), c, at, ic);
    DoPcSum(s.Hooked(), c', pc, ic);
    SameOffset(s, ic, c, c');
    SumMoves(at, pc, PcOffset(ic, c));
    RegistersAgreeIff(s, c, c', Rd(ic), Plus(Plus(at, 8), PcOffset(ic, c)), Plus(Plus(pc, 8), PcOffset(ic, c)));
  }

  lemma SameOffset(s: Setting, ic: Word, c: Core, c': Core)
    requires Agree(c, c', s) && s.link
    ensures PcOffset(ic, c) == PcOffset(ic, c')
  {
    hide ReadRam, Immediate, Hi, Rn, Rm;
  }

  lemma RegistersAgreeIff(s: Setting, c: Core, c': Core, r: int, v: Word, v': Word)
    requires Agree(c, c', s) && s.link && 0 <= r < 15
    ensures Agree(SetReg(c, r, v), SetReg(c', r, v'), s) <==> v == v'
  {
    hide ReadRam;
    assert SetReg(c, r, v).regs[r] == v && SetReg(c', r, v').regs[r] == v';
  }

  lemma SumMoves(at: Word, pc: Word, d: int)
    ensures Plus(Plus(at, 8), d) == Plus(Plus(pc, 8), d) <==> at == pc
  {
    hide Plus;
    PlusMoves(Plus(at, 8), Plus(pc, 8), d);
    PlusMoves(at, pc, 8);
  }

  /** A copied store of the program counter. */
  predicate StoresPc(ic: Word) {
    IsTransfer(ic) && IsOffsetForm(ic) && !IsLoad(ic) && !IsByte(ic) && Rd(ic) == PC && 0 <= Rn(ic) < 15 &&
    (IsRegister(ic) ==> 0 <= Rm(ic) < 15)
  }

  /** `str pc, [rn, ...]` stores its own address plus eight where the data can be seen: the
      copy is right exactly when it is not executed, or lies where the original did. */
  lemma CopiedStoreOfPcRightIff(s: Setting, k: nat, c: Core, c': Core)
    requires s.Valid() && k < 2 && StoresPc(s.win[k])
    requires Agree(c, c', s) && s.link
    requires ConditionHolds(Cond(s.win[k]), c.flags)
             ==> DataVisible(s, s.win[k], AddressOf(s.win[k], c, c.regs[Rn(s.win[k])]))
    ensures FellThrough(s, OriginalStep(s, k, c), A.Step(s.Hooked(), Run(c', s.buf + 4 * Start(s.win, k), Arm)), k + 1)
            <==> !ConditionHolds(Cond(s.win[k]), c.flags) || s.area + 4 * k == s.buf + 4 * Start(s.win, k)
  {
    hide HoldsWord, HoldsWords, Trampoline, InRom, A.Step, Start, ReadRam, ConditionHolds, End, IsTransfer, Cond,
      IsLoad, IsByte, IsOffsetForm, IsRegister, Plus, AddressOf, DataVisible, StoreWord, A.Exec, Agree;
    var ic := s.win[k];
    StoreIsCopied(ic);
    CopySits(s, k);
    Addresses(s, k);
    Addresses(s, k + 1);
    WordAt(s.rom, s.area, s.win, k);
    var at, pc := s.area + 4 * k, s.buf + 4 * Start(s.win, k);
    NextWord(at);
    NextWord(pc);
    StoreStep(s.Orig(), c, at, ic);
    StoreStep(s.Hooked(), c', pc, ic);
    SameBase(s, ic, c, c');
    PlusMoves(at, pc, 8);
    if ConditionHolds(Cond(ic), c.flags) {
      StoresAgreeIff(s, ic, c, c', AddressOf(ic, c, c.regs[Rn(ic)]), Plus(at, 8), Plus(pc, 8));
    }
  }

  lemma StoreIsCopied(ic: Word)
    requires StoresPc(ic)
    ensures !IsPcRel(ic)
  {
  }

  lemma StoreStep(env: ArmEnv, core: Core, pc: Word, ic: Word)
    requires StoresPc(ic) && HoldsWord(env.rom, pc, ic)
    ensures A.Step(env, Run(core, pc, Arm))
            == if ConditionHolds(Cond(ic), core.flags)
               then Run(core.(mem := StoreWord(core.mem, AddressOf(ic, core, core.regs[Rn(ic)]), Plus(pc, 8))),
                        Plus(pc, 4), Arm)
               else Run(core, Plus(pc, 4), Arm)
  {
    hide HoldsWord, A.Step, ConditionHolds, IsTransfer, Cond, IsLoad, IsByte, IsOffsetForm, IsRegister, Plus, AddressOf,
      StoreWord, A.Exec;
    ExecTransfer(env, ic, core, pc);
    A.StepAt(env, core, pc, ic);
  }

  lemma SameBase(s: Setting, ic: Word, c: Core, c': Core)
    requires Agree(c, c', s) && s.link && StoresPc(ic)
    ensures AddressOf(ic, c, c.regs[Rn(ic)]) == AddressOf(ic, c', c'.regs[Rn(ic)]) && c.flags == c'.flags
  {
    hide ReadRam, Shifted, Plus;
  }

  lemma StoresAgreeIff(s: Setting, ic: Word, c: Core, c': Core, a: Word, v: Word, v': Word)
    requires s.Valid() && Agree(c, c', s) && DataVisible(s, ic, a) && !IsByte(ic)
    ensures Agree(c.(mem := StoreWord(c.mem, a, v)), c'.(mem := StoreWord(c'.mem, a, v')), s) <==> v == v'
  {
    hide Setting.Valid, ReadRam, StoreWord, LoadWord, InRom, InWord;
    var d, d' := c.(mem := StoreWord(c.mem, a, v)), c'.(mem := StoreWord(c'.mem, a, v'));
    VisibleFree(s, ic, a);
    S.LoadsStoredWord(s.rom, c.mem, a, v);
    S.LoadsStoredWord(s.rom', c'.mem, a, v');
    if v == v' {
      forall b | b !in s.hidden ensures ReadRam(d.mem, b) == ReadRam(d'.mem, b) {
        SameStore(ic, c.mem, c'.mem, a, v, b);
      }
    } else if Agree(d, d', s) {
      SameValue(s, ic, d, d', a);
      assert false;
    }
  }

  lemma VisibleFree(s: Setting, ic: Word, a: Word)
    requires s.Valid() && DataVisible(s, ic, a) && !IsByte(ic)
    ensures forall b :: InWord(a, b) ==> !InRom(s.rom, b) && !InRom(s.rom', b)
  {
    hide HoldsWords, Trampoline, InRom;
    forall b | InWord(a, b) ensures !InRom(s.rom, b) && !InRom(s.rom', b) {
      VisibleIsNotCode(s.hidden, s.rom, b);
      VisibleIsNotCode(s.hidden, s.rom', b);
    }
  }

  /** A relocated extension or reversal (`uxtb`, `sxth`, `rev`, ...) is right exactly when it
      is not executed, and its register is guarded or held the address of its literal. */
  lemma ExtensionRightIff(s: Setting, k: nat, c: Core, c': Core) returns (r: State)
    requires s.Valid() && k < 2 && IsPcRel(s.win[k]) && IsExecuted(s.win[k])
    requires IsExtend(MediaOf(s.win[k])) || IsReverse(MediaOf(s.win[k]))
    requires Agree(c, c', s) && MediaUndisturbed(s, k, c)
    ensures A.Reaches(s.Hooked(), Run(c', s.buf + 4 * Start(s.win, k), Arm), r)
    ensures FellThrough(s, OriginalStep(s, k, c), r, k + 1) <==>
            !ConditionHolds(Cond(s.win[k]), c.flags) && (Guarded(s.win[k]) || c.regs[Rd(s.win[k])] == LiteralOf(s, k))
  {
    hide HoldsWords, Trampoline, InRom, A.Step, A.Reaches, Start, ReadRam, ConditionHolds, IsPcRel, MediaOf, IsMedia,
      FieldHarmless,
      WithBase, OriginalStep, GuardFree, FellThrough;
    var ic, lit := s.win[k], LiteralOf(s, k);
    var rd := c.regs[Rd(ic)];
    r := MediaRightIff(s, k, c, c');
    Addresses(s, k);
    LiteralNonzero(s.area, k);
    ExtensionsAreSpoiled(ic, BaseFor(ic), lit, rd, if Guarded(ic) then rd else lit, OperandOf(ic, c), c.flags);
  }

  lemma LiteralNonzero(area: int, k: nat)
    requires CodeAddress(area) && k < 2
    ensures Plus(area, 4 * k + 8) != 0
  {
  }

  /** What the word extracts from `v` can be extracted as well with the width `rn` in place of
      its own. */
  predicate FieldFits(ic: Word, rn: int, v: Word)
    requires MediaOf(ic).Extract? && 0 <= rn < 15
  {
    var signed, m := MediaOf(ic).signed, 16 * (Hi(ic) % 2) + rn;
    Pow2Positive(Lsb(ic));
    Pow2Positive(Top(ic) + 1);
    Fits(signed, Low(signed, v / Pow2(Lsb(ic)), Pow2(Top(ic) + 1)), if signed then m else m + 1)
  }

  /** A relocated bit-field extraction whose condition holds is right exactly when its value
      fits the field that the rewritten word extracts. */
  lemma ExtractRightIff(s: Setting, k: nat, c: Core, c': Core) returns (r: State)
    requires s.Valid() && k < 2 && IsPcRel(s.win[k]) && IsExecuted(s.win[k]) && MediaOf(s.win[k]).Extract?
    requires Agree(c, c', s) && MediaUndisturbed(s, k, c) && ConditionHolds(Cond(s.win[k]), c.flags)
    ensures A.Reaches(s.Hooked(), Run(c', s.buf + 4 * Start(s.win, k), Arm), r)
    ensures FellThrough(s, OriginalStep(s, k, c), r, k + 1) <==>
            FieldFits(s.win[k], BaseFor(s.win[k]), OperandOf(s.win[k], c))
  {
    hide HoldsWords, Trampoline, InRom, A.Step, A.Reaches, Start, ReadRam, ConditionHolds, MediaOf, IsMedia,
      FieldHarmless,
      WithBase, OriginalStep, GuardFree, FellThrough, Low, Fits, Pow2, LiteralOf;
    var ic, lit := s.win[k], LiteralOf(s, k);
    var rd := c.regs[Rd(ic)];
    r := MediaRightIff(s, k, c, c');
    ExtractionRightIff(ic, BaseFor(ic), lit, rd, if Guarded(ic) then rd else lit, OperandOf(ic, c), c.flags);
  }

  /** A relocated saturation whose condition holds is right exactly when its operand is within
      the bound of the rewritten word. */
  lemma SaturateRightIff(s: Setting, k: nat, c: Core, c': Core) returns (r: State)
    requires s.Valid() && k < 2 && IsPcRel(s.win[k]) && IsExecuted(s.win[k]) && MediaOf(s.win[k]).Saturate?
    requires Agree(c, c', s) && MediaUndisturbed(s, k, c) && ConditionHolds(Cond(s.win[k]), c.flags)
    ensures A.Reaches(s.Hooked(), Run(c', s.buf + 4 * Start(s.win, k), Arm), r)
    ensures var ic := s.win[k];
            var x := Signed(Shifted(ic, OperandOf(ic, c), c.flags.c), 0x1_0000_0000);
            FellThrough(s, OriginalStep(s, k, c), r, k + 1) <==>
            Fits(MediaOf(ic).signed, x, 16 * (Hi(ic) % 2) + BaseFor(ic))
  {
    hide HoldsWords, Trampoline, InRom, A.Step, A.Reaches, Start, ReadRam, ConditionHolds, MediaOf, IsMedia,
      FieldHarmless,
      WithBase, OriginalStep, GuardFree, FellThrough, Shifted, Fits, Pow2, LiteralOf, Signed;
    var ic, lit := s.win[k], LiteralOf(s, k);
    var rd := c.regs[Rd(ic)];
    r := MediaRightIff(s, k, c, c');
    SaturationRightIff(ic, BaseFor(ic), lit, rd, if Guarded(ic) then rd else lit, OperandOf(ic, c), c.flags);
  }
}
