/**
  The machine of ThumbMachine in ARM state: loads and stores of words and bytes, branches,
  sums with the program counter, the media words of ArmMedia, and the two stack transfers
  of the relocator are executed as chapters A5 and A8 of the ARM Architecture Reference
  Manual (ARMv7-A and ARMv7-R edition) describe them; every other word is given its
  meaning by a parameter that never sees the program counter.
 */
module ArmMachine {
  import opened Words
  import opened ThumbMachine
  import opened ArmRelocate
  import opened ArmMedia
  import S = ThumbSteps
  import R = ThumbRelocate

  datatype ArmEnv = ArmEnv(rom: Rom, plain: (Word, Core) -> Effect)

  // ---------------------------------------------------------------- decoding

  predicate IsLoad(ic: Word) { Hi(ic) % 2 == 1 }

  predicate IsByte(ic: Word) { Hi(ic) / 4 % 2 == 1 }

  predicate IsUp(ic: Word) { Hi(ic) / 8 % 2 == 1 }

  /** P = 1 and W = 0: no writeback. */
  predicate IsOffsetForm(ic: Word) { Hi(ic) / 16 % 2 == 1 && Hi(ic) / 2 % 2 == 0 }

  /** Load or store word or byte, immediate or shifted-register offset.  With bit 25 and
      bit 4 set the word is a media instruction instead. */
  predicate IsTransfer(ic: Word) {
    Hi(ic) / 0x40 % 4 == 1 && Cond(ic) != 15 && !(IsRegister(ic) && Lo(ic) / 16 % 2 == 1)
  }

  ghost function OffsetOf(ic: Word, core: Core): int
    requires IsRegister(ic) ==> 0 <= Rm(ic) < 15
  {
    if IsRegister(ic) then Shifted(ic, core.regs[Rm(ic)], core.flags.c) else Lo(ic) % 0x1000
  }

  ghost function AddressOf(ic: Word, core: Core, base: Word): Word
    requires IsRegister(ic) ==> 0 <= Rm(ic) < 15
  {
    if IsUp(ic) then Plus(base, OffsetOf(ic, core)) else Plus(base, -OffsetOf(ic, core))
  }

  // ---------------------------------------------------------------- execution

  /** The value that a load puts into its register. */
  ghost function ValueAt(env: ArmEnv, ic: Word, core: Core, a: Word): Word {
    if IsByte(ic) then LoadByte(env.rom, core.mem, a) else LoadWord(env.rom, core.mem, a)
  }

  /** The memory after a store. */
  ghost function Stored(ic: Word, m: Memory, a: Word, v: Word): Memory {
    if IsByte(ic) then m[a := ByteAt(v, 0)] else StoreWord(m, a, v)
  }

  /** A transfer between memory at `a` and a register other than the program counter. */
  ghost function Moved(env: ArmEnv, ic: Word, core: Core, a: Word): Core
    requires Rd(ic) != PC
  {
    if IsLoad(ic) then SetReg(core, Rd(ic), ValueAt(env, ic, core, a))
    else core.(mem := Stored(ic, core.mem, a, core.regs[Rd(ic)]))
  }

  predicate UsesPc(ic: Word) { Rn(ic) == PC || (!IsLoad(ic) && Rd(ic) == PC) }

  /** A transfer that reads the program counter.  Writeback, an index that is the program
      counter and a byte transfer of it are left out of the model. */
  ghost function Transfer(env: ArmEnv, ic: Word, core: Core, pc: Word): State {
    if !ConditionHolds(Cond(ic), core.flags) then Run(core, Plus(pc, 4), Arm)
    else if !IsOffsetForm(ic) || (IsRegister(ic) && Rm(ic) == PC) then Stuck
    else
      var base: Word := if Rn(ic) == PC then Plus(pc, 8) else core.regs[Rn(ic)];
      var a := AddressOf(ic, core, base);
      if Rd(ic) != PC then Run(Moved(env, ic, core, a), Plus(pc, 4), Arm)
      else if IsByte(ic) then Stuck
      else if !IsLoad(ic) then Run(core.(mem := Stored(ic, core.mem, a, Plus(pc, 8))), Plus(pc, 4), Arm)
      else Interwork(core, LoadWord(env.rom, core.mem, a))
  }

  /** B and BL, and BLX to an immediate, which has all ones for its condition. */
  predicate IsBranch(ic: Word) { Hi(ic) / 0x40 % 4 == 2 && IsRegister(ic) }

  /** 24 bits of word offset, from the address of the branch plus eight. */
  function BranchTarget(ic: Word, pc: int): Word {
    Plus(pc, 8 + Signed(4 * (ic % 0x100_0000), 0x400_0000))
  }

  ghost function Branch(ic: Word, core: Core, pc: Word): State {
    if !ConditionHolds(Cond(ic), core.flags) then Run(core, Plus(pc, 4), Arm)
    else if Cond(ic) == 15 then
      Run(SetReg(core, LR, Plus(pc, 4)), Plus(BranchTarget(ic, pc), 2 * (Hi(ic) / 0x10 % 2)), Thumb)
    else if Hi(ic) / 0x10 % 2 == 1 then Run(SetReg(core, LR, Plus(pc, 4)), BranchTarget(ic, pc), Arm)
    else Run(core, BranchTarget(ic, pc), Arm)
  }

  /** An immediate operand: eight bits rotated right by twice the field. */
  function Immediate(ic: Word): int {
    var imm, rotation := Lo(ic) % 0x100, Lo(ic) / 0x100 % 16 * 2;
    Pow2Positive(rotation);
    Wrap(imm * Pow2(32 - rotation)) + imm / Pow2(rotation)
  }

  /** `adr rd, label`, `mov rd, pc`, and `add` of the program counter and a register. */
  predicate IsPcSum(ic: Word) {
    Cond(ic) != 15 && Rd(ic) != PC &&
    match Hi(ic) % 0x100
    case 0x28 => Rn(ic) == PC
    case 0x24 => Rn(ic) == PC
    case 0x1a => Lo(ic) % 0x1000 == 15
    case 0x08 => Lo(ic) / 16 % 0x100 == 0 && (Rn(ic) == PC) != (Rm(ic) == PC)
    case _ => false
  }

  /** What is added to the program counter. */
  ghost function PcOffset(ic: Word, core: Core): int {
    match Hi(ic) % 0x100
    case 0x28 => Immediate(ic)
    case 0x24 => -Immediate(ic)
    case 0x1a => 0
    case _ =>
      var r := if Rn(ic) == PC then Rm(ic) else Rn(ic);
      if 0 <= r < 15 then core.regs[r] else 0
  }

  ghost function PcSum(ic: Word, core: Core, pc: Word): Core
    requires IsPcSum(ic)
  {
    if ConditionHolds(Cond(ic), core.flags) then SetReg(core, Rd(ic), Plus(Plus(pc, 8), PcOffset(ic, core))) else core
  }

  /** The stack transfers of the relocator. */
  predicate IsStack(ic: Word) { ic == Stmdb(0) || ic == Stmdb(1) || ic == Ldmia(0) || ic == Ldmia(1) }

  ghost function StackCore(env: ArmEnv, ic: Word, core: Core): Core
    requires IsStack(ic)
  {
    if ic == Stmdb(0) then Pushed(core, 0)
    else if ic == Stmdb(1) then Pushed(core, 1)
    else if ic == Ldmia(0) then Popped(env.rom, core, 0)
    else Popped(env.rom, core, 1)
  }

  /** The effect of a word that does not read the program counter. */
  ghost function WordEffect(env: ArmEnv, ic: Word, core: Core): Effect {
    if IsStack(ic) then Fall(StackCore(env, ic, core))
    else if IsTransfer(ic) then
      if !ConditionHolds(Cond(ic), core.flags) then Fall(core)
      else if !IsOffsetForm(ic) || UsesPc(ic) || (IsRegister(ic) && Rm(ic) == PC) || (IsByte(ic) && Rd(ic) == PC)
      then env.plain(ic, core.(mem := View(env.rom, core.mem)))
      else
        var a := AddressOf(ic, core, core.regs[Rn(ic)]);
        if Rd(ic) == PC then Goto(core, LoadWord(env.rom, core.mem, a)) else Fall(Moved(env, ic, core, a))
    else if IsExecuted(ic) then Fall(MediaEffect(ic, core))
    else env.plain(ic, core.(mem := View(env.rom, core.mem)))
  }

  ghost function MediaEffect(ic: Word, core: Core): Core
    requires IsExecuted(ic)
  {
    if ConditionHolds(Cond(ic), core.flags) then MediaCore(ic, core) else core
  }

  ghost function ContinueArm(e: Effect, next: Word): State {
    match e
    case Fall(core) => Run(core, next, Arm)
    case Goto(core, dest) => Interwork(core, dest)
    case Call(core, dest) => Interwork(SetReg(core, LR, next), dest)
  }

  ghost function Exec(env: ArmEnv, ic: Word, core: Core, pc: Word): State {
    if IsStack(ic) then ContinueArm(WordEffect(env, ic, core), Plus(pc, 4))
    else if IsTransfer(ic) && UsesPc(ic) then Transfer(env, ic, core, pc)
    else if IsBranch(ic) then Branch(ic, core, pc)
    else if IsPcSum(ic) then Run(PcSum(ic, core, pc), Plus(pc, 4), Arm)
    else if Unpredictable(ic) && ConditionHolds(Cond(ic), core.flags) then Stuck
    else if Unpredictable(ic) then Run(core, Plus(pc, 4), Arm)
    else ContinueArm(WordEffect(env, ic, core), Plus(pc, 4))
  }

  ghost function Step(env: ArmEnv, s: State): State {
    if s.Stuck? || s.isa != Arm then Stuck
    else if s.pc in env.rom && s.pc + 2 in env.rom then
      Exec(env, WordOf(env.rom[s.pc], env.rom[s.pc + 2]), s.core, s.pc)
    else Stuck
  }

  ghost function Steps(env: ArmEnv, n: nat, s: State): State {
    if n == 0 then s else Steps(env, n - 1, Step(env, s))
  }

  ghost predicate Reaches(env: ArmEnv, s: State, t: State) {
    exists n: nat :: Steps(env, n, s) == t
  }

  lemma {:induction false} StepsAdd(env: ArmEnv, m: nat, n: nat, s: State)
    ensures Steps(env, m + n, s) == Steps(env, n, Steps(env, m, s))
  {
    if m > 0 {
      StepsAdd(env, m - 1, n, Step(env, s));
    }
  }

  lemma ReachesStep(env: ArmEnv, s: State, t: State)
    requires Step(env, s) == t
    ensures Reaches(env, s, t)
  {
    assert Steps(env, 0, t) == t;
    assert Steps(env, 1, s) == t;
  }

  lemma ReachesTrans(env: ArmEnv, s: State, t: State, u: State)
    requires Reaches(env, s, t) && Reaches(env, t, u)
    ensures Reaches(env, s, u)
  {
    var m: nat :| Steps(env, m, s) == t;
    var n: nat :| Steps(env, n, t) == u;
    StepsAdd(env, m, n, s);
  }

  // ---------------------------------------------------------------- code in memory

  /** The words `ws` are mapped as code from `a` on. */
  ghost predicate HoldsWords(rom: Rom, a: int, ws: seq<Word>) {
    forall i :: 0 <= i < |ws| ==> HoldsWord(rom, a + 4 * i, ws[i])
  }

  ghost predicate HoldsWord(rom: Rom, a: int, w: Word) { S.Holds(rom, a, R.Pair(w)) }

  lemma WordAt(rom: Rom, a: int, ws: seq<Word>, i: nat)
    requires HoldsWords(rom, a, ws) && i < |ws|
    ensures HoldsWord(rom, a + 4 * i, ws[i])
  {
  }

  lemma WordsSplit(rom: Rom, a: int, x: seq<Word>, y: seq<Word>)
    requires HoldsWords(rom, a, x + y)
    ensures HoldsWords(rom, a, x) && HoldsWords(rom, a + 4 * |x|, y)
  {
    hide HoldsWord;
    forall i | 0 <= i < |x| ensures HoldsWord(rom, a + 4 * i, x[i]) {
      assert (x + y)[i] == x[i];
    }
    forall i | 0 <= i < |y| ensures HoldsWord(rom, a + 4 * |x| + 4 * i, y[i]) {
      assert (x + y)[|x| + i] == y[i];
      assert a + 4 * (|x| + i) == a + 4 * |x| + 4 * i;
    }
  }

  ghost predicate CodeAddress(a: int) { 0 <= a && a % 4 == 0 && a + 16 <= 0x1_0000_0000 }

  lemma StepAt(env: ArmEnv, core: Core, pc: int, ic: Word)
    requires 0 <= pc && pc < 0x1_0000_0000 && HoldsWord(env.rom, pc, ic)
    ensures Step(env, Run(core, pc, Arm)) == Exec(env, ic, core, pc)
  {
    hide Exec, R.Pair;
    var p := R.Pair(ic);
    S.HoldsAt(env.rom, pc, p, 0);
    S.HoldsAt(env.rom, pc, p, 1);
  }

  // ---------------------------------------------------------------- the forms exclude each other

  lemma HiParts(h: int)
    ensures h % 0x100 / 0x40 == h / 0x40 % 4 && h / 0x20 % 8 / 2 == h / 0x40 % 4 && h / 0x20 % 8 % 2 == h / 0x20 % 2
    ensures h % 0x100 / 0x20 % 2 == h / 0x20 % 2
  {
    HiQuarters(h);
    HiEighths(h);
    EighthParts(h / 0x20);
    ModIs(h, 0x40, h / 0x20 / 2, 0x20 * (h / 0x20 % 2) + h % 0x20);
  }

  lemma HiQuarters(h: int)
    ensures h % 0x100 / 0x40 == h / 0x40 % 4
  {
    var q, r := h / 0x40, h % 0x40;
    ModIs(h, 0x100, q / 4, 0x40 * (q % 4) + r);
    ModIs(0x40 * (q % 4) + r, 0x40, q % 4, r);
  }

  lemma HiEighths(h: int)
    ensures h % 0x100 / 0x20 == h / 0x20 % 8
  {
    var q, r := h / 0x20, h % 0x20;
    ModIs(h, 0x100, q / 8, 0x20 * (q % 8) + r);
    ModIs(0x20 * (q % 8) + r, 0x20, q % 8, r);
  }

  lemma EighthParts(x: int)
    ensures x % 8 / 2 == x / 2 % 4 && x % 8 % 2 == x % 2
  {
    var a, b := x / 8, x % 8;
    ModIs(x, 2, 4 * a + b / 2, b % 2);
    ModIs(4 * a + b / 2, 4, a, b / 2);
  }

  lemma TransferIsOther(ic: Word)
    requires IsTransfer(ic)
    ensures !IsBranch(ic) && !IsPcSum(ic) && !IsMedia(ic) && !IsStack(ic)
  {
    hide Rm, Rd, Rn, Hi, Lo, Cond, Stmdb, Ldmia;
    HiParts(Hi(ic));
    StackClass(ic);
  }

  lemma StackClass(ic: Word)
    ensures IsStack(ic) ==> Hi(ic) / 0x40 % 4 == 2 && Hi(ic) % 0x100 !in {0x28, 0x24, 0x1a, 0x08} && !IsRegister(ic)
  {
  }

  lemma ExecTransfer(env: ArmEnv, ic: Word, core: Core, pc: Word)
    requires IsTransfer(ic) && UsesPc(ic)
    ensures Exec(env, ic, core, pc) == Transfer(env, ic, core, pc)
  {
    hide IsTransfer, IsStack, UsesPc, Transfer, IsBranch, IsPcSum, IsMedia;
    TransferIsOther(ic);
  }

  lemma BranchIsNoStack(ic: Word)
    requires IsBranch(ic)
    ensures !IsStack(ic)
  {
    hide Hi, Cond, Stmdb, Ldmia;
    StackClass(ic);
  }

  // ---------------------------------------------------------------- the words of the relocator

  lemma LdrPcFields(rd: int, im: nat)
    requires 0 <= rd < 16 && im < 0x1000
    ensures var ic := LdrPc(rd, im);
            Hi(ic) == 0xe59 && Rn(ic) == 15 && Rd(ic) == rd && Lo(ic) % 0x1000 == im
    ensures var ic := LdrPc(rd, im);
            IsTransfer(ic) && IsLoad(ic) && !IsByte(ic) && IsUp(ic) && IsOffsetForm(ic) && !IsRegister(ic) &&
            Cond(ic) == 14
  {
    PartsAre(LdrPc(rd, im), 0xe59, 15, rd * 0x1000 + im);
  }

  lemma LdrBackFields()
    ensures var ic := LDR_PC_BACK;
            IsTransfer(ic) && IsLoad(ic) && !IsByte(ic) && !IsUp(ic) && IsOffsetForm(ic) && !IsRegister(ic) &&
            Cond(ic) == 14 && Rn(ic) == 15 && Rd(ic) == 15 && Lo(ic) % 0x1000 == 4
  {
  }

  lemma LoadsHeldWord(rom: Rom, m: Memory, a: int, w: Word)
    requires HoldsWord(rom, a, w) && 0 <= a && a % 4 == 0 && a + 4 <= 0x1_0000_0000
    ensures LoadWord(rom, m, a) == w
  {
    LowBits(a);
    S.LoadsCodeWord(rom, m, a, w);
  }

  /** A literal load finds the word at its own address plus eight plus the offset. */
  lemma DoLdrPc(env: ArmEnv, core: Core, pc: int, rd: int, im: nat, w: Word)
    requires 0 <= rd < 16 && im < 0x1000 && 0 <= pc && (pc + 8 + im) % 4 == 0 && pc + 12 + im <= 0x1_0000_0000
    requires HoldsWord(env.rom, pc, LdrPc(rd, im)) && HoldsWord(env.rom, pc + 8 + im, w)
    ensures Step(env, Run(core, pc, Arm)) == if rd == PC then Interwork(core, w) else Run(SetReg(core, rd, w),
                pc + 4, Arm)
  {
    hide LoadWord, HoldsWord, Interwork, ConditionHolds, LdrPc, IsTransfer, IsLoad, IsByte, IsUp, IsOffsetForm,
      IsRegister, Exec,
      Cond, Hi, Lo, Rn, Rd;
    var ic := LdrPc(rd, im);
    LdrPcFields(rd, im);
    ExecTransfer(env, ic, core, pc);
    StepAt(env, core, pc, ic);
    LoadsHeldWord(env.rom, core.mem, pc + 8 + im, w);
    AlwaysHolds(core.flags);
    assert Plus(Plus(pc, 8), im) == pc + 8 + im;
  }

  lemma AlwaysHolds(f: Apsr)
    ensures ConditionHolds(14, f)
  {
  }

  /** `ldr pc, [pc, #-4]` leaves for the address held by the next word. */
  lemma DoLongJump(env: ArmEnv, core: Core, pc: Word, dest: Word)
    requires CodeAddress(pc)
    requires HoldsWord(env.rom, pc, LDR_PC_BACK) && HoldsWord(env.rom, pc + 4, dest)
    ensures Reaches(env, Run(core, pc, Arm), Interwork(core, dest))
  {
    hide Reaches, LoadWord, HoldsWord, Interwork, ConditionHolds, IsTransfer, IsLoad, IsByte, IsUp, IsOffsetForm,
      IsRegister, Exec,
      Cond, Hi, Lo, Rn, Rd;
    LdrBackFields();
    ExecTransfer(env, LDR_PC_BACK, core, pc);
    StepAt(env, core, pc, LDR_PC_BACK);
    ModFour(pc + 4, pc / 4 + 1, 0);
    LoadsHeldWord(env.rom, core.mem, pc + 4, dest);
    AlwaysHolds(core.flags);
    WrapAgain(pc + 8, -4);
    WrapUnique(pc + 4, 0, pc + 4);
    ReachesStep(env, Run(core, pc, Arm), Interwork(core, dest));
  }

  lemma DoPush(env: ArmEnv, core: Core, pc: int, r: int)
    requires 0 <= r < 2 && 0 <= pc && pc + 4 < 0x1_0000_0000 && HoldsWord(env.rom, pc, Stmdb(r))
    ensures Step(env, Run(core, pc, Arm)) == Run(Pushed(core, r), pc + 4, Arm)
  {
    hide HoldsWord, IsTransfer, IsBranch, IsPcSum, IsMedia, MediaEffect, PcSum, MediaOf, ConditionHolds, Pushed, Popped;
    StepAt(env, core, pc, Stmdb(r));
  }

  lemma DoPop(env: ArmEnv, core: Core, pc: int, r: int)
    requires 0 <= r < 2 && 0 <= pc && pc + 4 < 0x1_0000_0000 && HoldsWord(env.rom, pc, Ldmia(r))
    ensures Step(env, Run(core, pc, Arm)) == Run(Popped(env.rom, core, r), pc + 4, Arm)
  {
    hide HoldsWord, IsTransfer, IsBranch, IsPcSum, IsMedia, MediaEffect, PcSum, MediaOf, ConditionHolds, Pushed, Popped;
    StepAt(env, core, pc, Ldmia(r));
  }

  // ---------------------------------------------------------------- transfers

  /** Forms of a pc-relative transfer that the machine executes, for a register other than
      the program counter. */
  predicate IsSimple(ic: Word) {
    IsTransfer(ic) && IsOffsetForm(ic) && Rd(ic) != PC && (IsRegister(ic) ==> Rm(ic) != PC)
  }

  /** What a transfer with base value `base` does to the core. */
  ghost function Transferred(env: ArmEnv, ic: Word, core: Core, base: Word): Core
    requires IsSimple(ic)
  {
    if ConditionHolds(Cond(ic), core.flags) then Moved(env, ic, core, AddressOf(ic, core, base)) else core
  }

  lemma DoPcTransfer(env: ArmEnv, core: Core, pc: int, ic: Word)
    requires IsSimple(ic) && Rn(ic) == PC && 0 <= pc && pc + 4 < 0x1_0000_0000 && HoldsWord(env.rom, pc, ic)
    ensures Step(env, Run(core, pc, Arm)) == Run(Transferred(env, ic, core, Plus(pc, 8)), pc + 4, Arm)
  {
    hide HoldsWord, ConditionHolds, IsTransfer, IsOffsetForm, IsRegister, Cond, Rn, Rd, Rm, AddressOf, Moved, Exec;
    ExecTransfer(env, ic, core, pc);
    StepAt(env, core, pc, ic);
  }

  /** A transfer whose base is a register. */
  lemma DoTransfer(env: ArmEnv, core: Core, pc: int, ic: Word)
    requires IsSimple(ic) && !UsesPc(ic) && !IsBranch(ic) && !IsPcSum(ic) && !IsMedia(ic) && !IsStack(ic) &&
             0 <= Rn(ic) < 15
    requires 0 <= pc && pc + 4 < 0x1_0000_0000 && HoldsWord(env.rom, pc, ic)
    ensures Step(env, Run(core, pc, Arm)) == Run(Transferred(env, ic, core, core.regs[Rn(ic)]), pc + 4, Arm)
  {
    hide HoldsWord, ConditionHolds, IsTransfer, IsOffsetForm, IsRegister, Cond, Rn, Rd, Rm, AddressOf, Moved, IsBranch,
      UsesPc, IsPcSum, PcSum, IsMedia, MediaEffect, MediaOf, IsStack;
    StepAt(env, core, pc, ic);
  }

  /** The copy with another base register reads that register instead. */
  lemma DoCopy(env: ArmEnv, core: Core, pc: int, ic: Word, rn: int)
    requires IsSimple(ic) && 0 <= rn < 15 && 0 <= pc && pc + 4 < 0x1_0000_0000
    requires HoldsWord(env.rom, pc, WithBase(ic, rn))
    ensures Step(env, Run(core, pc, Arm)) == Run(Transferred(env, ic, core, core.regs[rn]), pc + 4, Arm)
  {
    hide HoldsWord, ConditionHolds, Moved, AddressOf, WithBase, IsSimple, UsesPc, IsBranch, Cond, Rn, Rd, Rm, Step,
      IsRegister, IsLoad, IsPcSum, IsMedia, IsStack;
    CopyFields(ic, rn);
    DoTransfer(env, core, pc, WithBase(ic, rn));
    CopyTransfers(env, core, ic, rn, core.regs[rn]);
  }

  lemma CopyFields(ic: Word, rn: int)
    requires IsSimple(ic) && 0 <= rn < 15
    ensures var copy := WithBase(ic, rn);
            IsSimple(copy) && Rn(copy) == rn && !UsesPc(copy) && !IsBranch(copy) &&
            !IsPcSum(copy) && !IsMedia(copy) && !IsStack(copy) && Cond(copy) == Cond(ic) &&
            IsRegister(copy) == IsRegister(ic) && Rm(copy) == Rm(ic) && Rd(copy) == Rd(ic) && IsLoad(copy) == IsLoad(ic)
  {
    hide WithBase, IsBranch, IsPcSum, IsMedia, IsStack;
    OnlyBaseChanges(ic, rn);
    TransferIsOther(WithBase(ic, rn));
  }

  lemma CopyTransfers(env: ArmEnv, core: Core, ic: Word, rn: int, base: Word)
    requires IsSimple(ic) && 0 <= rn < 15
    ensures var copy := WithBase(ic, rn);
            IsSimple(copy) && Rd(copy) == Rd(ic) && (IsRegister(copy) ==> Rm(copy) != PC) &&
            AddressOf(copy, core, base) == AddressOf(ic, core, base)
    ensures var copy := WithBase(ic, rn);
            forall a: Word :: Moved(env, copy, core, a) == Moved(env, ic, core, a)
  {
    hide WithBase, LoadByte, LoadWord, StoreWord, Signed, Pow2, Plus, IsBranch, IsPcSum, IsMedia;
    OnlyBaseChanges(ic, rn);
    CopyFields(ic, rn);
    assert Shifted(WithBase(ic, rn), core.regs[0], core.flags.c) == Shifted(ic, core.regs[0], core.flags.c);
  }

  // ---------------------------------------------------------------- media words

  lemma MediaIsOther(ic: Word)
    requires IsMedia(ic)
    ensures !IsTransfer(ic) && !IsBranch(ic) && !IsPcSum(ic) && !IsStack(ic)
  {
    hide Rm, Rd, Rn, Lo, Cond, Stmdb, Ldmia;
    HiParts(Hi(ic));
    StackClass(ic);
  }

  /** A modelled media word, whatever its field, executes or is UNPREDICTABLE. */
  lemma DoMedia(env: ArmEnv, core: Core, pc: int, ic: Word)
    requires IsMedia(ic) && !MediaOf(ic).Other? && 0 <= pc && pc + 4 < 0x1_0000_0000 && HoldsWord(env.rom, pc, ic)
    ensures Step(env, Run(core, pc, Arm))
            == if !ConditionHolds(Cond(ic), core.flags) then Run(core, pc + 4, Arm)
               else if Unpredictable(ic) then Stuck
               else Run(MediaCore(ic, core), pc + 4, Arm)
  {
    hide HoldsWord, ConditionHolds, IsTransfer, IsBranch, IsPcSum, IsMedia, MediaOf, MediaCore, Unpredictable, PcSum,
      Transfer, Branch, IsStack;
    MediaIsOther(ic);
    StepAt(env, core, pc, ic);
  }

  lemma PcSumIsOther(ic: Word)
    requires IsPcSum(ic)
    ensures !IsTransfer(ic) && !IsBranch(ic) && !IsPcRel(ic) && !IsStack(ic)
  {
    hide Rm, Rd, Rn, Lo, Cond, Hi, Stmdb, Ldmia;
    HiParts(Hi(ic));
    StackClass(ic);
  }

  lemma PcSumRegister(ic: Word)
    requires IsPcSum(ic)
    ensures 0 <= Rd(ic) < 15
  {
    hide Hi, Cond, Rn, Rm;
  }

  lemma DoPcSum(env: ArmEnv, core: Core, pc: int, ic: Word)
    requires IsPcSum(ic) && 0 <= pc && pc + 4 < 0x1_0000_0000 && HoldsWord(env.rom, pc, ic)
    ensures Step(env, Run(core, pc, Arm)) == Run(PcSum(ic, core, pc), pc + 4, Arm)
  {
    hide HoldsWord, IsTransfer, IsBranch, IsPcSum, PcSum, Transfer, Branch, WordEffect, Unpredictable,
      ConditionHolds, UsesPc,
      IsPcRel, Cond, IsStack;
    PcSumIsOther(ic);
    StepAt(env, core, pc, ic);
  }
}
