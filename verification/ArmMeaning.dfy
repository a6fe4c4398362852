/**
  The relocated ARM words mean what the displaced ones meant, and exactly when a
  relocated transfer does.
 */
module ArmMeaning {
  import opened Words
  import opened ThumbMachine
  import opened ArmRelocate
  import opened ArmMedia
  import opened A = ArmMachine
  import S = ThumbSteps
  import G = ThumbGadgets

  // ---------------------------------------------------------------- the two processes

  datatype Setting = Setting(
    area: int,          // address of the two displaced words
    win: seq<Word>,
    buf: int,           // address of the trampoline buffer
    rom: Rom,           // code of the original process
    rom': Rom,          // code of the hooked process
    plain: (Word, Core) -> Effect,
    hidden: iset<int>,
    link: bool)         // LR is compared as well; after a call it differs
  {
    ghost function Orig(): ArmEnv { ArmEnv(rom, plain) }

    ghost function Hooked(): ArmEnv { ArmEnv(rom', plain) }

    ghost predicate Valid() {
      |win| == 2 && CodeAddress(area) && CodeAddress(buf) && buf + 64 <= 0x1_0000_0000 &&
      HoldsWords(rom, area, win) && HoldsWords(rom', buf, Trampoline(area, win)) &&
      Hides(hidden, rom) && Hides(hidden, rom')
    }
  }

  function Halves(ws: seq<Word>): seq<Half> {
    seq(2 * |ws|, (i: int) requires 0 <= i < 2 * |ws| => if i % 2 == 0 then LowHalf(ws[i / 2]) else HighHalf(ws[i / 2]))
  }

  function Mapped(a: int, ws: seq<Word>): Rom {
    var hs := Halves(ws);
    map i: int | 0 <= i < |hs| :: a + 2 * i := hs[i]
  }

  lemma MappedHolds(a: int, ws: seq<Word>)
    ensures HoldsWords(Mapped(a, ws), a, ws)
  {
    var rom, hs := Mapped(a, ws), Halves(ws);
    assert S.Holds(rom, a, hs);
    hide Mapped, HoldsWord, S.Holds;
    forall i | 0 <= i < |ws| ensures HoldsWord(rom, a + 4 * i, ws[i]) {
      WordMapped(rom, a, ws, i);
    }
  }

  lemma MappedWithin(a: int, ws: seq<Word>)
    ensures forall b :: b in Mapped(a, ws) ==> a <= b && b + 2 <= a + 4 * |ws|
  {
  }

  lemma WordMapped(rom: Rom, a: int, ws: seq<Word>, i: nat)
    requires S.Holds(rom, a, Halves(ws)) && i < |ws|
    ensures HoldsWord(rom, a + 4 * i, ws[i])
  {
    var hs := Halves(ws);
    S.HoldsAt(rom, a, hs, 2 * i);
    S.HoldsAt(rom, a, hs, 2 * i + 1);
    hide S.Holds;
    PairHeld(rom, a + 4 * i, ws[i]);
  }

  lemma PairHeld(rom: Rom, a: int, w: Word)
    requires a in rom && a + 2 in rom && rom[a] == LowHalf(w) && rom[a + 2] == HighHalf(w)
    ensures HoldsWord(rom, a, w)
  {
  }

  /** Every two words have a setting, at any addresses and with any further hidden bytes:
      the theorems about settings speak about all of them. */
  lemma SettingExists(area: int, win: seq<Word>, buf: int, plain: (Word, Core) -> Effect, dead: iset<int>)
    returns (s: Setting)
    requires |win| == 2 && CodeAddress(area) && CodeAddress(buf) && buf + 64 <= 0x1_0000_0000
    ensures s.Valid() && s.area == area && s.win == win && s.buf == buf && s.plain == plain && s.link
    ensures forall a :: a in dead ==> a in s.hidden
    ensures forall a :: a in s.hidden ==> a in dead || area <= a < area + 8 || buf <= a < buf + 48
  {
    hide Trampoline, InRom, Mapped, HoldsWords;
    MappedWithin(area, win);
    MappedWithin(buf, Trampoline(area, win));
    var rom, rom' := Mapped(area, win), Mapped(buf, Trampoline(area, win));
    MappedHolds(area, win);
    MappedHolds(buf, Trampoline(area, win));
    var hidden := iset a: int | a in rom || a in rom' || a - 1 in rom || a - 1 in rom' || a in dead;
    s := Setting(area, win, buf, rom, rom', plain, hidden, true);
  }

  /** Equal registers and flags, and equal memory outside `hidden`. */
  ghost predicate Agree(c: Core, c': Core, s: Setting) {
    (forall r :: 0 <= r < 15 && (r == LR ==> s.link) ==> c.regs[r] == c'.regs[r]) && c.flags == c'.flags &&
    forall a :: a !in s.hidden ==> ReadRam(c.mem, a) == ReadRam(c'.mem, a)
  }

  /** The same, except for the return address in LR. */
  ghost predicate AgreeButLr(c: Core, c': Core, s: Setting) { Agree(c, c', AfterCall(s)) }

  /** The setting in which LR is no longer compared. */
  ghost function AfterCall(s: Setting): Setting { s.(link := false) }

  ghost predicate EffectsAgree(e: Effect, e': Effect, s: Setting) {
    match (e, e')
    case (Fall(c), Fall(c')) => Agree(c, c', s)
    case (Goto(c, d), Goto(c', d')) => d == d' && Agree(c, c', s)
    case (Call(c, d), Call(c', d')) => d == d' && Agree(c, c', s)
    case _ => false
  }

  // ---------------------------------------------------------------- where the pieces lie

  function Start(win: seq<Word>, k: nat): (n: nat)
    requires |win| == 2
    ensures n <= 8
  {
    hide IsPcRel, Guarded;
    (if k > 0 then CodeSize(win[0]) else 0) + (if k > 1 then CodeSize(win[1]) else 0)
  }

  function End(win: seq<Word>, k: nat): (e: nat)
    requires |win| == 2
    ensures k < 2 ==> Room(win[k], Start(win, k), e)
    ensures e <= 12
  {
    SizesFit(win[0]);
    SizesFit(win[1]);
    Total(win) - (if k > 0 then PoolSize(win[0]) else 0)
  }

  function PieceOf(area: Word, win: seq<Word>, k: nat): Piece
    requires |win| == 2 && k < 2
  {
    Gadget(win[k], Plus(area, 4 * k), Start(win, k), End(win, k))
  }

  ghost predicate Sits(rom: Rom, buf: int, start: int, end: int, p: Piece) {
    HoldsWords(rom, buf + 4 * start, p.code) && HoldsWords(rom, buf + 4 * (end - |p.pool|), p.pool)
  }

  lemma PiecesAre(area: Word, win: seq<Word>)
    requires |win| == 2
    ensures PieceOf(area, win, 0) == First(area, win) && PieceOf(area, win, 1) == Next(area, win)
    ensures |PieceOf(area, win, 0).code| == CodeSize(win[0]) && |PieceOf(area, win, 0).pool| == PoolSize(win[0])
    ensures |PieceOf(area, win, 1).code| == CodeSize(win[1]) && |PieceOf(area, win, 1).pool| == PoolSize(win[1])
  {
    hide Gadget, CodeSize, PoolSize, Growth, IsPcRel;
    assert Plus(area, 0) == area;
  }

  lemma SixPlaced(rom: Rom, a: int, x: seq<Word>, y: seq<Word>, j: seq<Word>, z: seq<Word>, v: seq<Word>, u: seq<Word>)
    requires HoldsWords(rom, a, x + y + j + z + v + u)
    ensures HoldsWords(rom, a, x) && HoldsWords(rom, a + 4 * |x|, y) && HoldsWords(rom, a + 4 * (|x| + |y|), j)
    ensures HoldsWords(rom, a + 4 * (|x| + |y| + |j| + |z|), v)
    ensures HoldsWords(rom, a + 4 * (|x| + |y| + |j| + |z| + |v|), u)
  {
    hide HoldsWords;
    WordsSplit(rom, a, x + y + j + z + v, u);
    WordsSplit(rom, a, x + y + j + z, v);
    WordsSplit(rom, a, x + y + j, z);
    WordsSplit(rom, a, x + y, j);
    WordsSplit(rom, a, x, y);
  }

  /** Both pieces and the closing jump lie where the emission left them. */
  lemma PiecesSit(s: Setting)
    requires s.Valid()
    ensures Sits(s.rom', s.buf, 0, End(s.win, 0), PieceOf(s.area, s.win, 0))
    ensures Sits(s.rom', s.buf, Start(s.win, 1), End(s.win, 1), PieceOf(s.area, s.win, 1))
    ensures HoldsWords(s.rom', s.buf + 4 * Start(s.win, 2), Closing(s.area))
  {
    hide Gadget, CodeSize, PoolSize, Growth, IsPcRel, HoldsWords, Trampoline, PieceOf, InRom, First, Next, Closing;
    var p, q := First(s.area, s.win), Next(s.area, s.win);
    PiecesAre(s.area, s.win);
    TrampolineIs(s.area, s.win);
    SizesFit(s.win[0]);
    SizesFit(s.win[1]);
    SixPlaced(s.rom', s.buf, p.code, q.code, Closing(s.area), Zeros(Gap(s.win)), q.pool, p.pool);
  }

  // ---------------------------------------------------------------- what is asked of the prologue

  /** BX and BLX to a register, whose base field is not a register. */
  predicate IsBranchExchange(ic: Word) {
    Hi(ic) % 0x100 == 0x12 && Rn(ic) == 15 && (Lo(ic) / 16 == 0xff1 || Lo(ic) / 16 == 0xff3)
  }

  /** Copied words that read the program counter: branches, and every form whose base or
      operand field names it. */
  predicate ReadsPc(ic: Word) {
    Cond(ic) == 15 ||
    match Hi(ic) / 0x40 % 4
    case 0 =>
      if Hi(ic) % 0x100 in {0x30, 0x34} then false   // MOVW and MOVT
      else if IsBranchExchange(ic) then Rm(ic) == PC
      else Rn(ic) == PC || (!IsRegister(ic) && Rm(ic) == PC)
    case 1 => (IsRegister(ic) && Rm(ic) == PC) || (!IsLoad(ic) && Rd(ic) == PC)
    case 2 => IsRegister(ic) || Rn(ic) == PC || (!IsLoad(ic) && Lo(ic) / 0x8000 == 1)
    case _ => Rn(ic) == PC
  }

  /** A pc-relative transfer must not involve the program counter as its register, and a
      guarded word must not be indexed by the stack pointer, which the guard moves. */
  predicate Relocatable(ic: Word) {
    if IsPcRel(ic) then (IsSimple(ic) || IsExecuted(ic)) && (Guarded(ic) ==> Rm(ic) != SP)
    else !ReadsPc(ic) && !Unpredictable(ic)
  }

  ghost predicate DataVisible(s: Setting, ic: Word, a: Word) {
    if IsByte(ic) then a !in s.hidden else forall b :: InWord(a, b) ==> b !in s.hidden
  }

  /** The word below the stack pointer is dead, and holds no code. */
  ghost predicate ScratchDead(s: Setting, c: Core) {
    forall b :: InWord(Plus(c.regs[SP], -4), b) ==> b in s.hidden && !InRom(s.rom', b)
  }

  /** From the state `c`, the word does not depend on hidden bytes. */
  ghost predicate Oblivious(s: Setting, ic: Word, c: Core) {
    forall c': Core :: Agree(c, c', s) ==>
      EffectsAgree(WordEffect(s.Orig(), ic, c), WordEffect(s.Hooked(), ic, c'), s)
  }

  function LiteralOf(s: Setting, k: nat): Word { Plus(s.area, 4 * k + 8) }

  /** The word uses the value of LR. */
  predicate UsesLink(ic: Word) {
    (IsRegister(ic) && Rm(ic) == LR) || (!IsLoad(ic) && Rd(ic) == LR)
  }

  ghost predicate GuardFree(s: Setting, ic: Word, c: Core) {
    Guarded(ic) ==> Rm(ic) != SP && ScratchDead(s, c)
  }

  /** The bytes that the transfer at `k` moves are visible, and its guard has a free slot. */
  ghost predicate Undisturbed(s: Setting, k: nat, c: Core)
    requires s.Valid() && k < 2 && IsSimple(s.win[k])
  {
    var ic := s.win[k];
    (ConditionHolds(Cond(ic), c.flags) ==> DataVisible(s, ic, AddressOf(ic, c, LiteralOf(s, k)))) &&
    GuardFree(s, ic, c) && (UsesLink(ic) ==> s.link)
  }

  /** The scratch load destroys the transferred register unless it is guarded, is loaded
      anyway, happens to hold the same value, or is not compared. */
  predicate RegisterSurvives(s: Setting, k: nat, c: Core)
    requires |s.win| == 2 && k < 2 && Rd(s.win[k]) != PC
  {
    var ic := s.win[k];
    Guarded(ic) || (IsLoad(ic) && ConditionHolds(Cond(ic), c.flags)) || c.regs[Rd(ic)] == LiteralOf(s, k) ||
    (Rd(ic) == LR && !s.link)
  }

  /** The media word at `k` has a free slot for its guard, and does not use a return address. */
  ghost predicate MediaUndisturbed(s: Setting, k: nat, c: Core)
    requires |s.win| == 2 && k < 2
  {
    GuardFree(s, s.win[k], c) && (Rm(s.win[k]) == LR || Rd(s.win[k]) == LR ==> s.link)
  }

  /** The base that the relocator writes. */
  function BaseFor(ic: Word): int { if Guarded(ic) then Scratch(ic) else Rd(ic) }

  /** When a media word is right: executed, its new field does not matter; not executed, the
      scratch load left its register alone. */
  ghost predicate MediaSurvives(s: Setting, k: nat, c: Core)
    requires |s.win| == 2 && k < 2 && Rd(s.win[k]) != PC
  {
    var ic, lit := s.win[k], LiteralOf(s, k);
    var rd := c.regs[Rd(ic)];
    if ConditionHolds(Cond(ic), c.flags)
    then FieldHarmless(ic, BaseFor(ic), lit, rd, if Guarded(ic) then rd else lit, OperandOf(ic, c), c.flags)
    else Guarded(ic) || rd == lit
  }

  /** What the word at `k` touches when it runs from `c`. */
  ghost predicate Quiet(s: Setting, k: nat, c: Core)
    requires s.Valid() && k < 2 && Relocatable(s.win[k])
  {
    if !IsPcRel(s.win[k]) then Oblivious(s, s.win[k], c)
    else if IsMedia(s.win[k]) then MediaUndisturbed(s, k, c) && MediaSurvives(s, k, c)
    else Undisturbed(s, k, c) && RegisterSurvives(s, k, c)
  }

  ghost predicate Transfers(s: Setting, k: nat, c: Core)
    requires s.Valid() && k < 2
  {
    !IsPcRel(s.win[k]) && !WordEffect(s.Orig(), s.win[k], c).Fall?
  }

  // ---------------------------------------------------------------- agreement is kept

  lemma SameByte(s: Setting, c: Core, d: Core, b: int)
    requires s.Valid() && Agree(c, d, s) && b !in s.hidden
    ensures LoadByte(s.rom, c.mem, b) == LoadByte(s.rom', d.mem, b)
  {
    hide HoldsWords, Trampoline;
    VisibleIsNotCode(s.hidden, s.rom, b);
    VisibleIsNotCode(s.hidden, s.rom', b);
  }

  lemma SameValue(s: Setting, ic: Word, c: Core, d: Core, a: Word)
    requires s.Valid() && Agree(c, d, s) && DataVisible(s, ic, a)
    ensures ValueAt(s.Orig(), ic, c, a) == ValueAt(s.Hooked(), ic, d, a)
  {
    hide HoldsWords, Trampoline, Setting.Valid, Agree, LoadByte, InRom, IsByte, Plus;
    if IsByte(ic) {
      SameByte(s, c, d, a);
    } else {
      assert InWord(a, a) && InWord(a, Plus(a, 1)) && InWord(a, Plus(a, 2)) && InWord(a, Plus(a, 3));
      SameByte(s, c, d, a);
      SameByte(s, c, d, Plus(a, 1));
      SameByte(s, c, d, Plus(a, 2));
      SameByte(s, c, d, Plus(a, 3));
    }
  }

  lemma SameStore(ic: Word, m: Memory, m': Memory, a: Word, v: Word, b: int)
    requires ReadRam(m, b) == ReadRam(m', b)
    ensures ReadRam(Stored(ic, m, a, v), b) == ReadRam(Stored(ic, m', a, v), b)
  {
    hide IsByte, ByteAt, Plus;
  }

  lemma MovedAgrees(s: Setting, ic: Word, c: Core, d: Core, a: Word)
    requires s.Valid() && Agree(c, d, s) && DataVisible(s, ic, a) && Rd(ic) != PC && (UsesLink(ic) ==> s.link)
    ensures Agree(Moved(s.Orig(), ic, c, a), Moved(s.Hooked(), ic, d, a), s)
  {
    hide HoldsWords, Trampoline, Setting.Valid, ReadRam, Stored, ValueAt, InRom, IsByte, IsLoad, DataVisible;
    SameValue(s, ic, c, d, a);
    if !IsLoad(ic) {
      var v := c.regs[Rd(ic)];
      forall b | b !in s.hidden
        ensures ReadRam(Stored(ic, c.mem, a, v), b) == ReadRam(Stored(ic, d.mem, a, v), b)
      {
        SameStore(ic, c.mem, d.mem, a, v, b);
      }
    }
  }

  /** The address of a transfer depends on its index register and the carry flag only. */
  lemma SameAddress(ic: Word, c: Core, d: Core, base: Word)
    requires IsSimple(ic) && c.flags == d.flags && (IsRegister(ic) ==> c.regs[Rm(ic)] == d.regs[Rm(ic)])
    ensures AddressOf(ic, c, base) == AddressOf(ic, d, base)
  {
    hide Shifted, Plus;
  }

  lemma TransferredAgrees(s: Setting, ic: Word, c: Core, d: Core, base: Word)
    requires s.Valid() && Agree(c, d, s) && IsSimple(ic) && (UsesLink(ic) ==> s.link)
    requires ConditionHolds(Cond(ic), c.flags) ==> DataVisible(s, ic, AddressOf(ic, c, base))
    ensures Agree(Transferred(s.Orig(), ic, c, base), Transferred(s.Hooked(), ic, d, base), s)
  {
    hide Setting.Valid, DataVisible, ConditionHolds, AddressOf, Moved, IsTransfer, IsOffsetForm, IsRegister, Cond,
      ReadRam;
    SameAddress(ic, c, d, base);
    if ConditionHolds(Cond(ic), c.flags) {
      MovedAgrees(s, ic, c, d, AddressOf(ic, c, base));
    }
  }

  // ---------------------------------------------------------------- relocated words

  lemma Addresses(s: Setting, k: nat)
    requires s.Valid() && k <= 2
    ensures var pc, e := s.buf + 4 * Start(s.win, k), s.buf + 4 * End(s.win, k);
            0 <= pc && pc % 4 == 0 && pc + 16 <= 0x1_0000_0000 && e + 16 <= 0x1_0000_0000 &&
            Plus(s.area, 4 * k) == s.area + 4 * k &&
            Plus(s.area + 4 * k, 8) == LiteralOf(s, k) && s.area + 4 * k + 4 < 0x1_0000_0000
  {
    hide HoldsWords, Trampoline, InRom, Start, End;
    FourTimes(s.buf, s.buf / 4);
    ModFour(s.buf + 4 * Start(s.win, k), s.buf / 4 + Start(s.win, k), 0);
  }

  lemma GadgetIs(s: Setting, k: nat)
    requires s.Valid() && k < 2 && IsPcRel(s.win[k])
    ensures var ic, lit, start, end := s.win[k], LiteralOf(s, k), Start(s.win, k), End(s.win, k);
            PieceOf(s.area, s.win, k)
            == if Guarded(ic) then
                 Piece([Stmdb(Scratch(ic)), LdrPc(Scratch(ic), (end - 1 - (start + 1)) * 4 - 8),
                        WithBase(ic, Scratch(ic)), Ldmia(Scratch(ic))], [lit])
               else Piece([LdrPc(Rd(ic), (end - 1 - start) * 4 - 8), WithBase(ic, Rd(ic))], [lit])
  {
    hide HoldsWords, Trampoline, InRom, Start, IsRegister, Rd, Rm, LdrPc, WithBase, Stmdb,
      Ldmia, IsPcRel, LiteralOf,
      Plus, Guarded;
    Addresses(s, k);
    assert Room(s.win[k], Start(s.win, k), End(s.win, k));
  }

  lemma StartNext(win: seq<Word>, k: nat)
    requires |win| == 2 && k < 2
    ensures Start(win, k + 1) == Start(win, k) + CodeSize(win[k])
    ensures IsPcRel(win[k]) ==> CodeSize(win[k]) == (if Guarded(win[k]) then 4 else 2) && PoolSize(win[k]) == 1
  {
    hide IsPcRel, Guarded;
  }

  /** The core in which the rewritten word runs. */
  ghost function Entered(s: Setting, k: nat, core: Core): Core
    requires |s.win| == 2 && k < 2 && Rd(s.win[k]) != PC
  {
    var ic, lit := s.win[k], LiteralOf(s, k);
    if Guarded(ic) then SetReg(Pushed(core, Scratch(ic)), Scratch(ic), lit) else SetReg(core, Rd(ic), lit)
  }

  /** Where the rewritten word lies. */
  function RewrittenAt(s: Setting, k: nat): int
    requires |s.win| == 2 && k < 2
  {
    s.buf + 4 * Start(s.win, k) + if Guarded(s.win[k]) then 8 else 4
  }

  lemma GuardedFront(env: ArmEnv, core: Core, pc: int, r: int, im: nat, lit: Word)
    requires 0 <= r < 2 && im < 0x1000 && 0 <= pc && pc % 4 == 0 && im % 4 == 0 && pc + 24 + im <= 0x1_0000_0000
    requires HoldsWord(env.rom, pc, Stmdb(r)) && HoldsWord(env.rom, pc + 4, LdrPc(r, im)) &&
             HoldsWord(env.rom, pc + 12 + im, lit)
    ensures A.Reaches(env, Run(core, pc, Arm), Run(SetReg(Pushed(core, r), r, lit), pc + 8, Arm))
  {
    hide HoldsWord, A.Step, LdrPc, Stmdb, A.Reaches, Pushed;
    ModFour(pc + 12 + im, pc / 4 + 3 + im / 4, 0);
    var c1 := Pushed(core, r);
    DoPush(env, core, pc, r);
    DoLdrPc(env, c1, pc + 4, r, im, lit);
    A.ReachesStep(env, Run(core, pc, Arm), Run(c1, pc + 4, Arm));
    A.ReachesStep(env, Run(c1, pc + 4, Arm), Run(SetReg(c1, r, lit), pc + 8, Arm));
    A.ReachesTrans(env, Run(core, pc, Arm), Run(c1, pc + 4, Arm), Run(SetReg(c1, r, lit), pc + 8, Arm));
  }

  /** The front of every gadget leads to the rewritten word, with its base register holding
      the literal. */
  lemma GadgetFront(s: Setting, k: nat, core: Core)
    requires s.Valid() && k < 2 && IsPcRel(s.win[k]) && Rd(s.win[k]) != PC
    ensures A.Reaches(s.Hooked(), Run(core, s.buf + 4 * Start(s.win, k), Arm), Run(Entered(s, k, core),
                RewrittenAt(s, k), Arm))
    ensures var pc, next := RewrittenAt(s, k), s.buf + 4 * Start(s.win, k + 1);
            0 <= pc && pc + 8 < 0x1_0000_0000 && HoldsWord(s.rom', pc, WithBase(s.win[k], BaseFor(s.win[k]))) &&
            if Guarded(s.win[k]) then next == pc + 8 &&
            HoldsWord(s.rom', pc + 4, Ldmia(Scratch(s.win[k]))) else next == pc + 4
  {
    hide HoldsWord, A.Step, LdrPc, WithBase, Stmdb, Ldmia, A.Reaches, IsTransfer, IsOffsetForm, IsRegister,
      InRom, Trampoline, IsPcRel,
      Pushed, Popped, Rm, Plus, Gadget, PieceOf, HoldsWords, LiteralOf, Scratch;
    Addresses(s, k);
    PiecesSit(s);
    GadgetIs(s, k);
    var ic, lit, start, end := s.win[k], LiteralOf(s, k), Start(s.win, k), End(s.win, k);
    var pc, env, p := s.buf + 4 * start, s.Hooked(), PieceOf(s.area, s.win, k);
    StartNext(s.win, k);
    assert Room(ic, start, end);
    WordAt(env.rom, s.buf + 4 * (end - 1), p.pool, 0);
    WordAt(env.rom, pc, p.code, 0);
    WordAt(env.rom, pc, p.code, 1);
    if Guarded(ic) {
      WordAt(env.rom, pc, p.code, 2);
      WordAt(env.rom, pc, p.code, 3);
      var im := (end - 1 - (start + 1)) * 4 - 8;
      FourTimes(im, end - 1 - (start + 1) - 2);
      ScratchIs(ic);
      GuardedFront(env, core, pc, Scratch(ic), im, lit);
    } else {
      var im := (end - 1 - start) * 4 - 8;
      FourTimes(im, end - 1 - start - 2);
      ModFour(pc + 8 + im, pc / 4 + 2 + im / 4, 0);
      DoLdrPc(env, core, pc, Rd(ic), im, lit);
      A.ReachesStep(env, Run(core, pc, Arm), Run(SetReg(core, Rd(ic), lit), pc + 4, Arm));
    }
  }

  lemma ScratchIs(ic: Word)
    ensures 0 <= Scratch(ic) < 2 && Scratch(ic) != Rm(ic)
  {
  }

  /** What the gadget of the pc-relative transfer at `k` leaves in the core. */
  ghost function Relocated(s: Setting, k: nat, core: Core): Core
    requires s.Valid() && k < 2 && IsSimple(s.win[k])
  {
    var ic, lit := s.win[k], LiteralOf(s, k);
    var moved := Transferred(s.Hooked(), ic, Entered(s, k, core), lit);
    if Guarded(ic) then Popped(s.rom', moved, Scratch(ic)) else moved
  }

  lemma TransferRuns(s: Setting, k: nat, core: Core)
    requires s.Valid() && k < 2 && IsPcRel(s.win[k]) && IsSimple(s.win[k])
    ensures A.Reaches(s.Hooked(), Run(core, s.buf + 4 * Start(s.win, k), Arm),
                    Run(Relocated(s, k, core), s.buf + 4 * Start(s.win, k + 1), Arm))
  {
    hide HoldsWord, A.Step, WithBase, Ldmia, A.Reaches, IsTransfer, IsOffsetForm, IsRegister, Transferred,
      InRom, Trampoline, IsPcRel,
      Pushed, Popped, Plus, HoldsWords, LiteralOf, Scratch, Start, Rm;
    GadgetFront(s, k, core);
    ScratchIs(s.win[k]);
    var ic, lit, env, pc := s.win[k], LiteralOf(s, k), s.Hooked(), RewrittenAt(s, k);
    var here, entered := Run(core, s.buf + 4 * Start(s.win, k), Arm), Entered(s, k, core);
    var moved := Transferred(env, ic, entered, lit);
    DoCopy(env, entered, pc, ic, BaseFor(ic));
    A.ReachesStep(env, Run(entered, pc, Arm), Run(moved, pc + 4, Arm));
    A.ReachesTrans(env, here, Run(entered, pc, Arm), Run(moved, pc + 4, Arm));
    if Guarded(ic) {
      DoPop(env, moved, pc + 4, Scratch(ic));
      A.ReachesStep(env, Run(moved, pc + 4, Arm), Run(Relocated(s, k, core), pc + 8, Arm));
      A.ReachesTrans(env, here, Run(moved, pc + 4, Arm), Run(Relocated(s, k, core), pc + 8, Arm));
    }
  }

  // ---------------------------------------------------------------- the guarded gadget

  lemma ScratchAgrees(s: Setting, c: Core, c': Core, r: int)
    requires Agree(c, c', s) && ScratchDead(s, c) && 0 <= r < 8
    ensures Agree(c, G.Scratched(c', r), s) && G.SlotFree(s.rom', c')
  {
    hide InRom, StoreWord, Plus;
    var sp := Plus(c.regs[SP], -4);
    forall a | a !in s.hidden ensures ReadRam(c.mem, a) == ReadRam(G.Scratched(c', r).mem, a) {
      assert !InWord(sp, a);
      S.StoreElsewhere(c'.mem, sp, c'.regs[r], a);
    }
  }

  /** A store to visible bytes leaves the saved register alone. */
  lemma SlotKept(s: Setting, ic: Word, c: Core, m: Memory, a: Word, v: Word)
    requires ScratchDead(s, c) && DataVisible(s, ic, a)
    ensures LoadWord(s.rom', Stored(ic, m, a, v), Plus(c.regs[SP], -4)) == LoadWord(s.rom', m, Plus(c.regs[SP], -4))
  {
    hide IsByte, ByteAt, Plus, InRom, StoreWord;
    var sp := Plus(c.regs[SP], -4);
    forall b | InWord(sp, b) ensures ReadRam(Stored(ic, m, a, v), b) == ReadRam(m, b) {
      assert b in s.hidden;
      if !IsByte(ic) {
        assert !InWord(a, b);
        S.StoreElsewhere(m, a, v, b);
      }
    }
    assert InWord(sp, sp) && InWord(sp, Plus(sp, 1)) && InWord(sp, Plus(sp, 2)) && InWord(sp, Plus(sp, 3));
  }

  /** Saving the scratch register, using it as the base and restoring it comes to the
      transfer itself, after a word was written to the dead slot. */
  lemma GuardedIs(s: Setting, k: nat, c: Core, c': Core)
    requires s.Valid() && k < 2 && IsSimple(s.win[k]) && Guarded(s.win[k])
    requires Agree(c, c', s) && Undisturbed(s, k, c)
    ensures Relocated(s, k, c')
            == Transferred(s.Hooked(), s.win[k], G.Scratched(c', Scratch(s.win[k])), LiteralOf(s, k))
  {
    hide HoldsWords, Trampoline, CodeAddress, IsTransfer, IsOffsetForm, IsRegister, Cond, AddressOf, Plus, LoadWord,
      LoadByte, StoreWord, InRom, ScratchDead, G.SlotFree,
      DataVisible, ConditionHolds, LiteralOf, IsByte, Stored, IsLoad;
    var ic, lit, r := s.win[k], LiteralOf(s, k), Scratch(s.win[k]);
    var d, c2 := G.Scratched(c', r), SetReg(Pushed(c', r), r, lit);
    ScratchAgrees(s, c, c', r);
    SameAddress(ic, d, c2, lit);
    SameAddress(ic, c, d, lit);
    var a := AddressOf(ic, d, lit);
    var c3 := Transferred(s.Hooked(), ic, c2, lit);
    if !ConditionHolds(Cond(ic), c.flags) {
      G.PopRestores(s.rom', c', c2, r);
      assert Popped(s.rom', c2, r).regs == d.regs;
    } else if IsLoad(ic) {
      G.PopRestores(s.rom', c', c3, r);
      assert Popped(s.rom', c3, r).regs == Moved(s.Hooked(), ic, d, a).regs;
    } else {
      G.PopRestores(s.rom', c', c2, r);
      SlotKept(s, ic, c, c2.mem, a, c2.regs[Rd(ic)]);
      assert Popped(s.rom', c3, r).regs == d.regs;
    }
  }

  // ---------------------------------------------------------------- one displaced word

  ghost function OriginalStep(s: Setting, k: nat, c: Core): State
    requires s.Valid() && k < 2
  {
    A.Step(s.Orig(), Run(c, s.area + 4 * k, Arm))
  }

  /** Both machines are at the boundary `k`, with agreeing cores. */
  ghost predicate FellThrough(s: Setting, o: State, r: State, k: nat)
    requires |s.win| == 2
  {
    o.Run? && r.Run? && o.isa == r.isa == Arm && o.it == r.it == 0 &&
    o.pc == s.area + 4 * k && r.pc == s.buf + 4 * Start(s.win, k) && Agree(o.core, r.core, s)
  }

  /** Both machines have left for the same address and instruction set. */
  ghost predicate Left(s: Setting, o: State, r: State) {
    (o.Stuck? && r.Stuck?) ||
    (o.Run? && r.Run? && o.pc == r.pc && o.isa == r.isa && o.it == r.it && Agree(o.core, r.core, s))
  }

  /** Both machines have called the same routine; it returns to the boundary `k` of each. */
  ghost predicate Called(s: Setting, o: State, r: State, k: nat)
    requires |s.win| == 2
  {
    (o.Stuck? && r.Stuck?) ||
    (o.Run? && r.Run? && o.pc == r.pc && o.isa == r.isa && o.it == r.it &&
     AgreeButLr(o.core, r.core, s) &&
     o.core.regs[LR] == s.area + 4 * k && r.core.regs[LR] == s.buf + 4 * Start(s.win, k))
  }

  lemma OriginalTransfer(s: Setting, k: nat, c: Core)
    requires s.Valid() && k < 2 && IsPcRel(s.win[k]) && IsSimple(s.win[k])
    ensures OriginalStep(s, k, c)
            == Run(Transferred(s.Orig(), s.win[k], c, LiteralOf(s, k)), s.area + 4 * (k + 1), Arm)
  {
    hide HoldsWord, HoldsWords, A.Step, InRom, Trampoline, IsSimple, Transferred, LiteralOf, Plus, Start, End;
    Addresses(s, k);
    WordAt(s.rom, s.area, s.win, k);
    DoPcTransfer(s.Orig(), c, s.area + 4 * k, s.win[k]);
  }

  /** The relocated transfer does what the original does exactly when its register
      survives the scratch load. */
  lemma TransferRightIff(s: Setting, k: nat, c: Core, c': Core) returns (r: State)
    requires s.Valid() && k < 2 && IsPcRel(s.win[k]) && IsSimple(s.win[k])
    requires Agree(c, c', s) && Undisturbed(s, k, c)
    ensures A.Reaches(s.Hooked(), Run(c', s.buf + 4 * Start(s.win, k), Arm), r)
    ensures FellThrough(s, OriginalStep(s, k, c), r, k + 1) <==> RegisterSurvives(s, k, c)
  {
    hide HoldsWord, HoldsWords, A.Step, InRom, Trampoline, IsSimple, LiteralOf, Plus, Start, End, OriginalStep,
      Relocated, Guarded, Undisturbed,
      IsPcRel, A.Reaches, Transferred, ReadRam;
    var ic, lit := s.win[k], LiteralOf(s, k);
    Addresses(s, k + 1);
    OriginalTransfer(s, k, c);
    TransferRuns(s, k, c');
    r := Run(Relocated(s, k, c'), s.buf + 4 * Start(s.win, k + 1), Arm);
    if Guarded(ic) {
      GuardedTransfer(s, k, c, c');
    } else {
      PlainTransfer(s, k, c, c');
    }
  }

  lemma GuardedTransfer(s: Setting, k: nat, c: Core, c': Core)
    requires s.Valid() && k < 2 && IsSimple(s.win[k]) && Guarded(s.win[k])
    requires Agree(c, c', s) && Undisturbed(s, k, c)
    ensures Agree(Transferred(s.Orig(), s.win[k], c, LiteralOf(s, k)), Relocated(s, k, c'), s)
  {
    hide HoldsWords, Trampoline, CodeAddress, InRom, IsSimple, LiteralOf, Relocated, Agree, Transferred, ScratchDead,
      DataVisible, ConditionHolds, AddressOf, G.Scratched;
    GuardedIs(s, k, c, c');
    ScratchAgrees(s, c, c', Scratch(s.win[k]));
    TransferredAgrees(s, s.win[k], c, G.Scratched(c', Scratch(s.win[k])), LiteralOf(s, k));
  }

  lemma PlainTransfer(s: Setting, k: nat, c: Core, c': Core)
    requires s.Valid() && k < 2 && IsSimple(s.win[k]) && !Guarded(s.win[k])
    requires Agree(c, c', s) && Undisturbed(s, k, c)
    ensures Agree(Transferred(s.Orig(), s.win[k], c, LiteralOf(s, k)), Relocated(s, k, c'), s)
            <==> RegisterSurvives(s, k, c)
  {
    hide HoldsWords, Trampoline, CodeAddress, InRom, LiteralOf, DataVisible, ConditionHolds, AddressOf, ReadRam,
      IsTransfer, IsOffsetForm, IsRegister, Cond, IsLoad, Stored;
    var ic, lit := s.win[k], LiteralOf(s, k);
    var d := SetReg(c', Rd(ic), lit);
    TransferredAgrees(s, ic, c, c', lit);
    SameAddress(ic, c', d, lit);
    if c.regs[Rd(ic)] == lit || (Rd(ic) == LR && !s.link) {
      assert Agree(c, d, s);
      TransferredAgrees(s, ic, c, d, lit);
    } else if IsLoad(ic) && ConditionHolds(Cond(ic), c.flags) {
      G.SetTwice(c', Rd(ic), lit, ValueAt(s.Hooked(), ic, c', AddressOf(ic, c', lit)));
    }
  }

  // ---------------------------------------------------------------- relocated media words

  lemma OriginalMedia(s: Setting, k: nat, c: Core)
    requires s.Valid() && k < 2 && IsExecuted(s.win[k])
    ensures OriginalStep(s, k, c) == Run(MediaEffect(s.win[k], c), s.area + 4 * (k + 1), Arm)
  {
    hide HoldsWord, HoldsWords, A.Step, InRom, Trampoline, IsMedia, MediaCore, Unpredictable, MediaOf, Plus, Start, End;
    Addresses(s, k);
    WordAt(s.rom, s.area, s.win, k);
    DoMedia(s.Orig(), c, s.area + 4 * k, s.win[k]);
  }

  /** Restoring the scratch register leaves what the rewritten word did to its own. */
  lemma MediaPop(s: Setting, k: nat, c: Core, c': Core, v: Word, f: Apsr)
    requires s.Valid() && k < 2 && Guarded(s.win[k]) && Rd(s.win[k]) != PC
    requires Agree(c, c', s) && GuardFree(s, s.win[k], c)
    ensures var rd, r := Rd(s.win[k]), Scratch(s.win[k]);
            Popped(s.rom', SetReg(Entered(s, k, c'), rd, v).(flags := f), r) == SetReg(G.Scratched(c', r), rd,
                v).(flags := f)
  {
    hide HoldsWords, Trampoline, CodeAddress, InRom, LiteralOf, ScratchDead, G.SlotFree, LoadWord, StoreWord, Plus,
      ReadRam,
      IsRegister;
    var rd, r, d := Rd(s.win[k]), Scratch(s.win[k]), SetReg(Entered(s, k, c'), Rd(s.win[k]), v).(flags := f);
    ScratchIs(s.win[k]);
    ScratchAgrees(s, c, c', r);
    G.PopRestores(s.rom', c', d, r);
    assert Popped(s.rom', d, r).regs == c'.regs[rd := v];
  }

  lemma AgreeIff(s: Setting, c: Core, d: Core, rd: int, v: Word, v': Word, f: Apsr, f': Apsr)
    requires Agree(c, d, s) && 0 <= rd < 15 && (rd == LR ==> s.link)
    ensures Agree(SetReg(c, rd, v).(flags := f), SetReg(d, rd, v').(flags := f'), s) <==> v == v' && f == f'
  {
    hide ReadRam;
    assert SetReg(c, rd, v).regs[rd] == v && SetReg(d, rd, v').regs[rd] == v';
  }

  /** The core after the gadget of the media word, if it does not become UNPREDICTABLE. */
  ghost function RelocatedMedia(s: Setting, k: nat, core: Core): Core
    requires s.Valid() && k < 2 && 0 <= Rd(s.win[k]) < 15
  {
    var ic, entered := s.win[k], Entered(s, k, core);
    var copy := WithBase(ic, BaseFor(ic));
    RewrittenFields(ic, BaseFor(ic));
    var moved := if ConditionHolds(Cond(ic), entered.flags) then MediaCore(copy, entered) else entered;
    if Guarded(ic) then Popped(s.rom', moved, Scratch(ic)) else moved
  }

  lemma MediaRuns(s: Setting, k: nat, core: Core)
    requires s.Valid() && k < 2 && IsPcRel(s.win[k]) && IsExecuted(s.win[k])
    ensures var ic, here := s.win[k], Run(core, s.buf + 4 * Start(s.win, k), Arm);
            A.Reaches(s.Hooked(), here,
                      if ConditionHolds(Cond(ic), core.flags) && Unpredictable(WithBase(ic, BaseFor(ic))) then Stuck
                      else Run(RelocatedMedia(s, k, core), s.buf + 4 * Start(s.win, k + 1), Arm))
  {
    hide HoldsWord, A.Step, WithBase, Ldmia, A.Reaches, IsMedia, MediaOf, MediaCore, InRom, Trampoline, IsPcRel,
      Pushed, Popped,
      Plus, HoldsWords, LiteralOf, Scratch, Start, Rm, ConditionHolds, IsRegister, Rotated, Shifted, Top, Lsb;
    GadgetFront(s, k, core);
    var ic, env, pc := s.win[k], s.Hooked(), RewrittenAt(s, k);
    ScratchIs(ic);
    RewrittenFields(ic, BaseFor(ic));
    hide Unpredictable;
    var copy := WithBase(ic, BaseFor(ic));
    var here, entered := Run(core, s.buf + 4 * Start(s.win, k), Arm), Entered(s, k, core);
    var t := A.Step(env, Run(entered, pc, Arm));
    PushKeepsFlags(core, Scratch(ic));
    DoMedia(env, entered, pc, copy);
    A.ReachesStep(env, Run(entered, pc, Arm), t);
    A.ReachesTrans(env, here, Run(entered, pc, Arm), t);
    if Guarded(ic) && t.Run? {
      var done := Run(RelocatedMedia(s, k, core), pc + 8, Arm);
      DoPop(env, t.core, pc + 4, Scratch(ic));
      A.ReachesStep(env, t, done);
      A.ReachesTrans(env, here, t, done);
    }
  }

  lemma PushKeepsFlags(core: Core, r: int)
    requires 0 <= r < 15
    ensures Pushed(core, r).flags == core.flags
  {
  }

  /** The relocated media word does what the original does exactly when its rewritten field
      is harmless, or it is not executed and its register survives the scratch load. */
  lemma MediaRightIff(s: Setting, k: nat, c: Core, c': Core) returns (r: State)
    requires s.Valid() && k < 2 && IsPcRel(s.win[k]) && IsExecuted(s.win[k])
    requires Agree(c, c', s) && MediaUndisturbed(s, k, c)
    ensures A.Reaches(s.Hooked(), Run(c', s.buf + 4 * Start(s.win, k), Arm), r)
    ensures FellThrough(s, OriginalStep(s, k, c), r, k + 1) <==> MediaSurvives(s, k, c)
  {
    hide HoldsWords, A.Step, InRom, Trampoline, IsMedia, MediaOf, WithBase, A.Reaches, Start, End, RelocatedMedia,
      Guarded,
      LiteralOf, GuardFree, FieldHarmless, ReadRam, ConditionHolds, OriginalStep, Rm;
    var ic := s.win[k];
    Addresses(s, k + 1);
    OriginalMedia(s, k, c);
    MediaRuns(s, k, c');
    NotHarmless(s, k, c);
    if ConditionHolds(Cond(ic), c.flags) && Unpredictable(WithBase(ic, BaseFor(ic))) {
      r := Stuck;
    } else {
      r := Run(RelocatedMedia(s, k, c'), s.buf + 4 * Start(s.win, k + 1), Arm);
      MediaAgreesIff(s, k, c, c');
    }
  }

  lemma NotHarmless(s: Setting, k: nat, c: Core)
    requires |s.win| == 2 && k < 2 && Rd(s.win[k]) != PC
    ensures MediaSurvives(s, k, c) && ConditionHolds(Cond(s.win[k]), c.flags)
            ==> !Unpredictable(WithBase(s.win[k], BaseFor(s.win[k])))
  {
    hide Unpredictable, WithBase, MediaResult, ConditionHolds;
  }

  lemma MediaAgreesIff(s: Setting, k: nat, c: Core, c': Core)
    requires s.Valid() && k < 2 && IsPcRel(s.win[k]) && IsExecuted(s.win[k])
    requires Agree(c, c', s) && MediaUndisturbed(s, k, c)
    requires ConditionHolds(Cond(s.win[k]), c.flags) ==> !Unpredictable(WithBase(s.win[k], BaseFor(s.win[k])))
    ensures Agree(MediaEffect(s.win[k], c), RelocatedMedia(s, k, c'), s) <==> MediaSurvives(s, k, c)
  {
    hide HoldsWords, Trampoline, CodeAddress, InRom, LiteralOf, ScratchDead, G.Scratched, G.SlotFree, LoadWord,
      StoreWord, Plus,
      ReadRam, WithBase, MediaOf, IsMedia, MediaResult, ConditionHolds, Rotated, Shifted, IsRegister, Popped, Pushed,
      Top, Lsb;
    var ic, lit, b := s.win[k], LiteralOf(s, k), BaseFor(s.win[k]);
    var rd, entered, copy := Rd(ic), Entered(s, k, c'), WithBase(ic, b);
    ScratchIs(ic);
    RewrittenFields(ic, b);
    hide Unpredictable;
    EnteredHas(s, k, c, c');
    var d := if Guarded(ic) then G.Scratched(c', b) else c';
    if Guarded(ic) {
      ScratchAgrees(s, c, c', b);
    }
    var was, now := c.regs[rd], entered.regs[rd];
    if ConditionHolds(Cond(ic), c.flags) {
      var (v, f) := MediaResult(ic, 0, was, OperandOf(ic, c), c.flags);
      var (v', f') := MediaResult(copy, lit, now, OperandOf(ic, c), c.flags);
      AgreeIff(s, c, d, rd, v, v', f, f');
      if Guarded(ic) {
        MediaPop(s, k, c, c', v', f');
      } else {
        G.SetTwice(c', rd, lit, v');
      }
    } else {
      AgreeIff(s, c, d, rd, was, now, c.flags, c.flags);
      G.SetSame(c, rd);
      G.SetSame(entered, rd);
      if Guarded(ic) {
        MediaPop(s, k, c, c', now, c.flags);
      }
    }
  }

  /** What the rewritten word finds: the literal in its base register, its operand as it was,
      and its own register as it was if that is guarded. */
  lemma EnteredHas(s: Setting, k: nat, c: Core, c': Core)
    requires s.Valid() && k < 2 && IsPcRel(s.win[k]) && IsExecuted(s.win[k])
    requires Agree(c, c', s) && MediaUndisturbed(s, k, c)
    ensures var ic, e, lit := s.win[k], Entered(s, k, c'), LiteralOf(s, k);
            e.flags == c.flags && e.regs[BaseFor(ic)] == lit && OperandOf(ic, e) == OperandOf(ic, c) &&
            e.regs[Rd(ic)] == if Guarded(ic) then c.regs[Rd(ic)] else lit
  {
    hide HoldsWords, Trampoline, CodeAddress, InRom, LiteralOf, ScratchDead, StoreWord, Plus, ReadRam, MediaOf, IsMedia,
      ConditionHolds;
    ScratchIs(s.win[k]);
    MediaIsRegister(s.win[k]);
  }

  lemma MediaIsRegister(ic: Word)
    ensures IsMedia(ic) ==> IsRegister(ic)
  {
    hide Hi, Lo, Cond;
    HiParts(Hi(ic));
  }

  // ---------------------------------------------------------------- copied words

  lemma CopyIsPlain(ic: Word)
    requires !IsPcRel(ic) && !ReadsPc(ic)
    ensures !(IsTransfer(ic) && UsesPc(ic)) && !IsBranch(ic) && !IsPcSum(ic)
  {
    hide Hi, Lo, Cond, Rn, Rd;
    HiParts(Hi(ic));
    LowNibble(Lo(ic));
  }

  lemma LowNibble(lo: int)
    ensures lo % 0x1000 == 15 ==> lo % 16 == 15
  {
  }

  /** A word that is not relocated has no other form in the buffer. */
  lemma CopySits(s: Setting, k: nat)
    requires s.Valid() && k < 2 && !IsPcRel(s.win[k])
    ensures HoldsWord(s.rom', s.buf + 4 * Start(s.win, k), s.win[k]) && Start(s.win, k + 1) == Start(s.win, k) + 1
  {
    hide HoldsWord, HoldsWords, Trampoline, InRom, IsPcRel;
    PiecesSit(s);
    WordAt(s.rom', s.buf + 4 * Start(s.win, k), PieceOf(s.area, s.win, k).code, 0);
  }

  /** The relocated word has come to `r`, which is what the word at `k` does from `c`. */
  ghost predicate Simulated(s: Setting, k: nat, c: Core, r: State)
    requires s.Valid() && k < 2
  {
    var o := OriginalStep(s, k, c);
    if Transfers(s, k, c) then Left(s, o, r) || Called(s, o, r, k + 1) else FellThrough(s, o, r, k + 1)
  }

  lemma SimulateCopy(s: Setting, k: nat, c: Core, c': Core) returns (r: State)
    requires s.Valid() && k < 2 && !IsPcRel(s.win[k]) && !ReadsPc(s.win[k]) && !Unpredictable(s.win[k])
    requires Agree(c, c', s) && Oblivious(s, s.win[k], c)
    ensures A.Reaches(s.Hooked(), Run(c', s.buf + 4 * Start(s.win, k), Arm), r)
    ensures Simulated(s, k, c, r)
  {
    hide HoldsWord, HoldsWords, Trampoline, InRom, IsPcRel, ReadsPc, Agree, WordEffect, A.Reaches, A.Step, Start,
      Interwork,
      Left, Called, IsTransfer, UsesPc, IsBranch, Plus, End, Transfer, Branch, Unpredictable, IsPcSum, PcSum;
    var ic := s.win[k];
    CopyIsPlain(ic);
    CopySits(s, k);
    Addresses(s, k);
    Addresses(s, k + 1);
    WordAt(s.rom, s.area, s.win, k);
    A.StepAt(s.Orig(), c, s.area + 4 * k, ic);
    A.StepAt(s.Hooked(), c', s.buf + 4 * Start(s.win, k), ic);
    var e, e' := WordEffect(s.Orig(), ic, c), WordEffect(s.Hooked(), ic, c');
    assert EffectsAgree(e, e', s);
    NextWord(s.area + 4 * k);
    NextWord(s.buf + 4 * Start(s.win, k));
    r := ContinueArm(e', s.buf + 4 * Start(s.win, k + 1));
    A.ReachesStep(s.Hooked(), Run(c', s.buf + 4 * Start(s.win, k), Arm), r);
    ContinueAgrees(s, e, e', k + 1);
  }

  lemma NextWord(pc: int)
    requires 0 <= pc && pc + 4 < 0x1_0000_0000
    ensures Plus(pc, 4) == pc + 4
  {
  }

  lemma LinkAgrees(s: Setting, c: Core, c': Core, link: Word, link': Word)
    requires Agree(c, c', s)
    ensures AgreeButLr(SetReg(c, LR, link), SetReg(c', LR, link'), s)
    ensures SetReg(c, LR, link).regs[LR] == link && SetReg(c', LR, link').regs[LR] == link'
  {
    hide ReadRam;
  }

  lemma ContinueAgrees(s: Setting, e: Effect, e': Effect, k: nat)
    requires |s.win| == 2 && EffectsAgree(e, e', s)
    requires 0 <= s.area && s.area + 4 * k < 0x1_0000_0000
    requires 0 <= s.buf && s.buf + 4 * Start(s.win, k) < 0x1_0000_0000
    ensures var o, r := ContinueArm(e, s.area + 4 * k), ContinueArm(e', s.buf + 4 * Start(s.win, k));
            match e
            case Fall(_) => FellThrough(s, o, r, k)
            case Goto(_, _) => Left(s, o, r)
            case Call(_, _) => Called(s, o, r, k)
  {
    hide Agree, AgreeButLr, SetReg, Start;
    match e
    case Fall(_) =>
    case Goto(_, _) =>
    case Call(c, _) =>
      LinkAgrees(s, c, e'.core, s.area + 4 * k, s.buf + 4 * Start(s.win, k));
  }

  // ---------------------------------------------------------------- whole prologues

  predicate AllRelocatable(win: seq<Word>)
    requires |win| == 2
  {
    Relocatable(win[0]) && Relocatable(win[1])
  }

  lemma SimpleOrMedia(ic: Word)
    ensures IsSimple(ic) ==> !IsMedia(ic)
    ensures IsExecuted(ic) ==> IsMedia(ic)
  {
    hide Rm, Rd, Rn, Lo, Cond, Unpredictable;
    HiParts(Hi(ic));
  }

  lemma SimulateOne(s: Setting, k: nat, c: Core, c': Core) returns (r: State)
    requires s.Valid() && k < 2 && Relocatable(s.win[k])
    requires Agree(c, c', s) && Quiet(s, k, c)
    ensures A.Reaches(s.Hooked(), Run(c', s.buf + 4 * Start(s.win, k), Arm), r)
    ensures Simulated(s, k, c, r)
  {
    hide HoldsWords, Trampoline, InRom, IsPcRel, ReadsPc, CodeAddress, Agree, WordEffect, A.Reaches, A.Step, Start,
      FellThrough,
      OriginalStep, Left, Called, IsSimple, IsExecuted, IsMedia, Undisturbed, RegisterSurvives, MediaUndisturbed,
      MediaSurvives, Oblivious, Guarded, Rm;
    SimpleOrMedia(s.win[k]);
    if IsPcRel(s.win[k]) && IsMedia(s.win[k]) {
      r := MediaRightIff(s, k, c, c');
    } else if IsPcRel(s.win[k]) {
      r := TransferRightIff(s, k, c, c');
    } else {
      r := SimulateCopy(s, k, c, c');
    }
  }

  /** Dynamic condition on the run of the displaced words from `k` on. */
  ghost predicate QuietRun(s: Setting, k: nat, c: Core)
    requires s.Valid() && AllRelocatable(s.win)
    decreases 2 - k
  {
    k < 2 ==>
      Quiet(s, k, c) &&
      var o := OriginalStep(s, k, c);
      (!Transfers(s, k, c) && o.Run? ==> QuietRun(s, k + 1, o.core))
  }

  /** The state in which the original run first transfers control or reaches the end of the
      two words, and the boundary after the last word it executed. */
  ghost function OriginalExit(s: Setting, k: nat, c: Core): (State, nat)
    requires s.Valid() && k <= 2
    decreases 2 - k
  {
    if k == 2 then (Run(c, Plus(s.area, 8), Arm), 2)
    else
      var o := OriginalStep(s, k, c);
      if Transfers(s, k, c) || !o.Run? then (o, k + 1) else OriginalExit(s, k + 1, o.core)
  }

  lemma ClosingJump(s: Setting, c: Core, c': Core) returns (r: State)
    requires s.Valid() && Agree(c, c', s)
    ensures A.Reaches(s.Hooked(), Run(c', s.buf + 4 * Start(s.win, 2), Arm), r)
    ensures Left(s, Run(c, Plus(s.area, 8), Arm), r)
  {
    hide HoldsWord, HoldsWords, Trampoline, InRom, Agree, A.Reaches, A.Step, Start, Interwork, End, Plus;
    Addresses(s, 2);
    PiecesSit(s);
    var pc := s.buf + 4 * Start(s.win, 2);
    WordAt(s.rom', pc, Closing(s.area), 0);
    WordAt(s.rom', pc, Closing(s.area), 1);
    DoLongJump(s.Hooked(), c', pc, Plus(s.area, 8));
    ModFour(s.area + 8, s.area / 4 + 2, 0);
    S.ArmState(c', s.area + 8);
    r := Interwork(c', Plus(s.area, 8));
  }

  /** The relocated words reach the state that the originals reach: the same address,
      instruction set, registers, flags and visible memory, or the same called routine with
      LR pointing to the corresponding boundary.  `ReturnResumes` goes on from there. */
  lemma {:induction false} RelocatedRun(s: Setting, k: nat, c: Core, c': Core) returns (r: State)
    requires s.Valid() && AllRelocatable(s.win) && k <= 2
    requires QuietRun(s, k, c) && Agree(c, c', s)
    ensures A.Reaches(s.Hooked(), Run(c', s.buf + 4 * Start(s.win, k), Arm), r)
    ensures var (o, k') := OriginalExit(s, k, c);
            Left(s, o, r) || Called(s, o, r, k')
    decreases 2 - k
  {
    hide HoldsWords, Trampoline, InRom, Agree, A.Reaches, A.Step, Start, Left, Called, Relocatable, Quiet, Transfers,
      OriginalStep, End;
    Addresses(s, k);
    if k == 2 {
      r := ClosingJump(s, c, c');
    } else {
      var r1 := SimulateOne(s, k, c, c');
      var o := OriginalStep(s, k, c);
      if Transfers(s, k, c) {
        r := r1;
      } else {
        r := RelocatedRun(s, k + 1, o.core, r1.core);
        A.ReachesTrans(s.Hooked(), Run(c', s.buf + 4 * Start(s.win, k), Arm), r1, r);
      }
    }
  }

  /** The relocation theorem for ARM: calling the trampoline in the hooked process does what
      the two displaced words did in the original one. */
  lemma RelocationPreservesMeaning(s: Setting, c: Core, c': Core) returns (r: State)
    requires s.Valid() && AllRelocatable(s.win)
    requires QuietRun(s, 0, c) && Agree(c, c', s)
    ensures A.Reaches(s.Hooked(), Interwork(c', s.buf), r)
    ensures var (o, k) := OriginalExit(s, 0, c);
            Left(s, o, r) || Called(s, o, r, k)
  {
    hide HoldsWords, Trampoline, InRom, Agree, A.Reaches, Interwork, AllRelocatable, QuietRun, OriginalExit, Left,
      Called;
    S.ArmState(c', s.buf);
    r := RelocatedRun(s, 0, c, c');
  }

  /** The patched entry leads to the replacement, with nothing else changed. */
  lemma EntryLeadsToReplacement(env: ArmEnv, core: Core, area: int, arm: seq<Word>, replace: Word)
    requires CodeAddress(area) && |arm| >= 2 && arm[..2] == [LDR_PC_BACK, replace]
    requires HoldsWords(env.rom, area, arm)
    ensures A.Reaches(env, Run(core, area, Arm), Interwork(core, replace))
  {
    hide HoldsWord, HoldsWords, A.Reaches, A.Step, Interwork;
    assert arm[0] == arm[..2][0] && arm[1] == arm[..2][1];
    WordAt(env.rom, area, arm, 0);
    WordAt(env.rom, area, arm, 1);
    DoLongJump(env, core, area, replace);
  }

  // ---------------------------------------------------------------- after a call

  lemma AgreesWithItself(s: Setting, c: Core)
    ensures Agree(c, c, s)
  {
  }

  lemma ReachesNow(env: ArmEnv, t: State)
    ensures A.Reaches(env, t, t)
  {
    assert A.Steps(env, 0, t) == t;
  }

  /** The exit is a state of the original run. */
  lemma {:induction false} ExitReached(s: Setting, k: nat, c: Core)
    requires s.Valid() && AllRelocatable(s.win) && k <= 2 && QuietRun(s, k, c)
    ensures s.area + 4 * k < 0x1_0000_0000 && 0 <= s.area
    ensures A.Reaches(s.Orig(), Run(c, s.area + 4 * k, Arm), OriginalExit(s, k, c).0)
    decreases 2 - k
  {
    hide HoldsWords, Trampoline, InRom, Agree, A.Reaches, A.Step, Left, Called, Relocatable, Quiet, Transfers, Start,
      End;
    Addresses(s, k);
    var here := Run(c, s.area + 4 * k, Arm);
    if k == 2 {
      Addresses(s, 2);
      ReachesNow(s.Orig(), here);
    } else {
      var o := OriginalStep(s, k, c);
      A.ReachesStep(s.Orig(), here, o);
      if !Transfers(s, k, c) {
        AgreesWithItself(s, c);
        var _ := SimulateOne(s, k, c, c);
        ExitReached(s, k + 1, o.core);
        A.ReachesTrans(s.Orig(), here, o, OriginalExit(s, k, c).0);
      }
    }
  }

  /** After a call: when the routine returns in both processes to where LR pointed, with
      cores that agree but for LR, the relocated words again reach what the originals reach,
      and so on for any number of calls. */
  lemma ReturnResumes(s: Setting, k: nat, o: State, r: State, c: Core, c': Core) returns (r': State)
    requires s.Valid() && AllRelocatable(s.win) && k <= 2 && Called(s, o, r, k)
    requires 0 <= s.area && s.area + 4 * k < 0x1_0000_0000 && 0 <= s.buf && s.buf + 4 * Start(s.win, k) < 0x1_0000_0000
    requires A.Reaches(s.Orig(), o, Run(c, s.area + 4 * k, Arm))
    requires A.Reaches(s.Hooked(), r, Run(c', s.buf + 4 * Start(s.win, k), Arm))
    requires AgreeButLr(c, c', s) && QuietRun(AfterCall(s), k, c)
    ensures A.Reaches(s.Hooked(), r, r')
    ensures var (x, k') := OriginalExit(AfterCall(s), k, c);
            A.Reaches(s.Orig(), o, x) && (Left(AfterCall(s), x, r') || Called(AfterCall(s), x, r', k'))
  {
    hide HoldsWords, Trampoline, InRom, Agree, A.Reaches, A.Step, Left, Called, AllRelocatable, QuietRun,
      OriginalExit, Start, End;
    r' := RelocatedRun(AfterCall(s), k, c, c');
    A.ReachesTrans(s.Hooked(), r, Run(c', s.buf + 4 * Start(s.win, k), Arm), r');
    ExitReached(AfterCall(s), k, c);
    A.ReachesTrans(s.Orig(), o, Run(c, s.area + 4 * k, Arm), OriginalExit(AfterCall(s), k, c).0);
  }
}
