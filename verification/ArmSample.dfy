/**
  What ArmMeaning asks of the two displaced words can be met: a call and a literal load, at
  any addresses that do not overlap.
 */
module ArmSample {
  import opened Words
  import opened ThumbMachine
  import opened ArmRelocate
  import opened ArmMedia
  import opened A = ArmMachine
  import opened ArmMeaning
  import S = ThumbSteps

  const BLX_R0: Word := 0xe12f_ff30

  /** `blx r0` and `ldr r1, [pc, #4]`. */
  function Sample(): seq<Word> { [BLX_R0, LdrPc(1, 4)] }

  /** A copied word that the machine leaves to its parameter. */
  predicate IsCopied(ic: Word) {
    !IsPcRel(ic) && !ReadsPc(ic) && !Unpredictable(ic) && !IsStack(ic) && !IsTransfer(ic) && !IsMedia(ic)
  }

  lemma CallFields()
    ensures IsCopied(BLX_R0)
  {
    PartsAre(BLX_R0, 0xe12, 15, 0xff30);
  }

  /** A load into r1 of the word that lies twelve bytes behind it. */
  predicate IsLiteral(ic: Word) {
    IsPcRel(ic) && IsSimple(ic) && !IsMedia(ic) && IsLoad(ic) && !IsByte(ic) && IsUp(ic) && !IsRegister(ic) &&
    Cond(ic) == 14 && Rd(ic) == 1 && Lo(ic) % 0x1000 == 4
  }

  lemma LoadFields()
    ensures IsLiteral(LdrPc(1, 4))
  {
    hide LdrPc;
    LdrPcFields(1, 4);
    SimpleOrMedia(LdrPc(1, 4));
  }

  lemma ViewAgrees(s: Setting, c: Core, d: Core)
    requires s.Valid() && Agree(c, d, s)
    ensures Agree(c.(mem := View(s.rom, c.mem)), d.(mem := View(s.rom', d.mem)), s)
  {
    hide Setting.Valid, LoadByte;
    forall b | b !in s.hidden ensures ReadRam(View(s.rom, c.mem), b) == ReadRam(View(s.rom', d.mem), b) {
      SameByte(s, c, d, b);
    }
  }

  ghost predicate CallsR0(plain: (Word, Core) -> Effect, ic: Word) {
    forall core: Core :: plain(ic, core) == Call(core, core.regs[0])
  }

  /** The setting is laid out for a call through r0 and a literal load. */
  ghost predicate Placed(s: Setting) {
    s.Valid() && IsCopied(s.win[0]) && IsLiteral(s.win[1]) && CallsR0(s.plain, s.win[0]) && s.area + 20 <= s.buf &&
    forall a :: a in s.hidden ==> s.area <= a < s.area + 8 || s.buf <= a
  }

  lemma PlacedRelocatable(s: Setting)
    requires Placed(s)
    ensures AllRelocatable(s.win)
  {
    hide HoldsWords, Trampoline, Hides, CodeAddress, IsPcRel, ReadsPc, Unpredictable, IsStack, IsTransfer, IsMedia,
      IsSimple;
    var w := s.win[1];
    assert !Guarded(w);
  }

  lemma CallQuiet(s: Setting, c: Core)
    requires Placed(s) && AllRelocatable(s.win)
    ensures Quiet(s, 0, c) && Transfers(s, 0, c)
  {
    hide HoldsWords, Trampoline, Hides, CodeAddress, IsPcRel, ReadsPc, Unpredictable, IsStack, IsTransfer, IsMedia,
      IsSimple, Agree, View;
    var ic := s.win[0];
    forall d: Core | Agree(c, d, s)
      ensures EffectsAgree(WordEffect(s.Orig(), ic, c), WordEffect(s.Hooked(), ic, d), s)
    {
      ViewAgrees(s, c, d);
      SameFirst(s, c, d);
    }
  }

  lemma SameFirst(s: Setting, c: Core, d: Core)
    requires Agree(c, d, s)
    ensures c.regs[0] == d.regs[0]
  {
    hide ReadRam;
  }

  lemma LoadQuiet(s: Setting, c: Core)
    requires Placed(s) && AllRelocatable(s.win)
    ensures Quiet(s, 1, c)
  {
    hide HoldsWords, Trampoline, Hides, CodeAddress, IsPcRel, ReadsPc, Unpredictable, IsStack, IsTransfer, IsMedia,
      IsSimple, Plus, InWord;
    AlwaysHolds(c.flags);
    LiteralAt(s);
    S.WordSpan(s.area + 16);
  }

  lemma LiteralAt(s: Setting)
    requires s.Valid() && s.area + 20 <= s.buf
    ensures Plus(LiteralOf(s, 1), 4) == s.area + 16 && s.area + 20 <= 0x1_0000_0000
  {
    hide HoldsWords, Trampoline, Hides;
  }

  lemma PlacedIsQuiet(s: Setting, c: Core)
    requires Placed(s)
    ensures AllRelocatable(s.win) && QuietRun(s, 0, c) && OriginalExit(s, 0, c).1 == 1
    ensures forall d: Core :: QuietRun(AfterCall(s), 1, d)
  {
    hide Placed, Setting.Valid, AllRelocatable, Quiet, Transfers;
    PlacedRelocatable(s);
    PlacedAfter(s);
    CallQuiet(s, c);
    forall d: Core ensures QuietRun(AfterCall(s), 1, d) {
      LoadQuiet(AfterCall(s), d);
    }
  }

  /** Before the call and after it the theorems have something to say, from every core. */
  lemma SampleIsQuiet(area: int, buf: int, plain: (Word, Core) -> Effect, c: Core) returns (s: Setting)
    requires CodeAddress(area) && CodeAddress(buf) && area + 20 <= buf && buf + 64 <= 0x1_0000_0000
    requires CallsR0(plain, BLX_R0)
    ensures s.Valid() && s.area == area && s.buf == buf && s.plain == plain && s.link && AllRelocatable(s.win)
    ensures QuietRun(s, 0, c) && OriginalExit(s, 0, c).1 == 1
    ensures forall d: Core :: QuietRun(AfterCall(s), 1, d)
    ensures s.win == Sample()
  {
    hide Placed, Setting.Valid, AllRelocatable, QuietRun, OriginalExit, LdrPc;
    s := PlacedExists(area, buf, plain);
    PlacedAfter(s);
    PlacedIsQuiet(s, c);
  }

  lemma PlacedAfter(s: Setting)
    requires Placed(s)
    ensures Placed(AfterCall(s)) && s.Valid() && AfterCall(s).Valid()
  {
    hide HoldsWords, Trampoline, Hides, CodeAddress, IsCopied, IsLiteral;
  }

  lemma PlacedExists(area: int, buf: int, plain: (Word, Core) -> Effect) returns (s: Setting)
    requires CodeAddress(area) && CodeAddress(buf) && area + 20 <= buf && buf + 64 <= 0x1_0000_0000
    requires CallsR0(plain, BLX_R0)
    ensures Placed(s) && s.area == area && s.win == Sample() && s.buf == buf && s.plain == plain && s.link
  {
    hide Setting.Valid, LdrPc, IsCopied, IsLiteral, CallsR0;
    CallFields();
    LoadFields();
    s := SettingExists(area, Sample(), buf, plain, iset{});
  }
}
