/**
  What ThumbMeaning asks of a displaced window can be met: a window with a literal load, an
  IT block and a call, at any addresses that do not overlap.
 */
module ThumbSample {
  import opened Words
  import opened ThumbMachine
  import opened ThumbEncoding
  import opened ThumbSteps
  import opened ThumbGadgets
  import opened ThumbSetting
  import opened ThumbMeaning
  import R = ThumbRelocate

  /** `ldr r0, [pc, #8]`, `it eq`, `moveq r0, r8`, `bl` to the next instruction, and a `mov`
      that does nothing. */
  function Sample(): seq<Half> { [0x4802, 0xbf08, 0x4640, 0xf000, 0xf800, NOP] }

  /** The 16-bit instruction `i`, which is copied. */
  predicate IsCopied(h: Half, h1: Half, i: Insn) {
    Classify(h, h1) == KCopy16 && OriginalInsn(h, h1) == i && Decode16(h) == i && !R.Refused(h, h1)
  }

  lemma LoadKind(h1: Half)
    ensures Classify(0x4802, h1) == KLdr && !R.Refused(0x4802, h1)
  {
  }

  lemma BlockKind(h1: Half)
    ensures IsCopied(0xbf08, h1, It(8))
  {
  }

  lemma MoveKind(h1: Half)
    ensures IsCopied(0x4640, h1, MovReg(0, 8))
  {
  }

  lemma CallKind()
    ensures Classify(0xf000, 0xf800) == KBl && !R.Refused(0xf000, 0xf800)
  {
  }

  lemma LastKind(h1: Half)
    ensures IsCopied(NOP, h1, MovReg(8, 8))
  {
  }

  lemma SampleKinds()
    ensures var w := Sample();
            R.KindAt(w, 0) == KLdr && IsCopied(w[1], w[2], It(8)) && IsCopied(w[2], w[3], MovReg(0, 8)) &&
            R.KindAt(w, 3) == KBl && IsCopied(w[5], 0, MovReg(8, 8)) && !R.Refused(w[0], w[1]) && !R.Refused(w[3], w[4])
  {
    hide Classify, IsCopied, R.Refused;
    LoadKind(0xbf08);
    BlockKind(0x4640);
    MoveKind(0xf000);
    CallKind();
    LastKind(0);
  }

  lemma SampleIsWindow()
    ensures R.IsWindow(Sample()) && !R.AnyRefused(Sample(), 0) && R.Splits(Sample(), 0, 6)
    ensures R.WidthAt(Sample(), 0) == 1 && R.WidthAt(Sample(), 1) == 1 && R.WidthAt(Sample(), 2) == 1 &&
            R.WidthAt(Sample(), 3) == 2 && R.WidthAt(Sample(), 5) == 1
  {
    hide Classify, OriginalInsn, Decode16, R.Refused;
    SampleKinds();
    var w := Sample();
    assert R.KindAt(w, 5) == KCopy16 && R.KindAt(w, 2) == KCopy16 && R.KindAt(w, 1) == KCopy16;
    assert !R.AnyRefused(w, 6);
    assert !R.AnyRefused(w, 5);
    assert !R.AnyRefused(w, 3);
    assert !R.AnyRefused(w, 2);
    assert !R.AnyRefused(w, 1);
    assert R.Splits(w, 6, 6) && R.Splits(w, 5, 6) && R.Splits(w, 3, 6) && R.Splits(w, 2, 6) && R.Splits(w, 1, 6);
  }

  lemma SampleRelocatable(area: int)
    ensures AllRelocatable(area, Sample(), 0)
  {
    hide Classify, OriginalInsn, Decode16, Decode32, R.Refused, R.Need;
    SampleKinds();
    SampleIsWindow();
    var w := Sample();
    assert AllRelocatable(area, w, 6);
    assert AllRelocatable(area, w, 5);
    assert AllRelocatable(area, w, 3);
    assert AllRelocatable(area, w, 2, 8);
    assert AllRelocatable(area, w, 1);
  }

  /** The bytes of the word below the stack pointer. */
  ghost function Below(c: Core): iset<int> { iset b: int | IsBelow(c.regs[SP], b) }

  ghost predicate IsBelow(sp: Word, b: int) { sp - 4 <= b < sp }

  /** The literal, the code and the stack lie apart. */
  ghost predicate Apart(area: int, buf: int, c: Core) {
    0 <= area && area % 4 == 0 && area + 16 <= buf && InSpace(buf, R.Total(Sample())) &&
    buf + 2 * R.Total(Sample()) + 8 <= c.regs[SP]
  }

  /** The setting is laid out for a run with this stack pointer. */
  ghost predicate Placed(s: Setting, c: Core) {
    s.Valid() && s.win == Sample() && Apart(s.area, s.buf, c) &&
    (forall a :: a in s.hidden ==>
       a in Below(c) || s.area <= a < s.area + 12 || s.buf <= a < s.buf + 2 * R.Total(Sample())) &&
    (forall a :: a in Below(c) ==> a in s.hidden) &&
    forall a :: a in s.rom' ==> s.buf <= a < s.buf + 2 * R.Total(Sample())
  }

  lemma LoadQuiet(s: Setting, c: Core)
    requires Placed(s, c)
    ensures Quiet(s, 0, c) && !Transfers(s, 0, c)
  {
    hide Classify, R.Refused, OriginalInsn, R.IsWindow, R.AnyRefused, R.Total, R.Trampoline, Holds, Hides, Plus, InWord,
      Align4, IsCopied, Setting.Valid, Below;
    SampleKinds();
    PlusSmall(s.area, 0);
    LiteralAt(s.area);
    WordSpan(s.area + 12);
    NotBelow(c);
  }

  lemma NotBelow(c: Core)
    ensures forall b: int :: b + 4 < c.regs[SP] ==> b !in Below(c)
  {
  }

  lemma LoadStep(s: Setting, c: Core)
    requires s.Valid() && s.win == Sample()
    ensures var o := OriginalStep(s, 0, c); o.Run? && o.it == 0 && o.core.regs[SP] == c.regs[SP]
  {
    hide Classify, R.Refused, OriginalInsn, OriginalStep, R.IsWindow, R.AnyRefused, R.Total, R.Trampoline, Holds, Hides,
      LoadWord, Plus, Align4, IsCopied;
    SampleKinds();
    SampleIsWindow();
    OriginalRuns(s, 0, c);
    LdrDecoded(0x4802, 0xbf08);
  }

  lemma LiteralAt(area: int)
    requires 0 <= area && area % 4 == 0 && area + 16 < 0x1_0000_0000
    ensures Plus(Align4(Plus(area, 4)), 8) == area + 12
  {
    hide Align4, Plus;
    PlusSmall(area, 4);
    FourTimes(area + 4, area / 4 + 1);
    PlusSmall(area + 4, 8);
  }

  lemma BlockStep(s: Setting, c: Core)
    requires Placed(s, c)
    ensures Quiet(s, 1, c) && !Transfers(s, 1, c)
    ensures var o := OriginalStep(s, 1, c); o.Run? && o.it == 8 && o.core == c
  {
    hide Classify, R.Refused, OriginalStep, OriginalInsn, Decode16, R.IsWindow, R.AnyRefused, R.Total, R.Trampoline,
      Holds, Hides, InSpace, Below, Apart;
    SampleKinds();
    SampleIsWindow();
    OriginalRuns(s, 1, c);
  }

  lemma MoveStep(s: Setting, c: Core)
    requires Placed(s, c)
    ensures QuietUnder(s, 2, c, 8) && !TransfersUnder(s, 2, c, 8)
    ensures var o := UnderStep(s, 2, c, 8); o.Run? && o.it == 0 && o.core.regs[SP] == c.regs[SP]
  {
    hide Classify, R.Refused, UnderStep, OriginalInsn, Decode16, R.IsWindow, R.AnyRefused, R.Total, R.Trampoline,
      Holds, Hides, ConditionHolds, Agree;
    SampleKinds();
    SampleIsWindow();
    UnderRuns(s, 2, c, 8);
    MoveOblivious(s, 0, c);
  }

  /** A move from r8 reads nothing hidden. */
  lemma MoveOblivious(s: Setting, rd: int, c: Core)
    requires 0 <= rd < 9
    ensures forall c': Core :: Agree(c, c', s) ==>
              EffectsAgree(PlainEffect(s.Orig(), MovReg(rd, 8), c), PlainEffect(s.Hooked(), MovReg(rd, 8), c'), s)
  {
    hide Agree;
    forall c': Core | Agree(c, c', s)
      ensures EffectsAgree(PlainEffect(s.Orig(), MovReg(rd, 8), c), PlainEffect(s.Hooked(), MovReg(rd, 8), c'), s)
    {
      SameEight(s, c, c');
      SetAgrees(s, c, c', rd, c.regs[8]);
    }
  }

  lemma SameEight(s: Setting, c: Core, c': Core)
    requires Agree(c, c', s)
    ensures c.regs[8] == c'.regs[8]
  {
    hide ReadRam;
  }

  lemma CallQuiet(s: Setting, c: Core)
    requires Placed(s, c)
    ensures Quiet(s, 3, c) && Transfers(s, 3, c)
  {
    hide Classify, R.Refused, OriginalInsn, R.IsWindow, R.AnyRefused, R.Total, R.Trampoline, Holds, Hides, Plus, InWord;
    SampleKinds();
    PlusBack(c.regs[SP]);
    WordSpan(c.regs[SP] - 4);
  }

  lemma PlusBack(sp: Word)
    requires 4 <= sp
    ensures Plus(sp, -4) == sp - 4
  {
  }

  lemma FirstQuiet(s: Setting, c: Core)
    requires Placed(s, c) && R.Splits(s.win, 0, |s.win|)
    ensures QuietRun(s, 0, c) && OriginalExit(s, 0, c).1 == 5
  {
    hide Placed, Quiet, Transfers, QuietUnder, TransfersUnder, OriginalStep, UnderStep, Setting.Valid, R.Splits,
      Classify;
    SampleIsWindow();
    PlacedFacts(s, c);
    LoadQuiet(s, c);
    LoadStep(s, c);
    var c1 := OriginalStep(s, 0, c).core;
    StaysPlaced(s, c, c1);
    BlockStep(s, c1);
    MoveStep(s, c1);
    var c2 := UnderStep(s, 2, c1, 8).core;
    StaysPlaced(s, c, c2);
    CallQuiet(s, c2);
    CutAt(s.win);
    assert QuietRun(s, 3, c2) && OriginalExit(s, 3, c2).1 == 5;
    assert QuietRun(s, 2, c1, 8) && OriginalExit(s, 2, c1, 8).1 == 5;
    assert QuietRun(s, 1, c1) && OriginalExit(s, 1, c1).1 == 5;
  }

  lemma PlacedFacts(s: Setting, c: Core)
    requires Placed(s, c)
    ensures s.Valid() && s.win == Sample()
  {
    hide Setting.Valid, Apart, Below;
  }

  lemma CutAt(w: seq<Half>)
    requires w == Sample()
    ensures R.Splits(w, 1, 6) && R.Splits(w, 2, 6) && R.Splits(w, 3, 6) && R.Splits(w, 5, 6)
  {
    SampleIsWindow();
    assert R.Splits(w, 5, 6);
  }

  lemma StaysPlaced(s: Setting, c: Core, d: Core)
    requires Placed(s, c) && d.regs[SP] == c.regs[SP]
    ensures Placed(s, d)
  {
    hide Setting.Valid, R.Total;
  }

  lemma StaysValid(s: Setting)
    requires s.Valid()
    ensures AfterCall(s).Valid()
  {
    hide R.IsWindow, R.AnyRefused, R.Total, R.Trampoline, Holds, Hides;
  }

  lemma LastQuiet(s: Setting, d: Core)
    requires s.Valid() && s.win == Sample()
    ensures QuietRun(s, 5, d)
  {
    hide Classify, R.Refused, OriginalStep, OriginalInsn, Decode16, R.IsWindow, R.AnyRefused, R.Total, R.Trampoline,
      Holds, Hides, Agree;
    SampleKinds();
    SampleIsWindow();
    MoveOblivious(s, 8, d);
  }

  lemma PlacedExists(area: int, buf: int, plain: (Half, Half, Core) -> Effect, under: (Half, Half, Core) -> Effect,
                     c: Core)
    returns (s: Setting)
    requires Apart(area, buf, c)
    ensures Placed(s, c) && s.area == area && s.buf == buf && s.plain == plain && s.under == under && s.link
  {
    hide Setting.Valid, R.IsWindow, R.AnyRefused, R.Total, R.Splits, InSpace, Below;
    SampleIsWindow();
    TwiceIsEven(area, 2 * (area / 4));
    assert |Sample()| == 6;
    s := SettingExists(area, Sample(), buf, plain, under, Below(c));
  }

  /** In a window with a call the theorems have something to say, before the call and after
      it, from every core and in every meaning of the other instructions. */
  lemma SampleIsQuiet(area: int, buf: int, plain: (Half, Half, Core) -> Effect,
                      under: (Half, Half, Core) -> Effect, c: Core)
    returns (s: Setting)
    requires Apart(area, buf, c)
    ensures s.Valid() && s.area == area && s.win == Sample() && s.buf == buf && s.plain == plain && s.under == under
    ensures s.link && AllRelocatable(area, Sample(), 0) && QuietRun(s, 0, c)
    ensures R.Splits(s.win, 0, |s.win|) && OriginalExit(s, 0, c).1 == 5
    ensures forall d: Core :: QuietRun(AfterCall(s), 5, d)
  {
    hide Placed, Apart, QuietRun, OriginalExit, Setting.Valid, AllRelocatable, R.IsWindow, R.AnyRefused, R.Total,
      R.Splits;
    SampleIsWindow();
    SampleRelocatable(area);
    s := PlacedExists(area, buf, plain, under, c);
    PlacedFacts(s, c);
    FirstQuiet(s, c);
    StaysValid(s);
    forall d: Core ensures QuietRun(AfterCall(s), 5, d) {
      LastQuiet(AfterCall(s), d);
    }
  }
}
