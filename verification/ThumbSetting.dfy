/**
  The two machines that the meaning theorem compares, and the original instructions.

  Two machines are compared.  The original one has the displaced instructions in place;
  the relocated one has the trampoline in its buffer (and whatever the hook left at the
  old place).  `hidden` is a set of bytes on which the two memories may differ: all code
  bytes, and the words below the stack pointer that the gadgets use as scratch.  A call
  leaves different return addresses in LR; from there on `link` is false, and LR is not
  compared.
 */
module ThumbSetting {
  import opened Words
  import opened ThumbMachine
  import opened ThumbEncoding
  import opened ThumbSteps
  import opened ThumbGadgets
  import R = ThumbRelocate

  datatype Setting = Setting(
    area: int,          // address of the displaced window
    win: seq<Half>,     // the displaced halfwords
    buf: int,           // address of the trampoline buffer
    rom: Rom,           // code of the original process
    rom': Rom,          // code of the hooked process
    plain: (Half, Half, Core) -> Effect,
    under: (Half, Half, Core) -> Effect,
    hidden: iset<int>,
    link: bool)         // LR is compared as well; after a call it differs
  {
    ghost function Orig(): Env { Env(rom, plain, under) }

    ghost function Hooked(): Env { Env(rom', plain, under) }

    ghost predicate Valid() {
      R.IsWindow(win) && !R.AnyRefused(win, 0) &&
      0 <= area && area % 2 == 0 && area + 2 * |win| + 4 < 0x1_0000_0000 &&
      InSpace(buf, R.Total(win)) &&
      Holds(rom, area, win) &&
      Holds(rom', buf, R.Trampoline(area, win)) &&
      Hides(hidden, rom) && Hides(hidden, rom')
    }
  }

  /** Equal registers and flags, and equal memory outside `hidden`. */
  ghost predicate Agree(c: Core, c': Core, s: Setting) {
    (forall r :: 0 <= r < 15 && (r == LR ==> s.link) ==> c.regs[r] == c'.regs[r]) && c.flags == c'.flags &&
    forall a :: a !in s.hidden ==> ReadRam(c.mem, a) == ReadRam(c'.mem, a)
  }

  /** The same, except for the return address in LR. */
  ghost predicate AgreeButLr(c: Core, c': Core, s: Setting) { Agree(c, c', s.(link := false)) }

  ghost predicate EffectsAgree(e: Effect, e': Effect, s: Setting) {
    match (e, e')
    case (Fall(c), Fall(c')) => Agree(c, c', s)
    case (Goto(c, d), Goto(c', d')) => d == d' && Agree(c, c', s)
    case (Call(c, d), Call(c', d')) => d == d' && Agree(c, c', s)
    case _ => false
  }

  function Mapped(a: int, hs: seq<Half>): Rom {
    map i: int | 0 <= i < |hs| :: a + 2 * i := hs[i]
  }

  lemma MappedHolds(a: int, hs: seq<Half>)
    ensures Holds(Mapped(a, hs), a, hs)
    ensures forall b :: b in Mapped(a, hs) ==> a <= b && b + 2 <= a + 2 * |hs|
  {
  }

  /** Every window that is not refused has a setting, at any addresses and with any further
      hidden bytes: the theorems about settings speak about all of them. */
  lemma SettingExists(area: int, win: seq<Half>, buf: int, plain: (Half, Half, Core) -> Effect,
                      under: (Half, Half, Core) -> Effect, dead: iset<int>)
    returns (s: Setting)
    requires R.IsWindow(win) && !R.AnyRefused(win, 0) && InSpace(buf, R.Total(win))
    requires 0 <= area && area % 2 == 0 && area + 2 * |win| + 4 < 0x1_0000_0000
    ensures s.Valid() && s.area == area && s.win == win && s.buf == buf && s.plain == plain && s.under == under
    ensures s.link && forall a :: a in dead ==> a in s.hidden
    ensures forall a :: a in s.hidden ==>
              a in dead || area <= a < area + 2 * |win| || buf <= a < buf + 2 * R.Total(win)
    ensures forall a :: a in s.rom' ==> buf <= a < buf + 2 * R.Total(win)
  {
    hide R.IsWindow, R.AnyRefused, R.Trampoline, R.Total, InRom, Mapped, Holds, InSpace;
    MappedHolds(area, win);
    MappedHolds(buf, R.Trampoline(area, win));
    var rom, rom' := Mapped(area, win), Mapped(buf, R.Trampoline(area, win));
    var hidden := iset a: int | a in rom || a in rom' || a - 1 in rom || a - 1 in rom' || a in dead;
    s := Setting(area, win, buf, rom, rom', plain, under, hidden, true);
  }

  // ---------------------------------------------------------------- boundaries in the buffer

  ghost predicate Laid(s: Setting, off: nat, start: nat, end: nat) {
    s.Valid() && R.Fits(s.win, off, start, end) && end <= R.Total(s.win) &&
    var p := R.Emit(s.area, s.win, off, start, end);
    Holds(s.rom', s.buf + 2 * start, p.code + R.LongJump(Plus(s.area, 2 * |s.win| + 1))) &&
    Holds(s.rom', s.buf + 2 * (end - |p.pool|), p.pool) &&
    !R.AnyRefused(s.win, off)
  }

  lemma LaidFirst(s: Setting)
    requires s.Valid()
    ensures Laid(s, 0, R.Pad(s.win), R.Total(s.win))
  {
    hide R.Emit, R.LongJump, Holds;
    var p := R.Emit(s.area, s.win, 0, R.Pad(s.win), R.Total(s.win));
    var z, jump := R.Zeros(R.Pad(s.win)), R.LongJump(Plus(s.area, 2 * |s.win| + 1));
    assert R.Trampoline(s.area, s.win) == z + ((p.code + jump) + p.pool);
    HoldsSplit(s.rom', s.buf, z, (p.code + jump) + p.pool);
    HoldsSplit(s.rom', s.buf + 2 * |z|, p.code + jump, p.pool);
  }

  lemma LaidNext(s: Setting, off: nat, start: nat, end: nat)
    requires Laid(s, off, start, end) && off < |s.win|
    ensures var k := R.KindAt(s.win, off);
            R.Room(k, start, end) &&
            Sits(s.rom', s.buf, start, end,
                 R.Gadget(s.win[off], R.Second(s.win, off), Plus(s.area, 2 * off), start, end)) &&
            Laid(s, off + Width(k), start + R.CodeSize(k), end - R.PoolSize(k))
  {
    hide R.Gadget, R.LongJump, Holds, R.Need, Classify, R.IsWindow, R.Trampoline, Hides, InSpace;
    R.FitsRoom(s.win, off, start, end);
    var k := R.KindAt(s.win, off);
    var g := R.Gadget(s.win[off], R.Second(s.win, off), Plus(s.area, 2 * off), start, end);
    var r := R.Emit(s.area, s.win, off + Width(k), start + R.CodeSize(k), end - R.PoolSize(k));
    var jump := R.LongJump(Plus(s.area, 2 * |s.win| + 1));
    assert (g.code + r.code) + jump == g.code + (r.code + jump);
    HoldsSplit(s.rom', s.buf + 2 * start, g.code, r.code + jump);
    HoldsSplit(s.rom', s.buf + 2 * (end - |r.pool + g.pool|), r.pool, g.pool);
  }

  // ---------------------------------------------------------------- the original instruction

  function OriginalInsn(h0: Half, h1: Half): Insn {
    if Is32Bit(h0) then Decode32(h0, h1) else Decode16(h0)
  }

  ghost function OriginalStep(s: Setting, off: nat, c: Core): State
    requires s.Valid() && off < |s.win|
  {
    Step(s.Orig(), Run(c, s.area + 2 * off, Thumb))
  }

  lemma OriginalRuns(s: Setting, off: nat, c: Core)
    requires s.Valid() && off < |s.win| && off + R.WidthAt(s.win, off) <= |s.win|
    ensures OriginalStep(s, off, c)
            == Exec(s.Orig(), OriginalInsn(s.win[off], R.Second(s.win, off)), c, s.area + 2 * off,
                    2 * R.WidthAt(s.win, off))
  {
    hide Exec, Decode16, Decode32, Step, R.IsWindow, R.AnyRefused, R.Trampoline, R.Total;
    var pc := s.area + 2 * off;
    var i := OriginalInsn(s.win[off], R.Second(s.win, off));
    HoldsAt(s.rom, s.area, s.win, off);
    if Is32(s.win[off]) {
      HoldsAt(s.rom, s.area, s.win, off + 1);
      StepWide(s.Orig(), c, pc, i);
    } else {
      StepNarrow(s.Orig(), c, pc, i);
    }
  }

  /** The same instruction in an IT block. */
  ghost function UnderStep(s: Setting, off: nat, c: Core, it: nat): State
    requires s.Valid() && off < |s.win|
  {
    Step(s.Orig(), Run(c, s.area + 2 * off, Thumb, it))
  }

  lemma UnderRuns(s: Setting, off: nat, c: Core, it: nat)
    requires s.Valid() && off < |s.win| && off + R.WidthAt(s.win, off) <= |s.win| && it != 0
    ensures UnderStep(s, off, c, it)
            == ExecUnder(s.Orig(), OriginalInsn(s.win[off], R.Second(s.win, off)), c, s.area + 2 * off,
                         2 * R.WidthAt(s.win, off), it)
  {
    hide ExecUnder, Decode16, Decode32, Step, R.IsWindow, R.AnyRefused, R.Trampoline, R.Total;
    var pc := s.area + 2 * off;
    HoldsAt(s.rom, s.area, s.win, off);
    if Is32(s.win[off]) {
      HoldsAt(s.rom, s.area, s.win, off + 1);
    }
    StepUnder(s.Orig(), c, pc, it, OriginalInsn(s.win[off], R.Second(s.win, off)), Is32(s.win[off]));
  }

  // What the architecture decodes for each kind, in the fields the relocator reads.

  lemma LdrDecoded(h0: Half, h1: Half)
    requires Classify(h0, h1) == KLdr
    ensures OriginalInsn(h0, h1) == LdrLit(h0 / 0x100 % 8, h0 % 0x100 * 4)
  {
  }

  lemma BDecoded(h0: Half, h1: Half)
    requires Classify(h0, h1) == KB
    ensures h0 / 0x100 % 16 < 14
    ensures OriginalInsn(h0, h1) == BCond(h0 / 0x100 % 16, R.BJump(h0) - 1)
  {
    var top := h0 / 0x100;
    assert 0xd0 <= top < 0xde by {
      assert h0 / 0x1000 == top / 16 && h0 / 0x200 == top / 2;
    }
  }

  lemma WideBDecoded(h0: Half, h1: Half)
    requires Classify(h0, h1) == KWideB && h1 / 0x1000 % 2 == 0
    ensures h0 / 0x40 % 16 < 14
    ensures OriginalInsn(h0, h1) == BCond(h0 / 0x40 % 16, R.WideBJump(h0, h1) - 1)
  {
    assert h0 / 0x80 == h0 / 0x40 / 2;
  }

  lemma WideBAlwaysDecoded(h0: Half, h1: Half)
    requires Classify(h0, h1) == KWideB && h1 / 0x1000 % 2 == 1
    ensures OriginalInsn(h0, h1) == B(R.WideBJump(h0, h1) - 1)
  {
    hide Signed;
    var s, j1, j2 := h0 / 0x400 % 2, h1 / 0x2000 % 2, h1 / 0x800 % 2;
    assert h0 % 0x400 == h0 % 0x40 + h0 / 0x40 % 16 * 0x40 by { SplitField(h0); }
    var k := s * 0x80_0000 + R.Xnor(s, j1) * 0x40_0000 + R.Xnor(s, j2) * 0x20_0000 + h0 % 0x400 * 0x800 + h1 % 0x800;
    assert BranchOffset24(h0, h1) == Signed(2 * k, 0x200_0000);
    assert R.WideBJump(h0, h1) == Signed(2 * k + 1, 4 * 0x80_0000);
    SignedSuccessor(k, 0x80_0000);
    WideOpcode(h0, h1);
  }

  lemma SplitField(h0: Half)
    ensures h0 % 0x400 == h0 % 0x40 + h0 / 0x40 % 16 * 0x40
  {
  }

  lemma WideOpcode(h0: Half, h1: Half)
    requires IsWideB(h0, h1) && h1 / 0x1000 % 2 == 1
    ensures Is32Bit(h0) && Decode32(h0, h1) == B(BranchOffset24(h0, h1))
  {
    hide BranchOffset24;
    assert h1 / 0x8000 == 1;
  }

  lemma BlDecoded(h0: Half, h1: Half)
    requires Classify(h0, h1) == KBl
    ensures h1 / 0x1000 % 2 == 1 ==> OriginalInsn(h0, h1) == Bl(R.BlJump(h0, h1) - 1)
    ensures h1 / 0x1000 % 2 == 0 ==>
              OriginalInsn(h0, h1) == BlxImm(R.BlJump(h0, h1)) && R.BlJump(h0, h1) % 4 == 0
  {
    hide Signed;
    var s, j1, j2 := h0 / 0x400 % 2, h1 / 0x2000 % 2, h1 / 0x800 % 2;
    var k := s * 0x80_0000 + R.Xnor(s, j1) * 0x40_0000 + R.Xnor(s, j2) * 0x20_0000 + h0 % 0x400 * 0x800 + h1 % 0x800;
    assert BranchOffset24(h0, h1) == Signed(2 * k, 0x200_0000);
    assert R.BlJump(h0, h1) == Signed(2 * k + h1 / 0x1000 % 2, 0x200_0000);
    BlOpcode(h0, h1);
    if h1 / 0x1000 % 2 == 1 {
      SignedSuccessor(k, 0x80_0000);
      assert Signed(2 * k + 1, 0x200_0000) == Signed(2 * k + 1, 4 * 0x80_0000);
      assert Signed(2 * k, 0x200_0000) == Signed(2 * k, 4 * 0x80_0000);
    } else {
      var m := s * 0x40_0000 + R.Xnor(s, j1) * 0x20_0000 + R.Xnor(s, j2) * 0x10_0000 + h0 % 0x400 * 0x400
               + h1 % 0x800 / 2;
      assert h1 % 0x800 == 2 * (h1 % 0x800 / 2) by { EvenField(h1); }
      SignedQuad(m, 0x80_0000);
      assert Signed(2 * k, 0x200_0000) == Signed(4 * m, 4 * 0x80_0000);
    }
  }

  lemma EvenField(h1: Half)
    requires h1 % 2 == 0
    ensures h1 % 0x800 % 2 == 0
  {
    var k, q := h1 / 2, h1 / 0x800;
    assert h1 == 2 * k && h1 % 0x800 == 2 * (k - 0x400 * q);
    TwiceIsEven(h1 % 0x800, k - 0x400 * q);
  }

  lemma BlOpcode(h0: Half, h1: Half)
    requires IsBl(h0, h1)
    ensures Is32Bit(h0)
    ensures h1 / 0x1000 % 2 == 1 ==> Decode32(h0, h1) == Bl(BranchOffset24(h0, h1))
    ensures h1 / 0x1000 % 2 == 0 ==> h1 % 2 == 0 && Decode32(h0, h1) == BlxImm(BranchOffset24(h0, h1))
  {
    hide BranchOffset24;
    var t := h1 / 0x1000;
    assert t >= 12;
    assert h1 / 0x8000 == 1;
  }

  lemma SignedSuccessor(k: int, m: int)
    requires 0 < m
    ensures Signed(2 * k + 1, 4 * m) == Signed(2 * k, 4 * m) + 1
  {
  }

  lemma SignedQuad(k: int, m: int)
    requires 0 < m
    ensures Signed(4 * k, 4 * m) % 4 == 0
  {
    FourTimes(4 * k, k);
    FourTimes(4 * k - 4 * m, k - m);
  }

  lemma CbzDecoded(h0: Half, h1: Half)
    requires Classify(h0, h1) == KCbz
    ensures OriginalInsn(h0, h1) == Cbz(h0 / 0x800 % 2 == 1, h0 % 8, R.CbzJump(h0) - 1)
  {
    var top := h0 / 0x100;
    assert h0 / 0x1000 == top / 16 && h0 / 0x400 == top / 4 && h0 / 0x800 == top / 8 && h0 / 0x200 == top / 2;
  }

  lemma LdrWDecoded(h0: Half, h1: Half)
    requires Classify(h0, h1) == KLdrW
    ensures OriginalInsn(h0, h1)
            == LdrLit(h1 / 0x1000, if h0 / 0x80 % 2 == 0 then -(h1 % 0x1000) else h1 % 0x1000)
  {
  }

  lemma AddDecoded(h0: Half, h1: Half)
    requires Classify(h0, h1) == KAdd && !R.Refused(h0, h1)
    ensures OriginalInsn(h0, h1) == AddReg(h0 % 8, PC)
  {
  }
}
