/**
  What the machine does on each halfword the relocator emits: the encoders of
  ThumbEncoding against the decoder and the step function of ThumbMachine.
 */
module ThumbSteps {
  import opened Words
  import opened ThumbMachine
  import opened ThumbEncoding
  import R = ThumbRelocate

  /** The halfwords `hs` are mapped as code from address `a` on. */
  ghost predicate Holds(rom: Rom, a: int, hs: seq<Half>) {
    forall i {:trigger hs[i]} :: 0 <= i < |hs| ==> a + 2 * i in rom && rom[a + 2 * i] == hs[i]
  }

  lemma HoldsSplit(rom: Rom, a: int, x: seq<Half>, y: seq<Half>)
    requires Holds(rom, a, x + y)
    ensures Holds(rom, a, x) && Holds(rom, a + 2 * |x|, y)
  {
    forall i | 0 <= i < |x| ensures a + 2 * i in rom && rom[a + 2 * i] == x[i] {
      assert (x + y)[i] == x[i];
    }
    forall i | 0 <= i < |y| ensures a + 2 * |x| + 2 * i in rom && rom[a + 2 * |x| + 2 * i] == y[i] {
      assert (x + y)[|x| + i] == y[i];
    }
  }

  /** Every address that the gadgets touch is below the top of the address space. */
  ghost predicate CodeAddress(a: int) {
    0 <= a && a % 2 == 0 && a + 16 <= 0x1_0000_0000
  }

  // ---------------------------------------------------------------- memory

  ghost predicate WordAddress(a: int) {
    0 <= a && a % 2 == 0 && a + 4 <= 0x1_0000_0000
  }

  lemma LoadsCodeWord(rom: Rom, m: Memory, a: int, w: Word)
    requires WordAddress(a) && Holds(rom, a, R.Pair(w))
    ensures LoadWord(rom, m, a) == w
  {
    hide R.Pair;
    var p := R.Pair(w);
    HoldsAt(rom, a, p, 0);
    HoldsAt(rom, a, p, 1);
    LoadsHalf(rom, m, a);
    LoadsHalf(rom, m, a + 2);
    assert Plus(a, 1) == a + 1 && Plus(a, 2) == a + 2 && Plus(a, 3) == a + 2 + 1;
  }

  lemma LoadsHalf(rom: Rom, m: Memory, a: int)
    requires a % 2 == 0 && a in rom
    ensures LoadByte(rom, m, a) + 0x100 * LoadByte(rom, m, a + 1) == rom[a]
  {
    assert (a + 1) % 2 == 1 && a + 1 - 1 == a;
  }

  lemma DistinctBytes(a: Word)
    ensures var b, c, d := Plus(a, 1), Plus(a, 2), Plus(a, 3);
            a != b && a != c && a != d && b != c && b != d && c != d
  {
  }

  lemma WordSpan(a: Word)
    requires a + 4 <= 0x1_0000_0000
    ensures forall b :: InWord(a, b) ==> a <= b < a + 4
  {
  }

  lemma LoadsStoredWord(rom: Rom, m: Memory, a: Word, w: Word)
    requires forall b :: InWord(a, b) ==> !InRom(rom, b)
    ensures LoadWord(rom, StoreWord(m, a, w), a) == w
  {
    hide Plus, InRom, ByteAt, WordOfBytes;
    assert InWord(a, a) && InWord(a, Plus(a, 1)) && InWord(a, Plus(a, 2)) && InWord(a, Plus(a, 3));
    DistinctBytes(a);
    WordBytesRoundTrip(w);
  }

  lemma StoreElsewhere(m: Memory, a: Word, w: Word, b: int)
    requires !InWord(a, b)
    ensures ReadRam(StoreWord(m, a, w), b) == ReadRam(m, b)
  {
  }

  lemma FiveBits(top: int, n: int, z: int, c: int, v: int, q: int)
    requires 0 <= n < 2 && 0 <= z < 2 && 0 <= c < 2 && 0 <= v < 2 && 0 <= q < 2
    requires top == 16 * n + 8 * z + 4 * c + 2 * v + q
    ensures top / 16 == n && top / 8 % 2 == z && top / 4 % 2 == c && top / 2 % 2 == v && top % 2 == q
  {
    assert top / 2 == 8 * n + 4 * z + 2 * c + v;
    assert top / 4 == 4 * n + 2 * z + c;
    assert top / 8 == 2 * n + z;
  }

  lemma DivTop(w: int, top: int, r: int)
    requires w == 0x0800_0000 * top + r && 0 <= r < 0x0800_0000
    ensures w / 0x0800_0000 == top
  {
  }

  lemma DivHalf(w: int, h: int)
    requires w == 0x1_0000 * h
    ensures w / 0x1_0000 == h
  {
  }

  lemma ModSixteen(h: int, k: int, ge: int)
    requires h == 16 * k + ge && 0 <= ge < 16
    ensures h % 16 == ge
  {
  }

  lemma FlagFields(w: int, top: int, ge: int)
    requires 0 <= top && 0 <= ge < 16 && w == 0x0800_0000 * top + 0x1_0000 * ge
    ensures w / 0x0800_0000 == top && w / 0x1_0000 % 16 == ge
  {
    DivTop(w, top, 0x1_0000 * ge);
    DivHalf(w, 0x800 * top + ge);
    ModSixteen(0x800 * top + ge, 128 * top, ge);
  }

  lemma FlagsRoundTrip(f: Apsr)
    ensures UnpackFlags(PackFlags(f)) == f
  {
    var n, z, c, v, q := BoolBit(f.n), BoolBit(f.z), BoolBit(f.c), BoolBit(f.v), BoolBit(f.q);
    FiveBits(16 * n + 8 * z + 4 * c + 2 * v + q, n, z, c, v, q);
    FlagFields(PackFlags(f), 16 * n + 8 * z + 4 * c + 2 * v + q, f.ge);
  }

  lemma HoldsAt(rom: Rom, a: int, hs: seq<Half>, i: nat)
    requires Holds(rom, a, hs) && i < |hs|
    ensures a + 2 * i in rom && rom[a + 2 * i] == hs[i]
  {
  }

  // ---------------------------------------------------------------- decoding what is encoded

  /** A halfword by its two bytes. */
  lemma TwoBytes(h: int, top: int, low: int)
    requires h == 0x100 * top + low && 0 <= low < 0x100
    ensures h / 0x100 == top && h % 0x100 == low
  {
  }

  lemma PushDecodes(r: int)
    requires 0 <= r < 8
    ensures Decode16(PushHalf(r)) == Push(r) && !Is32Bit(PushHalf(r))
    ensures Decode16(PopHalf(r)) == Pop(r) && !Is32Bit(PopHalf(r))
  {
  }

  lemma HighRegisters(h: Half, top: int, rd: int, rm: int)
    requires 0 <= rd < 16 && 0 <= rm < 16
    requires h == 0x100 * top + rd / 8 * 0x80 + rm * 8 + rd % 8
    ensures h / 0x100 == top && h / 0x80 % 2 * 8 + h % 8 == rd && h / 8 % 16 == rm
  {
    var d := rd / 8;
    var e := rd % 8;
    TwoBytes(h, top, d * 0x80 + rm * 8 + e);
    assert h / 0x80 == 2 * top + d;
    assert h / 8 == 0x20 * top + 0x10 * d + rm;
    assert h % 8 == e;
  }

  lemma MovDecodes(rd: int, rm: int)
    requires 0 <= rd < 16 && 0 <= rm < 16
    ensures Decode16(MovHalf(rd, rm)) == MovReg(rd, rm) && !Is32Bit(MovHalf(rd, rm))
  {
    HighRegisters(MovHalf(rd, rm), 0x46, rd, rm);
  }

  lemma AddDecodes(rd: int, rm: int)
    requires 0 <= rd < 16 && 0 <= rm < 16
    ensures Decode16(AddHalf(rd, rm)) == AddReg(rd, rm) && !Is32Bit(AddHalf(rd, rm))
  {
    HighRegisters(AddHalf(rd, rm), 0x44, rd, rm);
  }

  lemma BxDecodes()
    ensures Decode16(BX_PC) == Bx(PC) && !Is32Bit(BX_PC)
  {
  }

  lemma BlxDecodes(rm: int)
    requires 0 <= rm < 16
    ensures Decode16(BlxHalf(rm)) == Blx(rm) && !Is32Bit(BlxHalf(rm))
  {
    var h := BlxHalf(rm);
    TwoBytes(h, 0x47, 0x80 + rm * 8);
    assert h / 8 == 0x8f0 + rm && h / 0x80 == 0x8f;
  }

  lemma LdrImmDecodes(rd: int)
    requires 0 <= rd < 8
    ensures Decode16(LdrImmHalf(rd, rd, 0)) == LdrImm(rd, rd, 0) && !Is32Bit(LdrImmHalf(rd, rd, 0))
  {
    var h := LdrImmHalf(rd, rd, 0);
    TwoBytes(h, 0x68, rd * 8 + rd);
    assert h / 8 == 0xd00 + rd && h / 64 == 0x1a0 && h % 8 == rd;
  }

  lemma LdrPcDecodes(rd: int, im: nat)
    requires 0 <= rd < 8 && im < 0x100
    ensures Decode16(LdrPcHalf(rd, im)) == LdrLit(rd, 4 * im) && !Is32Bit(LdrPcHalf(rd, im))
  {
    TwoBytes(LdrPcHalf(rd, im), 0x48 + rd, im);
  }

  lemma BranchDecodes(cond: int, im: nat)
    requires 0 <= cond < 14 && im % 2 == 0 && im <= 254
    ensures Decode16(BranchHalf(cond, im)) == BCond(cond, im) && !Is32Bit(BranchHalf(cond, im))
  {
    TwoBytes(BranchHalf(cond, im), 0xd0 + cond, im / 2);
  }

  lemma CbzDecodes(op: int, rn: int, im: nat)
    requires 0 <= op < 2 && 0 <= rn < 8 && im % 2 == 0 && im <= 126
    ensures Decode16(CbzHalf(op, rn, im)) == Cbz(op == 1, rn, im) && !Is32Bit(CbzHalf(op, rn, im))
  {
    hide Decode16;
    var i, k := im / 0x40, im / 2 % 0x20;
    assert im == 64 * i + 2 * k;
    CbzFields(CbzHalf(op, rn, im), op, i, k, rn);
  }

  lemma CbzFields(h: Half, op: int, i: int, k: int, rn: int)
    requires 0 <= op < 2 && 0 <= i < 2 && 0 <= k < 0x20 && 0 <= rn < 8
    requires h == 0xb100 + op * 0x800 + i * 0x200 + k * 8 + rn
    ensures Decode16(h) == Cbz(op == 1, rn, 64 * i + 2 * k) && !Is32Bit(h)
  {
    hide SingleRegister, Signed, IsBlock;
    var top := 0xb1 + 8 * op + 2 * i;
    TwoBytes(h, top, 8 * k + rn);
    ModIs(h, 8, 0x20 * top + k, rn);
    ModIs(0x20 * top + k, 0x20, top, k);
    ModIs(top, 2, 0x58 + 4 * op + i, 1);
    ModIs(0x58 + 4 * op + i, 2, 0x2c + 2 * op, i);
  }

  lemma MrsDecodes(rd: int)
    requires 0 <= rd < 8
    ensures Decode32(0xf3ef, Mrs2Half(rd)) == Mrs(rd) && Is32Bit(0xf3ef)
  {
    TwoBytes(Mrs2Half(rd), 0x80 + rd, 0);
  }

  lemma MsrDecodes(rn: int)
    requires 0 <= rn < 8
    ensures Decode32(Msr1Half(rn), 0x8c00) == Msr(rn) && Is32Bit(Msr1Half(rn))
  {
  }

  lemma LdrWDecodes(rt: int, im: nat)
    requires 0 <= rt < 15 && im < 0x1000
    ensures Decode32(Ldr1Half(15), Ldr2Half(rt, im)) == LdrLit(rt, im) && Is32Bit(Ldr1Half(15))
    ensures Decode32(Ldr1Half(rt), Ldr2Half(rt, im)) == LdrImm(rt, rt, im) && Is32Bit(Ldr1Half(rt))
  {
  }

  // ---------------------------------------------------------------- one instruction

  lemma StepNarrow(env: Env, core: Core, pc: Word, i: Insn)
    requires pc in env.rom && !Is32Bit(env.rom[pc]) && Decode16(env.rom[pc]) == i
    ensures Step(env, Run(core, pc, Thumb)) == Exec(env, i, core, pc, 2)
  {
  }

  lemma StepWide(env: Env, core: Core, pc: Word, i: Insn)
    requires pc in env.rom && pc + 2 in env.rom && Is32Bit(env.rom[pc])
    requires Decode32(env.rom[pc], env.rom[pc + 2]) == i
    ensures Step(env, Run(core, pc, Thumb)) == Exec(env, i, core, pc, 4)
  {
  }

  /** One instruction of an IT block. */
  lemma StepUnder(env: Env, core: Core, pc: Word, it: nat, i: Insn, wide: bool)
    requires it != 0 && pc in env.rom && Is32Bit(env.rom[pc]) == wide && (wide ==> pc + 2 in env.rom)
    requires i == if wide then Decode32(env.rom[pc], env.rom[pc + 2]) else Decode16(env.rom[pc])
    ensures Step(env, Run(core, pc, Thumb, it)) == ExecUnder(env, i, core, pc, if wide then 4 else 2, it)
  {
    hide Decode16, Decode32, Is32Bit, ExecUnder;
  }

  /** The state after one instruction, `width` bytes further. */
  ghost predicate Goes(env: Env, core: Core, pc: int, width: int, core': Core) {
    0 <= pc && pc + width < 0x1_0000_0000 && 0 <= width &&
    Reaches(env, Run(core, pc, Thumb), Run(core', pc + width, Thumb))
  }

  lemma GoesTrans(env: Env, c0: Core, pc: int, w: int, c1: Core, v: int, c2: Core)
    requires Goes(env, c0, pc, w, c1) && Goes(env, c1, pc + w, v, c2)
    ensures Goes(env, c0, pc, w + v, c2)
  {
    hide Reaches;
    ReachesTrans(env, Run(c0, pc, Thumb), Run(c1, pc + w, Thumb), Run(c2, pc + w + v, Thumb));
  }

  lemma PlusSmall(pc: int, n: nat)
    requires 0 <= pc && pc + n < 0x1_0000_0000
    ensures Plus(pc, n) == pc + n
  {
  }

  lemma DoPush(env: Env, core: Core, pc: int, r: int)
    requires CodeAddress(pc) && 0 <= r < 8 && Holds(env.rom, pc, [PushHalf(r)])
    ensures Goes(env, core, pc, 2, Pushed(core, r))
  {
    hide Step, Reaches, Pushed, Decode16, Decode32, PushHalf, Plus;
    PlusSmall(pc, 2);
    HoldsAt(env.rom, pc, [PushHalf(r)], 0);
    PushDecodes(r);
    StepNarrow(env, core, pc, Push(r));
    ReachesStep(env, Run(core, pc, Thumb), Run(Pushed(core, r), pc + 2, Thumb));
  }

  lemma DoPop(env: Env, core: Core, pc: int, r: int)
    requires CodeAddress(pc) && 0 <= r < 8 && Holds(env.rom, pc, [PopHalf(r)])
    ensures Goes(env, core, pc, 2, Popped(env.rom, core, r))
  {
    hide Step, Reaches, Popped, Decode16, Decode32, PopHalf, Plus;
    PlusSmall(pc, 2);
    HoldsAt(env.rom, pc, [PopHalf(r)], 0);
    PushDecodes(r);
    StepNarrow(env, core, pc, Pop(r));
    ReachesStep(env, Run(core, pc, Thumb), Run(Popped(env.rom, core, r), pc + 2, Thumb));
  }

  lemma DoMov(env: Env, core: Core, pc: int, rd: int, rm: int)
    requires CodeAddress(pc) && 0 <= rd < 15 && 0 <= rm < 15 && Holds(env.rom, pc, [MovHalf(rd, rm)])
    ensures Goes(env, core, pc, 2, SetReg(core, rd, core.regs[rm]))
  {
    hide Step, Reaches, LoadWord, StoreWord, Decode16, Decode32, MovHalf, Plus;
    PlusSmall(pc, 2);
    HoldsAt(env.rom, pc, [MovHalf(rd, rm)], 0);
    MovDecodes(rd, rm);
    StepNarrow(env, core, pc, MovReg(rd, rm));
    ReachesStep(env, Run(core, pc, Thumb), Run(SetReg(core, rd, core.regs[rm]), pc + 2, Thumb));
  }

  lemma DoAdd(env: Env, core: Core, pc: int, rd: int, rm: int)
    requires CodeAddress(pc) && 0 <= rd < 15 && 0 <= rm < 15 && Holds(env.rom, pc, [AddHalf(rd, rm)])
    ensures Goes(env, core, pc, 2, SetReg(core, rd, Plus(core.regs[rd], core.regs[rm])))
  {
    hide Step, Reaches, LoadWord, StoreWord, Decode16, Decode32, AddHalf, Plus;
    PlusSmall(pc, 2);
    HoldsAt(env.rom, pc, [AddHalf(rd, rm)], 0);
    AddDecodes(rd, rm);
    StepNarrow(env, core, pc, AddReg(rd, rm));
    ReachesStep(env, Run(core, pc, Thumb), Run(SetReg(core, rd, Plus(core.regs[rd], core.regs[rm])), pc + 2, Thumb));
  }

  lemma DoLdrImm(env: Env, core: Core, pc: int, rd: int, h: Half)
    requires CodeAddress(pc) && 0 <= rd < 8 && pc in env.rom && env.rom[pc] == h
    requires Decode16(h) == LdrImm(rd, rd, 0) && !Is32Bit(h)
    ensures Goes(env, core, pc, 2, SetReg(core, rd, LoadWord(env.rom, core.mem, core.regs[rd])))
  {
    hide Step, Reaches, LoadWord, StoreWord, Decode16, Decode32, Is32Bit, Plus;
    PlusSmall(pc, 2);
    PlusSmall(core.regs[rd], 0);
    StepNarrow(env, core, pc, LdrImm(rd, rd, 0));
    ReachesStep(env, Run(core, pc, Thumb), Run(SetReg(core, rd, LoadWord(env.rom, core.mem, core.regs[rd])), pc + 2,
        Thumb));
  }

  lemma LiteralAddress(pc: int, off: nat, a: int)
    requires 0 <= pc && pc + 4 < 0x1_0000_0000 && 0 <= a < 0x1_0000_0000
    requires a == Align4(pc + 4) + off
    ensures Plus(Align4(Plus(pc, 4)), off) == a
  {
  }

  /** A literal load whose field names the pool word at `a`. */
  lemma DoLdrPc(env: Env, core: Core, pc: int, rd: int, im: nat, a: int, w: Word)
    requires CodeAddress(pc) && 0 <= rd < 8 && im < 0x100 && Holds(env.rom, pc, [LdrPcHalf(rd, im)])
    requires a == Align4(pc + 4) + 4 * im && WordAddress(a) && Holds(env.rom, a, R.Pair(w))
    ensures Goes(env, core, pc, 2, SetReg(core, rd, w))
  {
    hide Step, Reaches, LoadWord, Decode16, LdrPcHalf, Align4, R.Pair, Holds, Plus;
    PlusSmall(pc, 2);
    HoldsAt(env.rom, pc, [LdrPcHalf(rd, im)], 0);
    LdrPcDecodes(rd, im);
    StepNarrow(env, core, pc, LdrLit(rd, 4 * im));
    LoadsCodeWord(env.rom, core.mem, a, w);
    LiteralAddress(pc, 4 * im, a);
    ReachesStep(env, Run(core, pc, Thumb), Run(SetReg(core, rd, w), pc + 2, Thumb));
  }

  lemma DoBlx(env: Env, core: Core, pc: int, rm: int)
    requires CodeAddress(pc) && 0 <= rm < 15 && Holds(env.rom, pc, [BlxHalf(rm)])
    ensures Reaches(env, Run(core, pc, Thumb), Interwork(SetReg(core, LR, Plus(pc, 3)), core.regs[rm]))
  {
    hide Step, Reaches, Decode16, Decode32, BlxHalf, Plus;
    PlusSmall(pc, 2);
    PlusSmall(pc + 2, 1);
    PlusSmall(pc, 3);
    HoldsAt(env.rom, pc, [BlxHalf(rm)], 0);
    BlxDecodes(rm);
    StepNarrow(env, core, pc, Blx(rm));
    ReachesStep(env, Run(core, pc, Thumb), Interwork(SetReg(core, LR, Plus(pc, 3)), core.regs[rm]));
  }

  /** A conditional branch whose even displacement fits the eight-bit field. */
  lemma DoBranch(env: Env, core: Core, pc: int, cond: int, im: nat)
    requires CodeAddress(pc) && 0 <= cond < 14 && im % 2 == 0 && im <= 254
    requires pc + 4 + im < 0x1_0000_0000
    requires Holds(env.rom, pc, [BranchHalf(cond, im)])
    ensures Reaches(env, Run(core, pc, Thumb),
                    Run(core, if ConditionHolds(cond, core.flags) then pc + 4 + im else pc + 2, Thumb))
  {
    hide Step, Reaches, ConditionHolds, Decode16, Decode32, BranchHalf, Plus;
    PlusSmall(pc, 2);
    PlusSmall(pc, 4);
    PlusSmall(pc + 4, im);
    HoldsAt(env.rom, pc, [BranchHalf(cond, im)], 0);
    BranchDecodes(cond, im);
    StepNarrow(env, core, pc, BCond(cond, im));
    ReachesStep(env, Run(core, pc, Thumb),
                Run(core, if ConditionHolds(cond, core.flags) then pc + 4 + im else pc + 2, Thumb));
  }

  /** A compare-and-branch whose even displacement fits the six-bit field. */
  lemma DoCbz(env: Env, core: Core, pc: int, op: int, rn: int, im: nat)
    requires CodeAddress(pc) && 0 <= op < 2 && 0 <= rn < 8 && im % 2 == 0 && im <= 126
    requires pc + 4 + im < 0x1_0000_0000
    requires Holds(env.rom, pc, [CbzHalf(op, rn, im)])
    ensures Reaches(env, Run(core, pc, Thumb),
                    Run(core, if (core.regs[rn] != 0) == (op == 1) then pc + 4 + im else pc + 2, Thumb))
  {
    hide Step, Reaches, Decode16, Decode32, CbzHalf, Plus;
    PlusSmall(pc, 2);
    PlusSmall(pc, 4);
    PlusSmall(pc + 4, im);
    HoldsAt(env.rom, pc, [CbzHalf(op, rn, im)], 0);
    CbzDecodes(op, rn, im);
    StepNarrow(env, core, pc, Cbz(op == 1, rn, im));
    ReachesStep(env, Run(core, pc, Thumb),
                Run(core, if (core.regs[rn] != 0) == (op == 1) then pc + 4 + im else pc + 2, Thumb));
  }

  lemma DoMrs(env: Env, core: Core, pc: int, rd: int)
    requires CodeAddress(pc) && 0 <= rd < 8
    requires Holds(env.rom, pc, [0xf3ef, Mrs2Half(rd)])
    ensures Goes(env, core, pc, 4, SetReg(core, rd, PackFlags(core.flags)))
  {
    hide Step, Reaches, PackFlags, Decode16, Decode32, Mrs2Half, Plus;
    PlusSmall(pc, 4);
    var hs: seq<Half> := [0xf3ef, Mrs2Half(rd)];
    HoldsAt(env.rom, pc, hs, 0);
    HoldsAt(env.rom, pc, hs, 1);
    MrsDecodes(rd);
    StepWide(env, core, pc, Mrs(rd));
    ReachesStep(env, Run(core, pc, Thumb), Run(SetReg(core, rd, PackFlags(core.flags)), pc + 4, Thumb));
  }

  lemma DoMsr(env: Env, core: Core, pc: int, rn: int)
    requires CodeAddress(pc) && 0 <= rn < 8
    requires Holds(env.rom, pc, [Msr1Half(rn), 0x8c00])
    ensures Goes(env, core, pc, 4, core.(flags := UnpackFlags(core.regs[rn])))
  {
    hide Step, Reaches, UnpackFlags, Decode16, Decode32, Msr1Half, Plus;
    PlusSmall(pc, 4);
    var hs: seq<Half> := [Msr1Half(rn), 0x8c00];
    HoldsAt(env.rom, pc, hs, 0);
    HoldsAt(env.rom, pc, hs, 1);
    MsrDecodes(rn);
    StepWide(env, core, pc, Msr(rn));
    ReachesStep(env, Run(core, pc, Thumb), Run(core.(flags := UnpackFlags(core.regs[rn])), pc + 4, Thumb));
  }

  lemma DoLdrWImm(env: Env, core: Core, pc: int, rt: int)
    requires CodeAddress(pc) && 0 <= rt < 15
    requires Holds(env.rom, pc, [Ldr1Half(rt), Ldr2Half(rt, 0)])
    ensures Goes(env, core, pc, 4, SetReg(core, rt, LoadWord(env.rom, core.mem, core.regs[rt])))
  {
    hide Step, Reaches, LoadWord, StoreWord, Decode16, Decode32, Ldr1Half, Ldr2Half, Plus;
    PlusSmall(pc, 4);
    var hs: seq<Half> := [Ldr1Half(rt), Ldr2Half(rt, 0)];
    HoldsAt(env.rom, pc, hs, 0);
    HoldsAt(env.rom, pc, hs, 1);
    LdrWDecodes(rt, 0);
    PlusSmall(core.regs[rt], 0);
    StepWide(env, core, pc, LdrImm(rt, rt, 0));
    ReachesStep(env, Run(core, pc, Thumb), Run(SetReg(core, rt, LoadWord(env.rom, core.mem, core.regs[rt])), pc + 4,
        Thumb));
  }

  lemma DoLdrWPc(env: Env, core: Core, pc: int, rt: int, im: nat, a: int, w: Word)
    requires CodeAddress(pc) && 0 <= rt < 15 && im < 0x1000
    requires Holds(env.rom, pc, [Ldr1Half(15), Ldr2Half(rt, im)])
    requires a == Align4(pc + 4) + im && WordAddress(a) && Holds(env.rom, a, R.Pair(w))
    ensures Goes(env, core, pc, 4, SetReg(core, rt, w))
  {
    hide Step, Reaches, LoadWord, Decode32, Ldr1Half, Ldr2Half, Align4, R.Pair, Holds, Plus;
    PlusSmall(pc, 4);
    var hs: seq<Half> := [Ldr1Half(15), Ldr2Half(rt, im)];
    HoldsAt(env.rom, pc, hs, 0);
    HoldsAt(env.rom, pc, hs, 1);
    LdrWDecodes(rt, im);
    StepWide(env, core, pc, LdrLit(rt, im));
    LoadsCodeWord(env.rom, core.mem, a, w);
    LiteralAddress(pc, im, a);
    ReachesStep(env, Run(core, pc, Thumb), Run(SetReg(core, rt, w), pc + 4, Thumb));
  }

  lemma ArmState(core: Core, a: Word)
    requires a % 4 == 0
    ensures Interwork(core, a) == Run(core, a, Arm)
  {
    LowBits(a);
  }

  lemma ThumbState(core: Core, a: Word)
    requires a % 2 == 0 && a + 1 < 0x1_0000_0000
    ensures Interwork(core, a + 1) == Run(core, a, Thumb)
  {
    var k := a / 2;
    OddIs(a + 1, k);
  }

  /** The long jump switches to ARM state at its second word and loads its fourth. */
  lemma DoLongJump(env: Env, core: Core, pc: int, dest: Word)
    requires CodeAddress(pc) && pc % 4 == 0 && Holds(env.rom, pc, R.LongJump(dest))
    ensures Reaches(env, Run(core, pc, Thumb), Interwork(core, dest))
  {
    hide Step, Reaches, LoadWord, Interwork, Plus, Decode16, Holds, R.LongJump, R.Pair;
    EntersArm(env, core, pc, dest);
    LeavesArm(env, core, pc, dest);
    ReachesStep(env, Run(core, pc, Thumb), Run(core, pc + 4, Arm));
    ReachesTrans(env, Run(core, pc, Thumb), Run(core, pc + 4, Arm), Interwork(core, dest));
  }

  lemma EntersArm(env: Env, core: Core, pc: int, dest: Word)
    requires CodeAddress(pc) && pc % 4 == 0 && Holds(env.rom, pc, R.LongJump(dest))
    ensures Step(env, Run(core, pc, Thumb)) == Run(core, pc + 4, Arm)
  {
    hide Step, Reaches, LoadWord, Interwork, Plus, Decode16, Holds, R.LongJump, R.Pair;
    LongJumpHalves(env.rom, pc, dest);
    BxDecodes();
    StepNarrow(env, core, pc, Bx(PC));
    PlusSmall(pc, 4);
    FourTimes(pc + 4, pc / 4 + 1);
    ArmState(core, pc + 4);
  }

  lemma LeavesArm(env: Env, core: Core, pc: int, dest: Word)
    requires CodeAddress(pc) && pc % 4 == 0 && Holds(env.rom, pc, R.LongJump(dest))
    ensures Reaches(env, Run(core, pc + 4, Arm), Interwork(core, dest))
  {
    hide Step, Reaches, LoadWord, Interwork, Plus, Decode16, Holds, R.LongJump, R.Pair;
    LongJumpHalves(env.rom, pc, dest);
    FourTimes(pc + 4, pc / 4 + 1);
    NextWord(pc);
    LoadsCodeWord(env.rom, core.mem, pc + 8, dest);
    ArmLoadsPc(env, core, pc + 4, dest);
  }

  lemma NextWord(pc: int)
    requires CodeAddress(pc)
    ensures WordAddress(pc + 8)
  {
  }

  lemma LongJumpHalves(rom: Rom, pc: int, dest: Word)
    requires Holds(rom, pc, R.LongJump(dest))
    ensures pc in rom && rom[pc] == BX_PC
    ensures pc + 4 in rom && rom[pc + 4] == LDR_PC_LOW
    ensures pc + 4 + 2 in rom && rom[pc + 4 + 2] == LDR_PC_HIGH
    ensures Holds(rom, pc + 8, R.Pair(dest))
  {
    hide Holds, R.Pair;
    var hs := R.LongJump(dest);
    HoldsAt(rom, pc, hs, 0);
    HoldsAt(rom, pc, hs, 2);
    HoldsAt(rom, pc, hs, 3);
    HoldsSplit(rom, pc, [BX_PC, NOP, LDR_PC_LOW, LDR_PC_HIGH], R.Pair(dest));
  }

  lemma ArmLoadsPc(env: Env, core: Core, pc: int, dest: Word)
    requires 0 <= pc && pc + 8 < 0x1_0000_0000
    requires pc in env.rom && pc + 2 in env.rom
    requires env.rom[pc] == LDR_PC_LOW && env.rom[pc + 2] == LDR_PC_HIGH
    requires LoadWord(env.rom, core.mem, pc + 4) == dest
    ensures Reaches(env, Run(core, pc, Arm), Interwork(core, dest))
  {
    hide Reaches, LoadWord;
    ReachesStep(env, Run(core, pc, Arm), Interwork(core, dest));
  }
}
