/**
  What each gadget of the relocator does when it runs from its place in the buffer, on
  every machine state.
 */
module ThumbGadgets {
  import opened Words
  import opened ThumbMachine
  import opened ThumbEncoding
  import opened ThumbSteps
  import R = ThumbRelocate

  /** `p` lies at both ends of the free space [start, end) of the buffer at `buf`. */
  ghost predicate Sits(rom: Rom, buf: int, start: int, end: int, p: R.Piece) {
    Holds(rom, buf + 2 * start, p.code) && Holds(rom, buf + 2 * (end - |p.pool|), p.pool)
  }

  /** The buffer is word-aligned and ends below the top of the address space. */
  ghost predicate InSpace(buf: int, end: int) {
    0 <= buf && buf % 4 == 0 && 0 <= end && buf + 2 * end + 32 <= 0x1_0000_0000
  }

  /** The word below the stack pointer holds no code. */
  ghost predicate SlotFree(rom: Rom, core: Core) {
    forall b :: InWord(Plus(core.regs[SP], -4), b) ==> !InRom(rom, b)
  }

  /** `core` after a register was saved to the word below the stack pointer and restored. */
  ghost function Scratched(core: Core, r: int): Core
    requires 0 <= r < 8
  {
    core.(mem := StoreWord(core.mem, Plus(core.regs[SP], -4), core.regs[r]))
  }

  lemma HoldsOne(rom: Rom, a: int, hs: seq<Half>, i: nat)
    requires Holds(rom, a, hs) && i < |hs|
    ensures Holds(rom, a + 2 * i, [hs[i]])
  {
  }

  lemma HoldsTwo(rom: Rom, a: int, hs: seq<Half>, i: nat)
    requires Holds(rom, a, hs) && i + 1 < |hs|
    ensures Holds(rom, a + 2 * i, [hs[i], hs[i + 1]])
  {
    forall j | 0 <= j < 2
      ensures a + 2 * i + 2 * j in rom && rom[a + 2 * i + 2 * j] == [hs[i], hs[i + 1]][j]
    {
      HoldsAt(rom, a, hs, i + j);
    }
  }

  lemma BackAddress(buf: int, end: nat, i: nat)
    requires InSpace(buf, end) && i <= end
    ensures CodeAddress(buf + 2 * i) && WordAddress(buf + 2 * i)
  {
    var b := buf / 4;
    assert buf == 4 * b;
  }

  /** Pool words are word-aligned. */
  lemma BackWord(buf: int, end: nat, k: nat)
    requires InSpace(buf, end) && end % 2 == 0 && 2 * k <= end
    ensures (buf + 2 * (end - 2 * k)) % 4 == 0
  {
    var b, e := buf / 4, end / 2;
    assert buf == 4 * b && end == 2 * e;
    FourTimes(buf + 2 * (end - 2 * k), b + e - k);
  }

  lemma FrontAddresses(buf: int, start: nat, end: nat)
    requires InSpace(buf, end) && start + 7 <= end
    ensures var pc := buf + 2 * start;
            CodeAddress(pc) && CodeAddress(pc + 2) && CodeAddress(pc + 4) && CodeAddress(pc + 6) &&
            CodeAddress(pc + 8) && CodeAddress(pc + 10) && CodeAddress(pc + 12)
  {
    hide CodeAddress, WordAddress, InSpace;
    BackAddress(buf, end, start);
    BackAddress(buf, end, start + 1);
    BackAddress(buf, end, start + 2);
    BackAddress(buf, end, start + 3);
    BackAddress(buf, end, start + 4);
    BackAddress(buf, end, start + 5);
    BackAddress(buf, end, start + 6);
  }

  /** Every literal load names its own pool word, whatever the parity of `start`, and its
      field is wide enough. */
  lemma LabelNamesPoolWord(buf: int, start: nat, e: nat)
    requires buf % 4 == 0 && e % 2 == 0 && start + 3 <= e <= start + 142
    ensures Label(start, e) % 4 == 0 && 0 <= Label(start, e) < 0x400
    ensures Align4(buf + 2 * start + 4) + Label(start, e) == buf + 2 * e
  {
    var b, k, s := buf / 4, e / 2, start / 2;
    assert buf == 4 * b && e == 2 * k;
    if start % 2 == 0 {
      assert start == 2 * s;
      assert Align4(4 * b + 4 * s + 4) == 4 * b + 4 * s + 4;
    } else {
      assert start == 2 * s + 1;
      assert Align4(4 * b + 4 * s + 2 + 4) == 4 * b + 4 * s + 4;
    }
  }

  /** The call gadget computes its label by another formula; both give the same field. */
  lemma CallLabel(start: nat, e: nat)
    requires e % 2 == 0 && start + 3 <= e <= start + 142
    ensures ((e - start) * 2 - 4 + 2) / 4 == Label(start, e) / 4
  {
  }

  // ---------------------------------------------------------------- the pieces by kind

  lemma LdrPiece(h0: Half, h1: Half, at: Word, start: nat, end: nat)
    requires Classify(h0, h1) == KLdr && R.Room(KLdr, start, end) && 0 <= Label(start, end - 2)
    ensures var rd := h0 / 0x100 % 8;
            R.Gadget(h0, h1, at, start, end)
            == R.Piece([LdrPcHalf(rd, Label(start, end - 2) / 4), LdrImmHalf(rd, rd, 0)],
                       R.Pair(Plus(Align4(Plus(at, 4)), h0 % 0x100 * 4)))
  {
  }

  lemma LdrWPiece(h0: Half, h1: Half, at: Word, start: nat, end: nat)
    requires Classify(h0, h1) == KLdrW && R.Room(KLdrW, start, end) && 0 <= Label(start, end - 2) < 0x1000
    ensures var rt := h1 / 0x1000;
            R.Gadget(h0, h1, at, start, end)
            == R.Piece([Ldr1Half(15), Ldr2Half(rt, Label(start, end - 2)), Ldr1Half(rt), Ldr2Half(rt, 0)],
                       R.Pair(WideLiteral(h0, h1, at)))
  {
  }

  /** The address of the literal of a wide load. */
  function WideLiteral(h0: Half, h1: Half, at: Word): Word {
    Plus(Align4(Plus(at, 4)), if h0 / 0x80 % 2 == 0 then -(h1 % 0x1000) else h1 % 0x1000)
  }

  lemma BlPiece(h0: Half, h1: Half, at: Word, start: nat, end: nat)
    requires Classify(h0, h1) == KBl && R.Room(KBl, start, end)
    ensures R.Gadget(h0, h1, at, start, end)
            == R.Piece([PushHalf(7), LdrPcHalf(7, ((end - 2 - (start + 1)) * 2 - 4 + 2) / 4), MovHalf(14, 7),
                        PopHalf(7), BlxHalf(14)],
                       R.Pair(Plus(at, 4 + R.BlJump(h0, h1))))
  {
  }

  lemma AddPiece(h0: Half, h1: Half, at: Word, start: nat, end: nat)
    requires Classify(h0, h1) == KAdd && R.Room(KAdd, start, end) && 0 <= Label(start + 2, end - 2)
    ensures var rd, rt := h0 % 8, R.Scratch(h0 % 8);
            R.Gadget(h0, h1, at, start, end)
            == R.Piece([PushHalf(rt), MovHalf(rt, rd), LdrPcHalf(rd, Label(start + 2, end - 2) / 4),
                        AddHalf(rd, rt), PopHalf(rt)],
                       R.Pair(Plus(at, 4)))
  {
  }

  lemma CbzPiece(h0: Half, h1: Half, at: Word, start: nat, end: nat)
    requires Classify(h0, h1) == KCbz && R.Room(KCbz, start, end)
    ensures var rn, rt := h0 % 8, R.Scratch(h0 % 8);
            R.Gadget(h0, h1, at, start, end)
            == R.Piece([PushHalf(rt), 0xf3ef, Mrs2Half(rt),
                        CbzHalf(h0 / 0x800 % 2, rn, (end - 10 - (start + 3)) * 2 - 4),
                        Msr1Half(rt), 0x8c00, PopHalf(rt)],
                       R.RestoreAndJump(rt, Plus(at, 4 + R.CbzJump(h0))))
  {
  }

  // ---------------------------------------------------------------- pc-relative loads

  lemma SetSame(core: Core, r: int)
    requires 0 <= r < 15
    ensures SetReg(core, r, core.regs[r]) == core
  {
    assert core.regs[r := core.regs[r]] == core.regs;
  }

  lemma SetTwice(core: Core, r: int, v: Word, w: Word)
    requires 0 <= r < 15
    ensures SetReg(SetReg(core, r, v), r, w) == SetReg(core, r, w)
  {
    assert core.regs[r := v][r := w] == core.regs[r := w];
  }

  lemma LdrSteps(env: Env, core: Core, pc: int, rd: int, im: nat, lit: int, a: Word)
    requires CodeAddress(pc) && CodeAddress(pc + 2) && 0 <= rd < 8 && im < 0x100
    requires Holds(env.rom, pc, [LdrPcHalf(rd, im), LdrImmHalf(rd, rd, 0)])
    requires lit == Align4(pc + 4) + 4 * im && WordAddress(lit) && Holds(env.rom, lit, R.Pair(a))
    ensures Goes(env, core, pc, 4, SetReg(core, rd, LoadWord(env.rom, core.mem, a)))
  {
    hide Reaches, LoadWord, Align4, LdrPcHalf, LdrImmHalf, Goes, R.Pair, Holds, Decode16, Is32Bit;
    var code := [LdrPcHalf(rd, im), LdrImmHalf(rd, rd, 0)];
    HoldsOne(env.rom, pc, code, 0);
    DoLdrPc(env, core, pc, rd, im, lit, a);
    var c1 := SetReg(core, rd, a);
    LdrImmDecodes(rd);
    HoldsAt(env.rom, pc, code, 1);
    DoLdrImm(env, c1, pc + 2, rd, LdrImmHalf(rd, rd, 0));
    SetTwice(core, rd, a, LoadWord(env.rom, core.mem, a));
    GoesTrans(env, core, pc, 2, c1, 2, SetReg(core, rd, LoadWord(env.rom, core.mem, a)));
  }

  lemma LdrRuns(env: Env, core: Core, buf: int, start: nat, end: nat, h0: Half, h1: Half, at: Word)
    requires InSpace(buf, end) && Classify(h0, h1) == KLdr && R.Room(KLdr, start, end)
    requires Sits(env.rom, buf, start, end, R.Gadget(h0, h1, at, start, end))
    ensures var rd, a := h0 / 0x100 % 8, Plus(Align4(Plus(at, 4)), h0 % 0x100 * 4);
            Goes(env, core, buf + 2 * start, 4, SetReg(core, rd, LoadWord(env.rom, core.mem, a)))
  {
    hide R.Gadget, Classify, Holds, LoadWord, Align4, Plus, Label, LdrPcHalf, LdrImmHalf, Goes, R.Pair, SetReg;
    FrontAddresses(buf, start, end);
    BackAddress(buf, end, end - 2);
    LabelNamesPoolWord(buf, start, end - 2);
    hide InSpace, CodeAddress, WordAddress;
    LdrPiece(h0, h1, at, start, end);
    LdrSteps(env, core, buf + 2 * start, h0 / 0x100 % 8, Label(start, end - 2) / 4, buf + 2 * (end - 2),
             Plus(Align4(Plus(at, 4)), h0 % 0x100 * 4));
  }

  lemma LdrWSteps(env: Env, core: Core, pc: int, rt: int, im: nat, lit: int, a: Word)
    requires CodeAddress(pc) && CodeAddress(pc + 4) && 0 <= rt < 15 && im < 0x1000
    requires Holds(env.rom, pc, [Ldr1Half(15), Ldr2Half(rt, im), Ldr1Half(rt), Ldr2Half(rt, 0)])
    requires lit == Align4(pc + 4) + im && WordAddress(lit) && Holds(env.rom, lit, R.Pair(a))
    ensures Goes(env, core, pc, 8, SetReg(core, rt, LoadWord(env.rom, core.mem, a)))
  {
    hide Reaches, LoadWord, Align4, Ldr1Half, Ldr2Half, Goes, R.Pair, Holds;
    var code := [Ldr1Half(15), Ldr2Half(rt, im), Ldr1Half(rt), Ldr2Half(rt, 0)];
    HoldsTwo(env.rom, pc, code, 0);
    HoldsTwo(env.rom, pc, code, 2);
    DoLdrWPc(env, core, pc, rt, im, lit, a);
    var c1 := SetReg(core, rt, a);
    DoLdrWImm(env, c1, pc + 4, rt);
    SetTwice(core, rt, a, LoadWord(env.rom, core.mem, a));
    GoesTrans(env, core, pc, 4, c1, 4, SetReg(core, rt, LoadWord(env.rom, core.mem, a)));
  }

  /** The gadget of a wide load, for any literal `a`. */
  lemma LdrWRuns(env: Env, core: Core, buf: int, start: nat, end: nat, rt: int, a: Word)
    requires InSpace(buf, end) && start + 7 <= end <= start + 142 && end % 2 == 0 && 0 <= rt < 15
    requires 0 <= Label(start, end - 2) < 0x1000
    requires Sits(env.rom, buf, start, end,
                  R.Piece([Ldr1Half(15), Ldr2Half(rt, Label(start, end - 2)), Ldr1Half(rt), Ldr2Half(rt, 0)],
                      R.Pair(a)))
    ensures Goes(env, core, buf + 2 * start, 8, SetReg(core, rt, LoadWord(env.rom, core.mem, a)))
  {
    hide R.Gadget, Classify, Holds, LoadWord, Align4, Plus, Label, Ldr1Half, Ldr2Half, Goes, R.Pair, SetReg;
    FrontAddresses(buf, start, end);
    BackAddress(buf, end, end - 2);
    LabelNamesPoolWord(buf, start, end - 2);
    hide InSpace, CodeAddress, WordAddress;
    LdrWSteps(env, core, buf + 2 * start, rt, Label(start, end - 2), buf + 2 * (end - 2), a);
  }

  // ---------------------------------------------------------------- branches

  /** A conditional branch at the front and a long jump at the back. */
  lemma BranchPairRuns(env: Env, core: Core, buf: int, start: nat, end: nat, cond: int, dest: Word)
    requires InSpace(buf, end) && end % 2 == 0 && start + 8 <= end && 0 <= cond < 14
    requires (end - 6 - start) * 2 - 4 <= 254
    requires Sits(env.rom, buf, start, end,
                  R.Piece([BranchHalf(cond, (end - 6 - start) * 2 - 4)], R.LongJump(dest)))
    ensures ConditionHolds(cond, core.flags) ==>
              Reaches(env, Run(core, buf + 2 * start, Thumb), Interwork(core, dest))
    ensures !ConditionHolds(cond, core.flags) ==> Goes(env, core, buf + 2 * start, 2, core)
  {
    hide Step, Reaches, Interwork, BranchHalf, R.LongJump, ConditionHolds, Holds;
    var pc, im := buf + 2 * start, (end - 6 - start) * 2 - 4;
    FrontAddresses(buf, start, end);
    BackAddress(buf, end, end - 6);
    BackWord(buf, end, 3);
    hide CodeAddress, WordAddress;
    assert im == 2 * (end - 8 - start);
    DoBranch(env, core, pc, cond, im);
    var pool := buf + 2 * (end - 6);
    assert pc + 4 + im == pool;
    if ConditionHolds(cond, core.flags) {
      DoLongJump(env, core, pool, dest);
      ReachesTrans(env, Run(core, pc, Thumb), Run(core, pool, Thumb), Interwork(core, dest));
    }
  }

  // ---------------------------------------------------------------- calls

  lemma PopRestores(rom: Rom, core: Core, core': Core, r: int)
    requires 0 <= r < 8 && SlotFree(rom, core)
    requires core'.regs[SP] == Plus(core.regs[SP], -4) && core'.mem == Scratched(core, r).mem
    ensures Popped(rom, core', r) ==
            core'.(regs := core'.regs[SP := core.regs[SP]][r := core.regs[r]])
  {
    hide LoadWord, StoreWord, Plus, InRom, InWord;
    LoadsStoredWord(rom, core.mem, Plus(core.regs[SP], -4), core.regs[r]);
    PlusBack(core.regs[SP]);
  }

  lemma PlusBack(sp: Word)
    ensures Plus(Plus(sp, -4), 4) == sp
  {
    WrapAgain(sp - 4, 4);
    WrapUnique(sp, 0, sp);
  }

  lemma BlRuns(env: Env, core: Core, buf: int, start: nat, end: nat, h0: Half, h1: Half, at: Word)
    requires InSpace(buf, end) && Classify(h0, h1) == KBl && R.Room(KBl, start, end)
    requires SlotFree(env.rom, core)
    requires Sits(env.rom, buf, start, end, R.Gadget(h0, h1, at, start, end))
    ensures Reaches(env, Run(core, buf + 2 * start, Thumb),
                    Interwork(SetReg(Scratched(core, 7), LR, buf + 2 * (start + 5) + 1),
                              Plus(at, 4 + R.BlJump(h0, h1))))
    ensures Reaches(env, Step(env, Run(core, buf + 2 * start, Thumb)),
                    Interwork(SetReg(Scratched(core, 7), LR, buf + 2 * (start + 5) + 1),
                              Plus(at, 4 + R.BlJump(h0, h1))))
  {
    hide R.Gadget, Classify, Holds, SlotFree, InRom;
    hide Step, Reaches, LoadWord, StoreWord, Interwork, Label, Align4, PushHalf, PopHalf, LdrPcHalf, MovHalf, BlxHalf,
      R.Pair, R.BlJump, Goes, Popped;
    var dest := Plus(at, 4 + R.BlJump(h0, h1));
    var im := ((end - 2 - (start + 1)) * 2 - 4 + 2) / 4;
    CallLabel(start + 1, end - 2);
    FrontAddresses(buf, start, end);
    BackAddress(buf, end, end - 2);
    LabelNamesPoolWord(buf, start + 1, end - 2);
    hide InSpace, CodeAddress, WordAddress;
    var code: seq<Half> := [PushHalf(7), LdrPcHalf(7, im), MovHalf(14, 7), PopHalf(7), BlxHalf(14)];
    BlPiece(h0, h1, at, start, end);
    var pc := buf + 2 * start;
    HoldsOne(env.rom, pc, code, 0);
    HoldsOne(env.rom, pc, code, 1);
    HoldsOne(env.rom, pc, code, 2);
    HoldsOne(env.rom, pc, code, 3);
    HoldsOne(env.rom, pc, code, 4);
    var c1 := Pushed(core, 7);
    DoPush(env, core, pc, 7);
    var c2 := SetReg(c1, 7, dest);
    DoLdrPc(env, c1, pc + 2, 7, im, buf + 2 * (end - 2), dest);
    GoesTrans(env, core, pc, 2, c1, 2, c2);
    var c3 := SetReg(c2, 14, dest);
    DoMov(env, c2, pc + 4, 14, 7);
    GoesTrans(env, core, pc, 4, c2, 2, c3);
    DoPop(env, c3, pc + 6, 7);
    PopRestores(env.rom, core, c3, 7);
    var c4 := Popped(env.rom, c3, 7);
    GoesTrans(env, core, pc, 6, c3, 2, c4);
    assert c4.regs == core.regs[14 := dest];
    DoBlx(env, c4, pc + 8, 14);
    CallCore(core, c4, buf + 2 * (start + 5) + 1, dest);
    GoesThen(env, core, pc, 8, c4, Interwork(SetReg(c4, LR, Plus(pc + 8, 3)), dest));
  }

  lemma CallCore(core: Core, c4: Core, back: Word, dest: Word)
    requires c4.mem == Scratched(core, 7).mem && c4.flags == core.flags && c4.regs == core.regs[LR := dest]
    ensures SetReg(c4, LR, back) == SetReg(Scratched(core, 7), LR, back)
  {
    assert core.regs[LR := dest][LR := back] == core.regs[LR := back];
  }

  lemma GoesThen(env: Env, core: Core, pc: int, w: int, core': Core, t: State)
    requires Goes(env, core, pc, w, core')
    requires Reaches(env, Run(core', pc + w, Thumb), t)
    ensures Reaches(env, Run(core, pc, Thumb), t)
    ensures w != 0 ==> Reaches(env, Step(env, Run(core, pc, Thumb)), t)
  {
    hide Reaches, Step;
    ReachesTrans(env, Run(core, pc, Thumb), Run(core', pc + w, Thumb), t);
    if w != 0 {
      ReachesLater(env, Run(core, pc, Thumb), Run(core', pc + w, Thumb));
      ReachesTrans(env, Step(env, Run(core, pc, Thumb)), Run(core', pc + w, Thumb), t);
    }
  }

  // ---------------------------------------------------------------- add rd, pc

  lemma AddRuns(env: Env, core: Core, buf: int, start: nat, end: nat, h0: Half, h1: Half, at: Word)
    requires InSpace(buf, end) && Classify(h0, h1) == KAdd && R.Room(KAdd, start, end)
    requires SlotFree(env.rom, core)
    requires Sits(env.rom, buf, start, end, R.Gadget(h0, h1, at, start, end))
    ensures var rd := h0 % 8;
            Goes(env, core, buf + 2 * start, 10,
                 SetReg(Scratched(core, R.Scratch(rd)), rd, Plus(Plus(at, 4), core.regs[rd])))
  {
    hide R.Gadget, Classify, Holds, SlotFree, InRom;
    hide Step, Reaches, LoadWord, StoreWord, Label, Align4, PushHalf, PopHalf, LdrPcHalf, MovHalf, AddHalf, R.Pair,
      Goes,
      Popped;
    var rd, a := h0 % 8, Plus(at, 4);
    var rt := R.Scratch(rd);
    var im := Label(start + 2, end - 2) / 4;
    FrontAddresses(buf, start, end);
    BackAddress(buf, end, end - 2);
    LabelNamesPoolWord(buf, start + 2, end - 2);
    hide InSpace, CodeAddress, WordAddress;
    var code: seq<Half> := [PushHalf(rt), MovHalf(rt, rd), LdrPcHalf(rd, im), AddHalf(rd, rt), PopHalf(rt)];
    AddPiece(h0, h1, at, start, end);
    var pc := buf + 2 * start;
    HoldsOne(env.rom, pc, code, 0);
    HoldsOne(env.rom, pc, code, 1);
    HoldsOne(env.rom, pc, code, 2);
    HoldsOne(env.rom, pc, code, 3);
    HoldsOne(env.rom, pc, code, 4);
    var c1 := Pushed(core, rt);
    DoPush(env, core, pc, rt);
    var c2 := SetReg(c1, rt, core.regs[rd]);
    DoMov(env, c1, pc + 2, rt, rd);
    GoesTrans(env, core, pc, 2, c1, 2, c2);
    var c3 := SetReg(c2, rd, a);
    DoLdrPc(env, c2, pc + 4, rd, im, buf + 2 * (end - 2), a);
    GoesTrans(env, core, pc, 4, c2, 2, c3);
    var sum := Plus(a, core.regs[rd]);
    var c4 := SetReg(c3, rd, sum);
    DoAdd(env, c3, pc + 6, rd, rt);
    GoesTrans(env, core, pc, 6, c3, 2, c4);
    DoPop(env, c4, pc + 8, rt);
    PopRestores(env.rom, core, c4, rt);
    var c5 := Popped(env.rom, c4, rt);
    GoesTrans(env, core, pc, 8, c4, 2, c5);
    assert c5.regs == core.regs[rd := sum];
  }

  // ---------------------------------------------------------------- compare and branch

  /** Saving and restoring the flags and the scratch register leaves only the word below
      the stack pointer changed. */
  lemma FlagsRestored(rom: Rom, core: Core, rt: int)
    requires 0 <= rt < 8 && SlotFree(rom, core)
    ensures var c2 := SetReg(Pushed(core, rt), rt, PackFlags(core.flags));
            var c3 := c2.(flags := UnpackFlags(c2.regs[rt]));
            Popped(rom, c3, rt) == Scratched(core, rt)
  {
    hide LoadWord, StoreWord, PackFlags, UnpackFlags, Popped;
    FlagsRoundTrip(core.flags);
    var c2 := SetReg(Pushed(core, rt), rt, PackFlags(core.flags));
    var c3 := c2.(flags := UnpackFlags(c2.regs[rt]));
    PopRestores(rom, core, c3, rt);
    assert c3.regs[SP := core.regs[SP]][rt := core.regs[rt]] == core.regs;
  }

  /** `msr apsr_nzcvqg, rt; pop {rt}` */
  lemma RestoreRuns(env: Env, core: Core, pc: int, rt: int)
    requires CodeAddress(pc) && CodeAddress(pc + 4) && 0 <= rt < 8 && SlotFree(env.rom, core)
    requires Holds(env.rom, pc, [Msr1Half(rt), 0x8c00]) && Holds(env.rom, pc + 4, [PopHalf(rt)])
    ensures Goes(env, SetReg(Pushed(core, rt), rt, PackFlags(core.flags)), pc, 6, Scratched(core, rt))
  {
    hide Step, Reaches, LoadWord, StoreWord, PackFlags, UnpackFlags, Popped, Pushed, Goes, PopHalf, Msr1Half;
    var c2 := SetReg(Pushed(core, rt), rt, PackFlags(core.flags));
    var c3 := c2.(flags := UnpackFlags(c2.regs[rt]));
    DoMsr(env, c2, pc, rt);
    DoPop(env, c3, pc + 4, rt);
    GoesTrans(env, c2, pc, 4, c3, 2, Popped(env.rom, c3, rt));
    FlagsRestored(env.rom, core, rt);
  }

  /** `core` with a scratch register saved below the stack and the flags in its place. */
  ghost function Saved(core: Core, rt: int): Core
    requires 0 <= rt < 8
  {
    SetReg(Pushed(core, rt), rt, PackFlags(core.flags))
  }

  /** The displacement of the emitted branch: its field keeps seven bits of the distance. */
  function CbzDistance(start: nat, end: nat): nat
    requires start + 17 <= end
  {
    ((end - 10 - (start + 3)) * 2 - 4) % 0x80
  }

  /** The front of the gadget: save, and branch over the rest of it or not. */
  lemma CbzFront(env: Env, core: Core, pc: int, op: int, rn: int, im: nat)
    requires CodeAddress(pc) && CodeAddress(pc + 2) && CodeAddress(pc + 6) && 0 <= op < 2 && 0 <= rn < 8
    requires im % 2 == 0 && im % 0x80 % 2 == 0 && im % 0x80 <= 126 && pc + 10 + im % 0x80 < 0x1_0000_0000
    requires var rt := R.Scratch(rn);
             Holds(env.rom, pc, [PushHalf(rt), 0xf3ef, Mrs2Half(rt), CbzHalf(op, rn, im), Msr1Half(rt), 0x8c00,
                 PopHalf(rt)])
    ensures Reaches(env, Run(core, pc, Thumb),
                    Run(Saved(core, R.Scratch(rn)),
                        if (core.regs[rn] != 0) == (op == 1) then pc + 10 + im % 0x80 else pc + 8, Thumb))
  {
    hide Holds, InRom, WordAddress;
    hide Step, Reaches, LoadWord, StoreWord, PushHalf, PopHalf, CbzHalf, Mrs2Half, Msr1Half, Goes, PackFlags, Plus;
    var rt := R.Scratch(rn);
    var code: seq<Half> := [PushHalf(rt), 0xf3ef, Mrs2Half(rt), CbzHalf(op, rn, im), Msr1Half(rt), 0x8c00, PopHalf(rt)];
    HoldsOne(env.rom, pc, code, 0);
    HoldsTwo(env.rom, pc, code, 1);
    HoldsOne(env.rom, pc, code, 3);
    var c1, c2 := Pushed(core, rt), Saved(core, rt);
    DoPush(env, core, pc, rt);
    DoMrs(env, c1, pc + 2, rt);
    GoesTrans(env, core, pc, 2, c1, 4, c2);
    CbzWraps(op, rn, im);
    DoCbz(env, c2, pc + 6, op, rn, im % 0x80);
    assert c2.regs[rn] == core.regs[rn];
    var taken := (core.regs[rn] != 0) == (op == 1);
    GoesThen(env, core, pc, 6, c2, Run(c2, if taken then pc + 10 + im % 0x80 else pc + 8, Thumb));
  }

  lemma CbzPlaces(buf: int, start: nat, end: nat)
    requires InSpace(buf, end) && start + 17 <= end
    ensures var im := (end - 10 - (start + 3)) * 2 - 4;
            im % 2 == 0 && im % 0x80 % 2 == 0 && im % 0x80 <= 126 && im % 0x80 <= im &&
            buf + 2 * start + 10 + im % 0x80 < 0x1_0000_0000
    ensures end - start <= 78 ==> buf + 2 * start + 10 + CbzDistance(start, end) == buf + 2 * (end - 10)
  {
    var im := (end - 10 - (start + 3)) * 2 - 4;
    var q, e := im / 0x80, end - start - 15;
    TwiceIsEven(im, e);
    assert im % 0x80 == 2 * (e - 0x40 * q);
    TwiceIsEven(im % 0x80, e - 0x40 * q);
  }

  /** The encoder drops all but seven bits. */
  lemma CbzWraps(op: int, rn: int, im: nat)
    requires 0 <= op < 2 && 0 <= rn < 8 && im % 2 == 0
    ensures CbzHalf(op, rn, im) == CbzHalf(op, rn, im % 0x80)
  {
    var q, r := im / 0x80, im % 0x80;
    ModIs(im, 0x40, 2 * q + r / 0x40, r % 0x40);
    ModIs(2 * q + r / 0x40, 2, q, r / 0x40);
    ModIs(im, 2, 0x40 * q + r / 2, r % 2);
    ModIs(0x40 * q + r / 2, 0x20, 2 * q + r / 2 / 0x20, r / 2 % 0x20);
  }

  lemma CbzRuns(env: Env, core: Core, buf: int, start: nat, end: nat, h0: Half, h1: Half, at: Word)
    requires InSpace(buf, end) && Classify(h0, h1) == KCbz && R.Room(KCbz, start, end)
    requires SlotFree(env.rom, core)
    requires Sits(env.rom, buf, start, end, R.Gadget(h0, h1, at, start, end))
    ensures 0 <= buf && buf + 2 * start + 10 + CbzDistance(start, end) < 0x1_0000_0000
    ensures var rn, here := h0 % 8, Run(core, buf + 2 * start, Thumb);
            var after := Scratched(core, R.Scratch(rn));
            if (core.regs[rn] != 0) == (h0 / 0x800 % 2 == 1) then
              Reaches(env, here, Run(Saved(core, R.Scratch(rn)), buf + 2 * start + 10 + CbzDistance(start, end),
                  Thumb)) &&
              (end - start <= 78 ==> Reaches(env, here, Interwork(after, Plus(at, 4 + R.CbzJump(h0)))))
            else
              Goes(env, core, buf + 2 * start, 14, after)
  {
    hide R.Gadget, Classify, Holds, SlotFree, InRom, CodeAddress, WordAddress, R.RestoreAndJump, Saved;
    hide Step, Reaches, Interwork, PushHalf, PopHalf, CbzHalf, Mrs2Half, Msr1Half, R.CbzJump, Goes, Popped,
      PackFlags, Plus;
    FrontAddresses(buf, start, end);
    BackAddress(buf, end, end - 10);
    BackAddress(buf, end, end - 2);
    BackWord(buf, end, 5);
    CbzPlaces(buf, start, end);
    CbzPiece(h0, h1, at, start, end);
    CbzFront(env, core, buf + 2 * start, h0 / 0x800 % 2, h0 % 8, (end - 10 - (start + 3)) * 2 - 4);
    var rn, pc, back := h0 % 8, buf + 2 * start, buf + 2 * (end - 10);
    var rt, dest := R.Scratch(h0 % 8), Plus(at, 4 + R.CbzJump(h0));
    var c2 := Saved(core, rt);
    SavedIs(core, rt);
    if (core.regs[rn] != 0) == (h0 / 0x800 % 2 == 1) {
      if end - start <= 78 {
        PoolRestores(env, core, back, rt, dest);
        ReachesTrans(env, Run(core, pc, Thumb), Run(c2, back, Thumb), Interwork(Scratched(core, rt), dest));
      }
    } else {
      var code := R.Gadget(h0, h1, at, start, end).code;
      HoldsTwo(env.rom, pc, code, 4);
      HoldsOne(env.rom, pc, code, 6);
      RestoreRuns(env, core, pc + 8, rt);
      ReachesGoes(env, core, pc, 8, c2, 6, Scratched(core, rt));
    }
  }

  lemma SavedIs(core: Core, rt: int)
    requires 0 <= rt < 8
    ensures Saved(core, rt) == SetReg(Pushed(core, rt), rt, PackFlags(core.flags))
    ensures Saved(core, rt).regs[SP] == Plus(core.regs[SP], -4)
  {
    hide PackFlags, StoreWord, Plus;
  }

  lemma ReachesGoes(env: Env, core: Core, pc: int, w: int, c: Core, v: int, c': Core)
    requires 0 <= pc && 0 <= w && pc + w < 0x1_0000_0000
    requires Reaches(env, Run(core, pc, Thumb), Run(c, pc + w, Thumb)) && Goes(env, c, pc + w, v, c')
    ensures Goes(env, core, pc, w + v, c')
  {
    hide Reaches;
    assert Goes(env, core, pc, w, c);
    GoesTrans(env, core, pc, w, c, v, c');
  }

  lemma NopHalf()
    ensures MovHalf(8, 8) == NOP
  {
  }

  lemma PoolAddresses(pc: int)
    requires CodeAddress(pc + 16) && 0 <= pc && pc % 4 == 0
    ensures CodeAddress(pc) && CodeAddress(pc + 4) && CodeAddress(pc + 6) && CodeAddress(pc + 8) && (pc + 8) % 4 == 0
  {
    var k := pc / 4;
    assert pc == 4 * k;
    FourTimes(pc + 8, k + 2);
  }

  /** The pool part of the gadget: restore, skip a nop, and take the long jump. */
  lemma PoolRestores(env: Env, core: Core, pc: int, rt: int, dest: Word)
    requires CodeAddress(pc) && CodeAddress(pc + 16) && pc % 4 == 0 && 0 <= rt < 8 && SlotFree(env.rom, core)
    requires Holds(env.rom, pc, R.RestoreAndJump(rt, dest))
    ensures Reaches(env, Run(SetReg(Pushed(core, rt), rt, PackFlags(core.flags)), pc, Thumb),
                    Interwork(Scratched(core, rt), dest))
  {
    hide Holds, SlotFree, InRom, Scratched, MovHalf;
    hide Step, Reaches, StoreWord, Interwork, PopHalf, Msr1Half, R.LongJump, Goes, PackFlags, Pushed, Plus;
    PoolAddresses(pc);
    hide CodeAddress;
    var head: seq<Half> := [Msr1Half(rt), 0x8c00, PopHalf(rt), NOP];
    HoldsSplit(env.rom, pc, head, R.LongJump(dest));
    HoldsTwo(env.rom, pc, head, 0);
    HoldsOne(env.rom, pc, head, 2);
    HoldsOne(env.rom, pc, head, 3);
    var c2 := SetReg(Pushed(core, rt), rt, PackFlags(core.flags));
    var after := Scratched(core, rt);
    RestoreRuns(env, core, pc, rt);
    NopHalf();
    DoMov(env, after, pc + 6, 8, 8);
    SetSame(after, 8);
    GoesTrans(env, c2, pc, 6, after, 2, after);
    DoLongJump(env, after, pc + 8, dest);
    GoesThen(env, c2, pc, 8, after, Interwork(after, dest));
  }
}
