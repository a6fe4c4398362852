/**
  Whole x86 prologues: the relocated window, run from its first instruction, leaves for
  where the displaced one leaves for.
 */
module X86Window {
  import opened Words
  import opened X86Relocate
  import opened X86Meaning
  import opened X86Gadgets

  /** The two processes: the code as it was, and the code with the trampoline. */
  datatype Setting = Setting(m0: Machine, m: Machine, hidden: iset<int>)
  {
    ghost predicate Valid() {
      m0 == m.(code := m0.code) &&
      forall a :: a in m0.code || a in m.code ==> a in hidden
    }
  }

  // ---------------------------------------------------------------- correspondence

  /** Equal registers and flags, and equal memory outside `hidden`. */
  ghost predicate Agree(c: Core, c': Core, hidden: iset<int>) {
    c.sp == c'.sp && c.rest == c'.rest &&
    forall b :: b !in hidden ==> ReadByte(c.mem, b) == ReadByte(c'.mem, b)
  }

  ghost predicate EffectsAgree(e: Effect, e': Effect, hidden: iset<int>) {
    match (e, e')
    case (Fall(c), Fall(c')) => Agree(c, c', hidden)
    case (Goto(c, d), Goto(c', d')) => d == d' && Agree(c, c', hidden)
    case (Call(c, d), Call(c', d')) => d == d' && Agree(c, c', hidden)
    case _ => false
  }

  /** Both machines are at the same boundary of the window. */
  ghost predicate FellThrough(s: Setting, o: State, r: State, at: int, here: int) {
    Valid(s.m.ia32, o) && Valid(s.m.ia32, r) && o.ip == at && r.ip == here && Agree(CoreOf(o), CoreOf(r), s.hidden)
  }

  /** Both machines have left for the same address. */
  ghost predicate Left(s: Setting, o: State, r: State) {
    Valid(s.m.ia32, o) && Valid(s.m.ia32, r) && o.ip == r.ip && Agree(CoreOf(o), CoreOf(r), s.hidden)
  }

  /** Both machines have called the same routine, with the return addresses `at` and `back`. */
  ghost predicate Called(s: Setting, o: State, r: State, at: int, back: int) {
    Valid(s.m.ia32, o) && Valid(s.m.ia32, r) && o.ip == r.ip && o.sp == r.sp && o.rest == r.rest &&
    LoadPtr(s.m.ia32, o.mem, o.sp) == at && LoadPtr(s.m.ia32, r.mem, r.sp) == back &&
    forall b :: b !in s.hidden && !InPtr(s.m.ia32, o.sp, b) ==> ReadByte(o.mem, b) == ReadByte(r.mem, b)
  }

  /** The bytes of the pointer at `a`. */
  ghost predicate InPtr(ia32: bool, a: int, b: int) {
    InDword(ia32, a, b) || (!ia32 && InDword(ia32, a + 4, b))
  }

  /** From `back` the machine comes to `here` with nothing else changed. */
  ghost predicate Resumes(m: Machine, back: int, here: int) {
    forall t: State :: Valid(m.ia32, t) && t.ip == back ==> Reaches(m, t, t.(ip := here))
  }

  // ---------------------------------------------------------------- copied instructions

  /** What the decoder promises about the lengths of the forms that the machine knows. */
  predicate Delimited(bytes: seq<Byte>) {
    bytes != [] &&
    (bytes[0] == 0x68 ==> |bytes| == 5) && (bytes[0] == 0xc3 ==> |bytes| == 1) && (bytes[0] == 0x0f ==> |bytes| >= 2) &&
    (bytes[0] == 0xc7 ==> |bytes| >= 4 && (IsStoreAbove(bytes) ==> |bytes| == 8))
  }

  /** `mov dword [rsp + 4], imm32` */
  predicate IsStoreAbove(bytes: seq<Byte>) {
    |bytes| >= 4 && bytes[0] == 0xc7 && bytes[1] == 0x44 && bytes[2] == 0x24 && bytes[3] == 0x04
  }

  ghost function CopyEffect(m: Machine, bytes: seq<Byte>, core: Core): Effect
    requires Delimited(bytes)
  {
    if bytes[0] == 0x68 then
      var sp := Ptr(m.ia32, core.sp - PtrSize(m.ia32));
      Fall(core.(sp := sp, mem := StorePtr(m.ia32, core.mem, sp, Ptr(m.ia32, Int32(DwordAt(bytes, 1))))))
    else if IsStoreAbove(bytes) then
      Fall(core.(mem := Store4(m.ia32, core.mem, core.sp + 4, DwordAt(bytes, 4))))
    else if bytes[0] == 0xc3 then
      Goto(core.(sp := Ptr(m.ia32, core.sp + PtrSize(m.ia32))), LoadPtr(m.ia32, core.mem, core.sp))
    else m.plain(bytes, core.(mem := View(m.code, core.mem)))
  }

  predicate IsCopied(insn: Insn)
    requires insn.bytes != []
  {
    insn.Op() != 0xe8 && insn.Op() != 0xe9 && insn.Op() != 0xeb && !insn.IsShortJcc()
  }

  lemma DwordOf(code: Code, a: int, bytes: seq<Byte>, i: nat)
    requires Holds(code, a, bytes) && i + 4 <= |bytes|
    ensures Mapped(code, a + i, 4) && CodeDword(code, a + i) == DwordAt(bytes, i)
  {
    HoldsAt(code, a, bytes, i);
    HoldsAt(code, a, bytes, i + 1);
    HoldsAt(code, a, bytes, i + 2);
    HoldsAt(code, a, bytes, i + 3);
  }

  lemma LoadPtrRange(ia32: bool, m: Memory, a: int)
    ensures 0 <= LoadPtr(ia32, m, a) < Space(ia32)
  {
    hide Load4;
  }

  /** A copied instruction does the same wherever it lies. */
  lemma CopyStep(m: Machine, s: State, bytes: seq<Byte>)
    requires Valid(m.ia32, s) && s.ip + 16 < Space(m.ia32) && Holds(m.code, s.ip, bytes)
    requires Whole(m, bytes) && Delimited(bytes) && !IsBranch(m.ia32, bytes) && !ObservesIp(m.ia32, bytes) &&
             IsCopied(Insn(bytes, NoRip))
    ensures Step(m, s) == Continue(m, CopyEffect(m, bytes, CoreOf(s)), s.ip + |bytes|)
  {
    hide Ptr, Int32, CodeDword, DwordAt, StorePtr, Store4, LoadPtr, View, Fetch;
    HoldsMapped(m.code, s.ip, bytes);
    HoldsAt(m.code, s.ip, bytes, 0);
    PtrIs(m.ia32, s.ip + |bytes|, 0, s.ip + |bytes|);
    FirstBytes(m.code, s.ip, bytes);
    if bytes[0] == 0x68 {
      DwordOf(m.code, s.ip, bytes, 1);
      var sp := Ptr(m.ia32, s.sp - PtrSize(m.ia32));
      PtrIs(m.ia32, sp, 0, sp);
      assert Step(m, s) == Continue(m, CopyEffect(m, bytes, CoreOf(s)), s.ip + |bytes|);
    } else if bytes[0] == 0xc3 {
      var sp := Ptr(m.ia32, s.sp + PtrSize(m.ia32));
      PtrIs(m.ia32, sp, 0, sp);
      LoadPtrRange(m.ia32, s.mem, s.sp);
      PtrIs(m.ia32, LoadPtr(m.ia32, s.mem, s.sp), 0, LoadPtr(m.ia32, s.mem, s.sp));
      assert Step(m, s) == Continue(m, CopyEffect(m, bytes, CoreOf(s)), s.ip + |bytes|);
    } else if IsStoreAbove(bytes) {
      PtrIs(m.ia32, s.sp, 0, s.sp);
      DwordOf(m.code, s.ip, bytes, 4);
      assert Step(m, s) == Continue(m, CopyEffect(m, bytes, CoreOf(s)), s.ip + |bytes|);
    } else {
      FetchFinds(m, s.ip, bytes, 1);
      assert Step(m, s) == Plain(m, s);
    }
  }

  lemma FirstBytes(code: Code, a: int, bytes: seq<Byte>)
    requires Holds(code, a, bytes)
    ensures |bytes| >= 2 ==> a + 1 in code && code[a + 1] == bytes[1]
    ensures |bytes| >= 4 ==> a + 2 in code && code[a + 2] == bytes[2] && a + 3 in code && code[a + 3] == bytes[3]
  {
    if |bytes| >= 2 {
      HoldsAt(code, a, bytes, 1);
    }
    if |bytes| >= 4 {
      HoldsAt(code, a, bytes, 2);
      HoldsAt(code, a, bytes, 3);
    }
  }

  // ---------------------------------------------------------------- agreement is kept

  lemma SameStore4(ia32: bool, m: Memory, m': Memory, a: int, w: Word, b: int)
    requires ReadByte(m, b) == ReadByte(m', b)
    ensures ReadByte(Store4(ia32, m, a, w), b) == ReadByte(Store4(ia32, m', a, w), b)
  {
    hide Ptr, ByteAt;
  }

  lemma SameStorePtr(ia32: bool, m: Memory, m': Memory, a: int, v: int, b: int)
    requires 0 <= v < Space(ia32) && ReadByte(m, b) == ReadByte(m', b)
    ensures ReadByte(StorePtr(ia32, m, a, v), b) == ReadByte(StorePtr(ia32, m', a, v), b)
  {
    hide Store4;
    if ia32 {
      SameStore4(ia32, m, m', a, v, b);
    } else {
      SameStore4(ia32, m, m', a, Wrap(v), b);
      SameStore4(ia32, Store4(ia32, m, a, Wrap(v)), Store4(ia32, m', a, Wrap(v)), a + 4, v / 0x1_0000_0000, b);
    }
  }

  lemma StorePtrElsewhere(ia32: bool, m: Memory, a: int, v: int, b: int)
    requires 0 <= v < Space(ia32) && !InPtr(ia32, a, b)
    ensures ReadByte(StorePtr(ia32, m, a, v), b) == ReadByte(m, b)
  {
    hide Store4, InDword;
    if ia32 {
      Store4Elsewhere(ia32, m, a, v, b);
    } else {
      Store4Elsewhere(ia32, m, a, Wrap(v), b);
      Store4Elsewhere(ia32, Store4(ia32, m, a, Wrap(v)), a + 4, v / 0x1_0000_0000, b);
    }
  }

  /** Pushing the same value keeps agreement. */
  lemma PushAgrees(s: Setting, o: State, r: State, v: int, next: int, next': int)
    requires s.m0.ia32 == s.m.ia32 && Valid(s.m.ia32, o) && Valid(s.m.ia32, r) && 0 <= v < Space(s.m.ia32)
    requires Agree(CoreOf(o), CoreOf(r), s.hidden)
    ensures Agree(CoreOf(PushPtr(s.m0, o, v, next)), CoreOf(PushPtr(s.m, r, v, next')), s.hidden)
  {
    hide StorePtr, ReadByte, Ptr;
    var sp := Ptr(s.m.ia32, o.sp - PtrSize(s.m.ia32));
    forall b | b !in s.hidden
      ensures ReadByte(StorePtr(s.m.ia32, o.mem, sp, v), b) == ReadByte(StorePtr(s.m.ia32, r.mem, sp, v), b)
    {
      SameStorePtr(s.m.ia32, o.mem, r.mem, sp, v, b);
    }
  }

  ghost predicate SlotDead(ia32: bool, sp: int, hidden: iset<int>) {
    forall b :: InSlot(ia32, sp, b) ==> b in hidden
  }

  /** Spoiling the dead bytes below the stack pointer keeps agreement. */
  lemma SlotAgrees(s: Setting, o: State, r: State, r': State)
    requires Valid(s.m.ia32, o) && Valid(s.m.ia32, r) && Agree(CoreOf(o), CoreOf(r), s.hidden)
    requires r'.State? && SameAt(s.m.ia32, r, r', r'.ip) && SlotDead(s.m.ia32, r.sp, s.hidden)
    ensures Agree(CoreOf(o), CoreOf(r'), s.hidden)
  {
    hide InSlot, ReadByte;
  }

  /** The bytes of the pointer at `sp` are not below it. */
  lemma AboveSlot(ia32: bool, sp: int, i: int)
    requires 0 <= i < 8
    ensures !InSlot(ia32, sp, Ptr(ia32, sp + i))
  {
    hide Ptr;
    Apart(ia32, sp - 8, sp + i);
    Apart(ia32, sp - 8 + 1, sp + i);
    Apart(ia32, sp - 8 + 2, sp + i);
    Apart(ia32, sp - 8 + 3, sp + i);
    Apart(ia32, sp - 4, sp + i);
    Apart(ia32, sp - 4 + 1, sp + i);
    Apart(ia32, sp - 4 + 2, sp + i);
    Apart(ia32, sp - 4 + 3, sp + i);
  }

  lemma Apart(ia32: bool, a: int, b: int)
    requires a < b < a + 16
    ensures Ptr(ia32, a) != Ptr(ia32, b)
  {
    hide Ptr;
    PtrDistinct(ia32, a, b - a);
    assert a + (b - a) == b;
  }

  /** What lies on the stack is not touched by spoiling the bytes below it. */
  lemma PointerKept(ia32: bool, c: State, r: State)
    requires Valid(ia32, c) && r.State? && SameAt(ia32, c, r, r.ip)
    ensures LoadPtr(ia32, r.mem, c.sp) == LoadPtr(ia32, c.mem, c.sp)
  {
    hide Ptr, InSlot, ReadByte, WordOfBytes;
    AboveSlot(ia32, c.sp, 0);
    AboveSlot(ia32, c.sp, 1);
    AboveSlot(ia32, c.sp, 2);
    AboveSlot(ia32, c.sp, 3);
    AboveSlot(ia32, c.sp, 4);
    AboveSlot(ia32, c.sp, 5);
    AboveSlot(ia32, c.sp, 6);
    AboveSlot(ia32, c.sp, 7);
    assert c.sp + 0 == c.sp && c.sp + 4 + 1 == c.sp + 5 && c.sp + 4 + 2 == c.sp + 6 && c.sp + 4 + 3 == c.sp + 7;
  }

  /** Pushing return addresses keeps agreement elsewhere. */
  lemma CallAgrees(s: Setting, o: State, r: State, at: int, back: int, dest: int)
    requires s.m0.ia32 == s.m.ia32 && Valid(s.m.ia32, o) && Valid(s.m.ia32, r) && Agree(CoreOf(o), CoreOf(r), s.hidden)
    requires 0 <= at < Space(s.m.ia32) && 0 <= back < Space(s.m.ia32) && 0 <= dest < Space(s.m.ia32)
    ensures Called(s, PushPtr(s.m0, o, at, dest), PushPtr(s.m, r, back, dest), at, back)
  {
    hide StorePtr, ReadByte, Ptr, LoadPtr, InPtr;
    var ia32 := s.m.ia32;
    var sp := Ptr(ia32, o.sp - PtrSize(ia32));
    LoadStoredPtr(ia32, o.mem, sp, at);
    LoadStoredPtr(ia32, r.mem, sp, back);
    forall b | b !in s.hidden && !InPtr(ia32, sp, b)
      ensures ReadByte(StorePtr(ia32, o.mem, sp, at), b) == ReadByte(StorePtr(ia32, r.mem, sp, back), b)
    {
      StorePtrElsewhere(ia32, o.mem, sp, at, b);
      StorePtrElsewhere(ia32, r.mem, sp, back, b);
    }
  }

  /** So does a jump that spoils the dead bytes below them. */
  lemma CallSpoiled(s: Setting, o: State, c: State, c': State, r: State, at: int, back: int)
    requires Called(s, o, c', at, back) && Valid(s.m.ia32, c) && c' == c.(ip := o.ip)
    requires SameAt(s.m.ia32, c, r, o.ip) && SlotDead(s.m.ia32, c.sp, s.hidden)
    ensures Called(s, o, r, at, back)
  {
    hide ReadByte, InSlot, LoadPtr, InPtr;
    PointerKept(s.m.ia32, c, r);
  }

  // ---------------------------------------------------------------- what is asked of the window

  /** Every form but a copied branch (one with a prefix, a loop, or a near condition), where
      the jumps written can reach their targets. */
  ghost predicate Relocatable(s: Setting, insn: Insn, at: int, here: int)
    requires insn.Valid(s.m.ia32)
  {
    var ia32 := s.m.ia32;
    insn.rip.NoRip? &&
    if insn.Op() == 0xe9 || insn.Op() == 0xeb then Reachable(ia32, Destination(ia32, insn, at), here)
    else if insn.IsShortJcc() then Reachable(ia32, Destination(ia32, insn, at), here + 4)
    else if insn.Op() == 0xe8 then
      if insn.Rel32() == 0 then ia32 || at + 5 < 0x8000_0000 || at + 5 >= 0x1_0000_0000
      else Reachable(ia32, Destination(ia32, insn, at), here + 10)
    else Whole(s.m, insn.bytes) && Delimited(insn.bytes) && !IsBranch(ia32, insn.bytes) &&
         !ObservesIp(ia32, insn.bytes)
  }

  /** From the core `c`, a copied instruction does not depend on hidden bytes. */
  ghost predicate Oblivious(s: Setting, bytes: seq<Byte>, c: Core)
    requires Delimited(bytes)
  {
    forall c': Core :: Agree(c, c', s.hidden) ==>
      EffectsAgree(CopyEffect(s.m0, bytes, c), CopyEffect(s.m, bytes, c'), s.hidden)
  }

  ghost predicate Taken(s: Setting, insn: Insn, o: State)
    requires insn.Valid(s.m.ia32) && o.State?
  {
    insn.IsShortJcc() && s.m.taken(insn.bytes[0], o.rest)
  }

  /** What the instruction touches when it runs from `o`: a jump that leaves finds the bytes
      below the stack pointer dead, a copied instruction is oblivious. */
  ghost predicate Quiet(s: Setting, insn: Insn, o: State)
    requires insn.Valid(s.m.ia32) && o.State?
  {
    if insn.Op() == 0xe9 || insn.Op() == 0xeb || insn.IsShortJcc() then
      (insn.IsShortJcc() && !Taken(s, insn, o)) || SlotDead(s.m.ia32, o.sp, s.hidden)
    else if insn.Op() == 0xe8 then
      insn.Rel32() != 0 ==> SlotDead(s.m.ia32, Ptr(s.m.ia32, o.sp - PtrSize(s.m.ia32)), s.hidden)
    else Delimited(insn.bytes) && Oblivious(s, insn.bytes, CoreOf(o))
  }

  /** Whether the instruction, run from `o`, transfers control. */
  ghost predicate Transfers(s: Setting, insn: Insn, o: State)
    requires insn.Valid(s.m.ia32) && o.State?
  {
    if insn.Op() == 0xe9 || insn.Op() == 0xeb then true
    else if insn.IsShortJcc() then Taken(s, insn, o)
    else if insn.Op() == 0xe8 then insn.Rel32() != 0
    else Delimited(insn.bytes) && !CopyEffect(s.m0, insn.bytes, CoreOf(o)).Fall?
  }

  // ---------------------------------------------------------------- one instruction

  /** The instruction and its gadget, with agreeing states. */
  ghost predicate Paired(s: Setting, insn: Insn, at: int, here: int, o: State, t: State) {
    s.Valid() && SideBySide(s.m0, s.m, insn, at, here, o, t) && Agree(CoreOf(o), CoreOf(t), s.hidden)
  }

  lemma SimulateJump(s: Setting, insn: Insn, at: int, here: int, o: State, t: State) returns (r: State)
    requires Paired(s, insn, at, here, o, t) && Relocatable(s, insn, at, here) && Quiet(s, insn, o)
    requires insn.Op() == 0xe9 || insn.Op() == 0xeb
    ensures Reaches(s.m, t, r) && Left(s, Step(s.m0, o), r)
  {
    hide Reaches, Step, Holds, Gadget, Insn.Rel32, Insn.Rel8, InSlot, ReadByte, Reachable, Ptr, SlotDead;
    r := JumpGadget(s.m0, s.m, insn, at, here, o, t);
    SlotAgrees(s, o, t, r);
  }

  lemma SimulateBranch(s: Setting, insn: Insn, at: int, here: int, o: State, t: State) returns (r: State)
    requires Paired(s, insn, at, here, o, t) && Relocatable(s, insn, at, here) && Quiet(s, insn, o) && insn.IsShortJcc()
    requires here + |Gadget(s.m.ia32, insn, at, here)| < Space(s.m.ia32)
    ensures Reaches(s.m, t, r)
    ensures if Taken(s, insn, o) then Left(s, Step(s.m0, o), r)
            else FellThrough(s, Step(s.m0, o), r, at + 2, here + |Gadget(s.m.ia32, insn, at, here)|)
  {
    hide Reaches, Step, Holds, Gadget, Insn.Rel32, Insn.Rel8, InSlot, ReadByte, Reachable, Ptr, SlotDead;
    r := BranchGadget(s.m0, s.m, insn, at, here, o, t);
    if Taken(s, insn, o) {
      SlotAgrees(s, o, t, r);
    }
  }

  lemma SimulateCall(s: Setting, insn: Insn, at: int, here: int, o: State, t: State) returns (r: State)
    requires Paired(s, insn, at, here, o, t) && Relocatable(s, insn, at, here) && Quiet(s, insn, o)
    requires insn.Op() == 0xe8 && insn.Rel32() != 0
    ensures Reaches(s.m, t, r) && Called(s, Step(s.m0, o), r, at + 5, here + 5)
    ensures Resumes(s.m, here + 5, here + |Gadget(s.m.ia32, insn, at, here)|)
  {
    hide Reaches, Step, Holds, Gadget, Insn.Rel32, Insn.Rel8, InSlot, ReadByte, Reachable, Ptr, StorePtr, SlotDead,
      LoadPtr, InPtr;
    var ia32, dest := s.m.ia32, Destination(s.m.ia32, insn, at);
    r := CallGadget(s.m0, s.m, insn, at, here, o, t, t.(ip := here + 5));
    CallAgrees(s, o, t, at + 5, here + 5, dest);
    var c := PushPtr(s.m, t, here + 5, here + 10);
    CallSpoiled(s, Step(s.m0, o), c, c.(ip := dest), r, at + 5, here + 5);
    forall b: State | Valid(ia32, b) && b.ip == here + 5
      ensures Reaches(s.m, b, b.(ip := here + |Gadget(ia32, insn, at, here)|))
    {
      var _ := CallGadget(s.m0, s.m, insn, at, here, o, t, b);
      ReachesStep(s.m, b);
    }
  }

  lemma SimulateCallNext(s: Setting, insn: Insn, at: int, here: int, o: State, t: State) returns (r: State)
    requires Paired(s, insn, at, here, o, t) && Relocatable(s, insn, at, here)
    requires insn.Op() == 0xe8 && insn.Rel32() == 0
    ensures Reaches(s.m, t, r) && FellThrough(s, Step(s.m0, o), r, at + 5, here + |Gadget(s.m.ia32, insn, at, here)|)
  {
    hide Reaches, Step, Holds, Gadget, Insn.Rel32, Insn.Rel8, InSlot, ReadByte, Ptr, StorePtr, LoadPtr, PushedAt;
    r := CallNextGadget(s.m0, s.m, insn, at, here, o, t);
    PushedValueRightIff(s.m.ia32, at + 5);
    CallNextSize(s.m.ia32, insn, at, here);
    PushAgrees(s, o, t, at + 5, at + 5, r.ip);
  }

  lemma CallNextSize(ia32: bool, insn: Insn, at: int, here: int)
    requires insn.Valid(ia32) && insn.rip.NoRip? && insn.Op() == 0xe8 && insn.Rel32() == 0
    ensures |Gadget(ia32, insn, at, here)| <= 13
  {
    hide Ptr, DwordAt, Int32;
  }

  lemma SimulateCopy(s: Setting, insn: Insn, at: int, here: int, o: State, t: State) returns (r: State)
    requires Paired(s, insn, at, here, o, t) && Relocatable(s, insn, at, here) && Quiet(s, insn, o) && IsCopied(insn)
    ensures Reaches(s.m, t, r)
    ensures var o', n := Step(s.m0, o), |insn.bytes|;
            if Transfers(s, insn, o) then Left(s, o', r) || Called(s, o', r, at + n, here + n)
            else FellThrough(s, o', r, at + n, here + n)
  {
    hide Reaches, Step, Holds, Insn.Rel32, Insn.Rel8, ReadByte, Ptr, CopyEffect, Delimited, IsBranch, InPtr,
      LoadPtr, StorePtr;
    var bytes := insn.bytes;
    assert Gadget(s.m.ia32, insn, at, here) == bytes;
    WholeIn(s.m0, s.m, bytes);
    hide Whole;
    CopyStep(s.m0, o, bytes);
    CopyStep(s.m, t, bytes);
    var e, e' := CopyEffect(s.m0, bytes, CoreOf(o)), CopyEffect(s.m, bytes, CoreOf(t));
    assert EffectsAgree(e, e', s.hidden);
    r := Step(s.m, t);
    ReachesStep(s.m, t);
    ContinueAgrees(s, e, e', at + |bytes|, here + |bytes|);
  }

  lemma ContinueAgrees(s: Setting, e: Effect, e': Effect, at: int, here: int)
    requires s.m0.ia32 == s.m.ia32 && EffectsAgree(e, e', s.hidden)
    requires 0 <= at < Space(s.m.ia32) && 0 <= here < Space(s.m.ia32)
    ensures var o, r := Continue(s.m0, e, at), Continue(s.m, e', here);
            match e
            case Fall(_) => FellThrough(s, o, r, at, here)
            case Goto(_, _) => Left(s, o, r)
            case Call(_, _) => Called(s, o, r, at, here)
  {
    hide ReadByte, StorePtr, LoadPtr, InPtr, Ptr;
    match e
    case Fall(_) =>
    case Goto(_, _) =>
    case Call(c, d) =>
      CallAgrees(s, At(s.m.ia32, c, at), At(s.m.ia32, e'.core, here), at, here, Ptr(s.m.ia32, d));
  }

  /** One displaced instruction, from any agreeing states. */
  lemma SimulateOne(s: Setting, insn: Insn, at: int, here: int, o: State, t: State) returns (r: State, back: int)
    requires Paired(s, insn, at, here, o, t) && Relocatable(s, insn, at, here) && Quiet(s, insn, o)
    requires here + |Gadget(s.m.ia32, insn, at, here)| < Space(s.m.ia32)
    ensures Reaches(s.m, t, r)
    ensures var o', at', here' := Step(s.m0, o), at + insn.Width(), here + |Gadget(s.m.ia32, insn, at, here)|;
            if Transfers(s, insn, o) then
              Left(s, o', r) || (Called(s, o', r, at', back) && Resumes(s.m, back, here'))
            else FellThrough(s, o', r, at', here')
  {
    hide Reaches, Step, Holds, Gadget, Insn.Rel32, Insn.Rel8, CopyEffect, Agree, Left, Called, FellThrough, Oblivious,
      SlotDead, Reachable,
      Resumes, Whole, Delimited;
    back := here + 5;
    if insn.Op() == 0xe9 || insn.Op() == 0xeb {
      r := SimulateJump(s, insn, at, here, o, t);
    } else if insn.IsShortJcc() {
      r := SimulateBranch(s, insn, at, here, o, t);
    } else if insn.Op() == 0xe8 {
      if insn.Rel32() != 0 {
        r := SimulateCall(s, insn, at, here, o, t);
      } else {
        r := SimulateCallNext(s, insn, at, here, o, t);
      }
    } else {
      r := SimulateCopy(s, insn, at, here, o, t);
      CopySize(s.m.ia32, insn, at, here);
      back := here + insn.Width();
      StaysThere(s.m, back);
    }
  }

  lemma CopySize(ia32: bool, insn: Insn, at: int, here: int)
    requires insn.Valid(ia32) && insn.rip.NoRip? && IsCopied(insn)
    ensures Gadget(ia32, insn, at, here) == insn.bytes
  {
  }

  lemma StaysThere(m: Machine, a: int)
    ensures Resumes(m, a, a)
  {
    forall t: State | Valid(m.ia32, t) && t.ip == a ensures Reaches(m, t, t.(ip := a)) {
      assert Steps(m, 0, t) == t;
    }
  }

  // ---------------------------------------------------------------- whole windows

  function BytesOf(insns: seq<Insn>): seq<Byte> {
    if insns == [] then [] else insns[0].bytes + BytesOf(insns[1..])
  }

  /** The instructions `insns` are mapped at `at` in the original process, and what the
      emission writes for them at `here` in the other. */
  ghost predicate LaidOut(s: Setting, insns: seq<Insn>, at: int, here: int) {
    s.Valid() && AllValid(s.m.ia32, insns) && 0 <= at && 0 <= here &&
    at + Used(insns) + 32 < Space(s.m.ia32) && here + |EmitAll(s.m.ia32, insns, at, here)| + 32 < Space(s.m.ia32) &&
    Holds(s.m0.code, at, BytesOf(insns)) && Holds(s.m.code, here, EmitAll(s.m.ia32, insns, at, here))
  }

  function Displaced(bs: seq<Byte>, a: int, i: int): Byte
    requires a <= i < a + |bs|
  { bs[i - a] }

  function MappedAt(a: int, bs: seq<Byte>): Code {
    map i: int | a <= i < a + |bs| :: Displaced(bs, a, i)
  }

  lemma MappedHolds(a: int, bs: seq<Byte>)
    ensures Holds(MappedAt(a, bs), a, bs)
  {
  }

  /** Every window can be laid out, at any addresses, in a machine of any meaning and with
      any further hidden bytes: the theorems speak about all of them. */
  lemma LayoutExists(any: Machine, insns: seq<Insn>, area: int, buf: int, dead: iset<int>) returns (s: Setting)
    requires AllValid(any.ia32, insns) && 0 <= area && 0 <= buf && area + Used(insns) + 32 < Space(any.ia32)
    requires buf + |EmitAll(any.ia32, insns, area, buf)| + 32 < Space(any.ia32)
    ensures LaidOut(s, insns, area, buf) && s.m == any.(code := s.m.code)
    ensures forall a :: a in dead ==> a in s.hidden
  {
    hide EmitAll, Used, BytesOf;
    var code0, code := MappedAt(area, BytesOf(insns)), MappedAt(buf, EmitAll(any.ia32, insns, area, buf));
    MappedHolds(area, BytesOf(insns));
    MappedHolds(buf, EmitAll(any.ia32, insns, area, buf));
    hide MappedAt, Holds;
    var hidden := iset a: int | a in code0 || a in code || a in dead;
    s := Setting(any.(code := code0), any.(code := code), hidden);
  }

  lemma LaidNext(s: Setting, insns: seq<Insn>, at: int, here: int)
    requires LaidOut(s, insns, at, here) && insns != []
    ensures var insn, g := insns[0], Gadget(s.m.ia32, insns[0], at, here);
            Holds(s.m0.code, at, insn.bytes) && Holds(s.m.code, here, g) &&
            here + |g| + 32 < Space(s.m.ia32) && at + insn.Width() + 32 < Space(s.m.ia32) &&
            LaidOut(s, insns[1..], at + insn.Width(), here + |g|)
  {
    hide Holds, Gadget, Jump;
    var insn, g := insns[0], Gadget(s.m.ia32, insns[0], at, here);
    HoldsSplit(s.m0.code, at, insn.bytes, BytesOf(insns[1..]));
    HoldsSplit(s.m.code, here, g, EmitAll(s.m.ia32, insns[1..], at + insn.Width(), here + |g|));
  }

  /** Static condition on the displaced instructions; the last jump must reach the rest of
      the function. */
  ghost predicate AllRelocatable(s: Setting, insns: seq<Insn>, at: int, here: int)
    requires AllValid(s.m.ia32, insns)
    decreases |insns|
  {
    if insns == [] then Reachable(s.m.ia32, Ptr(s.m.ia32, at), here)
    else
      Relocatable(s, insns[0], at, here) &&
      AllRelocatable(s, insns[1..], at + insns[0].Width(), here + |Gadget(s.m.ia32, insns[0], at, here)|)
  }

  /** Dynamic condition on the run of the displaced instructions from `o`. */
  ghost predicate QuietRun(s: Setting, insns: seq<Insn>, o: State)
    requires AllValid(s.m.ia32, insns)
    decreases |insns|
  {
    o.State? &&
    if insns == [] then SlotDead(s.m.ia32, o.sp, s.hidden)
    else Quiet(s, insns[0], o) && (!Transfers(s, insns[0], o) ==> QuietRun(s, insns[1..], Step(s.m0, o)))
  }

  /** The state in which the original run, straight down the window, first transfers control
      or reaches its end; the address behind the last instruction it executed, and the
      instructions that are left. */
  ghost function OriginalExit(s: Setting, insns: seq<Insn>, at: int, o: State): (State, int, seq<Insn>)
    requires AllValid(s.m.ia32, insns)
    decreases |insns|
  {
    if insns == [] || o.Stuck? then (o, at, insns)
    else if Transfers(s, insns[0], o) then (Step(s.m0, o), at + insns[0].Width(), insns[1..])
    else OriginalExit(s, insns[1..], at + insns[0].Width(), Step(s.m0, o))
  }

  lemma ClosingJump(s: Setting, at: int, here: int, o: State, t: State) returns (r: State)
    requires LaidOut(s, [], at, here) && FellThrough(s, o, t, at, here)
    requires Reachable(s.m.ia32, Ptr(s.m.ia32, at), here) && SlotDead(s.m.ia32, o.sp, s.hidden)
    ensures Reaches(s.m, t, r) && Left(s, o, r)
  {
    hide Reaches, Step, Holds, InSlot, ReadByte, SlotDead, Jump, Is32BitOffset;
    PtrIs(s.m.ia32, at, 0, at);
    JumpRightIff(s.m.ia32, at, here);
    r := JumpRuns(s.m, t, at);
    SlotAgrees(s, o, t, r);
  }

  /** The relocated window reaches the state that the original reaches: the same address,
      stack pointer, registers, flags and visible memory; or the same called routine, with
      return addresses from which both resume at corresponding instructions.
      `ReturnResumes` goes on from there. */
  lemma {:induction false} RelocatedRun(s: Setting, insns: seq<Insn>, at: int, here: int, o: State, t: State)
    returns (r: State, back: int, here': int)
    requires LaidOut(s, insns, at, here) && AllRelocatable(s, insns, at, here)
    requires FellThrough(s, o, t, at, here) && QuietRun(s, insns, o)
    ensures Reaches(s.m, t, r)
    ensures var (x, at', rest) := OriginalExit(s, insns, at, o);
            Left(s, x, r) || (Called(s, x, r, at', back) && Resumes(s.m, back, here') && LaidOut(s, rest, at', here'))
    decreases |insns|
  {
    hide Reaches, Step, Holds, Gadget, Agree, Left, Called, Resumes, Relocatable, Quiet, Transfers, Jump, SlotDead;
    back, here' := 0, here;
    if insns == [] {
      r := ClosingJump(s, at, here, o, t);
    } else {
      LaidNext(s, insns, at, here);
      var insn := insns[0];
      IsPaired(s, insn, at, here, o, t);
      var w, g := insn.Width(), |Gadget(s.m.ia32, insn, at, here)|;
      hide LaidOut, Paired, SideBySide;
      var r1;
      r1, back := SimulateOne(s, insn, at, here, o, t);
      if Transfers(s, insn, o) {
        r, here' := r1, here + g;
      } else {
        r, back, here' := RelocatedRun(s, insns[1..], at + w, here + g, Step(s.m0, o), r1);
        ReachesTrans(s.m, t, r1, r);
      }
    }
  }

  lemma IsPaired(s: Setting, insn: Insn, at: int, here: int, o: State, t: State)
    requires s.Valid() && FellThrough(s, o, t, at, here) && insn.Valid(s.m.ia32) && Relocatable(s, insn, at, here)
    requires at + 32 < Space(s.m.ia32) && here + 32 < Space(s.m.ia32)
    requires Holds(s.m0.code, at, insn.bytes) && Holds(s.m.code, here, Gadget(s.m.ia32, insn, at, here))
    ensures Paired(s, insn, at, here, o, t)
  {
    hide Holds, Gadget, Whole, Reachable, ReadByte;
  }

  /** The relocation theorem for x86: calling the trampoline does what the displaced
      prologue did in its place. */
  lemma RelocationPreservesMeaning(s: Setting, insns: seq<Insn>, area: int, buf: int, o: State, t: State)
    returns (r: State, back: int, here: int)
    requires LaidOut(s, insns, area, buf) && AllRelocatable(s, insns, area, buf) && QuietRun(s, insns, o)
    requires Valid(s.m.ia32, o) && Valid(s.m.ia32, t) && o.ip == area && t.ip == buf
    requires Agree(CoreOf(o), CoreOf(t), s.hidden)
    ensures Reaches(s.m, t, r)
    ensures var (x, at, rest) := OriginalExit(s, insns, area, o);
            Left(s, x, r) || (Called(s, x, r, at, back) && Resumes(s.m, back, here) && LaidOut(s, rest, at, here))
  {
    hide Reaches, LaidOut, AllRelocatable, QuietRun, Agree, Left, Called, Resumes, OriginalExit;
    r, back, here := RelocatedRun(s, insns, area, buf, o, t);
  }

  // ---------------------------------------------------------------- after a call

  /** The setting after a return: the slot of the return addresses, which differ, is dead. */
  ghost function AfterCall(s: Setting, sp: int): Setting {
    s.(hidden := iset b: int | b in s.hidden || InPtr(s.m.ia32, sp, b))
  }

  lemma {:induction false} RelocatableAfter(s: Setting, sp: int, insns: seq<Insn>, at: int, here: int)
    requires AllValid(s.m.ia32, insns) && AllRelocatable(s, insns, at, here)
    ensures AllRelocatable(AfterCall(s, sp), insns, at, here)
    decreases |insns|
  {
    hide Reachable, Gadget, Destination, Whole, InPtr;
    if insns != [] {
      RelocatableAfter(s, sp, insns[1..], at + insns[0].Width(), here + |Gadget(s.m.ia32, insns[0], at, here)|);
    }
  }

  /** The exit is a state of the original run. */
  lemma {:induction false} ExitReached(s: Setting, insns: seq<Insn>, at: int, o: State)
    requires AllValid(s.m.ia32, insns)
    ensures Reaches(s.m0, o, OriginalExit(s, insns, at, o).0)
    decreases |insns|
  {
    hide Step, Transfers, Reaches;
    if insns == [] || o.Stuck? {
      ReachesNow(s.m0, o);
    } else {
      ReachesStep(s.m0, o);
      if !Transfers(s, insns[0], o) {
        ExitReached(s, insns[1..], at + insns[0].Width(), Step(s.m0, o));
        ReachesTrans(s.m0, o, Step(s.m0, o), OriginalExit(s, insns, at, o).0);
      }
    }
  }

  lemma ReachesNow(m: Machine, t: State)
    ensures Reaches(m, t, t)
  {
    assert Steps(m, 0, t) == t;
  }

  /** After a call: when the routine returns in both processes to the address that was pushed,
      with states that agree but for the slot of that address, the relocated window again
      reaches what the original reaches, and so on for any number of calls. */
  lemma ReturnResumes(s: Setting, insns: seq<Insn>, at: int, here: int, back: int, o: State, r: State, o1: State,
          t1: State)
    returns (r': State, back': int, here': int)
    requires LaidOut(s, insns, at, here) && AllRelocatable(s, insns, at, here)
    requires Called(s, o, r, at, back) && Resumes(s.m, back, here)
    requires Reaches(s.m0, o, o1) && Reaches(s.m, r, t1)
    requires FellThrough(AfterCall(s, o.sp), o1, t1, at, back) && QuietRun(AfterCall(s, o.sp), insns, o1)
    ensures Reaches(s.m, r, r')
    ensures var s' := AfterCall(s, o.sp);
            var (x, at', rest) := OriginalExit(s', insns, at, o1);
            Reaches(s.m0, o, x) &&
            (Left(s', x, r') || (Called(s', x, r', at', back') && Resumes(s.m, back', here') &&
            LaidOut(s', rest, at', here')))
  {
    hide Reaches, Agree, Left, OriginalExit, AllRelocatable, QuietRun, Holds, InPtr, EmitAll, LoadPtr, ReadByte;
    var s' := AfterCall(s, o.sp);
    RelocatableAfter(s, o.sp, insns, at, here);
    ReachesTrans(s.m, r, t1, t1.(ip := here));
    r', back', here' := RelocatedRun(s', insns, at, here, o1, t1.(ip := here));
    ReachesTrans(s.m, r, t1.(ip := here), r');
    ExitReached(s', insns, at, o1);
    ReachesTrans(s.m0, o, o1, OriginalExit(s', insns, at, o1).0);
  }
}
