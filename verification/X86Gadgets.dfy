/**
  Original branch against relocated gadget, form by form.  `m0` runs the displaced
  instruction `insn` at `at`; `m` runs what the relocator wrote for it at `here`.
 */
module X86Gadgets {
  import opened Words
  import opened X86Relocate
  import opened X86Meaning

  /** The two machines, and where they stand. */
  ghost predicate SideBySide(m0: Machine, m: Machine, insn: Insn, at: int, here: int, s0: State, s: State) {
    m0 == m.(code := m0.code) &&
    insn.Valid(m.ia32) && insn.rip.NoRip? &&
    Valid(m.ia32, s0) && Valid(m.ia32, s) && s0.ip == at && s.ip == here &&
    s0.sp == s.sp && s0.rest == s.rest &&
    at + 32 < Space(m.ia32) && here + 32 < Space(m.ia32) &&
    Holds(m0.code, at, insn.bytes) && Holds(m.code, here, Gadget(m.ia32, insn, at, here))
  }

  /** A jump written at `here` reaches every target but those whose low half PUSH would
      sign-extend. */
  predicate Reachable(ia32: bool, target: int, here: int) {
    ia32 || Is32BitOffset(ia32, target, here + 5) || target < 0x8000_0000 || target >= 0x1_0000_0000
  }

  lemma OriginalDword(code: Code, at: int, bytes: seq<Byte>)
    requires Holds(code, at, bytes) && |bytes| == 5
    ensures Mapped(code, at, 5) && code[at] == bytes[0] && CodeDword(code, at + 1) == DwordAt(bytes, 1)
  {
    HoldsMapped(code, at, bytes);
    HoldsAt(code, at, bytes, 0);
    HoldsAt(code, at, bytes, 1);
    HoldsAt(code, at, bytes, 2);
    HoldsAt(code, at, bytes, 3);
    HoldsAt(code, at, bytes, 4);
  }

  lemma OriginalShort(code: Code, at: int, bytes: seq<Byte>)
    requires Holds(code, at, bytes) && |bytes| == 2
    ensures Mapped(code, at, 2) && code[at] == bytes[0] && code[at + 1] == bytes[1]
  {
    HoldsMapped(code, at, bytes);
    HoldsAt(code, at, bytes, 0);
    HoldsAt(code, at, bytes, 1);
  }

  /** What the displaced branch does in its place. */
  lemma OriginalStep(m0: Machine, m: Machine, insn: Insn, at: int, here: int, s0: State, s: State)
    requires SideBySide(m0, m, insn, at, here, s0, s)
    ensures insn.Op() == 0xe9 || insn.Op() == 0xeb ==>
              Step(m0, s0) == s0.(ip := Destination(m.ia32, insn, at))
    ensures insn.IsShortJcc() ==>
              Step(m0, s0) == s0.(ip := if m.taken(insn.bytes[0], s.rest) then Destination(m.ia32, insn,
                  at) else at + 2)
    ensures insn.Op() == 0xe8 ==> Step(m0, s0) == PushPtr(m0, s0, at + 5, Destination(m.ia32, insn, at))
  {
    hide Gadget, Int32, Signed, DwordAt, CodeDword, PushPtr, Holds, Mapped;
    if |insn.bytes| == 5 {
      OriginalDword(m0.code, at, insn.bytes);
      PtrIs(m.ia32, at + 5, 0, at + 5);
    } else if |insn.bytes| == 2 {
      OriginalShort(m0.code, at, insn.bytes);
      PtrIs(m.ia32, at + 2, 0, at + 2);
    }
    Opened(m0.code, at, insn.bytes);
  }

  lemma Opened(code: Code, at: int, bytes: seq<Byte>)
    requires Holds(code, at, bytes) && bytes != []
    ensures at in code && code[at] == bytes[0]
  {
    HoldsAt(code, at, bytes, 0);
  }

  /** Short and near jumps: relocated and original go to the same address exactly when the
      jump written can reach it. */
  lemma JumpGadget(m0: Machine, m: Machine, insn: Insn, at: int, here: int, s0: State, s: State) returns (r: State)
    requires SideBySide(m0, m, insn, at, here, s0, s) && (insn.Op() == 0xe9 || insn.Op() == 0xeb)
    ensures Reaches(m, s, r) && r.State? && SameAt(m.ia32, s, r, r.ip)
    ensures Step(m0, s0) == s0.(ip := Destination(m.ia32, insn, at))
    ensures r.ip == Step(m0, s0).ip <==> Reachable(m.ia32, Destination(m.ia32, insn, at), here)
  {
    hide Reaches, Step, Is32BitOffset, Jump, Holds, Insn.Rel32, Insn.Rel8, Ptr, InSlot;
    var dest := Destination(m.ia32, insn, at);
    OriginalStep(m0, m, insn, at, here, s0, s);
    assert Gadget(m.ia32, insn, at, here) == Jump(m.ia32, dest, here);
    r := JumpRuns(m, s, dest);
    JumpRightIff(m.ia32, dest, here);
  }

  lemma ShortJump(m: Machine, s: State, n: Byte)
    requires Valid(m.ia32, s) && Holds(m.code, s.ip, [0xeb, n]) && n < 0x80 && s.ip + 2 + n < Space(m.ia32)
    ensures Step(m, s) == s.(ip := s.ip + 2 + n)
  {
    hide Ptr;
    OriginalShort(m.code, s.ip, [0xeb, n]);
    PtrIs(m.ia32, s.ip + 2 + n, 0, s.ip + 2 + n);
  }

  lemma ShortBranch(m: Machine, s: State, op: Byte, n: Byte)
    requires Valid(m.ia32, s) && Holds(m.code, s.ip, [op, n]) && n < 0x80 && s.ip + 2 + n < Space(m.ia32)
    requires op == 0xe3 || op / 0x10 == 7
    ensures Step(m, s) == s.(ip := s.ip + 2 + (if m.taken(op, s.rest) then n else 0))
  {
    hide Ptr;
    OriginalShort(m.code, s.ip, [op, n]);
    PtrIs(m.ia32, s.ip + 2 + n, 0, s.ip + 2 + n);
    PtrIs(m.ia32, s.ip + 2, 0, s.ip + 2);
  }

  /** Short conditional branches: not taken, both go on to the next instruction, changing
      nothing; taken, they go to the same address exactly when the jump can reach it. */
  lemma BranchGadget(m0: Machine, m: Machine, insn: Insn, at: int, here: int, s0: State, s: State) returns (r: State)
    requires SideBySide(m0, m, insn, at, here, s0, s) && insn.IsShortJcc()
    ensures Reaches(m, s, r) && r.State? && SameAt(m.ia32, s, r, r.ip)
    ensures var dest := Destination(m.ia32, insn, at);
            if m.taken(insn.bytes[0], s.rest) then
              Step(m0, s0) == s0.(ip := dest) && (r.ip == dest <==> Reachable(m.ia32, dest, here + 4))
            else
              Step(m0, s0) == s0.(ip := at + 2) && r == s.(ip := here + |Gadget(m.ia32, insn, at, here)|)
  {
    hide Reaches, Step, Is32BitOffset, Jump, Holds, Insn.Rel32, Insn.Rel8, Ptr, InSlot, SizeOfJump;
    var dest := Destination(m.ia32, insn, at);
    var op := insn.bytes[0];
    OriginalStep(m0, m, insn, at, here, s0, s);
    var n := SizeOfJump(m.ia32, dest, here + 4);
    JumpSizes(m.ia32, dest, here + 4);
    var jump := Jump(m.ia32, dest, here + 4);
    assert Gadget(m.ia32, insn, at, here) == [op, 2] + ([0xeb, n] + jump);
    HoldsSplit(m.code, here, [op, 2], [0xeb, n] + jump);
    HoldsSplit(m.code, here + 2, [0xeb, n], jump);
    ShortBranch(m, s, op, 2);
    var s1 := Step(m, s);
    ReachesStep(m, s);
    if m.taken(op, s.rest) {
      r := JumpRuns(m, s1, dest);
      ReachesTrans(m, s, s1, r);
      JumpRightIff(m.ia32, dest, here + 4);
    } else {
      ShortJump(m, s1, n);
      r := Step(m, s1);
      ReachesStep(m, s1);
      ReachesTrans(m, s, s1, r);
    }
  }

  lemma JumpSizes(ia32: bool, target: int, here: int)
    ensures 5 <= SizeOfJump(ia32, target, here) <= 14
  {
  }

  lemma Int32Of(n: int)
    requires 0 <= n < 0x8000_0000
    ensures Int32(n) == n
  {
    Int32Small(n);
  }

  /** `call +5`: pushes the address behind itself and goes on five bytes further. */
  lemma CallOver(m: Machine, s: State)
    requires Valid(m.ia32, s) && s.ip + 10 < Space(m.ia32) && Holds(m.code, s.ip, [0xe8] + Dword(SIZE_OF_SKIP))
    ensures Step(m, s) == PushPtr(m, s, s.ip + 5, s.ip + 10)
  {
    hide Dword, Ptr, Int32, CodeDword, Mapped, Holds, PushPtr;
    OpDword(m.code, s.ip, 0xe8, SIZE_OF_SKIP);
    Int32Wrap(SIZE_OF_SKIP);
    Int32Of(SIZE_OF_SKIP);
    PtrIs(m.ia32, s.ip + 5, 0, s.ip + 5);
    PtrIs(m.ia32, s.ip + 5 + 5, 0, s.ip + 10);
  }

  /** Calls: both push a return address and go to the routine, the same one exactly when
      the jump can reach it; and from the relocated return address a skip leads to the
      next relocated instruction, changing nothing. */
  lemma CallGadget(m0: Machine, m: Machine, insn: Insn, at: int, here: int, s0: State, s: State, back: State)
    returns (r: State)
    requires SideBySide(m0, m, insn, at, here, s0, s) && insn.Op() == 0xe8 && insn.Rel32() != 0
    requires Valid(m.ia32, back) && back.ip == here + 5
    ensures Step(m0, s0) == PushPtr(m0, s0, at + 5, Destination(m.ia32, insn, at))
    ensures Reaches(m, s, r) && r.State?
    ensures SameAt(m.ia32, PushPtr(m, s, here + 5, here + 10), r, r.ip)
    ensures r.ip == Destination(m.ia32, insn, at) <==> Reachable(m.ia32, Destination(m.ia32, insn, at), here + 10)
    ensures Step(m, back) == back.(ip := here + |Gadget(m.ia32, insn, at, here)|)
  {
    hide Reaches, Step, Is32BitOffset, Jump, Skip, Holds, Insn.Rel32, Insn.Rel8, InSlot, Int32, SizeOfJump, Dword,
      StorePtr;
    var dest := Destination(m.ia32, insn, at);
    OriginalStep(m0, m, insn, at, here, s0, s);
    var n := SizeOfJump(m.ia32, dest, here + 10);
    JumpSizes(m.ia32, dest, here + 10);
    var call, skip, jump := [0xe8] + Dword(SIZE_OF_SKIP), Skip(n), Jump(m.ia32, dest, here + 10);
    assert Gadget(m.ia32, insn, at, here) == call + (skip + jump);
    HoldsSplit(m.code, here, call, skip + jump);
    HoldsSplit(m.code, here + 5, skip, jump);
    CallOver(m, s);
    ReachesStep(m, s);
    var c := PushPtr(m, s, here + 5, here + 10);
    r := JumpRuns(m, c, dest);
    ReachesTrans(m, s, c, r);
    JumpRightIff(m.ia32, dest, here + 10);
    Int32Of(n);
    PtrIs(m.ia32, here + 10 + n, 0, here + 10 + n);
    SkipRuns(m, back, n, here + 10 + n);
  }

  /** A call to the next instruction, the way code learns its own address: both push the
      original return address (exactly when PUSH does not spoil it) and go on. */
  lemma CallNextGadget(m0: Machine, m: Machine, insn: Insn, at: int, here: int, s0: State, s: State) returns (r: State)
    requires SideBySide(m0, m, insn, at, here, s0, s) && insn.Op() == 0xe8 && insn.Rel32() == 0
    ensures Step(m0, s0) == PushPtr(m0, s0, at + 5, at + 5)
    ensures Reaches(m, s, r) && r.State? && r.ip == here + |Gadget(m.ia32, insn, at, here)|
    ensures PushedAt(m.ia32, s, r, r.ip, LoadPtr(m.ia32, r.mem, r.sp))
    ensures 0 <= PushedValue(m.ia32, at + 5) < Space(m.ia32) && r == PushPtr(m, s, PushedValue(m.ia32, at + 5), r.ip)
    ensures LoadPtr(m.ia32, r.mem, r.sp) == at + 5 <==> m.ia32 || at + 5 < 0x8000_0000 || at + 5 >= 0x1_0000_0000
  {
    hide Reaches, Step, Holds, InSlot, Int32, PushPointer, LoadPtr, PushPtr;
    OriginalStep(m0, m, insn, at, here, s0, s);
    PtrIs(m.ia32, at + 5, 0, at + 5);
    r := PushRuns(m, s, at + 5);
    PushedValueRightIff(m.ia32, at + 5);
  }

  // ---------------------------------------------------------------- copied branches

  /** `bytes` is one whole instruction for the machine. */
  ghost predicate Whole(m: Machine, bytes: seq<Byte>) {
    1 <= |bytes| <= 15 && m.complete(bytes) && forall n :: 1 <= n < |bytes| ==> !m.complete(bytes[..n])
  }

  lemma {:induction false} FetchFinds(m: Machine, a: int, bytes: seq<Byte>, n: nat)
    requires Holds(m.code, a, bytes) && Whole(m, bytes) && 1 <= n <= |bytes|
    ensures Fetch(m, a, n) == bytes
    decreases |bytes| - n
  {
    HoldsMapped(m.code, a, bytes);
    forall i | 0 <= i < n ensures BytesAt(m.code, a, n)[i] == bytes[..n][i] {
      HoldsAt(m.code, a, bytes, i);
    }
    assert BytesAt(m.code, a, n) == bytes[..n];
    if n < |bytes| {
      FetchFinds(m, a, bytes, n + 1);
    } else {
      assert bytes[..n] == bytes;
    }
  }

  /** Neither emitted nor recognised by its first byte. */
  predicate IsUnseen(op: Byte) {
    op !in {0xe8, 0xe9, 0xeb, 0xe3, 0x68, 0xc7, 0xc3} && op / 0x10 != 7
  }

  lemma BranchStep(m: Machine, s: State, bytes: seq<Byte>)
    requires Valid(m.ia32, s) && Holds(m.code, s.ip, bytes) && Whole(m, bytes) && IsBranch(m.ia32, bytes) &&
             IsUnseen(bytes[0])
    ensures Step(m, s) == Branch(m, s, bytes)
  {
    hide Branch, IsBranch, Fetch;
    HoldsAt(m.code, s.ip, bytes, 0);
    FetchFinds(m, s.ip, bytes, 1);
    assert Step(m, s) == Plain(m, s);
  }

  /** Branches that the relocator does not recognise (near conditions, loops, and every form
      with a prefix) are copied: not taken, the copy goes on as the original does; taken, it
      goes to the same address exactly when it lies where the original lay, or a 16-bit
      instruction pointer does not tell them apart. */
  lemma CopiedBranchRightIff(m0: Machine, m: Machine, insn: Insn, at: int, here: int, s0: State, s: State)
    requires SideBySide(m0, m, insn, at, here, s0, s)
    requires var bytes := insn.bytes;
             Whole(m, bytes) && IsUnseen(bytes[0]) && IsBranch(m.ia32, bytes) && IsShaped(m.ia32, bytes) &&
             !(IsCall(m.ia32, bytes) && IsNarrow(m.ia32, bytes))
    ensures var bytes, o, r := insn.bytes, Step(m0, s0), Step(m, s);
            o.State? && r.State? && o.sp == r.sp && o.rest == r.rest &&
            if Outcome(m, bytes, s.rest).0
            then o.ip == r.ip <==> if IsNarrow(m.ia32, bytes) then (here - at) % 0x1_0000 == 0 else here == at
            else o.ip == at + |bytes| && r.ip == here + |bytes| && o.mem == s0.mem && r.mem == s.mem
  {
    hide Ptr, Displacement, Holds, IsBranch, Outcome, IsShaped, Whole, StorePtr, IsNarrow;
    var bytes := insn.bytes;
    assert Gadget(m.ia32, insn, at, here) == bytes;
    WholeIn(m0, m, bytes);
    OutcomeSame(m0, m, bytes, s.rest);
    BranchStep(m0, s0, bytes);
    BranchStep(m, s, bytes);
    PtrIs(m.ia32, at + |bytes|, 0, at + |bytes|);
    PtrIs(m.ia32, here + |bytes|, 0, here + |bytes|);
    SameShift(m.ia32, at, here, |bytes| + Displacement(m.ia32, bytes));
    NarrowShift(at, here, |bytes| + Displacement(m.ia32, bytes));
  }

  lemma WholeIn(m0: Machine, m: Machine, bytes: seq<Byte>)
    requires m0.complete == m.complete && Whole(m, bytes)
    ensures Whole(m0, bytes) && |bytes| <= 15
  {
  }

  lemma OutcomeSame(m0: Machine, m: Machine, bytes: seq<Byte>, rest: int)
    requires m0 == m.(code := m0.code) && IsBranch(m.ia32, bytes)
    ensures Outcome(m0, bytes, rest) == Outcome(m, bytes, rest)
  {
  }

  lemma NarrowShift(x: int, y: int, d: int)
    ensures (x + d) % 0x1_0000 == (y + d) % 0x1_0000 <==> (y - x) % 0x1_0000 == 0
  {
    var p, q, r := (x + d) / 0x1_0000, (y + d) / 0x1_0000, (y - x) / 0x1_0000;
    assert x + d == 0x1_0000 * p + (x + d) % 0x1_0000 && y + d == 0x1_0000 * q + (y + d) % 0x1_0000;
    assert y - x == 0x1_0000 * r + (y - x) % 0x1_0000;
  }

  lemma SameShift(ia32: bool, x: int, y: int, d: int)
    requires 0 <= x < Space(ia32) && 0 <= y < Space(ia32)
    ensures Ptr(ia32, x + d) == Ptr(ia32, y + d) <==> x == y
  {
    var s := Space(ia32);
    if Ptr(ia32, x + d) == Ptr(ia32, y + d) {
      var q := (x + d) / s - (y + d) / s;
      assert x - y == s * q;
      assert q == 0;
    }
  }
}
