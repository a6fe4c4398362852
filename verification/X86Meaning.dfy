/**
  The x86 gadgets on a machine with the branch, push and return instructions of the Intel
  SDM (volume 2): CALL, JMP, Jcc, JCXZ and LOOP with immediate displacements, with or
  without prefixes, PUSH imm32, MOV to memory and RET.  Every other instruction is given
  its meaning by a parameter.
 */
module X86Meaning {
  import opened Words
  import opened X86Relocate

  type Memory = imap<int, Byte>

  type Code = map<int, Byte>

  /** `rest` stands for the other registers and the flags, which no gadget changes. */
  datatype State = State(ip: int, sp: int, mem: Memory, rest: int) | Stuck

  /** What an instruction that does not use the instruction pointer works on. */
  datatype Core = Core(sp: int, mem: Memory, rest: int)

  datatype Effect = Fall(core: Core) | Goto(core: Core, dest: int) | Call(core: Core, dest: int)

  /** `taken` says whether a condition, named by its opcode, holds; `counted` whether a loop
      or prefixed JCXZ branches, and what it leaves in `rest`; `complete` which byte strings
      are whole instructions, and `plain` what those do that are not modelled here.  None of
      them sees the instruction pointer. */
  datatype Machine = Machine(
    ia32: bool,
    code: Code,
    taken: (Byte, int) -> bool,
    counted: (seq<Byte>, int) -> (bool, int),
    complete: seq<Byte> -> bool,
    plain: (seq<Byte>, Core) -> Effect)

  // ---------------------------------------------------------------- memory

  ghost function Store4(ia32: bool, m: Memory, a: int, w: Word): Memory {
    m[Ptr(ia32, a) := ByteAt(w, 0)][Ptr(ia32, a + 1) := ByteAt(w, 1)]
     [Ptr(ia32, a + 2) := ByteAt(w, 2)][Ptr(ia32, a + 3) := ByteAt(w, 3)]
  }

  ghost function ReadByte(m: Memory, a: int): Byte { if a in m then m[a] else 0 }

  ghost function Load4(ia32: bool, m: Memory, a: int): Word {
    WordOfBytes(ReadByte(m, Ptr(ia32, a)), ReadByte(m, Ptr(ia32, a + 1)),
                ReadByte(m, Ptr(ia32, a + 2)), ReadByte(m, Ptr(ia32, a + 3)))
  }

  /** Bytes of a pointer. */
  function PtrSize(ia32: bool): nat { if ia32 then 4 else 8 }

  ghost function StorePtr(ia32: bool, m: Memory, a: int, v: int): Memory
    requires 0 <= v < Space(ia32)
  {
    if ia32 then Store4(ia32, m, a, v)
    else Store4(ia32, Store4(ia32, m, a, Wrap(v)), a + 4, v / 0x1_0000_0000)
  }

  ghost function LoadPtr(ia32: bool, m: Memory, a: int): int {
    if ia32 then Load4(ia32, m, a) else Load4(ia32, m, a) + 0x1_0000_0000 * Load4(ia32, m, a + 4)
  }

  // ---------------------------------------------------------------- execution

  ghost predicate Holds(code: Code, a: int, bs: seq<Byte>) {
    forall i :: 0 <= i < |bs| ==> HoldsByte(code, a + i, bs[i])
  }

  ghost predicate HoldsByte(code: Code, a: int, b: Byte) { a in code && code[a] == b }

  ghost predicate Mapped(code: Code, a: int, n: nat) {
    forall i :: a <= i < a + n ==> i in code
  }

  ghost function CodeDword(code: Code, a: int): Word
    requires Mapped(code, a, 4)
  {
    WordOfBytes(code[a], code[a + 1], code[a + 2], code[a + 3])
  }

  ghost function PushPtr(m: Machine, s: State, v: int, next: int): State
    requires s.State? && 0 <= v < Space(m.ia32)
  {
    var sp := Ptr(m.ia32, s.sp - PtrSize(m.ia32));
    State(next, sp, StorePtr(m.ia32, s.mem, sp, v), s.rest)
  }

  /** The instruction at `a`: the shortest whole one, of at most fifteen bytes. */
  ghost function Fetch(m: Machine, a: int, n: nat): seq<Byte>
    decreases 16 - n
  {
    if n > 15 || !Mapped(m.code, a, n) then []
    else if m.complete(BytesAt(m.code, a, n)) then BytesAt(m.code, a, n)
    else Fetch(m, a, n + 1)
  }

  ghost function BytesAt(code: Code, a: int, n: nat): seq<Byte>
    requires Mapped(code, a, n)
  {
    seq(n, (i: int) requires 0 <= i < n => code[a + i])
  }

  /** What a data load sees: code bytes where there is code, memory elsewhere. */
  ghost function View(code: Code, m: Memory): Memory {
    imap a: int | true :: if a in code then code[a] else ReadByte(m, a)
  }

  ghost function CoreOf(s: State): Core
    requires s.State?
  {
    Core(s.sp, s.mem, s.rest)
  }

  ghost function At(ia32: bool, core: Core, ip: int): State { State(ip, Ptr(ia32, core.sp), core.mem, core.rest) }

  ghost function Continue(m: Machine, e: Effect, next: int): State
    requires 0 <= next < Space(m.ia32)
  {
    match e
    case Fall(core) => At(m.ia32, core, next)
    case Goto(core, dest) => At(m.ia32, core, Ptr(m.ia32, dest))
    case Call(core, dest) => PushPtr(m, At(m.ia32, core, next), next, Ptr(m.ia32, dest))
  }

  ghost function Plain(m: Machine, s: State): State
    requires s.State?
  {
    var bytes := Fetch(m, s.ip, 1);
    if bytes == [] then Stuck
    else if IsBranch(m.ia32, bytes) then Branch(m, s, bytes)
    else if ObservesIp(m.ia32, bytes) then Stuck
    else Continue(m, m.plain(bytes, CoreOf(s).(mem := View(m.code, s.mem))), Ptr(m.ia32, s.ip + |bytes|))
  }

  // ---------------------------------------------------------------- branches in general

  /** Legacy prefixes, and REX in 64-bit code. */
  predicate IsPrefix(ia32: bool, b: Byte) {
    b in {0x26, 0x2e, 0x36, 0x3e, 0x64, 0x65, 0x66, 0x67, 0xf0, 0xf2, 0xf3} || (!ia32 && b / 0x10 == 4)
  }

  function Prefixes(ia32: bool, bytes: seq<Byte>): (k: nat)
    ensures k <= |bytes|
  {
    if bytes != [] && IsPrefix(ia32, bytes[0]) then 1 + Prefixes(ia32, bytes[1..]) else 0
  }

  /** The bytes from the opcode on. */
  function Body(ia32: bool, bytes: seq<Byte>): seq<Byte> { bytes[Prefixes(ia32, bytes)..] }

  predicate IsShort(op: Byte) { 0xe0 <= op < 0xe4 || op == 0xeb || op / 0x10 == 7 }

  predicate IsNearCondition(body: seq<Byte>) { |body| >= 2 && body[0] == 0x0f && body[1] / 0x10 == 8 }

  /** A branch relative to the address of the instruction. */
  predicate IsBranch(ia32: bool, bytes: seq<Byte>) {
    var body := Body(ia32, bytes);
    body != [] && (IsShort(body[0]) || body[0] == 0xe8 || body[0] == 0xe9 || IsNearCondition(body))
  }

  /** The reg field of the ModRM byte. */
  function RegField(modrm: Byte): int { modrm / 8 % 8 }

  /** Instructions that are not branches by a displacement and yet save or use the instruction
      pointer; they are not modelled: far calls, XBEGIN, SYSCALL, and the stores of the
      floating-point state. */
  predicate ObservesIp(ia32: bool, bytes: seq<Byte>) {
    var body := Body(ia32, bytes);
    (ia32 && |body| >= 1 && body[0] == 0x9a) ||
    (|body| >= 2 &&
     match body[0]
     case 0xff => RegField(body[1]) == 3
     case 0xc7 => body[1] == 0xf8
     case 0xd9 => body[1] < 0xc0 && RegField(body[1]) == 6
     case 0xdd => body[1] < 0xc0 && RegField(body[1]) == 6
     case 0x0f => body[1] == 0x05 || (|body| >= 3 && SavesState(body[1], body[2]))
     case _ => false)
  }

  /** FXSAVE, XSAVE, XSAVEOPT, XSAVEC and XSAVES. */
  predicate SavesState(opcode: Byte, modrm: Byte) {
    modrm < 0xc0 &&
    if opcode == 0xae then RegField(modrm) in {0, 4, 6} else opcode == 0xc7 && RegField(modrm) in {4, 5}
  }

  /** A 16-bit operand size, which only 32-bit code honours here. */
  predicate IsNarrow(ia32: bool, bytes: seq<Byte>) { ia32 && 0x66 in bytes[..Prefixes(ia32, bytes)] }

  /** Bytes of the displacement, which ends the instruction. */
  function DisplacementSize(ia32: bool, bytes: seq<Byte>): nat
    requires IsBranch(ia32, bytes)
  {
    if IsShort(Body(ia32, bytes)[0]) then 1 else if IsNarrow(ia32, bytes) then 2 else 4
  }

  /** The opcode and the displacement are all there is. */
  predicate IsShaped(ia32: bool, bytes: seq<Byte>)
    requires IsBranch(ia32, bytes)
  {
    var body := Body(ia32, bytes);
    |body| == (if IsNearCondition(body) then 2 else 1) + DisplacementSize(ia32, bytes)
  }

  function Displacement(ia32: bool, bytes: seq<Byte>): int
    requires IsBranch(ia32, bytes) && IsShaped(ia32, bytes)
  {
    var n := |bytes|;
    match DisplacementSize(ia32, bytes)
    case 1 => Signed(bytes[n - 1], 0x100)
    case 2 =>
      var low: int, high: int := bytes[n - 2], bytes[n - 1];
      Signed(low + 0x100 * high, 0x1_0000)
    case _ => Int32(DwordAt(bytes, n - 4))
  }

  /** Whether the branch is taken, and what it leaves in `rest`. */
  ghost function Outcome(m: Machine, bytes: seq<Byte>, rest: int): (bool, int)
    requires IsBranch(m.ia32, bytes)
  {
    var body := Body(m.ia32, bytes);
    if IsNearCondition(body) then (m.taken(body[1], rest), rest)
    else if body[0] / 0x10 == 7 then (m.taken(body[0], rest), rest)
    else if 0xe0 <= body[0] < 0xe4 then m.counted(bytes, rest)
    else (true, rest)
  }

  /** Where a branch leads that ends before `next`. */
  function BranchTarget(ia32: bool, bytes: seq<Byte>, next: int): int
    requires IsBranch(ia32, bytes) && IsShaped(ia32, bytes)
  {
    var dest := next + Displacement(ia32, bytes);
    if IsNarrow(ia32, bytes) then dest % 0x1_0000 else Ptr(ia32, dest)
  }

  predicate IsCall(ia32: bool, bytes: seq<Byte>)
    requires IsBranch(ia32, bytes)
  { Body(ia32, bytes)[0] == 0xe8 }

  /** A call with 16-bit operand size, which pushes two bytes, is not modelled. */
  ghost function Branch(m: Machine, s: State, bytes: seq<Byte>): State
    requires s.State? && IsBranch(m.ia32, bytes)
  {
    var next := Ptr(m.ia32, s.ip + |bytes|);
    var (taken, rest) := Outcome(m, bytes, s.rest);
    if !IsShaped(m.ia32, bytes) || (IsCall(m.ia32, bytes) && IsNarrow(m.ia32, bytes)) then Stuck
    else if !taken then s.(ip := next, rest := rest)
    else if IsCall(m.ia32, bytes) then PushPtr(m, s, next, BranchTarget(m.ia32, bytes, next))
    else s.(ip := BranchTarget(m.ia32, bytes, next), rest := rest)
  }

  ghost function Step(m: Machine, s: State): State {
    if s.Stuck? || s.ip !in m.code then Stuck
    else
      var op := m.code[s.ip];
      if op == 0xe8 && Mapped(m.code, s.ip, 5) then
        var next := Ptr(m.ia32, s.ip + 5);
        PushPtr(m, s, next, Ptr(m.ia32, next + Int32(CodeDword(m.code, s.ip + 1))))
      else if op == 0xe9 && Mapped(m.code, s.ip, 5) then
        s.(ip := Ptr(m.ia32, s.ip + 5 + Int32(CodeDword(m.code, s.ip + 1))))
      else if op == 0xeb && Mapped(m.code, s.ip, 2) then
        s.(ip := Ptr(m.ia32, s.ip + 2 + Signed(m.code[s.ip + 1], 0x100)))
      else if (op == 0xe3 || op / 0x10 == 7) && Mapped(m.code, s.ip, 2) then
        s.(ip := Ptr(m.ia32, s.ip + 2 + (if m.taken(op, s.rest) then Signed(m.code[s.ip + 1], 0x100) else 0)))
      else if op == 0x68 && Mapped(m.code, s.ip, 5) then
        PushPtr(m, s, Ptr(m.ia32, Int32(CodeDword(m.code, s.ip + 1))), Ptr(m.ia32, s.ip + 5))
      else if op == 0xc7 && Mapped(m.code, s.ip, 8) && m.code[s.ip + 1] == 0x44 && m.code[s.ip + 2] == 0x24
              && m.code[s.ip + 3] == 0x04 then
        s.(ip := Ptr(m.ia32, s.ip + 8), mem := Store4(m.ia32, s.mem, s.sp + 4, CodeDword(m.code, s.ip + 4)))
      else if op == 0xc3 then
        s.(ip := LoadPtr(m.ia32, s.mem, s.sp), sp := Ptr(m.ia32, s.sp + PtrSize(m.ia32)))
      else Plain(m, s)
  }

  ghost function Steps(m: Machine, n: nat, s: State): State {
    if n == 0 then s else Steps(m, n - 1, Step(m, s))
  }

  ghost predicate Reaches(m: Machine, s: State, t: State) {
    exists n: nat :: Steps(m, n, s) == t
  }

  lemma {:induction false} StepsAdd(m: Machine, a: nat, b: nat, s: State)
    ensures Steps(m, a + b, s) == Steps(m, b, Steps(m, a, s))
  {
    if a > 0 {
      StepsAdd(m, a - 1, b, Step(m, s));
    }
  }

  lemma ReachesStep(m: Machine, s: State)
    ensures Reaches(m, s, Step(m, s))
  {
    assert Steps(m, 0, Step(m, s)) == Step(m, s);
    assert Steps(m, 1, s) == Step(m, s);
  }

  lemma ReachesTrans(m: Machine, s: State, t: State, u: State)
    requires Reaches(m, s, t) && Reaches(m, t, u)
    ensures Reaches(m, s, u)
  {
    var a: nat :| Steps(m, a, s) == t;
    var b: nat :| Steps(m, b, t) == u;
    StepsAdd(m, a, b, s);
  }

  // ---------------------------------------------------------------- memory laws

  lemma PtrIs(ia32: bool, x: int, q: int, r: int)
    requires x == Space(ia32) * q + r && 0 <= r < Space(ia32)
    ensures Ptr(ia32, x) == r
  {
  }

  lemma PtrAgain(ia32: bool, x: int, y: int)
    ensures Ptr(ia32, Ptr(ia32, x) + y) == Ptr(ia32, x + y)
  {
    var s := Space(ia32);
    var z := Ptr(ia32, x) + y;
    assert x == s * (x / s) + Ptr(ia32, x) && z == s * (z / s) + Ptr(ia32, z);
    assert x + y == s * (x / s + z / s) + Ptr(ia32, z);
    PtrIs(ia32, x + y, x / s + z / s, Ptr(ia32, z));
  }

  lemma {:induction false} PtrDistinct(ia32: bool, a: int, i: int)
    requires 0 < i < 16
    ensures Ptr(ia32, a) != Ptr(ia32, a + i)
  {
    var s, p := Space(ia32), Ptr(ia32, a);
    PtrAgain(ia32, a, i);
    if p + i < s {
      PtrIs(ia32, p + i, 0, p + i);
    } else {
      PtrIs(ia32, p + i, 1, p + i - s);
    }
  }

  lemma Load4Stored(ia32: bool, m: Memory, a: int, w: Word)
    ensures Load4(ia32, Store4(ia32, m, a, w), a) == w
  {
    hide Ptr, ByteAt, WordOfBytes;
    PtrDistinct(ia32, a, 1);
    PtrDistinct(ia32, a, 2);
    PtrDistinct(ia32, a, 3);
    PtrDistinct(ia32, a + 1, 1);
    PtrDistinct(ia32, a + 1, 2);
    PtrDistinct(ia32, a + 2, 1);
    WordBytesRoundTrip(w);
  }

  lemma Load4Below(ia32: bool, m: Memory, a: int, w: Word)
    ensures Load4(ia32, Store4(ia32, m, a + 4, w), a) == Load4(ia32, m, a)
  {
    hide Ptr, ByteAt, WordOfBytes;
    NotInNext(ia32, a, 0);
    NotInNext(ia32, a, 1);
    NotInNext(ia32, a, 2);
    NotInNext(ia32, a, 3);
    assert a + 0 == a;
    Store4Elsewhere(ia32, m, a + 4, w, Ptr(ia32, a));
    Store4Elsewhere(ia32, m, a + 4, w, Ptr(ia32, a + 1));
    Store4Elsewhere(ia32, m, a + 4, w, Ptr(ia32, a + 2));
    Store4Elsewhere(ia32, m, a + 4, w, Ptr(ia32, a + 3));
  }

  lemma NotInNext(ia32: bool, a: int, i: int)
    requires 0 <= i < 4
    ensures !InDword(ia32, a + 4, Ptr(ia32, a + i))
  {
    hide Ptr;
    PtrDistinct(ia32, a + i, 4 - i);
    PtrDistinct(ia32, a + i, 5 - i);
    PtrDistinct(ia32, a + i, 6 - i);
    PtrDistinct(ia32, a + i, 7 - i);
    assert a + i + (4 - i) == a + 4 && a + i + (5 - i) == a + 4 + 1;
    assert a + i + (6 - i) == a + 4 + 2 && a + i + (7 - i) == a + 4 + 3;
  }

  lemma LoadStoredPtr(ia32: bool, m: Memory, a: int, v: int)
    requires 0 <= v < Space(ia32)
    ensures LoadPtr(ia32, StorePtr(ia32, m, a, v), a) == v
  {
    hide Store4, Load4, Ptr;
    if ia32 {
      Load4Stored(ia32, m, a, v);
    } else {
      var m1 := Store4(ia32, m, a, Wrap(v));
      Load4Stored(ia32, m, a, Wrap(v));
      Load4Below(ia32, m1, a, v / 0x1_0000_0000);
      Load4Stored(ia32, m1, a + 4, v / 0x1_0000_0000);
    }
  }

  /** The bytes of the dword at `a`. */
  ghost predicate InDword(ia32: bool, a: int, b: int) {
    b == Ptr(ia32, a) || b == Ptr(ia32, a + 1) || b == Ptr(ia32, a + 2) || b == Ptr(ia32, a + 3)
  }

  lemma Store4Elsewhere(ia32: bool, m: Memory, a: int, w: Word, b: int)
    requires !InDword(ia32, a, b)
    ensures ReadByte(Store4(ia32, m, a, w), b) == ReadByte(m, b)
  {
    hide Ptr;
  }

  // ---------------------------------------------------------------- what may change

  /** The 8 bytes below the stack pointer, where a far jump keeps its target. */
  ghost predicate InSlot(ia32: bool, sp: int, b: int) {
    InDword(ia32, sp - 8, b) || InDword(ia32, sp - 4, b)
  }

  /** `t` is `s` at the address `ip`, but for the 8 bytes below the stack pointer. */
  ghost predicate SameAt(ia32: bool, s: State, t: State, ip: int) {
    s.State? && t.State? && t.ip == ip && t.sp == s.sp && t.rest == s.rest &&
    forall b :: !InSlot(ia32, s.sp, b) ==> ReadByte(t.mem, b) == ReadByte(s.mem, b)
  }

  /** A valid state: register values are in range. */
  ghost predicate Valid(ia32: bool, s: State) {
    s.State? && 0 <= s.sp < Space(ia32) && 0 <= s.ip < Space(ia32)
  }

  // ---------------------------------------------------------------- decoding what is written

  lemma HoldsSplit(code: Code, a: int, x: seq<Byte>, y: seq<Byte>)
    requires Holds(code, a, x + y)
    ensures Holds(code, a, x) && Holds(code, a + |x|, y)
  {
    forall i | 0 <= i < |x| ensures HoldsByte(code, a + i, x[i]) {
      assert (x + y)[i] == x[i];
    }
    forall i | 0 <= i < |y| ensures HoldsByte(code, a + |x| + i, y[i]) {
      assert (x + y)[|x| + i] == y[i];
    }
  }

  lemma HoldsAt(code: Code, a: int, bs: seq<Byte>, i: nat)
    requires Holds(code, a, bs) && i < |bs|
    ensures a + i in code && code[a + i] == bs[i]
  {
  }

  lemma HoldsMapped(code: Code, a: int, bs: seq<Byte>)
    requires Holds(code, a, bs)
    ensures Mapped(code, a, |bs|)
  {
    forall i | a <= i < a + |bs| ensures i in code {
      HoldsAt(code, a, bs, i - a);
    }
  }

  lemma DwordReads(code: Code, a: int, x: int)
    requires Holds(code, a, Dword(x))
    ensures Mapped(code, a, 4) && CodeDword(code, a) == Wrap(x)
  {
    var bs := Dword(x);
    HoldsMapped(code, a, bs);
    HoldsAt(code, a, bs, 0);
    HoldsAt(code, a, bs, 1);
    HoldsAt(code, a, bs, 2);
    HoldsAt(code, a, bs, 3);
    WordBytesRoundTrip(Wrap(x));
    assert |bs| == 4 && a + 0 == a;
    assert Mapped(code, a, 4);
    assert code[a] == ByteAt(Wrap(x), 0) && code[a + 1] == ByteAt(Wrap(x), 1);
    assert code[a + 2] == ByteAt(Wrap(x), 2) && code[a + 3] == ByteAt(Wrap(x), 3);
  }

  /** One-byte opcode and a dword. */
  lemma OpDword(code: Code, a: int, op: Byte, x: int)
    requires Holds(code, a, [op] + Dword(x))
    ensures a in code && code[a] == op && Mapped(code, a, 5) && Mapped(code, a + 1, 4) &&
            CodeDword(code, a + 1) == Wrap(x)
  {
    hide Dword;
    var bs := [op] + Dword(x);
    HoldsAt(code, a, bs, 0);
    HoldsMapped(code, a, bs);
    HoldsSplit(code, a, [op], Dword(x));
    DwordReads(code, a + 1, x);
  }

  lemma Int32Wrap(x: int)
    ensures Int32(Wrap(x)) == Int32(x)
  {
    WrapUnique(Wrap(x), 0, Wrap(x));
  }

  lemma Int32Small(x: int)
    requires -0x8000_0000 <= x < 0x8000_0000
    ensures Int32(x) == x
  {
    if x >= 0 {
      WrapUnique(x, 0, x);
    } else {
      WrapUnique(x, -1, x + 0x1_0000_0000);
    }
  }

  /** A skip reaches its target whenever the displacement survives 32 bits. */
  lemma SkipRuns(m: Machine, s: State, size: int, dest: int)
    requires Valid(m.ia32, s) && Holds(m.code, s.ip, Skip(size))
    requires dest == Ptr(m.ia32, s.ip + 5 + Int32(size))
    ensures Step(m, s) == s.(ip := dest)
  {
    hide Dword, Ptr, Signed, CodeDword, Mapped;
    OpDword(m.code, s.ip, 0xe9, size);
    Int32Wrap(size);
  }

  /** The near form: the displacement is right modulo the address space. */
  lemma NearDisplacement(ia32: bool, target: int, here: int)
    requires 0 <= target < Space(ia32)
    requires ia32 || Is32BitOffset(ia32, target, here + 5)
    ensures Ptr(ia32, here + 5 + Int32(target - (here + 5))) == target
  {
    var d := target - (here + 5);
    if ia32 {
      var w := Wrap(d);
      assert d == 0x1_0000_0000 * (d / 0x1_0000_0000) + w;
      var i := Int32(d);
      assert i == w || i == w - 0x1_0000_0000;
      PtrIs(ia32, here + 5 + i, (if i == w then 0 else -1) - d / 0x1_0000_0000, target);
    } else {
      var p := Ptr(ia32, d);
      var offset := Signed(p, Space(ia32));
      assert Int32(d) == Int32(p) by { SpaceMultiple(d); }
      assert Int32(p) == Int32(offset) by { SpaceShift(p); }
      var q := d / Space(ia32);
      assert d == Space(ia32) * q + p;
      assert offset == p || offset == p - Space(ia32);
      PtrIs(ia32, here + 5 + offset, (if offset == p then 0 else -1) - q, target);
    }
  }

  lemma SpaceMultiple(d: int)
    ensures Wrap(d) == Wrap(Ptr(false, d))
  {
    var q, p := d / Space(false), Ptr(false, d);
    assert d == Space(false) * q + p;
    assert p == 0x1_0000_0000 * (p / 0x1_0000_0000) + Wrap(p);
    WrapUnique(d, 0x1_0000_0000 * q + p / 0x1_0000_0000, Wrap(p));
  }

  lemma SpaceShift(p: int)
    requires 0 <= p < Space(false)
    ensures Int32(p) == Int32(Signed(p, Space(false)))
  {
    if 2 * p >= Space(false) {
      assert p == 0x1_0000_0000 * (p / 0x1_0000_0000) + Wrap(p);
      WrapUnique(p - Space(false), p / 0x1_0000_0000 - 0x1_0000_0000, Wrap(p));
    }
  }

  // ---------------------------------------------------------------- pushing a pointer

  /** The value that `push imm32`, and where the high half is not zero the store over it,
      leave on the stack. */
  function PushedValue(ia32: bool, target: int): int
    requires 0 <= target < Space(ia32)
  {
    if ia32 || target >= 0x1_0000_0000 then target else Ptr(ia32, Int32(target))
  }

  /** The pushed value is the pointer, except where the sign extension of PUSH spoils it. */
  lemma PushedValueRightIff(ia32: bool, target: int)
    requires 0 <= target < Space(ia32)
    ensures PushedValue(ia32, target) == target <==> ia32 || target < 0x8000_0000 || target >= 0x1_0000_0000
  {
    if !ia32 && target < 0x1_0000_0000 {
      WrapUnique(target, 0, target);
      if target < 0x8000_0000 {
        PtrIs(ia32, target, 0, target);
      } else {
        PtrIs(ia32, target - 0x1_0000_0000, -1, Space(ia32) + target - 0x1_0000_0000);
      }
    }
  }

  /** `t` is `s` at `ip` with the pointer `v` pushed. */
  ghost predicate PushedAt(ia32: bool, s: State, t: State, ip: int, v: int) {
    s.State? && t.State? && t.ip == ip && t.sp == Ptr(ia32, s.sp - PtrSize(ia32)) && t.rest == s.rest &&
    LoadPtr(ia32, t.mem, t.sp) == v &&
    forall b :: !InSlot(ia32, s.sp, b) ==> ReadByte(t.mem, b) == ReadByte(s.mem, b)
  }

  lemma SlotBelow(ia32: bool, sp: int, b: int)
    requires !InSlot(ia32, sp, b)
    ensures ia32 ==> !InDword(ia32, Ptr(ia32, sp - 4), b)
    ensures !ia32 ==> !InDword(ia32, Ptr(ia32, sp - 8), b) && !InDword(ia32, Ptr(ia32, sp - 8) + 4, b)
  {
    hide Ptr;
    if ia32 {
      DwordAgain(ia32, sp - 4, 0, b);
    } else {
      DwordAgain(ia32, sp - 8, 0, b);
      DwordAgain(ia32, sp - 8, 4, b);
      assert sp - 8 + 4 == sp - 4;
    }
  }

  lemma DwordAgain(ia32: bool, a: int, k: int, b: int)
    ensures InDword(ia32, Ptr(ia32, a) + k, b) == InDword(ia32, a + k, b)
  {
    hide Ptr;
    PtrAgain(ia32, a, k);
    PtrAgain(ia32, a, k + 1);
    PtrAgain(ia32, a, k + 2);
    PtrAgain(ia32, a, k + 3);
    assert Ptr(ia32, a) + (k + 1) == Ptr(ia32, a) + k + 1 && Ptr(ia32, a) + (k + 2) == Ptr(ia32, a) + k + 2;
    assert Ptr(ia32, a) + (k + 3) == Ptr(ia32, a) + k + 3;
    assert a + (k + 1) == a + k + 1 && a + (k + 2) == a + k + 2 && a + (k + 3) == a + k + 3;
  }

  lemma PushPtrIs(m: Machine, s: State, v: int, next: int)
    requires Valid(m.ia32, s) && 0 <= v < Space(m.ia32)
    ensures PushedAt(m.ia32, s, PushPtr(m, s, v, next), next, v)
  {
    hide Ptr, Store4, Load4, InDword, InSlot;
    var sp := Ptr(m.ia32, s.sp - PtrSize(m.ia32));
    LoadStoredPtr(m.ia32, s.mem, sp, v);
    forall b | !InSlot(m.ia32, s.sp, b)
      ensures ReadByte(StorePtr(m.ia32, s.mem, sp, v), b) == ReadByte(s.mem, b)
    {
      SlotBelow(m.ia32, s.sp, b);
      if m.ia32 {
        Store4Elsewhere(m.ia32, s.mem, sp, v, b);
      } else {
        Store4Elsewhere(m.ia32, s.mem, sp, Wrap(v), b);
        Store4Elsewhere(m.ia32, Store4(m.ia32, s.mem, sp, Wrap(v)), sp + 4, v / 0x1_0000_0000, b);
      }
    }
  }

  /** Running MSPushPointer's code pushes the pushed value, and nothing else. */
  lemma PushRuns(m: Machine, s: State, target: int) returns (t: State)
    requires Valid(m.ia32, s) && 0 <= target < Space(m.ia32) && s.ip + 13 < Space(m.ia32)
    requires Holds(m.code, s.ip, PushPointer(target))
    ensures Reaches(m, s, t) && Valid(m.ia32, t) && 0 <= PushedValue(m.ia32, target) < Space(m.ia32)
    ensures t == PushPtr(m, s, PushedValue(m.ia32, target), s.ip + SizeOfPushPointer(target))
    ensures PushedAt(m.ia32, s, t, s.ip + SizeOfPushPointer(target), PushedValue(m.ia32, target))
  {
    hide Reaches, Store4, Load4, InSlot, Dword, Mapped, CodeDword, Ptr, PushPtr, StorePtr, LoadPtr, Int32, PushedAt;
    var low := [0x68] + Dword(target);
    var high := if target >= 0x1_0000_0000 then [0xc7, 0x44, 0x24, 0x04] + Dword(target / 0x1_0000_0000) else [];
    assert PushPointer(target) == low + high;
    HoldsSplit(m.code, s.ip, low, high);
    OpDword(m.code, s.ip, 0x68, target);
    Int32Wrap(target);
    PtrIs(m.ia32, s.ip + 5, 0, s.ip + 5);
    PushedRange(m.ia32, target);
    var v := Ptr(m.ia32, Int32(target));
    var t1 := PushPtr(m, s, v, s.ip + 5);
    assert Step(m, s) == t1;
    ReachesStep(m, s);
    if target >= 0x1_0000_0000 {
      t := HighRuns(m, s, t1, target);
      ReachesTrans(m, s, t1, t);
    } else {
      t := t1;
      LowValue(m.ia32, target);
    }
    PushPtrIs(m, s, PushedValue(m.ia32, target), s.ip + SizeOfPushPointer(target));
    PushPtrValid(m, s, PushedValue(m.ia32, target), s.ip + SizeOfPushPointer(target));
  }

  lemma PushPtrValid(m: Machine, s: State, v: int, next: int)
    requires Valid(m.ia32, s) && 0 <= v < Space(m.ia32) && 0 <= next < Space(m.ia32)
    ensures Valid(m.ia32, PushPtr(m, s, v, next))
  {
    hide StorePtr;
  }

  lemma LowValue(ia32: bool, target: int)
    requires 0 <= target < 0x1_0000_0000
    ensures Ptr(ia32, Int32(target)) == PushedValue(ia32, target)
  {
    if ia32 {
      WrapUnique(target, 0, target);
      PtrIs(ia32, Int32(target), if 2 * target < 0x1_0000_0000 then 0 else -1, target);
    }
  }

  /** The store of the high half, after the push of the low one. */
  lemma HighRuns(m: Machine, s: State, t1: State, target: int) returns (t: State)
    requires !m.ia32 && Valid(m.ia32, s) && 0x1_0000_0000 <= target < Space(m.ia32) && s.ip + 13 < Space(m.ia32)
    requires t1 == PushPtr(m, s, Ptr(m.ia32, Int32(target)), s.ip + 5)
    requires Holds(m.code, s.ip + 5, [0xc7, 0x44, 0x24, 0x04] + Dword(target / 0x1_0000_0000))
    ensures Reaches(m, t1, t) && t == PushPtr(m, s, target, s.ip + 13)
  {
    hide Reaches, Store4, Dword, CodeDword, Int32;
    var h := target / 0x1_0000_0000;
    var bs := [0xc7, 0x44, 0x24, 0x04] + Dword(h);
    HoldsAt(m.code, s.ip + 5, bs, 0);
    HoldsAt(m.code, s.ip + 5, bs, 1);
    HoldsAt(m.code, s.ip + 5, bs, 2);
    HoldsAt(m.code, s.ip + 5, bs, 3);
    HoldsMapped(m.code, s.ip + 5, bs);
    HoldsSplit(m.code, s.ip + 5, [0xc7, 0x44, 0x24, 0x04], Dword(h));
    DwordReads(m.code, s.ip + 9, h);
    WrapUnique(h, 0, h);
    PtrIs(m.ia32, s.ip + 13, 0, s.ip + 13);
    t := t1.(ip := s.ip + 13, mem := Store4(m.ia32, t1.mem, t1.sp + 4, h));
    assert Step(m, t1) == t;
    ReachesStep(m, t1);
    LowHalf(target);
    StoreTwice(m.ia32, Store4(m.ia32, s.mem, t1.sp, Wrap(target)), t1.sp + 4, Ptr(m.ia32,
        Int32(target)) / 0x1_0000_0000, h);
  }

  /** The low half of what is pushed first is the low half of the target. */
  lemma LowHalf(target: int)
    ensures Wrap(Ptr(false, Int32(target))) == Wrap(target)
  {
    hide Int32;
    SpaceMultiple(Int32(target));
    Int32Low(target);
  }

  lemma StoreTwice(ia32: bool, m: Memory, a: int, v: Word, w: Word)
    ensures Store4(ia32, Store4(ia32, m, a, v), a, w) == Store4(ia32, m, a, w)
  {
    hide Ptr, ByteAt;
  }

  lemma Int32Low(x: int)
    ensures Wrap(Int32(x)) == Wrap(x)
  {
    var w: int := Wrap(x);
    WrapUnique(Int32(x), if 2 * w < 0x1_0000_0000 then 0 else -1, w);
  }

  // ---------------------------------------------------------------- jumps

  /** Where MSWriteJump's code at `here` leads. */
  function JumpsTo(ia32: bool, target: int, here: int): int
    requires 0 <= target < Space(ia32)
  {
    if ia32 || Is32BitOffset(ia32, target, here + 5) then target else PushedValue(ia32, target)
  }

  /** It leads to its target exactly when the target is near or PUSH does not sign-extend
      its low half into a zero high half. */
  lemma JumpRightIff(ia32: bool, target: int, here: int)
    requires 0 <= target < Space(ia32)
    ensures JumpsTo(ia32, target, here) == target <==>
            ia32 || Is32BitOffset(ia32, target, here + 5) || target < 0x8000_0000 || target >= 0x1_0000_0000
  {
    hide Is32BitOffset;
    PushedValueRightIff(ia32, target);
  }

  lemma JumpRuns(m: Machine, s: State, target: int) returns (t: State)
    requires Valid(m.ia32, s) && 0 <= target < Space(m.ia32) && s.ip + 14 < Space(m.ia32)
    requires Holds(m.code, s.ip, Jump(m.ia32, target, s.ip))
    ensures Reaches(m, s, t) && Valid(m.ia32, t)
    ensures SameAt(m.ia32, s, t, JumpsTo(m.ia32, target, s.ip))
  {
    hide Reaches, Step, Is32BitOffset, Int32, Skip, PushPointer, InSlot, Ptr, LoadPtr;
    if m.ia32 || Is32BitOffset(m.ia32, target, s.ip + 5) {
      NearDisplacement(m.ia32, target, s.ip);
      SkipRuns(m, s, target - (s.ip + 5), target);
      t := Step(m, s);
      ReachesStep(m, s);
    } else {
      HoldsSplit(m.code, s.ip, PushPointer(target), [0xc3]);
      var t1 := PushRuns(m, s, target);
      t := Return(m, s, t1, PushedValue(m.ia32, target));
      ReachesTrans(m, s, t1, t);
      PushedRange(m.ia32, target);
    }
  }

  lemma PushedRange(ia32: bool, target: int)
    requires 0 <= target < Space(ia32)
    ensures 0 <= PushedValue(ia32, target) < Space(ia32)
  {
  }

  lemma Return(m: Machine, s: State, t1: State, v: int) returns (t: State)
    requires Valid(m.ia32, s) && Valid(m.ia32, t1) && PushedAt(m.ia32, s, t1, t1.ip, v)
    requires Holds(m.code, t1.ip, [0xc3])
    ensures Reaches(m, t1, t) && SameAt(m.ia32, s, t, v)
  {
    hide Reaches, InSlot, LoadPtr;
    HoldsAt(m.code, t1.ip, [0xc3], 0);
    var n := PtrSize(m.ia32);
    PtrAgain(m.ia32, s.sp - n, n);
    PtrIs(m.ia32, s.sp, 0, s.sp);
    t := t1.(ip := v, sp := s.sp);
    assert Step(m, t1) == t;
    ReachesStep(m, t1);
  }
}
