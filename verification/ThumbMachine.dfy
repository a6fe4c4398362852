/**
  A small ARMv7 machine, enough of chapters A6 and A8.8 of the ARM Architecture
  Reference Manual (ARMv7-A and ARMv7-R edition) to run a Thumb function prologue and
  the code that the relocator writes for it.

  Code is fetched from `rom`, a map from even addresses to halfwords: the pages it
  stands for are readable and executable but not writable.  Data loads see the code
  bytes too.  Every instruction form that the relocator neither recognises nor emits is
  given its meaning by the parameter `plain` of the environment, which never sees the
  program counter.
 */
module ThumbMachine {
  import opened Words

  datatype Flags = Flags(n: bool, z: bool, c: bool, v: bool, q: bool, ge: nat)

  type Memory = imap<int, Byte>

  type Registers = r: seq<Word> | |r| == 15 witness seq(15, i => 0)

  type Apsr = f: Flags | f.ge < 16 witness Flags(false, false, false, false, false, 0)

  /** Registers r0 to r14, the application flags and the writable memory. */
  datatype Core = Core(regs: Registers, flags: Apsr, mem: Memory)

  datatype Isa = Thumb | Arm

  /** `it` is ITSTATE: zero outside of an IT block, and else the condition of the next
      instruction in its upper bits.  `Stuck` stands for what the architecture calls UNPREDICTABLE, and for a fetch
      from an address that holds no modelled code. */
  datatype State = Run(core: Core, pc: Word, isa: Isa, it: nat := 0) | Stuck

  const SP := 13
  const LR := 14
  const PC := 15

  // ---------------------------------------------------------------- memory

  ghost function ReadRam(m: Memory, a: int): Byte {
    if a in m then m[a] else 0
  }

  type Rom = map<int, Half>

  ghost predicate InRom(rom: Rom, a: int) {
    a - a % 2 in rom
  }

  /** All bytes of the code are in `hidden`. */
  ghost predicate Hides(hidden: iset<int>, rom: Rom) {
    forall a {:trigger a in rom} :: a in rom ==> a in hidden && a + 1 in hidden
  }

  lemma VisibleIsNotCode(hidden: iset<int>, rom: Rom, b: int)
    requires Hides(hidden, rom) && b !in hidden
    ensures !InRom(rom, b)
  {
    var a := b - b % 2;
    assert a == b || a + 1 == b;
  }

  ghost function LoadByte(rom: Rom, m: Memory, a: int): Byte {
    if InRom(rom, a) then
      var h := rom[a - a % 2];
      if a % 2 == 0 then h % 0x100 else h / 0x100
    else
      ReadRam(m, a)
  }

  ghost function LoadWord(rom: Rom, m: Memory, a: Word): Word {
    WordOfBytes(LoadByte(rom, m, a), LoadByte(rom, m, Plus(a, 1)),
                LoadByte(rom, m, Plus(a, 2)), LoadByte(rom, m, Plus(a, 3)))
  }

  ghost function StoreWord(m: Memory, a: Word, w: Word): Memory {
    m[a := ByteAt(w, 0)][Plus(a, 1) := ByteAt(w, 1)]
     [Plus(a, 2) := ByteAt(w, 2)][Plus(a, 3) := ByteAt(w, 3)]
  }

  /** The bytes of the word at `a`. */
  ghost predicate InWord(a: Word, b: int) {
    b == a || b == Plus(a, 1) || b == Plus(a, 2) || b == Plus(a, 3)
  }

  /** What a data load sees: code bytes where there is code, memory elsewhere. */
  ghost function View(rom: Rom, m: Memory): Memory {
    imap a: int | true :: LoadByte(rom, m, a)
  }

  // ---------------------------------------------------------------- flags

  function BoolBit(b: bool): int { if b then 1 else 0 }

  /** The APSR layout: N Z C V Q in bits 31 to 27, GE in bits 19 to 16. */
  function PackFlags(f: Apsr): Word {
    0x8000_0000 * BoolBit(f.n) + 0x4000_0000 * BoolBit(f.z) + 0x2000_0000 * BoolBit(f.c)
    + 0x1000_0000 * BoolBit(f.v) + 0x0800_0000 * BoolBit(f.q) + 0x1_0000 * f.ge
  }

  function UnpackFlags(w: Word): Apsr {
    var top := w / 0x0800_0000;
    Flags(top / 16 == 1, top / 8 % 2 == 1, top / 4 % 2 == 1, top / 2 % 2 == 1, top % 2 == 1,
          w / 0x1_0000 % 16)
  }

  predicate ConditionHolds(cond: int, f: Apsr) {
    var base :=
      match cond / 2
      case 0 => f.z
      case 1 => f.c
      case 2 => f.n
      case 3 => f.v
      case 4 => f.c && !f.z
      case 5 => f.n == f.v
      case 6 => f.n == f.v && !f.z
      case _ => true;
    if cond % 2 == 1 && cond != 15 then !base else base
  }

  // ---------------------------------------------------------------- instructions

  /** The decoded forms.  Offsets are in bytes and are relative to the value that the
      instruction reads from the program counter. */
  datatype Insn =
    | LdrLit(rt: int, off: int)
    | BCond(cond: int, off: int)
    | B(off: int)
    | Bl(off: int)
    | BlxImm(off: int)
    | Cbz(nonzero: bool, rn: int, off: int)
    | Adr(rd: int, off: int)
    | AddReg(rd: int, rm: int)
    | MovReg(rd: int, rm: int)
    | Bx(rm: int)
    | Blx(rm: int)
    | LdrImm(rt: int, rn: int, off: int)
    | Push(r: int)
    | Pop(r: int)
    | Mrs(rd: int)
    | Msr(rn: int)
    | MovsReg(rd: int, rm: int)
    | LoadLit(half: bool, signed: bool, rt: int, off: int)
    | LdrdLit(rt: int, rt2: int, off: int)
    | TableBranch(half: bool, rn: int, rm: int)
    | Hint
    | It(state: nat)
    | Unmodelled
    | Plain(h0: Half, h1: Half)

  /** Section A6.1: the halfwords 0b11101, 0b11110 and 0b11111 open a 32-bit instruction. */
  predicate Is32Bit(h: Half) {
    h / 0x800 >= 29
  }

  /** The register of a one-register list. */
  function SingleRegister(list: int): int {
    if list == 1 then 0 else if list == 2 then 1 else if list == 4 then 2
    else if list == 8 then 3 else if list == 16 then 4 else if list == 32 then 5
    else if list == 64 then 6 else if list == 128 then 7 else -1
  }

  function Decode16(h: Half): Insn {
    var top := h / 0x100;
    if 0x48 <= top < 0x50 then LdrLit(top % 8, h % 0x100 * 4)
    else if 0xd0 <= top < 0xde then BCond(top % 16, Signed(h % 0x100 * 2, 0x200))
    else if 0xe0 <= top < 0xe8 then B(Signed(h % 0x800 * 2, 0x1000))
    else if 0xa0 <= top < 0xa8 then Adr(top % 8, h % 0x100 * 4)
    else if top == 0xb1 || top == 0xb3 || top == 0xb9 || top == 0xbb then
      Cbz(top >= 0xb8, h % 8, top / 2 % 2 * 64 + h / 8 % 32 * 2)
    else if top == 0x44 then AddReg(h / 0x80 % 2 * 8 + h % 8, h / 8 % 16)
    else if top == 0x46 then MovReg(h / 0x80 % 2 * 8 + h % 8, h / 8 % 16)
    else if top == 0x47 && h % 8 == 0 then
      (if h / 0x80 % 2 == 0 then Bx(h / 8 % 16) else Blx(h / 8 % 16))
    else if h < 0x40 then MovsReg(h % 8, h / 8)
    else if 0x68 <= top < 0x70 then LdrImm(h % 8, h / 8 % 8, h / 64 % 32 * 4)
    else if top == 0xb4 && SingleRegister(h % 0x100) >= 0 then Push(SingleRegister(h % 0x100))
    else if top == 0xbc && SingleRegister(h % 0x100) >= 0 then Pop(SingleRegister(h % 0x100))
    else if top == 0xbf && h % 16 != 0 then (if IsBlock(h % 0x100) then It(h % 0x100) else Unmodelled)
    else Plain(h, 0)
  }

  /** An IT block has a condition, and no alternative to "always". */
  predicate IsBlock(state: nat) {
    state / 16 < 14 || (state / 16 == 14 && state % 16 in {1, 2, 4, 8})
  }

  /** The 25-bit offset of B (encoding T4), BL and BLX: S:I1:I2:imm10:imm11:'0' with
      I = NOT(J EOR S). */
  function BranchOffset24(h0: Half, h1: Half): int {
    var s := h0 / 0x400 % 2;
    var j1, j2 := h1 / 0x2000 % 2, h1 / 0x800 % 2;
    var i1, i2 := if j1 == s then 1 else 0, if j2 == s then 1 else 0;
    Signed(s * 0x100_0000 + i1 * 0x80_0000 + i2 * 0x40_0000 + h0 % 0x400 * 0x1000 + h1 % 0x800 * 2,
           0x200_0000)
  }

  /** The 21-bit offset of B (encoding T3): S:J2:J1:imm6:imm11:'0'. */
  function BranchOffset20(h0: Half, h1: Half): int {
    Signed(h0 / 0x400 % 2 * 0x10_0000 + h1 / 0x800 % 2 * 0x8_0000 + h1 / 0x2000 % 2 * 0x4_0000
           + h0 % 0x40 * 0x1000 + h1 % 0x800 * 2, 0x20_0000)
  }

  function Decode32(h0: Half, h1: Half): Insn {
    if h0 / 0x800 == 30 && h1 / 0x8000 == 1 then
      // branches and miscellaneous control, section A6.3.4
      var op := h1 / 0x1000 % 8;
      if op == 5 || op == 7 then Bl(BranchOffset24(h0, h1))
      else if op == 4 || op == 6 then (if h1 % 2 == 0 then BlxImm(BranchOffset24(h0, h1)) else Unmodelled)
      else if op == 1 || op == 3 then B(BranchOffset24(h0, h1))
      else if (op == 0 || op == 2) && h0 / 0x80 % 8 != 7 then BCond(h0 / 0x40 % 16, BranchOffset20(h0, h1))
      else if h0 == 0xf3ef && h1 / 0x1000 == 8 && h1 % 0x100 == 0 then Mrs(h1 / 0x100 % 16)
      else if h0 / 0x10 == 0xf38 && h1 == 0x8c00 then Msr(h0 % 16)
      else Plain(h0, h1)
    else if h0 == 0xf8df then LdrLit(h1 / 0x1000, h1 % 0x1000)
    else if h0 == 0xf85f then LdrLit(h1 / 0x1000, -(h1 % 0x1000))
    else if h0 / 0x10 == 0xf8d then LdrImm(h1 / 0x1000, h0 % 16, h1 % 0x1000)
    else if IsWideAdr(h0, h1) then Adr(h1 / 0x100 % 16, WideAdrOffset(h0, h1))
    else if h0 / 0x10 == 0xe8d && h1 / 0x20 == 0x780 then TableBranch(h1 / 0x10 % 2 == 1, h0 % 16, h1 % 16)
    else if h0 == 0xe9df then LdrdLit(h1 / 0x1000, h1 / 0x100 % 16, h1 % 0x100 * 4)
    else if h0 == 0xe95f then LdrdLit(h1 / 0x1000, h1 / 0x100 % 16, -(h1 % 0x100 * 4))
    else if IsShortLiteral(h0) then
      if h1 / 0x1000 == 15 then Hint
      else LoadLit(h0 / 0x20 % 2 == 1, h0 / 0x100 % 2 == 1, h1 / 0x1000,
                   if h0 / 0x80 % 2 == 1 then h1 % 0x1000 else -(h1 % 0x1000))
    else if BaseIsPc(h0) then Unmodelled
    else Plain(h0, h1)
  }

  /** ADR, encodings T2 and T3. */
  predicate IsWideAdr(h0: Half, h1: Half) { h0 in {0xf20f, 0xf60f, 0xf2af, 0xf6af} && h1 / 0x8000 == 0 }

  function WideAdrOffset(h0: Half, h1: Half): int {
    var imm := h0 / 0x400 % 2 * 0x800 + h1 / 0x1000 % 8 * 0x100 + h1 % 0x100;
    if h0 / 0x20 % 2 == 1 then -imm else imm
  }

  /** LDRB, LDRH, LDRSB and LDRSH (literal), and the preload hints in the same encodings. */
  predicate IsShortLiteral(h0: Half) {
    h0 in {0xf81f, 0xf89f, 0xf83f, 0xf8bf, 0xf91f, 0xf99f, 0xf93f, 0xf9bf}
  }

  /** Every other transfer whose base field names the program counter: coprocessor and vector
      literals, and forms that are UNPREDICTABLE. */
  predicate BaseIsPc(h0: Half) { h0 % 16 == 15 && h0 / 0x200 in {0x74, 0x76, 0x7c, 0x7e} }

  // ---------------------------------------------------------------- execution

  /** What a position-independent instruction does: fall through, go to an interworking
      address, or go to one after saving the return address in LR. */
  datatype Effect = Fall(core: Core) | Goto(core: Core, dest: Word) | Call(core: Core, dest: Word)

  /** `under` is `plain` inside an IT block, where 16-bit instructions leave the flags alone. */
  datatype Env = Env(rom: Rom, plain: (Half, Half, Core) -> Effect, under: (Half, Half, Core) -> Effect)

  /** BXWritePC: bit 0 selects the instruction set. */
  ghost function Interwork(core: Core, dest: Word): State {
    if dest % 2 == 1 then Run(core, dest - 1, Thumb)
    else if dest % 4 == 0 then Run(core, dest, Arm)
    else Stuck
  }

  ghost function SetReg(core: Core, r: int, v: Word): Core
    requires 0 <= r < 15
  {
    core.(regs := core.regs[r := v])
  }

  ghost function Pushed(core: Core, r: int): Core
    requires 0 <= r < 15
  {
    var sp := Plus(core.regs[SP], -4);
    Core(core.regs[SP := sp], core.flags, StoreWord(core.mem, sp, core.regs[r]))
  }

  ghost function Popped(rom: Rom, core: Core, r: int): Core
    requires 0 <= r < 13
  {
    var sp := core.regs[SP];
    core.(regs := core.regs[SP := Plus(sp, 4)][r := LoadWord(rom, core.mem, sp)])
  }

  function Even(w: Word): Word { w - w % 2 }

  /** MOVS: the register and the flags N and Z. */
  ghost function MovedWithFlags(core: Core, rd: int, v: Word): Core
    requires 0 <= rd < 15
  {
    SetReg(core, rd, v).(flags := core.flags.(n := v >= 0x8000_0000, z := v == 0))
  }

  ghost function LoadHalf(rom: Rom, m: Memory, a: Word): Half {
    LoadByte(rom, m, a) + 0x100 * LoadByte(rom, m, Plus(a, 1))
  }

  /** A byte or halfword, extended to a word. */
  ghost function ShortValue(rom: Rom, m: Memory, half: bool, signed: bool, a: Word): Word {
    var v: int := if half then LoadHalf(rom, m, a) else LoadByte(rom, m, a);
    if signed then Wrap(Signed(v, if half then 0x1_0000 else 0x100)) else v
  }

  /** The entry of a branch table at the base register, which may be the program counter. */
  ghost function TableEntry(rom: Rom, core: Core, half: bool, rn: int, rm: int, here: Word): Half
    requires 0 <= rn <= 15 && 0 <= rm < 15
  {
    var base: Word := if rn == PC then here else core.regs[rn];
    var i: int := core.regs[rm];
    if half then LoadHalf(rom, core.mem, Plus(base, 2 * i)) else LoadByte(rom, core.mem, Plus(base, i))
  }

  /** The effect of an instruction that does not read the program counter. */
  ghost function PlainEffect(env: Env, i: Insn, core: Core): Effect
    requires PositionIndependent(i)
  {
    match i
    case AddReg(rd, rm) => Fall(SetReg(core, rd, Plus(core.regs[rd], core.regs[rm])))
    case MovReg(rd, rm) =>
      if rd == PC then Goto(core, Even(core.regs[rm]) + 1) else Fall(SetReg(core, rd, core.regs[rm]))
    case MovsReg(rd, rm) => Fall(MovedWithFlags(core, rd, core.regs[rm]))
    case Hint => Fall(core)
    case Bx(rm) => Goto(core, core.regs[rm])
    case Blx(rm) => Call(core, core.regs[rm])
    case LdrImm(rt, rn, off) =>
      var v := LoadWord(env.rom, core.mem, Plus(core.regs[rn], off));
      if rt == PC then Goto(core, v) else Fall(SetReg(core, rt, v))
    case Push(r) => Fall(Pushed(core, r))
    case Pop(r) => Fall(Popped(env.rom, core, r))
    case Mrs(rd) => Fall(SetReg(core, rd, PackFlags(core.flags)))
    case Msr(rn) => Fall(core.(flags := UnpackFlags(core.regs[rn])))
    case Plain(h0, h1) => env.plain(h0, h1, core.(mem := View(env.rom, core.mem)))
  }

  /** The forms whose operation does not mention the program counter, except to fall
      through, to leave for an address held in a register or in memory, or to save a
      return address. */
  predicate PositionIndependent(i: Insn) {
    match i
    case AddReg(rd, rm) => 0 <= rd < 15 && 0 <= rm < 15
    case MovReg(rd, rm) => 0 <= rd <= 15 && 0 <= rm < 15
    case MovsReg(rd, rm) => 0 <= rd < 8 && 0 <= rm < 8
    case Hint => true
    case Bx(rm) => 0 <= rm < 15
    case Blx(rm) => 0 <= rm < 15
    case LdrImm(rt, rn, _) => 0 <= rt <= 15 && 0 <= rn < 15
    case Push(r) => 0 <= r < 8
    case Pop(r) => 0 <= r < 8
    case Mrs(rd) => 0 <= rd < 15
    case Msr(rn) => 0 <= rn < 15
    case Plain(_, _) => true
    case _ => false
  }

  ghost function Continue(e: Effect, next: Word): State {
    match e
    case Fall(core) => Run(core, next, Thumb)
    case Goto(core, dest) => Interwork(core, dest)
    case Call(core, dest) => Interwork(SetReg(core, LR, Plus(next, 1)), dest)
  }

  /** Execution of the instruction `i`, `width` bytes wide, at the even address `pc`. */
  ghost function Exec(env: Env, i: Insn, core: Core, pc: Word, width: int): State {
    var here := Plus(pc, 4);
    var next := Plus(pc, width);
    if PositionIndependent(i) then Continue(PlainEffect(env, i, core), next)
    else
      match i
      case LdrLit(rt, off) =>
        var v := LoadWord(env.rom, core.mem, Plus(Align4(here), off));
        if 0 <= rt < 15 then Run(SetReg(core, rt, v), next, Thumb) else Interwork(core, v)
      case BCond(cond, off) => Run(core, if ConditionHolds(cond, core.flags) then Plus(here, off) else next, Thumb)
      case B(off) => Run(core, Plus(here, off), Thumb)
      case Bl(off) => Run(SetReg(core, LR, Plus(next, 1)), Plus(here, off), Thumb)
      case BlxImm(off) => Run(SetReg(core, LR, Plus(next, 1)), Plus(Align4(here), off), Arm)
      case Cbz(nonzero, rn, off) =>
        if 0 <= rn < 8 then
          Run(core, if (core.regs[rn] != 0) == nonzero then Plus(here, off) else next, Thumb)
        else Stuck
      case Adr(rd, off) =>
        if 0 <= rd < 15 && rd != SP then Run(SetReg(core, rd, Plus(Align4(here), off)), next, Thumb) else Stuck
      case LoadLit(half, signed, rt, off) =>
        if 0 <= rt < 15 && rt != SP then
          Run(SetReg(core, rt, ShortValue(env.rom, core.mem, half, signed, Plus(Align4(here), off))), next, Thumb)
        else Stuck
      case LdrdLit(rt, rt2, off) =>
        if 0 <= rt < 15 && 0 <= rt2 < 15 && rt != rt2 && rt != SP && rt2 != SP then
          var a := Plus(Align4(here), off);
          Run(SetReg(SetReg(core, rt, LoadWord(env.rom, core.mem, a)),
                     rt2, LoadWord(env.rom, core.mem, Plus(a, 4))),
              next, Thumb)
        else Stuck
      case TableBranch(half, rn, rm) =>
        if 0 <= rn <= 15 && rn != SP && 0 <= rm < 15 && rm != SP then
          Run(core, Plus(here, 2 * TableEntry(env.rom, core, half, rn, rm, here)), Thumb)
        else Stuck
      case AddReg(rd, rm) =>
        if rd == PC && 0 <= rm < 15 then Run(core, Even(Plus(here, core.regs[rm])), Thumb)
        else if 0 <= rd < 15 && rm == PC then Run(SetReg(core, rd, Plus(core.regs[rd], here)), next, Thumb) else Stuck
      case MovReg(rd, rm) =>
        if 0 <= rd < 15 && rm == PC then Run(SetReg(core, rd, here), next, Thumb) else Stuck
      case Bx(rm) => if rm == PC then Interwork(core, here) else Stuck
      case It(state) => Run(core, next, Thumb, state)
      case _ => Stuck
  }

  // ---------------------------------------------------------------- IT blocks

  /** ITAdvance: the state for the next instruction. */
  function Advance(it: nat): nat {
    if it % 8 == 0 then 0 else it / 32 * 32 + it * 2 % 32
  }

  /** Instructions that are not UNPREDICTABLE in an IT block; those that branch may only be
      its last. */
  predicate MayStand(i: Insn, last: bool) {
    match i
    case BCond(_, _) => false
    case Cbz(_, _, _) => false
    case It(_) => false
    case MovsReg(_, _) => false
    case B(_) => last
    case Bl(_) => last
    case BlxImm(_) => last
    case TableBranch(_, _, _) => last
    case Bx(_) => last
    case Blx(_) => last
    case LdrLit(rt, _) => rt != PC || last
    case LdrImm(rt, _, _) => rt != PC || last
    case AddReg(rd, _) => rd != PC || last
    case MovReg(rd, _) => rd != PC || last
    case _ => true
  }

  ghost function UnderEffect(env: Env, i: Insn, core: Core): Effect
    requires PositionIndependent(i)
  {
    if i.Plain? then env.under(i.h0, i.h1, core.(mem := View(env.rom, core.mem))) else PlainEffect(env, i, core)
  }

  /** What follows the effect `e` of an instruction in an IT block. */
  ghost function ContinueUnder(e: Effect, next: Word, it: nat): State {
    if e.Fall? then Run(e.core, next, Thumb, it)
    else if it == 0 then Continue(e, next)
    else Stuck
  }

  /** Execution inside an IT block. */
  ghost function ExecUnder(env: Env, i: Insn, core: Core, pc: Word, width: int, it: nat): State {
    var next, it' := Plus(pc, width), Advance(it);
    if !MayStand(i, it' == 0) then Stuck
    else if !ConditionHolds(it / 16, core.flags) then Run(core, next, Thumb, it')
    else if PositionIndependent(i) then ContinueUnder(UnderEffect(env, i, core), next, it')
    else
      match Exec(env, i, core, pc, width)
      case Run(core', pc', isa, _) => Run(core', pc', isa, it')
      case Stuck => Stuck
  }

  /** The instruction at the even address `pc`, and its width in bytes. */
  ghost function InsnAt(rom: Rom, pc: int): (Insn, int)
    requires pc in rom
    requires Is32Bit(rom[pc]) ==> pc + 2 in rom
  {
    if Is32Bit(rom[pc]) then (Decode32(rom[pc], rom[pc + 2]), 4) else (Decode16(rom[pc]), 2)
  }

  /** One instruction.  In ARM state only `ldr pc, [pc, #-4]` is modelled, the one ARM
      instruction that the Thumb relocator emits. */
  ghost function Step(env: Env, s: State): State {
    if s.Stuck? then Stuck
    else if s.isa == Thumb then
      if s.pc in env.rom && (Is32Bit(env.rom[s.pc]) ==> s.pc + 2 in env.rom) then
        var (i, width) := InsnAt(env.rom, s.pc);
        if s.it == 0 then Exec(env, i, s.core, s.pc, width) else ExecUnder(env, i, s.core, s.pc, width, s.it)
      else Stuck
    else if s.pc in env.rom && s.pc + 2 in env.rom && env.rom[s.pc] == 0xf004 && env.rom[s.pc + 2] == 0xe51f then
      Interwork(s.core, LoadWord(env.rom, s.core.mem, Plus(s.pc, 4)))
    else Stuck
  }

  ghost function Steps(env: Env, n: nat, s: State): State {
    if n == 0 then s else Steps(env, n - 1, Step(env, s))
  }

  /** `t` is reached from `s` by running `env`. */
  ghost predicate Reaches(env: Env, s: State, t: State) {
    exists n: nat :: Steps(env, n, s) == t
  }

  lemma {:induction false} StepsAdd(env: Env, m: nat, n: nat, s: State)
    ensures Steps(env, m + n, s) == Steps(env, n, Steps(env, m, s))
  {
    if m > 0 {
      StepsAdd(env, m - 1, n, Step(env, s));
    }
  }

  lemma ReachesStep(env: Env, s: State, t: State)
    requires Step(env, s) == t
    ensures Reaches(env, s, t)
  {
    assert Steps(env, 0, t) == t;
    assert Steps(env, 1, s) == t;
  }

  lemma ReachesTrans(env: Env, s: State, t: State, u: State)
    requires Reaches(env, s, t) && Reaches(env, t, u)
    ensures Reaches(env, s, u)
  {
    var m: nat :| Steps(env, m, s) == t;
    var n: nat :| Steps(env, n, t) == u;
    StepsAdd(env, m, n, s);
  }

  /** What is reached, but not at once, is reached from the next state. */
  lemma ReachesLater(env: Env, s: State, u: State)
    requires Reaches(env, s, u) && s != u
    ensures Reaches(env, Step(env, s), u)
  {
    hide Step;
    var n: nat :| Steps(env, n, s) == u;
    assert Steps(env, n - 1, Step(env, s)) == u;
  }
}
