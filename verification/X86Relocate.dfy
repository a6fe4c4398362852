/**
  The relocator of x86.cpp and the writers of x86.h: the sizing loop, the emission loop
  and the entry patch, for 32-bit code (`ia32`) and for 64-bit code.

  The instruction decoder is not part of this model: a displaced prologue is given as the
  instructions it delimits.
 */
module X86Relocate {
  import opened Words

  // ---------------------------------------------------------------- addresses

  /** Number of addresses: uintptr_t is 32 or 64 bits wide. */
  function Space(ia32: bool): int { if ia32 then 0x1_0000_0000 else 0x1_0000_0000_0000_0000 }

  /** Pointer arithmetic. */
  function Ptr(ia32: bool, x: int): (p: int)
    ensures 0 <= p < Space(ia32)
  {
    x % Space(ia32)
  }

  /** The signed 32-bit number whose low 32 bits are those of `x`. */
  function Int32(x: int): int { Signed(Wrap(x), 0x1_0000_0000) }

  /** MSIs32BitOffset. */
  predicate Is32BitOffset(ia32: bool, target: int, source: int) {
    var offset := Signed(Ptr(ia32, target - source), Space(ia32));
    Int32(offset) == offset
  }

  // ---------------------------------------------------------------- sizes

  const SIZE_OF_SKIP := 5

  function SizeOfPushPointer(target: int): nat { if target < 0x1_0000_0000 then 5 else 13 }

  /** MSSizeOfJump with a known source. */
  function SizeOfJump(ia32: bool, target: int, source: int): nat {
    if ia32 || Is32BitOffset(ia32, target, source + 5) then SIZE_OF_SKIP else SizeOfPushPointer(target) + 1
  }

  /** MSSizeOfJump before the source is known. */
  function SizeOfBlindJump(ia32: bool, target: int): nat {
    if ia32 then SIZE_OF_SKIP else SizeOfPushPointer(target) + 1
  }

  // ---------------------------------------------------------------- bytes

  function Dword(x: int): (bs: seq<Byte>)
    ensures |bs| == 4
  {
    var w := Wrap(x);
    [ByteAt(w, 0), ByteAt(w, 1), ByteAt(w, 2), ByteAt(w, 3)]
  }

  function DwordAt(bs: seq<Byte>, i: nat): Word
    requires i + 4 <= |bs|
  {
    WordOfBytes(bs[i], bs[i + 1], bs[i + 2], bs[i + 3])
  }

  /** MSWriteSkip. */
  function Skip(size: int): (bs: seq<Byte>)
    ensures |bs| == SIZE_OF_SKIP
  {
    [0xe9] + Dword(size)
  }

  /** MSPushPointer: `push imm32`, and in the high half `mov dword [rsp + 4], imm32`. */
  function PushPointer(target: int): (bs: seq<Byte>)
    requires 0 <= target < 0x1_0000_0000_0000_0000
    ensures |bs| == SizeOfPushPointer(target)
  {
    [0x68] + Dword(target) +
    (if target >= 0x1_0000_0000 then [0xc7, 0x44, 0x24, 0x04] + Dword(target / 0x1_0000_0000) else [])
  }

  /** MSWriteJump at the address `here`: exactly the bytes that MSSizeOfJump announces. */
  function Jump(ia32: bool, target: int, here: int): (bs: seq<Byte>)
    requires 0 <= target < Space(ia32)
    ensures |bs| == SizeOfJump(ia32, target, here)
  {
    if ia32 || Is32BitOffset(ia32, target, here + 5) then Skip(target - (here + 5))
    else PushPointer(target) + [0xc3]
  }

  // ---------------------------------------------------------------- displaced instructions

  /** How an instruction uses the instruction pointer in its address (64-bit code only). */
  datatype RipUse = NoRip | RipLoad(reg: int, disp: int) | RipOther

  /** An instruction as the decoder delimits it. */
  datatype Insn = Insn(bytes: seq<Byte>, rip: RipUse) {
    function Width(): nat { |bytes| }

    function Op(): int
      requires bytes != []
    { bytes[0] }

    /** What the decoder promises about the forms that the relocator knows by their first
        byte: how long they are. */
    predicate Valid(ia32: bool) {
      bytes != [] && (ia32 ==> rip == NoRip) &&
      (rip.RipLoad? ==> 0 <= rip.reg < 16) &&
      (Op() == 0xe8 || Op() == 0xe9 ==> |bytes| == 5) &&
      (Op() == 0xeb || IsShortJcc() ==> |bytes| == 2)
    }

    predicate IsShortJcc()
      requires bytes != []
    {
      Op() == 0xe3 || Op() / 0x10 == 7
    }

    function Rel32(): int
      requires |bytes| == 5
    { Int32(DwordAt(bytes, 1)) }

    function Rel8(): int
      requires |bytes| == 2
    { Signed(bytes[1], 0x100) }
  }

  /** The destination of a branch `insn` at `at`. */
  function Destination(ia32: bool, insn: Insn, at: int): int
    requires insn.Valid(ia32)
    requires insn.Op() == 0xe8 || insn.Op() == 0xe9 || insn.Op() == 0xeb || insn.IsShortJcc()
  {
    Ptr(ia32, at + insn.Width() + (if insn.Width() == 5 then insn.Rel32() else insn.Rel8()))
  }

  function Prefix(reg: int): seq<Byte>
    requires 0 <= reg < 16
  {
    if reg >= 8 then [0x41] else []
  }

  /** MSWritePop. */
  function PopBytes(reg: int): seq<Byte>
    requires 0 <= reg < 16
  {
    Prefix(reg) + [0x58 + reg % 8]
  }

  /** MSWriteMove64(reg, reg). */
  function Move64(reg: int): seq<Byte>
    requires 0 <= reg < 16
  {
    [if reg >= 8 then 0x4d else 0x48, 0x8b, reg % 8 * 8 + reg % 8]
  }

  /** What the emission loop writes at `here` for `insn`, which lay at `at`. */
  function Gadget(ia32: bool, insn: Insn, at: int, here: int): seq<Byte>
    requires insn.Valid(ia32)
  {
    if insn.rip.RipLoad? then
      PushPointer(Ptr(ia32, at + insn.Width() + insn.rip.disp)) + PopBytes(insn.rip.reg) + Move64(insn.rip.reg)
    else if insn.rip.RipOther? then insn.bytes
    else if insn.Op() == 0xe8 then
      if insn.Rel32() == 0 then PushPointer(Ptr(ia32, at + 5))
      else
        var dest := Destination(ia32, insn, at);
        [0xe8] + Dword(SIZE_OF_SKIP) + Skip(SizeOfJump(ia32, dest, here + 10)) + Jump(ia32, dest, here + 10)
    else if insn.Op() == 0xeb || insn.Op() == 0xe9 then Jump(ia32, Destination(ia32, insn, at), here)
    else if insn.IsShortJcc() then
      var dest := Destination(ia32, insn, at);
      [insn.bytes[0], 2, 0xeb, SizeOfJump(ia32, dest, here + 4)] + Jump(ia32, dest, here + 4)
    else insn.bytes
  }

  /** What the sizing loop reserves for `insn`. */
  function Reserved(ia32: bool, insn: Insn, at: int): nat
    requires insn.Valid(ia32)
  {
    if insn.rip.RipLoad? then
      SizeOfPushPointer(Ptr(ia32, at + insn.Width() + insn.rip.disp)) + (if insn.rip.reg >= 8 then 2 else 1) + 3
    else if insn.rip.RipOther? then insn.Width()
    else if insn.Op() == 0xe8 then
      if insn.Rel32() == 0 then SizeOfPushPointer(Ptr(ia32, at + 5))
      else insn.Width() + SIZE_OF_SKIP + SizeOfBlindJump(ia32, Destination(ia32, insn, at))
    else if insn.Op() == 0xeb || insn.Op() == 0xe9 then SizeOfBlindJump(ia32, Destination(ia32, insn, at))
    else if insn.IsShortJcc() then 2 * insn.Width() + SizeOfBlindJump(ia32, Destination(ia32, insn, at))
    else insn.Width()
  }

  /** No gadget outgrows what was reserved for it, and in 32-bit code each fills it. */
  lemma GadgetFits(ia32: bool, insn: Insn, at: int, here: int)
    requires insn.Valid(ia32)
    ensures |Gadget(ia32, insn, at, here)| <= Reserved(ia32, insn, at)
    ensures ia32 ==> |Gadget(ia32, insn, at, here)| == Reserved(ia32, insn, at)
  {
    hide Ptr, Is32BitOffset, Signed, DwordAt;
  }

  predicate AllValid(ia32: bool, insns: seq<Insn>) {
    forall i :: 0 <= i < |insns| ==> insns[i].Valid(ia32)
  }

  function Used(insns: seq<Insn>): nat {
    if insns == [] then 0 else insns[0].Width() + Used(insns[1..])
  }

  function ReservedAll(ia32: bool, insns: seq<Insn>, at: int): nat
    requires AllValid(ia32, insns)
    decreases |insns|
  {
    if insns == [] then 0
    else Reserved(ia32, insns[0], at) + ReservedAll(ia32, insns[1..], at + insns[0].Width())
  }

  /** The gadgets one after the other, and the jump back behind the window. */
  function EmitAll(ia32: bool, insns: seq<Insn>, at: int, here: int): seq<Byte>
    requires AllValid(ia32, insns)
    decreases |insns|
  {
    if insns == [] then Jump(ia32, Ptr(ia32, at), here)
    else
      var g := Gadget(ia32, insns[0], at, here);
      g + EmitAll(ia32, insns[1..], at + insns[0].Width(), here + |g|)
  }

  /** Bytes of the buffer. */
  function Length(ia32: bool, insns: seq<Insn>, at: int): nat
    requires AllValid(ia32, insns)
  {
    ReservedAll(ia32, insns, at) + SizeOfBlindJump(ia32, Ptr(ia32, at + Used(insns)))
  }

  /** The emission stays within the sized buffer, and in 32-bit code fills it. */
  lemma {:induction false} EmissionFits(ia32: bool, insns: seq<Insn>, at: int, here: int)
    requires AllValid(ia32, insns)
    ensures |EmitAll(ia32, insns, at, here)| <= Length(ia32, insns, at)
    ensures ia32 ==> |EmitAll(ia32, insns, at, here)| == Length(ia32, insns, at)
    decreases |insns|
  {
    hide Gadget, Reserved, Ptr, Is32BitOffset;
    if insns != [] {
      var g := Gadget(ia32, insns[0], at, here);
      GadgetFits(ia32, insns[0], at, here);
      EmissionFits(ia32, insns[1..], at + insns[0].Width(), here + |g|);
    }
  }

  // ---------------------------------------------------------------- the loops of the source

  /** The sizing loop. */
  method SizeBuffer(ia32: bool, insns: seq<Insn>, area: int) returns (length: int)
    requires AllValid(ia32, insns)
    ensures length == Length(ia32, insns, area)
  {
    hide Ptr, Is32BitOffset, Insn.Rel32, Insn.Rel8;
    length := Used(insns) + SizeOfBlindJump(ia32, Ptr(ia32, area + Used(insns)));
    var offset := 0;
    assert insns[0..] == insns;
    for i := 0 to |insns|
      invariant offset + Used(insns[i..]) == Used(insns)
      invariant length - Used(insns[i..]) + ReservedAll(ia32, insns[i..], area + offset) == Length(ia32, insns, area)
    {
      var insn, at := insns[i], area + offset;
      assert insns[i..][1..] == insns[i + 1..];
      if insn.rip.RipLoad? {
        length := length - insn.Width() + SizeOfPushPointer(Ptr(ia32, at + insn.Width() + insn.rip.disp));
        length := length + (if insn.rip.reg >= 8 then 2 else 1) + 3;
      } else if insn.rip.RipOther? {
      } else if insn.Op() == 0xe8 {
        if insn.Rel32() == 0 {
          length := length - insn.Width() + SizeOfPushPointer(Ptr(ia32, at + insn.Width()));
        } else {
          length := length + SIZE_OF_SKIP + SizeOfBlindJump(ia32, Destination(ia32, insn, at));
        }
      } else if insn.Op() == 0xeb || insn.Op() == 0xe9 {
        length := length - insn.Width() + SizeOfBlindJump(ia32, Destination(ia32, insn, at));
      } else if insn.IsShortJcc() {
        length := length + insn.Width() + SizeOfBlindJump(ia32, Destination(ia32, insn, at));
      }
      offset := offset + insn.Width();
    }
  }

  /** Stores at the cursor. */
  method Write(buffer: array<Byte>, current: nat, bs: seq<Byte>) returns (next: nat)
    requires current + |bs| <= buffer.Length
    modifies buffer
    ensures next == current + |bs|
    ensures buffer[..next] == old(buffer[..current]) + bs
    ensures buffer[next..] == old(buffer[next..])
  {
    for i := 0 to |bs|
      invariant buffer[..current + i] == old(buffer[..current]) + bs[..i]
      invariant buffer[current + i..] == old(buffer[current + i..])
    {
      ghost var was := buffer[..current + i];
      buffer[current + i] := bs[i];
      assert buffer[..current + i + 1] == was + [bs[i]];
    }
    next := current + |bs|;
  }

  /** MSPushPointer. */
  method WritePushPointer(buffer: array<Byte>, current: nat, target: int) returns (next: nat)
    requires 0 <= target < 0x1_0000_0000_0000_0000 && current + SizeOfPushPointer(target) <= buffer.Length
    modifies buffer
    ensures next == current + SizeOfPushPointer(target)
    ensures buffer[..next] == old(buffer[..current]) + PushPointer(target)
  {
    next := Write(buffer, current, [0x68]);
    next := Write(buffer, next, Dword(target));
    var high := target / 0x1_0000_0000;
    if high != 0 {
      next := Write(buffer, next, [0xc7, 0x44, 0x24, 0x04]);
      next := Write(buffer, next, Dword(high));
    }
  }

  /** MSWriteJump, with the buffer mapped at `base`. */
  method WriteJump(ia32: bool, buffer: array<Byte>, base: int, current: nat, target: int) returns (next: nat)
    requires 0 <= target < Space(ia32)
    requires current + SizeOfJump(ia32, target, base + current) <= buffer.Length
    modifies buffer
    ensures next == current + SizeOfJump(ia32, target, base + current)
    ensures buffer[..next] == old(buffer[..current]) + Jump(ia32, target, base + current)
  {
    hide Is32BitOffset;
    var source := base + current;
    if ia32 || Is32BitOffset(ia32, target, source + 5) {
      next := Write(buffer, current, Skip(target - (source + 5)));
    } else {
      next := WritePushPointer(buffer, current, target);
      next := Write(buffer, next, [0xc3]);
    }
  }

  method WriteThenJump(ia32: bool, buffer: array<Byte>, base: int, current: nat, head: seq<Byte>, dest: int)
    returns (next: nat)
    requires 0 <= dest < Space(ia32)
    requires current + |head| + SizeOfJump(ia32, dest, base + current + |head|) <= buffer.Length
    modifies buffer
    ensures next == current + |head| + SizeOfJump(ia32, dest, base + current + |head|)
    ensures buffer[..next] == old(buffer[..current]) + (head + Jump(ia32, dest, base + current + |head|))
  {
    hide Jump, Is32BitOffset;
    next := Write(buffer, current, head);
    next := WriteJump(ia32, buffer, base, next, dest);
  }

  /** One iteration of the emission loop. */
  method EmitOne(ia32: bool, insn: Insn, at: int, buffer: array<Byte>, base: int, current: nat) returns (next: nat)
    requires insn.Valid(ia32)
    requires current + |Gadget(ia32, insn, at, base + current)| <= buffer.Length
    modifies buffer
    ensures next == current + |Gadget(ia32, insn, at, base + current)|
    ensures buffer[..next] == old(buffer[..current]) + Gadget(ia32, insn, at, base + current)
  {
    hide Ptr, Is32BitOffset, Jump, PushPointer, Insn.Rel32, Insn.Rel8, Skip, Dword;
    var here := base + current;
    if insn.rip.RipLoad? {
      next := WritePushPointer(buffer, current, Ptr(ia32, at + insn.Width() + insn.rip.disp));
      next := Write(buffer, next, PopBytes(insn.rip.reg));
      next := Write(buffer, next, Move64(insn.rip.reg));
    } else if insn.rip.RipOther? {
      next := Write(buffer, current, insn.bytes);
    } else if insn.Op() == 0xe8 {
      if insn.Rel32() == 0 {
        next := WritePushPointer(buffer, current, Ptr(ia32, at + insn.Width()));
      } else {
        var dest := Destination(ia32, insn, at);
        next := WriteThenJump(ia32, buffer, base, current,
                              [0xe8] + Dword(SIZE_OF_SKIP) + Skip(SizeOfJump(ia32, dest, here + 10)), dest);
      }
    } else if insn.Op() == 0xeb || insn.Op() == 0xe9 {
      next := WriteJump(ia32, buffer, base, current, Destination(ia32, insn, at));
    } else if insn.IsShortJcc() {
      var dest := Destination(ia32, insn, at);
      next := WriteThenJump(ia32, buffer, base, current,
                            [insn.bytes[0], 2, 0xeb, SizeOfJump(ia32, dest, here + 4)], dest);
    } else {
      next := Write(buffer, current, insn.bytes);
    }
  }

  /** Both loops: a buffer at `base` for the window at `area`. */
  method Relocate(ia32: bool, insns: seq<Insn>, area: int, base: int, buffer: array<Byte>) returns (used: nat)
    requires AllValid(ia32, insns) && buffer.Length == Length(ia32, insns, area)
    modifies buffer
    ensures used <= buffer.Length && buffer[..used] == EmitAll(ia32, insns, area, base)
    ensures ia32 ==> used == buffer.Length
  {
    hide Gadget, Ptr, Is32BitOffset, Length, Jump;
    EmissionFits(ia32, insns, area, base);
    used := 0;
    var offset := 0;
    assert insns[0..] == insns;
    for i := 0 to |insns|
      invariant used + |EmitAll(ia32, insns[i..], area + offset, base + used)| == |EmitAll(ia32, insns, area, base)|
      invariant used <= buffer.Length
      invariant buffer[..used] + EmitAll(ia32, insns[i..], area + offset, base + used) == EmitAll(ia32, insns, area,
                    base)
    {
      assert insns[i..][1..] == insns[i + 1..];
      ghost var g := Gadget(ia32, insns[i], area + offset, base + used);
      ghost var rest := EmitAll(ia32, insns[i + 1..], area + offset + insns[i].Width(), base + used + |g|);
      ghost var was := buffer[..used];
      assert was + (g + rest) == (was + g) + rest;
      used := EmitOne(ia32, insns[i], area + offset, buffer, base, used);
      offset := offset + insns[i].Width();
    }
    used := WriteJump(ia32, buffer, base, used, Ptr(ia32, area + offset));
  }

  // ---------------------------------------------------------------- the entry patch

  /** `required` in the source. */
  function Required(ia32: bool, target: int, source: int): nat { SizeOfJump(ia32, target, source) }

  /** The patched entry: a jump to the replacement, and nops up to `used`. */
  method PatchEntry(ia32: bool, area: array<Byte>, source: int, target: int, used: nat)
    requires 0 <= target < Space(ia32)
    requires Required(ia32, target, source) <= used <= area.Length
    modifies area
    ensures area[..used] == Jump(ia32, target, source) + seq(used - Required(ia32, target, source), i => 0x90)
    ensures area[used..] == old(area[used..])
  {
    hide Jump, Is32BitOffset;
    ghost var tail := area[used..];
    var current := WriteJumpKeeping(ia32, area, source, target, used);
    var blank := used - current;
    ghost var jump := area[..current];
    for offset := 0 to blank
      invariant area[..current + offset] == jump + seq(offset, i => 0x90)
      invariant area[used..] == tail
    {
      ghost var was := area[..current + offset];
      area[current + offset] := 0x90;
      assert area[..current + offset + 1] == was + [0x90];
      assert seq(offset, i => 0x90) + [0x90] == seq(offset + 1, i => 0x90);
    }
  }

  method WriteJumpKeeping(ia32: bool, area: array<Byte>, source: int, target: int, used: nat) returns (current: nat)
    requires 0 <= target < Space(ia32)
    requires Required(ia32, target, source) <= used <= area.Length
    modifies area
    ensures current == Required(ia32, target, source) && area[..current] == Jump(ia32, target, source)
    ensures area[used..] == old(area[used..])
  {
    hide Jump, Is32BitOffset;
    var bytes := Jump(ia32, target, source);
    ghost var tail := area[used..];
    current := Write(area, 0, bytes);
    assert forall k :: used <= k < area.Length ==> area[k] == area[current..][k - current];
  }
}
