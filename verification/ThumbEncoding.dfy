/**
  The encoders and classifiers of Thumb.h.  The bit fields that the macros combine with
  `|` are disjoint for the operands given here, so `+` builds the same halfword; a test
  of the form `(ic & mask) == value` is written as a test of the fields under the mask.
 */
module ThumbEncoding {
  import opened Words

  const NOP: Half := 0x46c0
  const BX_PC: Half := 0x4778
  /** `ldr pc, [pc, #-4]`, as its two halfwords. */
  const LDR_PC_LOW: Half := 0xf004
  const LDR_PC_HIGH: Half := 0xe51f

  // ---------------------------------------------------------------- encoders

  /** Byte distance from the aligned program counter at halfword `l` to halfword `r`. */
  function Label(l: nat, r: nat): int {
    (r - l) * 2 - 4 + (if l % 2 == 0 then 0 else 2)
  }

  function BlxHalf(rm: int): Half
    requires 0 <= rm < 16
  { 0x4780 + rm * 8 }

  function AddHalf(rd: int, rm: int): Half
    requires 0 <= rd < 16 && 0 <= rm < 16
  { 0x4400 + rd / 8 * 0x80 + rm * 8 + rd % 8 }

  function MovHalf(rd: int, rm: int): Half
    requires 0 <= rd < 16 && 0 <= rm < 16
  { 0x4600 + rd / 8 * 0x80 + rm * 8 + rd % 8 }

  function Bit(r: int): int
    requires 0 <= r < 8
    ensures 1 <= Bit(r) <= 128
  {
    if r == 0 then 1 else if r == 1 then 2 else if r == 2 then 4 else if r == 3 then 8
    else if r == 4 then 16 else if r == 5 then 32 else if r == 6 then 64 else 128
  }

  function PushHalf(r: int): Half
    requires 0 <= r < 8
  { 0xb400 + Bit(r) }

  function PopHalf(r: int): Half
    requires 0 <= r < 8
  { 0xbc00 + Bit(r) }

  function LdrImmHalf(rd: int, rn: int, im: nat): Half
    requires 0 <= rd < 8 && 0 <= rn < 8
  { 0x6800 + im % 0x20 * 0x40 + rn * 8 + rd }

  function LdrPcHalf(rd: int, im: nat): Half
    requires 0 <= rd < 8
  { 0x4800 + rd * 0x100 + im % 0x100 }

  function CbzHalf(op: int, rn: int, im: nat): Half
    requires 0 <= op < 2 && 0 <= rn < 8
  { 0xb100 + op * 0x800 + im / 0x40 % 2 * 0x200 + im / 2 % 0x20 * 8 + rn }

  function BranchHalf(cond: int, im: nat): Half
    requires 0 <= cond < 16
  {
    if cond == 14 then 0xe000 + im / 2 % 0x800 else 0xd000 + cond * 0x100 + im / 2 % 0x100
  }

  /** The branch macro as the wide form uses it: its first argument `a ? al : cond` is not
      parenthesised in the macro body, so for `a != 0` the whole expression is the number
      of the condition AL. */
  function WideBranchHalf(a: int, cond: int, im: nat): Half
    requires 0 <= cond < 16
  {
    if a != 0 then 14 else BranchHalf(cond, im)
  }

  function Ldr1Half(rn: int): Half
    requires 0 <= rn < 16
  { 0xf8d0 + rn }

  function Ldr2Half(rt: int, im: nat): Half
    requires 0 <= rt < 16 && im < 0x1000
  { rt * 0x1000 + im }

  function Mrs2Half(rd: int): Half
    requires 0 <= rd < 16
  { 0x8000 + rd * 0x100 }

  function Msr1Half(rn: int): Half
    requires 0 <= rn < 16
  { 0xf380 + rn }

  // ---------------------------------------------------------------- classifiers

  predicate Is32(ic: Half) { ic / 0x800 >= 29 }

  predicate IsCbz(ic: Half) {
    ic / 0x1000 == 11 && ic / 0x400 % 2 == 0 && ic / 0x100 % 2 == 1
  }

  predicate IsB(ic: Half) { ic / 0x1000 == 13 && ic / 0x200 % 8 != 7 }

  predicate IsWideB(ic0: Half, ic1: Half) {
    ic0 / 0x800 == 30 &&
    (ic1 / 0x1000 == 9 || ic1 / 0x1000 == 11 ||
     ((ic1 / 0x1000 == 8 || ic1 / 0x1000 == 10) && ic0 / 0x80 % 8 != 7))
  }

  predicate IsBl(ic0: Half, ic1: Half) {
    ic0 / 0x800 == 30 &&
    (ic1 / 0x1000 == 13 || ic1 / 0x1000 == 15 ||
     ((ic1 / 0x1000 == 12 || ic1 / 0x1000 == 14) && ic1 % 2 == 0))
  }

  predicate IsLdr(ic: Half) { ic / 0x800 == 9 }

  predicate IsAdd(ic: Half) { ic / 0x100 == 0x44 && ic / 8 % 16 == 15 }

  predicate IsLdrW(ic: Half) { ic == 0xf85f || ic == 0xf8df }

  // ---------------------------------------------------------------- kinds

  datatype Kind = KLdr | KB | KWideB | KBl | KCbz | KLdrW | KAdd | KCopy32 | KCopy16

  /** The if-chain that the sizing pass and the emission pass share.  The second halfword
      is read by the wide branch tests only. */
  function Classify(h0: Half, h1: Half): Kind {
    if IsLdr(h0) then KLdr
    else if IsB(h0) then KB
    else if IsWideB(h0, h1) then KWideB
    else if IsBl(h0, h1) then KBl
    else if IsCbz(h0) then KCbz
    else if IsLdrW(h0) then KLdrW
    else if IsAdd(h0) then KAdd
    else if Is32(h0) then KCopy32
    else KCopy16
  }

  /** Halfwords that a pass consumes for an instruction of this kind. */
  function Width(k: Kind): nat {
    match k
    case KLdr => 1
    case KB => 1
    case KWideB => 2
    case KBl => 2
    case KCbz => 1
    case KLdrW => 2
    case KAdd => 1
    case KCopy32 => 2
    case KCopy16 => 1
  }

  /** Halfwords that the sizing pass adds to the original size. */
  function Growth(k: Kind): nat {
    match k
    case KLdr => 3
    case KB => 6
    case KWideB => 5
    case KBl => 5
    case KCbz => 16
    case KLdrW => 4
    case KAdd => 6
    case KCopy32 => 0
    case KCopy16 => 0
  }

  /** Every classifier consumes exactly the width that the width loop assigned, and the
      tests that read the second halfword only fire on a 32-bit instruction. */
  lemma ClassifierWidth(h0: Half, h1: Half)
    ensures Width(Classify(h0, h1)) == (if Is32(h0) then 2 else 1)
    ensures !Is32(h0) ==> forall x: Half :: Classify(h0, x) == Classify(h0, h1)
  {
  }
}
