/**
  The media words whose bits 19 to 16 are all ones, which the relocator takes for
  pc-relative transfers: extension, reversal, saturation and bit-field moves, as section
  A5.4 of the ARM Architecture Reference Manual (ARMv7-A and ARMv7-R edition) decodes
  them and section A8.8 executes them.
 */
module ArmMedia {
  import opened Words
  import opened ThumbMachine
  import opened ArmRelocate

  // ---------------------------------------------------------------- decoding

  predicate IsMedia(ic: Word) {
    Hi(ic) / 0x20 % 8 == 3 && Lo(ic) / 16 % 2 == 1 && Cond(ic) != 15
  }

  /** `Other` stands for the words whose field in bits 19 to 16 is an operand or a
      destination that must not be the program counter. */
  datatype Media =
    | ExtendByte(signed: bool)
    | ExtendHalf(signed: bool)
    | ExtendPair(signed: bool)
    | Rev | Rev16 | Revsh | Rbit
    | Saturate(signed: bool)
    | SaturatePair(signed: bool)
    | Extract(signed: bool)
    | Insert
    | Other

  function MediaOf(ic: Word): Media {
    var op, sub := Hi(ic) % 0x20, Lo(ic) / 32 % 8;
    match sub
    case 1 =>
      (match op
       case 10 => SaturatePair(true)
       case 14 => SaturatePair(false)
       case 11 => Rev
       case 15 => Rbit
       case _ => Other)
    case 3 =>
      (match op
       case 8 => ExtendPair(true)
       case 10 => ExtendByte(true)
       case 11 => ExtendHalf(true)
       case 12 => ExtendPair(false)
       case 14 => ExtendByte(false)
       case 15 => ExtendHalf(false)
       case _ => Other)
    case 5 => if op == 11 then Rev16 else if op == 15 then Revsh else Other
    case _ =>
      if sub % 2 == 0 && op / 2 == 5 then Saturate(true)
      else if sub % 2 == 0 && op / 2 == 7 then Saturate(false)
      else if sub % 4 == 2 && op / 2 == 13 then Extract(true)
      else if sub % 4 == 2 && op / 2 == 15 then Extract(false)
      else if sub % 4 == 0 && op / 2 == 14 then Insert
      else Other
  }

  predicate IsExtend(m: Media) { m.ExtendByte? || m.ExtendHalf? || m.ExtendPair? }

  predicate IsReverse(m: Media) { m.Rev? || m.Rev16? || m.Revsh? || m.Rbit? }

  /** Bits 20 to 16: a width, a saturation bound or a bit position. */
  function Top(ic: Word): nat { 16 * (Hi(ic) % 2) + Rn(ic) }

  /** Bits 11 to 7. */
  function Lsb(ic: Word): nat { Lo(ic) / 128 % 32 }

  /** The forms that the architecture calls UNPREDICTABLE.  A reversal must have all ones
      where an extension has its base. */
  predicate Unpredictable(ic: Word) {
    IsMedia(ic) &&
    var m := MediaOf(ic);
    if m.Other? then Rn(ic) == PC
    else
      Rd(ic) == PC || (Rm(ic) == PC && !m.Insert?) || (IsReverse(m) && Rn(ic) != PC) ||
      (m.Extract? && Lsb(ic) + Top(ic) > 31) || (m.Insert? && Top(ic) < Lsb(ic))
  }

  /** The media words that are executed. */
  predicate IsExecuted(ic: Word) { IsMedia(ic) && !Unpredictable(ic) && !MediaOf(ic).Other? }

  // ---------------------------------------------------------------- values

  /** Section A8.4.3: a register shifted by an immediate. */
  function Shifted(ic: Word, v: Word, carry: bool): Word {
    var kind, amount := Lo(ic) / 32 % 4, Lo(ic) / 128 % 32;
    var p := Pow2(amount);
    Pow2Positive(amount);
    match kind
    case 0 => Wrap(v * p)
    case 1 => if amount == 0 then 0 else Wrap(v / p)
    case 2 => Wrap(Signed(v, 0x1_0000_0000) / (if amount == 0 then 0x1_0000_0000 else p))
    case _ =>
      if amount == 0 then v / 2 + (if carry then 0x8000_0000 else 0)
      else Wrap(v / p + v % p * Pow2(32 - amount))
  }

  /** The operand of an extension: rotated by a multiple of eight bits. */
  function Rotated(ic: Word, v: Word): Word {
    match Lo(ic) / 0x400 % 4
    case 0 => v
    case 1 => v / 0x100 + v % 0x100 * 0x100_0000
    case 2 => v / 0x1_0000 + v % 0x1_0000 * 0x1_0000
    case _ => v / 0x100_0000 + v % 0x100_0000 * 0x100
  }

  /** The low bits of `x`, a field of modulus `m`. */
  function Low(signed: bool, x: int, m: int): int
    requires 0 < m
  {
    if signed then Signed(x % m, m) else x % m
  }

  function Joined(low: int, high: int): Word { WordOf(low % 0x1_0000, high % 0x1_0000) }

  function Reversed(v: nat, n: nat): int {
    if n == 0 then 0 else v % 2 * Pow2(n - 1) + Reversed(v / 2, n - 1)
  }

  function Clamp(x: int, low: int, high: int): int {
    if x < low then low else if x > high then high else x
  }

  /** `x` saturated to the bound in the field `n`. */
  function Saturated(signed: bool, x: int, n: nat): int {
    if signed then Clamp(x, 0 - Pow2(n), Pow2(n) - 1) else Clamp(x, 0, Pow2(n) - 1)
  }

  /** What an extension with the base value `n` leaves. */
  function Extended(ic: Word, n: Word, v: Word): Word {
    match MediaOf(ic)
    case ExtendByte(signed) => Plus(n, Low(signed, Rotated(ic, v), 0x100))
    case ExtendHalf(signed) => Plus(n, Low(signed, Rotated(ic, v), 0x1_0000))
    case ExtendPair(signed) =>
      Joined(n + Low(signed, Rotated(ic, v), 0x100), n / 0x1_0000 + Low(signed, Rotated(ic, v) / 0x1_0000, 0x100))
    case _ => n
  }

  /** The value and the flags that a media word leaves, from the added base `n`, the old
      value of its register, its operand `v` and the flags. */
  function MediaResult(ic: Word, n: Word, prior: Word, v: Word, f: Apsr): (Word, Apsr) {
    match MediaOf(ic)
    case ExtendByte(_) => (Extended(ic, n, v), f)
    case ExtendHalf(_) => (Extended(ic, n, v), f)
    case ExtendPair(_) => (Extended(ic, n, v), f)
    case Rev => (WordOfBytes(ByteAt(v, 3), ByteAt(v, 2), ByteAt(v, 1), ByteAt(v, 0)), f)
    case Rev16 => (WordOfBytes(ByteAt(v, 1), ByteAt(v, 0), ByteAt(v, 3), ByteAt(v, 2)), f)
    case Revsh => (Wrap(Signed(ByteAt(v, 1) + 0x100 * ByteAt(v, 0), 0x1_0000)), f)
    case Rbit => (Wrap(Reversed(v, 32)), f)
    case Saturate(signed) =>
      var x := Signed(Shifted(ic, v, f.c), 0x1_0000_0000);
      var y := Saturated(signed, x, Top(ic));
      (Wrap(y), f.(q := f.q || x != y))
    case SaturatePair(signed) =>
      var x0, x1 := Signed(v % 0x1_0000, 0x1_0000), Signed(v / 0x1_0000, 0x1_0000);
      var y0, y1 := Saturated(signed, x0, Rn(ic)), Saturated(signed, x1, Rn(ic));
      (Joined(y0, y1), f.(q := f.q || x0 != y0 || x1 != y1))
    case Extract(signed) =>
      Pow2Positive(Lsb(ic));
      Pow2Positive(Top(ic) + 1);
      (Wrap(Low(signed, v / Pow2(Lsb(ic)), Pow2(Top(ic) + 1))), f)
    case Insert => (Inserted(ic, prior, v), f)
    case Other => (prior, f)
  }

  /** BFI, or BFC when the operand field is all ones. */
  function Inserted(ic: Word, prior: Word, v: Word): Word {
    var low, above, width := Pow2(Lsb(ic)), Pow2(Top(ic) + 1),
        Pow2(if Top(ic) < Lsb(ic) then 0 else Top(ic) + 1 - Lsb(ic));
    Pow2Positive(Lsb(ic));
    Pow2Positive(Top(ic) + 1);
    Pow2Positive(if Top(ic) < Lsb(ic) then 0 else Top(ic) + 1 - Lsb(ic));
    Wrap(prior / above * above + (if Rm(ic) == PC then 0 else v % width * low) + prior % low)
  }

  ghost function OperandOf(ic: Word, core: Core): Word {
    if 0 <= Rm(ic) < 15 then core.regs[Rm(ic)] else 0
  }

  /** The base of an extension: nothing is added for all ones. */
  ghost function BaseOf(ic: Word, core: Core): Word {
    if 0 <= Rn(ic) < 15 then core.regs[Rn(ic)] else 0
  }

  /** What a media word does to the core when its condition holds. */
  ghost function MediaCore(ic: Word, core: Core): Core
    requires 0 <= Rd(ic) < 15
  {
    var (v, f) := MediaResult(ic, BaseOf(ic, core), core.regs[Rd(ic)], OperandOf(ic, core), core.flags);
    SetReg(core, Rd(ic), v).(flags := f)
  }

  // ---------------------------------------------------------------- the rewritten field

  /** Whether the word with another field leaves the same value and flags, when the base
      register holds `lit` and the destination `prior'`. */
  ghost predicate FieldHarmless(ic: Word, rn: int, lit: Word, prior: Word, prior': Word, v: Word, f: Apsr)
    requires 0 <= rn < 15
  {
    !Unpredictable(WithBase(ic, rn)) &&
    MediaResult(WithBase(ic, rn), lit, prior', v, f) == MediaResult(ic, 0, prior, v, f)
  }

  lemma RewrittenFields(ic: Word, rn: int)
    requires 0 <= rn < 15
    ensures var copy := WithBase(ic, rn);
            Rd(copy) == Rd(ic) && Rm(copy) == Rm(ic) && Rn(copy) == rn && Lsb(copy) == Lsb(ic) &&
            Cond(copy) == Cond(ic) &&
            MediaOf(copy) == MediaOf(ic) && IsMedia(copy) == IsMedia(ic) && IsRegister(copy) == IsRegister(ic) &&
            Top(copy) == 16 * (Hi(ic) % 2) + rn && Rotated(copy, 0) == Rotated(ic, 0)
    ensures forall v: Word, carry: bool :: Shifted(WithBase(ic, rn), v, carry) == Shifted(ic, v, carry)
    ensures forall v: Word :: Rotated(WithBase(ic, rn), v) == Rotated(ic, v)
  {
    hide WithBase, Pow2, Wrap, Signed;
    OnlyBaseChanges(ic, rn);
  }

  lemma AddsSomething(n: Word, x: int)
    requires n != 0
    ensures Plus(n, x) != Plus(0, x)
  {
    var p, q := (n + x) / 0x1_0000_0000, x / 0x1_0000_0000;
    assert n + x == 0x1_0000_0000 * p + Plus(n, x) && x == 0x1_0000_0000 * q + Plus(0, x);
  }

  lemma SameHalf(n: int, x: int)
    requires (n + x) % 0x1_0000 == x % 0x1_0000
    ensures n % 0x1_0000 == 0
  {
    var k := (n + x) / 0x1_0000 - x / 0x1_0000;
    assert n == 0x1_0000 * k;
  }

  lemma PairDiffers(n: Word, x: int, y: int)
    requires n != 0
    ensures Joined(n + x, n / 0x1_0000 + y) != Joined(x, y)
  {
    if Joined(n + x, n / 0x1_0000 + y) == Joined(x, y) {
      JoinedIs(n + x, n / 0x1_0000 + y);
      JoinedIs(x, y);
      SameHalf(n, x);
      SameHalf(n / 0x1_0000, y);
      HalvesZero(n);
    }
  }

  lemma JoinedIs(x: int, y: int)
    ensures LowHalf(Joined(x, y)) == x % 0x1_0000 && HighHalf(Joined(x, y)) == y % 0x1_0000
  {
    WordHalves(Joined(x, y), x % 0x1_0000, y % 0x1_0000);
  }

  lemma HalvesZero(n: Word)
    requires n % 0x1_0000 == 0 && n / 0x1_0000 % 0x1_0000 == 0
    ensures n == 0
  {
  }

  // ---------------------------------------------------------------- exact conditions

  /** Extensions and reversals are always spoiled: the base is added, or the word becomes
      UNPREDICTABLE. */
  lemma ExtensionsAreSpoiled(ic: Word, rn: int, lit: Word, prior: Word, prior': Word, v: Word, f: Apsr)
    requires 0 <= rn < 15 && lit != 0 && IsMedia(ic) && (IsExtend(MediaOf(ic)) || IsReverse(MediaOf(ic)))
    ensures !FieldHarmless(ic, rn, lit, prior, prior', v, f)
  {
    hide WithBase, MediaOf, IsMedia, Extended, Rotated, Shifted, Saturated, Inserted, Reversed, Top, Lsb, Low, Joined;
    RewrittenFields(ic, rn);
    if IsExtend(MediaOf(ic)) {
      ExtensionDiffers(ic, rn, lit, v);
    }
  }

  lemma ExtensionDiffers(ic: Word, rn: int, n: Word, v: Word)
    requires IsExtend(MediaOf(ic)) && n != 0 && 0 <= rn < 15
    ensures Extended(WithBase(ic, rn), n, v) != Extended(ic, 0, v)
  {
    hide WithBase, MediaOf, IsMedia, Low, Plus, Joined, Rotated, Shifted, Top, Lsb;
    RewrittenFields(ic, rn);
    var w := Rotated(ic, v);
    match MediaOf(ic)
    case ExtendByte(signed) => AddsSomething(n, Low(signed, w, 0x100));
    case ExtendHalf(signed) => AddsSomething(n, Low(signed, w, 0x1_0000));
    case ExtendPair(signed) => PairDiffers(n, Low(signed, w, 0x100), Low(signed, w / 0x1_0000, 0x100));
  }

  /** The value `x` can be held by `n` bits, or by `n` bits below the sign. */
  predicate Fits(signed: bool, x: int, n: nat) { (signed ==> 0 - Pow2(n) <= x) && x < Pow2(n) }

  lemma {:induction false} Pow2Multiple(m: nat, n: nat) returns (k: nat)
    requires m <= n
    ensures Pow2(n) == k * Pow2(m) && k >= 1 && (m < n ==> k >= 2)
    decreases n - m
  {
    if m == n {
      k := 1;
    } else {
      k := Pow2Multiple(m, n - 1);
      k := 2 * k;
    }
  }

  lemma Pow2Grows(m: nat, n: nat)
    requires m < n
    ensures 2 * Pow2(m) <= Pow2(n) && Pow2(m) > 0
  {
    var k := Pow2Multiple(m, n);
    Pow2Positive(m);
  }

  lemma {:induction false} Pow2Add(m: nat, n: nat)
    ensures Pow2(m + n) == Pow2(m) * Pow2(n)
  {
    if n > 0 {
      Pow2Add(m, n - 1);
    }
  }

  lemma Pow2Bound(n: nat)
    requires n < 32
    ensures 0 < Pow2(n) <= 0x8000_0000
  {
    Pow2Positive(n);
    assert Pow2(7) == 0x80 && Pow2(8) == 0x100;
    Pow2Add(8, 8);
    Pow2Add(16, 8);
    Pow2Add(24, 7);
    if n < 31 {
      Pow2Grows(n, 31);
    }
  }

  lemma SaturatedSameIff(signed: bool, x: int, m: nat, n: nat)
    requires m < n
    ensures Saturated(signed, x, m) == Saturated(signed, x, n) <==> Fits(signed, x, m)
  {
    Pow2Grows(m, n);
  }

  lemma WrapInjective(x: int, y: int)
    requires -0x1_0000_0000 < x - y < 0x1_0000_0000 && Wrap(x) == Wrap(y)
    ensures x == y
  {
    var p, q := x / 0x1_0000_0000, y / 0x1_0000_0000;
    assert x == 0x1_0000_0000 * p + Wrap(x) && y == 0x1_0000_0000 * q + Wrap(y);
  }

  lemma SaturatedRange(signed: bool, x: int, n: nat)
    requires n < 32
    ensures -0x8000_0000 <= Saturated(signed, x, n) < 0x8000_0000
  {
    Pow2Bound(n);
  }

  /** A saturation is right exactly when its operand is within the narrower bound. */
  lemma SaturationRightIff(ic: Word, rn: int, lit: Word, prior: Word, prior': Word, v: Word, f: Apsr)
    requires 0 <= rn < 15 && IsMedia(ic) && MediaOf(ic).Saturate? && Rn(ic) == PC && !Unpredictable(ic)
    ensures FieldHarmless(ic, rn, lit, prior, prior', v, f) <==>
            Fits(MediaOf(ic).signed, Signed(Shifted(ic, v, f.c), 0x1_0000_0000), 16 * (Hi(ic) % 2) + rn)
  {
    hide WithBase, MediaOf, IsMedia, Shifted, Saturated, Fits, Wrap, Signed;
    RewrittenFields(ic, rn);
    var signed, x, m, n := MediaOf(ic).signed, Signed(Shifted(ic, v, f.c), 0x1_0000_0000), Top(WithBase(ic, rn)),
        Top(ic);
    SaturatedSameIff(signed, x, m, n);
    SaturatedRange(signed, x, m);
    SaturatedRange(signed, x, n);
    if Wrap(Saturated(signed, x, m)) == Wrap(Saturated(signed, x, n)) {
      WrapInjective(Saturated(signed, x, m), Saturated(signed, x, n));
    }
  }

  lemma ModOfMultiple(x: int, k: nat, m: nat)
    requires k > 0 && m > 0
    ensures k * m > 0 && x % (k * m) % m == x % m
  {
    var n := k * m;
    var q, r := x / n, x % n;
    assert x == n * q + r;
    assert x == m * (k * q + r / m) + r % m by {
      assert r == m * (r / m) + r % m;
      assert n * q == m * (k * q);
    }
    ModIs(x, m, k * q + r / m, r % m);
  }

  /** The residue of `r` modulo 2h against that of `x` modulo a larger multiple `n`. */
  lemma ResiduesSame(signed: bool, x: int, r: int, h: int, n: int)
    requires 0 < 2 * h <= n - 2 * h && 0 <= x < n && 0 <= r < 2 * h
    requires (x < 2 * h ==> r == x) && (x >= n - 2 * h ==> r == x - (n - 2 * h))
    ensures var z := if signed then Signed(x, n) else x;
            (if signed then Signed(r, 2 * h) else r) == z <==> if signed then 0 - h <= z < h else z < 2 * h
  {
  }

  lemma LowSameIff(signed: bool, y: int, h: nat, k: nat)
    requires h > 0 && k >= 2
    ensures k * (2 * h) > 0
    ensures var z := Low(signed, y, k * (2 * h));
            Low(signed, y, 2 * h) == z <==> if signed then 0 - h <= z < h else z < 2 * h
  {
    var m := 2 * h;
    var n := k * m;
    MultipleFacts(m, k);
    ModOfMultiple(y, k, m);
    var x := y % n;
    if x < m {
      ModIs(x, m, 0, x);
    }
    if x >= n - m {
      ModIs(x, m, k - 1, x - (n - m));
    }
    hide Signed;
    ResiduesSame(signed, x, x % m, h, n);
    LowIs(signed, y, m, x % m);
    LowIs(signed, y, n, x);
  }

  lemma MultipleFacts(m: nat, k: nat)
    requires m > 0 && k >= 2
    ensures k * m >= 2 * m && k * m == m * k && m * (k - 1) == k * m - m
  {
  }

  lemma LowIs(signed: bool, y: int, m: int, r: int)
    requires m > 0 && r == y % m
    ensures Low(signed, y, m) == if signed then Signed(r, m) else r
  {
  }

  /** A bit-field extraction is right exactly when the value fits the narrower field. */
  lemma ExtractionRightIff(ic: Word, rn: int, lit: Word, prior: Word, prior': Word, v: Word, f: Apsr)
    requires 0 <= rn < 15 && IsMedia(ic) && MediaOf(ic).Extract? && Rn(ic) == PC && !Unpredictable(ic)
    ensures Pow2(Lsb(ic)) > 0 && Pow2(Top(ic) + 1) > 0
    ensures var signed, m := MediaOf(ic).signed, 16 * (Hi(ic) % 2) + rn;
            FieldHarmless(ic, rn, lit, prior, prior', v, f) <==>
            Fits(signed, Low(signed, v / Pow2(Lsb(ic)), Pow2(Top(ic) + 1)), if signed then m else m + 1)
  {
    hide WithBase, MediaOf, IsMedia, Shifted, Wrap, Low, Pow2;
    RewrittenFields(ic, rn);
    Pow2Positive(Lsb(ic));
    Pow2Positive(Top(ic) + 1);
    var m := Top(WithBase(ic, rn));
    Pow2Positive(m);
    PowNext(m);
    var k := Pow2Multiple(m + 1, Top(ic) + 1);
    var signed, y := MediaOf(ic).signed, v / Pow2(Lsb(ic));
    LowSameIff(signed, y, Pow2(m), k);
    LowRange(signed, y, m);
    LowRange(signed, y, Top(ic));
    if Wrap(Low(signed, y, Pow2(m + 1))) == Wrap(Low(signed, y, Pow2(Top(ic) + 1))) {
      WrapInjective(Low(signed, y, Pow2(m + 1)), Low(signed, y, Pow2(Top(ic) + 1)));
    }
  }

  lemma PowNext(n: nat)
    ensures Pow2(n + 1) == 2 * Pow2(n)
  {
  }

  lemma LowRange(signed: bool, y: int, n: nat)
    requires n < 32
    ensures Pow2(n + 1) > 0
    ensures if signed then -0x8000_0000 <= Low(signed, y, Pow2(n + 1)) < 0x8000_0000
            else 0 <= Low(signed, y, Pow2(n + 1)) < 0x1_0000_0000
  {
    Pow2Bound(n);
  }
}
