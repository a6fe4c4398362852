/**
  The relocator of ARM.cpp: the sizing loop and the emission loop over the two displaced
  words, and the encoders of ARM.h.
 */
module ArmRelocate {
  import opened Words

  // ---------------------------------------------------------------- fields

  /** Bits 31 to 20. */
  function Hi(ic: Word): int { ic / 0x10_0000 }

  /** Bits 15 to 0. */
  function Lo(ic: Word): int { ic % 0x1_0000 }

  function Cond(ic: Word): int { Hi(ic) / 0x100 }

  function Rn(ic: Word): int { ic / 0x1_0000 % 16 }

  function Rd(ic: Word): int { Lo(ic) / 0x1000 }

  function Rm(ic: Word): int { Lo(ic) % 16 }

  /** Bit 25: the offset is a register. */
  predicate IsRegister(ic: Word) { Hi(ic) / 0x20 % 2 == 1 }

  /** A load or store of a word or byte whose base is the program counter. */
  predicate IsPcRel(ic: Word) {
    Hi(ic) / 0x40 % 4 == 1 && Cond(ic) != 15 && Rn(ic) == 15
  }

  lemma Parts(ic: Word)
    ensures ic == 0x10_0000 * Hi(ic) + 0x1_0000 * Rn(ic) + Lo(ic)
    ensures 0 <= Hi(ic) < 0x1000 && 0 <= Rn(ic) < 16 && 0 <= Lo(ic) < 0x1_0000
  {
  }

  lemma PartsAre(ic: Word, hi: int, rn: int, lo: int)
    requires ic == 0x10_0000 * hi + 0x1_0000 * rn + lo && 0 <= hi && 0 <= rn < 16 && 0 <= lo < 0x1_0000
    ensures Hi(ic) == hi && Rn(ic) == rn && Lo(ic) == lo
  {
    assert ic / 0x1_0000 == 16 * hi + rn;
  }

  /** The same instruction with another base register. */
  function WithBase(ic: Word, rn: int): Word
    requires 0 <= rn < 16
  {
    Parts(ic);
    0x10_0000 * Hi(ic) + 0x1_0000 * rn + Lo(ic)
  }

  /** Every other field stays. */
  lemma OnlyBaseChanges(ic: Word, rn: int)
    requires 0 <= rn < 16
    ensures Hi(WithBase(ic, rn)) == Hi(ic) && Lo(WithBase(ic, rn)) == Lo(ic) && Rn(WithBase(ic, rn)) == rn
  {
    Parts(ic);
    PartsAre(WithBase(ic, rn), Hi(ic), rn, Lo(ic));
  }

  // ---------------------------------------------------------------- encoders

  /** `ldr rd, [pc, #im]` */
  function LdrPc(rd: int, im: nat): Word
    requires 0 <= rd < 16 && im < 0x1000
  { 0xe59f_0000 + rd * 0x1000 + im }

  const LDR_PC_BACK: Word := 0xe51f_f004

  function OneRegister(r: int): Word
    requires 0 <= r < 2
  { if r == 0 then 1 else 2 }

  /** `stmdb sp!, {r}` and `ldmia sp!, {r}`, for r0 and r1 */
  function Stmdb(r: int): Word
    requires 0 <= r < 2
  { 0xe92d_0000 + OneRegister(r) }

  function Ldmia(r: int): Word
    requires 0 <= r < 2
  { 0xe8bd_0000 + OneRegister(r) }

  // ---------------------------------------------------------------- sizes

  /** Words that the sizing loop adds for a pc-relative word.  In the second half of its
      test the shift binds tighter than the mask, so the two sides are the same nibble:
      every register form gets the larger size. */
  function Growth(ic: Word): nat {
    if !IsPcRel(ic) then 0
    else if !IsRegister(ic) || ic % 16 != ic % 16 then 2
    else 4
  }

  /** A register form whose destination is its index needs a saved scratch register. */
  predicate Guarded(ic: Word) { IsRegister(ic) && Rd(ic) == Rm(ic) }

  function CodeSize(ic: Word): nat {
    if !IsPcRel(ic) then 1 else if Guarded(ic) then 4 else 2
  }

  function PoolSize(ic: Word): nat { if IsPcRel(ic) then 1 else 0 }

  /** What the emission uses never exceeds what the sizing adds; it is less exactly for a
      register form that needs no scratch register. */
  lemma SizesFit(ic: Word)
    ensures CodeSize(ic) + PoolSize(ic) <= 1 + Growth(ic)
    ensures CodeSize(ic) + PoolSize(ic) == 1 + Growth(ic) <==>
            !(IsPcRel(ic) && IsRegister(ic) && !Guarded(ic))
  {
  }

  function Total(win: seq<Word>): nat
    requires |win| == 2
  {
    2 + Growth(win[0]) + Growth(win[1]) + 2
  }

  // ---------------------------------------------------------------- what is emitted

  datatype Piece = Piece(code: seq<Word>, pool: seq<Word>)

  /** A scratch register other than the index: r0, or r1 for index r0. */
  function Scratch(ic: Word): int { if Rm(ic) != 0 then 0 else 1 }

  predicate Room(ic: Word, start: nat, end: nat) {
    start + CodeSize(ic) + PoolSize(ic) + 2 <= end <= 12
  }

  function Gadget(ic: Word, at: Word, start: nat, end: nat): (p: Piece)
    requires Room(ic, start, end)
    ensures |p.code| == CodeSize(ic) && |p.pool| == PoolSize(ic)
  {
    if !IsPcRel(ic) then Piece([ic], [])
    else if Guarded(ic) then
      var s := Scratch(ic);
      Piece([Stmdb(s), LdrPc(s, (end - 1 - (start + 1)) * 4 - 8), WithBase(ic, s), Ldmia(s)], [Plus(at, 8)])
    else
      Piece([LdrPc(Rd(ic), (end - 1 - start) * 4 - 8), WithBase(ic, Rd(ic))], [Plus(at, 8)])
  }

  /** `ldr pc, [pc, #-4]` and the address behind the window. */
  function Closing(area: Word): seq<Word> { [LDR_PC_BACK, Plus(area, 8)] }

  function Zeros(n: nat): (z: seq<Word>)
    ensures |z| == n
  {
    seq(n, i => 0)
  }

  function First(area: Word, win: seq<Word>): (p: Piece)
    requires |win| == 2
    ensures |p.code| == CodeSize(win[0]) && |p.pool| == PoolSize(win[0])
  {
    Gadget(win[0], area, 0, Total(win))
  }

  function Next(area: Word, win: seq<Word>): (p: Piece)
    requires |win| == 2
    ensures |p.code| == CodeSize(win[1]) && |p.pool| == PoolSize(win[1])
  {
    SizesFit(win[0]);
    SizesFit(win[1]);
    Gadget(win[1], Plus(area, 4), CodeSize(win[0]), Total(win) - PoolSize(win[0]))
  }

  /** Words that were reserved but not used, between the closing jump and the pool. */
  function Gap(win: seq<Word>): nat
    requires |win| == 2
  {
    SizesFit(win[0]);
    SizesFit(win[1]);
    Total(win) - 2 - CodeSize(win[0]) - CodeSize(win[1]) - PoolSize(win[0]) - PoolSize(win[1])
  }

  function Trampoline(area: Word, win: seq<Word>): (t: seq<Word>)
    requires |win| == 2
    ensures |t| == Total(win)
  {
    var p, q := First(area, win), Next(area, win);
    p.code + q.code + Closing(area) + Zeros(Gap(win)) + q.pool + p.pool
  }

  // ---------------------------------------------------------------- the loops of the source

  method SizeBuffer(win: seq<Word>) returns (length: nat)
    requires |win| == 2
    ensures length == 4 * Total(win)
  {
    length := 8;
    for offset := 0 to 2
      invariant length ==
                8 + 4 * ((if offset > 0 then Growth(win[0]) else 0) + (if offset > 1 then Growth(win[1]) else 0))
    {
      var ic: int := win[offset];
      if IsPcRel(win[offset]) {
        if !IsRegister(win[offset]) || ic % 16 != ic % 16 {
          length := length + 8;
        } else {
          length := length + 16;
        }
      }
    }
    length := length + 8;
  }

  /** `p` has been written at the two ends of the free space [start, end) of `before`. */
  ghost predicate Placed(before: seq<Word>, after: seq<Word>, start: nat, end: nat, p: Piece) {
    start + |p.code| + |p.pool| <= end <= |before| == |after| &&
    forall k :: 0 <= k < |after| ==>
      after[k] == if start <= k < start + |p.code| then p.code[k - start]
                  else if end - |p.pool| <= k < end then p.pool[k - (end - |p.pool|)]
                  else before[k]
  }

  /** One iteration of the emission loop. */
  method EmitOne(buffer: array<Word>, ic: Word, at: Word, start: nat, end: nat) returns (start': nat, end': nat)
    requires Room(ic, start, end) && end <= buffer.Length
    modifies buffer
    ensures start' == start + CodeSize(ic) && end' == end - PoolSize(ic)
    ensures Placed(old(buffer[..]), buffer[..], start, end, Gadget(ic, at, start, end))
  {
    start', end' := start, end;
    if IsPcRel(ic) {
      var guard := !(!IsRegister(ic) || Rd(ic) != Rm(ic));
      var rn := if guard then Scratch(ic) else Rd(ic);
      if guard {
        buffer[start'] := Stmdb(rn);
        start' := start' + 1;
      }
      buffer[start'] := LdrPc(rn, (end - 1 - start') * 4 - 8);
      buffer[start' + 1] := WithBase(ic, rn);
      start' := start' + 2;
      if guard {
        buffer[start'] := Ldmia(rn);
        start' := start' + 1;
      }
      buffer[end - 1] := Plus(at, 8);
      end' := end - 1;
    } else {
      buffer[start'] := ic;
      start' := start' + 1;
    }
  }

  /** Both loops and the closing jump, into a fresh zeroed buffer. */
  method BuildTrampoline(area: Word, win: seq<Word>) returns (buffer: array<Word>)
    requires |win| == 2
    ensures fresh(buffer) && buffer[..] == Trampoline(area, win)
  {
    hide Gadget, CodeSize, PoolSize, Growth, Trampoline, Closing, Placed, IsPcRel, IsRegister;
    SizesFit(win[0]);
    SizesFit(win[1]);
    Bounds(win);
    var length := SizeBuffer(win);
    buffer := new Word[length / 4](i => 0);
    var start: nat, end: nat := 0, length / 4;
    ghost var b0 := buffer[..];
    start, end := EmitOne(buffer, win[0], area, start, end);
    ghost var b1 := buffer[..];
    start, end := EmitOne(buffer, win[1], Plus(area, 4), start, end);
    ghost var b2 := buffer[..];
    buffer[start] := LDR_PC_BACK;
    buffer[start + 1] := Plus(area, 8);
    TrampolineIs(area, win);
    Assembled(b0, b1, b2, buffer[..], First(area, win), Next(area, win), Closing(area));
  }

  lemma TrampolineIs(area: Word, win: seq<Word>)
    requires |win| == 2
    ensures Trampoline(area, win) == First(area, win).code + Next(area, win).code + Closing(area) + Zeros(Gap(win))
                                     + Next(area, win).pool + First(area, win).pool
    ensures Closing(area) == [LDR_PC_BACK, Plus(area, 8)]
  {
  }

  lemma Assembled(b0: seq<Word>, b1: seq<Word>, b2: seq<Word>, b3: seq<Word>, p: Piece, q: Piece, jump: seq<Word>)
    requires b0 == Zeros(|b0|) && |jump| == 2
    requires |p.code| + |q.code| + 2 + |q.pool| + |p.pool| <= |b0|
    requires Placed(b0, b1, 0, |b0|, p)
    requires Placed(b1, b2, |p.code|, |b0| - |p.pool|, q)
    requires b3 == b2[|p.code| + |q.code| := jump[0]][|p.code| + |q.code| + 1 := jump[1]]
    ensures b3 == p.code + q.code + jump + Zeros(|b0| - |p.code| - |q.code| - 2 - |q.pool| - |p.pool|) + q.pool + p.pool
  {
  }

  lemma Bounds(win: seq<Word>)
    requires |win| == 2
    ensures Growth(win[0]) <= 4 && Growth(win[1]) <= 4
  {
  }

  /** The patched entry. */
  method PatchEntry(arm: array<Word>, replace: Word)
    requires arm.Length >= 2
    modifies arm
    ensures arm[..] == [LDR_PC_BACK, replace] + old(arm[2..])
  {
    arm[0] := LDR_PC_BACK;
    arm[1] := replace;
  }

  // ---------------------------------------------------------------- the whole call

  datatype Result = Unasked | Null | Hooked(previous: Word) | Built(trampoline: seq<Word>)

  /** Whether a call with these circumstances goes as far as the entry. */
  predicate Installs(first: Word, ask: bool, mapped: bool, sealed: bool) {
    !ask || (first != LDR_PC_BACK && mapped && sealed)
  }

  /** SubstrateHookFunctionARM.  `mapped` and `sealed` are the outcomes of mmap and mprotect.
      An entry that is hooked already and whose old target is asked for keeps it: the new
      replacement is installed exactly under `Installs`. */
  method Hook(area: Word, arm: array<Word>, replace: Word, ask: bool, mapped: bool,
          sealed: bool) returns (result: Result)
    requires arm.Length >= 2
    modifies arm
    ensures arm[..] == if Installs(old(arm[0]), ask, mapped, sealed) then [LDR_PC_BACK, replace] + old(arm[2..])
                       else old(arm[..])
    ensures result == if !ask then Unasked
                      else if old(arm[0]) == LDR_PC_BACK then Hooked(old(arm[1]))
                      else if mapped && sealed then Built(Trampoline(area, old(arm[..2])))
                      else Null
  {
    hide Trampoline;
    var backup := arm[..2];
    result := Unasked;
    if ask {
      if backup[0] == LDR_PC_BACK {
        return Hooked(backup[1]);
      }
      if !mapped {
        return Null;
      }
      var buffer := BuildTrampoline(area, backup);
      if !sealed {
        return Null;
      }
      result := Built(buffer[..]);
    }
    PatchEntry(arm, replace);
  }
}
