/**
  The relocator of Thumb.cpp: the width loop, the sizing pass and the emission pass.
  `Gadget` says what is written for one displaced instruction, `Emit` for a whole
  prologue and `Trampoline` is the finished buffer; the methods are the source's loops
  over a mutable buffer, proved to build exactly that.
 */
module ThumbRelocate {
  import opened Words
  import opened ThumbEncoding

  // ---------------------------------------------------------------- instruction boundaries

  function WidthAt(win: seq<Half>, off: nat): nat
    requires off < |win|
  {
    if Is32(win[off]) then 2 else 1
  }

  /** Whole instructions lead from halfword `off` exactly to halfword `stop`. */
  predicate Splits(win: seq<Half>, off: nat, stop: nat)
    requires off <= stop <= |win|
    decreases stop - off
  {
    off == stop || (off + WidthAt(win, off) <= stop && Splits(win, off + WidthAt(win, off), stop))
  }

  lemma {:induction false} SplitsExtend(win: seq<Half>, off: nat, stop: nat)
    requires off <= stop < |win| && stop + WidthAt(win, stop) <= |win|
    requires Splits(win, off, stop)
    ensures Splits(win, off, stop + WidthAt(win, stop))
    decreases stop - off
  {
    if off < stop {
      SplitsExtend(win, off + WidthAt(win, off), stop);
    }
  }

  lemma {:induction false} SplitsPrefix(win: seq<Half>, off: nat, stop: nat)
    requires off <= stop <= |win|
    requires Splits(win, off, stop)
    ensures Splits(win[..stop], off, stop)
    decreases stop - off
  {
    if off < stop {
      SplitsPrefix(win, off + WidthAt(win, off), stop);
    }
  }

  /** A displaced window: whole instructions, at most the 16 bytes that the patch can
      displace. */
  predicate IsWindow(win: seq<Half>) {
    |win| <= 8 && Splits(win, 0, |win|)
  }

  function Second(win: seq<Half>, off: nat): Half {
    if off + 1 < |win| then win[off + 1] else 0
  }

  function KindAt(win: seq<Half>, off: nat): Kind
    requires off < |win|
    ensures Width(KindAt(win, off)) == WidthAt(win, off)
  {
    Classify(win[off], Second(win, off))
  }

  /** The width loop: the shortest run of whole instructions that covers `required` bytes. */
  method MeasureWindow(area: seq<Half>, required: nat) returns (used: nat)
    requires required % 2 == 0 && required / 2 < |area|
    ensures used % 2 == 0 && required <= used <= required + 2
    ensures used / 2 <= |area| && Splits(area, 0, used / 2)
    ensures forall u: nat :: required / 2 <= u < used / 2 ==> !Splits(area, 0, u)
  {
    used := 0;
    while used < required
      invariant used % 2 == 0 && used <= required + 2 && used / 2 <= |area|
      invariant Splits(area, 0, used / 2)
      invariant used > required ==> !Splits(area, 0, used / 2 - 1)
      decreases required - used
    {
      SplitsExtend(area, 0, used / 2);
      if Is32(area[used / 2]) {
        SplitsSkip(area, 0, used / 2);
        used := used + 4;
      } else {
        used := used + 2;
      }
    }
    used := (used + 1) / 2 * 2;
  }

  /** A 32-bit instruction has no boundary in its middle. */
  lemma {:induction false} SplitsSkip(win: seq<Half>, off: nat, stop: nat)
    requires off <= stop && stop + 2 <= |win| && Is32(win[stop])
    requires Splits(win, off, stop)
    ensures !Splits(win, off, stop + 1)
    decreases stop - off
  {
    if off < stop {
      SplitsSkip(win, off + WidthAt(win, off), stop);
    }
  }

  // ---------------------------------------------------------------- sizes

  function CodeSize(k: Kind): nat {
    match k
    case KLdr => 2
    case KB => 1
    case KWideB => 1
    case KBl => 5
    case KCbz => 7
    case KLdrW => 4
    case KAdd => 5
    case KCopy32 => 2
    case KCopy16 => 1
  }

  function PoolSize(k: Kind): nat {
    match k
    case KLdr => 2
    case KB => 6
    case KWideB => 6
    case KBl => 2
    case KCbz => 10
    case KLdrW => 2
    case KAdd => 2
    case KCopy32 => 0
    case KCopy16 => 0
  }

  /** Halfwords of code and pool that the instructions from `off` on need. */
  function Need(win: seq<Half>, off: nat): nat
    decreases |win| - off
  {
    if off >= |win| then 0
    else
      var k := KindAt(win, off);
      CodeSize(k) + PoolSize(k) + Need(win, off + Width(k))
  }

  lemma {:induction false} NeedBound(win: seq<Half>, off: nat)
    requires off <= |win|
    requires Splits(win, off, |win|)
    ensures Need(win, off) <= 17 * (|win| - off)
    decreases |win| - off
  {
    if off < |win| {
      NeedBound(win, off + WidthAt(win, off));
    }
  }

  /** One halfword of padding when the code and pool fill an odd number of them. */
  function Pad(win: seq<Half>): nat {
    Need(win, 0) % 2
  }

  /** Halfwords of the whole buffer: padding, code, the closing jump, pool. */
  function Total(win: seq<Half>): nat {
    Pad(win) + Need(win, 0) + 6
  }

  /** The sizing pass. */
  method SizeBuffer(win: seq<Half>) returns (length: nat, pad: nat)
    requires IsWindow(win)
    ensures pad == Pad(win) && length == 2 * Total(win)
    ensures length % 4 == 0
  {
    length := 2 * |win|;
    var offset: nat := 0;
    while offset != |win|
      invariant offset <= |win| && Splits(win, offset, |win|)
      invariant length + 2 * Need(win, offset) == 2 * Need(win, 0) + 2 * (|win| - offset)
      decreases |win| - offset
    {
      var k := KindAt(win, offset);
      length := length + 2 * Growth(k);
      if Width(k) == 2 {
        offset := offset + 1;
      }
      offset := offset + 1;
    }
    pad := if length / 2 % 2 == 0 then 0 else 1;
    length := length + (pad + 2) * 2 + 8;
  }

  // ---------------------------------------------------------------- what is emitted

  /** The halfwords of one displaced instruction: `code` goes to the front of the free
      space, `pool` to its back. */
  datatype Piece = Piece(code: seq<Half>, pool: seq<Half>)

  function Pair(w: Word): (p: seq<Half>)
    ensures |p| == 2 && WordOf(p[0], p[1]) == w
  {
    [LowHalf(w), HighHalf(w)]
  }

  /** `bx pc; nop; ldr pc, [pc, #-4]; dest`. */
  function LongJump(dest: Word): (p: seq<Half>)
    ensures |p| == 6
  {
    [BX_PC, NOP, LDR_PC_LOW, LDR_PC_HIGH] + Pair(dest)
  }

  /** `msr apsr_nzcvqg, rt; pop {rt}; nop` and a long jump. */
  function RestoreAndJump(rt: int, dest: Word): (p: seq<Half>)
    requires 0 <= rt < 8
    ensures |p| == 10
  {
    [Msr1Half(rt), 0x8c00, PopHalf(rt), NOP] + LongJump(dest)
  }

  function BJump(h0: Half): int { Signed(h0 % 0x100 * 2 + 1, 0x200) }

  /** One when the two bits agree: `~(a ^ b) & 1`. */
  function Xnor(a: int, b: int): int { if a == b then 1 else 0 }

  function WideBJump(h0: Half, h1: Half): int {
    var s, j1, j2 := h0 / 0x400 % 2, h1 / 0x2000 % 2, h1 / 0x800 % 2;
    var low := 1 + h1 % 0x800 * 2 + h0 % 0x40 * 0x1000;
    if h1 / 0x1000 % 2 == 1 then
      Signed(low + s * 0x100_0000 + Xnor(s, j1) * 0x80_0000 + Xnor(s, j2) * 0x40_0000
             + h0 / 0x40 % 16 * 0x4_0000, 0x200_0000)
    else
      Signed(low + s * 0x10_0000 + j2 * 0x8_0000 + j1 * 0x4_0000, 0x20_0000)
  }

  function BlJump(h0: Half, h1: Half): int {
    var s, j1, j2 := h0 / 0x400 % 2, h1 / 0x2000 % 2, h1 / 0x800 % 2;
    Signed(s * 0x100_0000 + Xnor(s, j1) * 0x80_0000 + Xnor(s, j2) * 0x40_0000
           + h0 % 0x400 * 0x1000 + h1 % 0x800 * 2 + h1 / 0x1000 % 2, 0x200_0000)
  }

  function CbzJump(h0: Half): int {
    1 + h0 / 0x200 % 2 * 64 + h0 / 8 % 32 * 2
  }

  /** A low register other than `r`. */
  function Scratch(r: int): int { if r == 7 then 6 else 7 }

  /** Room for an instruction of kind `k` and the closing jump between `start` and `end`. */
  predicate Room(k: Kind, start: nat, end: nat) {
    start + CodeSize(k) + PoolSize(k) + 6 <= end <= start + 142 && end % 2 == 0
  }

  /** What is written for the instruction `h0 h1` at address `at`. */
  function Gadget(h0: Half, h1: Half, at: Word, start: nat, end: nat): (p: Piece)
    requires Room(Classify(h0, h1), start, end)
    ensures |p.code| == CodeSize(Classify(h0, h1)) && |p.pool| == PoolSize(Classify(h0, h1))
  {
    match Classify(h0, h1)
    case KLdr =>
      var rd := h0 / 0x100 % 8;
      Piece([LdrPcHalf(rd, Label(start, end - 2) / 4), LdrImmHalf(rd, rd, 0)],
            Pair(Plus(Align4(Plus(at, 4)), h0 % 0x100 * 4)))
    case KB =>
      Piece([BranchHalf(h0 / 0x100 % 16, (end - 6 - start) * 2 - 4)],
            LongJump(Plus(at, 4 + BJump(h0))))
    case KWideB =>
      Piece([WideBranchHalf(h1 / 0x1000 % 2, h0 / 0x40 % 16, (end - 6 - start) * 2 - 4)],
            LongJump(Plus(at, 4 + WideBJump(h0, h1))))
    case KBl =>
      Piece([PushHalf(7), LdrPcHalf(7, ((end - 2 - (start + 1)) * 2 - 4 + 2) / 4), MovHalf(14, 7),
             PopHalf(7), BlxHalf(14)],
            Pair(Plus(at, 4 + BlJump(h0, h1))))
    case KCbz =>
      var rn := h0 % 8;
      var rt := Scratch(rn);
      Piece([PushHalf(rt), 0xf3ef, Mrs2Half(rt),
             CbzHalf(h0 / 0x800 % 2, rn, (end - 10 - (start + 3)) * 2 - 4),
             Msr1Half(rt), 0x8c00, PopHalf(rt)],
            RestoreAndJump(rt, Plus(at, 4 + CbzJump(h0))))
    case KLdrW =>
      var rt := h1 / 0x1000;
      Piece([Ldr1Half(15), Ldr2Half(rt, Label(start, end - 2)), Ldr1Half(rt), Ldr2Half(rt, 0)],
            Pair(Plus(Align4(Plus(at, 4)), if h0 / 0x80 % 2 == 0 then -(h1 % 0x1000) else h1 % 0x1000)))
    case KAdd =>
      var rd := h0 % 8;
      var rt := Scratch(rd);
      Piece([PushHalf(rt), MovHalf(rt, rd), LdrPcHalf(rd, Label(start + 2, end - 2) / 4),
             AddHalf(rd, rt), PopHalf(rt)],
            Pair(Plus(at, 4)))
    case KCopy32 => Piece([h0, h1], [])
    case KCopy16 => Piece([h0], [])
  }

  /** `add rd, pc` with a high register is refused: the hook fails. */
  predicate Refused(h0: Half, h1: Half) {
    Classify(h0, h1) == KAdd && h0 / 0x80 % 2 == 1
  }

  predicate AnyRefused(win: seq<Half>, off: nat)
    decreases |win| - off
  {
    off < |win| && (Refused(win[off], Second(win, off)) || AnyRefused(win, off + WidthAt(win, off)))
  }

  /** The free space [start, end) is exactly what the instructions from `off` on and the
      closing jump need. */
  predicate Fits(win: seq<Half>, off: nat, start: nat, end: nat) {
    off <= |win| <= 8 && Splits(win, off, |win|) && end == start + Need(win, off) + 6 && end % 2 == 0
  }

  lemma FitsRoom(win: seq<Half>, off: nat, start: nat, end: nat)
    requires Fits(win, off, start, end) && off < |win|
    ensures var k := KindAt(win, off);
            Room(k, start, end) && off + Width(k) <= |win| &&
            Fits(win, off + Width(k), start + CodeSize(k), end - PoolSize(k))
  {
    NeedBound(win, off);
  }

  /** Everything emitted for the instructions from `off` on. */
  function Emit(area: Word, win: seq<Half>, off: nat, start: nat, end: nat): (p: Piece)
    requires Fits(win, off, start, end)
    ensures |p.code| + |p.pool| == Need(win, off)
    decreases |win| - off
  {
    if off == |win| then Piece([], [])
    else
      FitsRoom(win, off, start, end);
      var k := KindAt(win, off);
      var g := Gadget(win[off], Second(win, off), Plus(area, 2 * off), start, end);
      var r := Emit(area, win, off + Width(k), start + CodeSize(k), end - PoolSize(k));
      Piece(g.code + r.code, r.pool + g.pool)
  }

  function Zeros(n: nat): (z: seq<Half>)
    ensures |z| == n
  {
    seq(n, i => 0)
  }

  /** The finished buffer.  The closing jump fills what is left between code and pool
      without a gap. */
  function Trampoline(area: Word, win: seq<Half>): (t: seq<Half>)
    requires IsWindow(win)
    ensures |t| == Total(win) && |t| % 2 == 0
  {
    var p := Emit(area, win, 0, Pad(win), Total(win));
    Zeros(Pad(win)) + p.code + LongJump(Plus(area, 2 * |win| + 1)) + p.pool
  }

  // ---------------------------------------------------------------- the emission pass

  /** `after` is `before` with `hs` stored from index `i` on. */
  ghost predicate Stored(before: seq<Half>, after: seq<Half>, i: nat, hs: seq<Half>)
  {
    i + |hs| <= |before| == |after| &&
    forall k :: 0 <= k < |after| ==> after[k] == if i <= k < i + |hs| then hs[k - i] else before[k]
  }

  /** `p` has been written at the two ends of the free space [start, end) of `before`. */
  ghost predicate Placed(before: seq<Half>, after: seq<Half>, start: nat, end: nat, p: Piece)
  {
    start + |p.code| + |p.pool| <= end <= |before| == |after| &&
    forall k :: 0 <= k < |after| ==>
      after[k] == if start <= k < start + |p.code| then p.code[k - start]
                  else if end - |p.pool| <= k < end then p.pool[k - (end - |p.pool|)]
                  else before[k]
  }

  lemma PlacedByStores(before: seq<Half>, mid: seq<Half>, after: seq<Half>, start: nat, end: nat, p: Piece)
    requires start + |p.code| + |p.pool| <= end <= |before|
    requires Stored(before, mid, start, p.code)
    requires Stored(mid, after, end - |p.pool|, p.pool)
    ensures Placed(before, after, start, end, p)
  {
  }

  lemma StoredBelow(before: seq<Half>, mid: seq<Half>, after: seq<Half>, i: nat, low: seq<Half>, high: seq<Half>)
    requires Stored(before, mid, i + |low|, high)
    requires Stored(mid, after, i, low)
    ensures Stored(before, after, i, low + high)
  {
  }

  /** The stores `buffer[start + i] = hs[i]`. */
  method PutCode(buffer: array<Half>, start: nat, hs: seq<Half>)
    requires start + |hs| <= buffer.Length
    modifies buffer
    ensures Stored(old(buffer[..]), buffer[..], start, hs)
  {
    for i := 0 to |hs|
      invariant Stored(old(buffer[..]), buffer[..], start, hs[..i])
    {
      buffer[start + i] := hs[i];
    }
  }

  /** The store `*--trailer = w`. */
  method PushWord(buffer: array<Half>, trailer: nat, w: Word) returns (down: nat)
    requires 2 <= trailer <= buffer.Length
    modifies buffer
    ensures down == trailer - 2
    ensures Stored(old(buffer[..]), buffer[..], down, Pair(w))
  {
    down := trailer - 2;
    buffer[down] := LowHalf(w);
    buffer[down + 1] := HighHalf(w);
  }

  /** `*--trailer` three times: a jump to `dest` at the back of the free space. */
  method PushLongJump(buffer: array<Half>, trailer: nat, dest: Word) returns (down: nat)
    requires 6 <= trailer <= buffer.Length
    modifies buffer
    ensures down == trailer - 6
    ensures Stored(old(buffer[..]), buffer[..], down, LongJump(dest))
  {
    ghost var was := buffer[..];
    down := PushWord(buffer, trailer, dest);
    ghost var one := buffer[..];
    down := PushWord(buffer, down, 0xe51f_f004);
    ghost var two := buffer[..];
    StoredBelow(was, one, two, down, Pair(0xe51f_f004), Pair(dest));
    down := PushWord(buffer, down, 0x46c0_4778);
    StoredBelow(was, two, buffer[..], down, Pair(0x46c0_4778), Pair(0xe51f_f004) + Pair(dest));
    assert Pair(0x46c0_4778) + (Pair(0xe51f_f004) + Pair(dest)) == LongJump(dest);
  }

  /** Code at the front and one literal word at the back. */
  method EmitWithLiteral(buffer: array<Half>, start: nat, end: nat, code: seq<Half>, literal: Word)
    returns (start': nat, end': nat)
    requires start + |code| + 2 <= end <= buffer.Length
    modifies buffer
    ensures start' == start + |code| && end' == end - 2
    ensures Placed(old(buffer[..]), buffer[..], start, end, Piece(code, Pair(literal)))
  {
    ghost var was := buffer[..];
    PutCode(buffer, start, code);
    ghost var mid := buffer[..];
    end' := PushWord(buffer, end, literal);
    start' := start + |code|;
    PlacedByStores(was, mid, buffer[..], start, end, Piece(code, Pair(literal)));
  }

  /** Code at the front and a long jump at the back. */
  method EmitWithJump(buffer: array<Half>, start: nat, end: nat, code: seq<Half>, dest: Word)
    returns (start': nat, end': nat)
    requires start + |code| + 6 <= end <= buffer.Length
    modifies buffer
    ensures start' == start + |code| && end' == end - 6
    ensures Placed(old(buffer[..]), buffer[..], start, end, Piece(code, LongJump(dest)))
  {
    ghost var was := buffer[..];
    PutCode(buffer, start, code);
    ghost var mid := buffer[..];
    end' := PushLongJump(buffer, end, dest);
    start' := start + |code|;
    PlacedByStores(was, mid, buffer[..], start, end, Piece(code, LongJump(dest)));
  }

  /** Code at the front and nothing at the back. */
  method EmitCopy(buffer: array<Half>, start: nat, end: nat, code: seq<Half>) returns (start': nat)
    requires start + |code| <= end <= buffer.Length
    modifies buffer
    ensures start' == start + |code|
    ensures Placed(old(buffer[..]), buffer[..], start, end, Piece(code, []))
  {
    ghost var was := buffer[..];
    PutCode(buffer, start, code);
    start' := start + |code|;
    PlacedByStores(was, buffer[..], buffer[..], start, end, Piece(code, []));
  }

  lemma PairOf(low: Half, high: Half)
    ensures Pair(high * 0x1_0000 + low) == [low, high]
  {
    WordHalves(high * 0x1_0000 + low, low, high);
  }

  method PushRestoreAndJump(buffer: array<Half>, trailer: nat, rt: int, dest: Word) returns (down: nat)
    requires 10 <= trailer <= buffer.Length && 0 <= rt < 8
    modifies buffer
    ensures down == trailer - 10
    ensures Stored(old(buffer[..]), buffer[..], down, RestoreAndJump(rt, dest))
  {
    hide Pair, LongJump, Stored, Msr1Half, PopHalf;
    var restore, reload := 0x8c00 * 0x1_0000 + Msr1Half(rt), NOP * 0x1_0000 + PopHalf(rt);
    PairOf(PopHalf(rt), NOP);
    PairOf(Msr1Half(rt), 0x8c00);
    ghost var was := buffer[..];
    down := PushLongJump(buffer, trailer, dest);
    ghost var one := buffer[..];
    down := PushWord(buffer, down, reload);
    ghost var two := buffer[..];
    StoredBelow(was, one, two, down, Pair(reload), LongJump(dest));
    down := PushWord(buffer, down, restore);
    StoredBelow(was, two, buffer[..], down, Pair(restore), Pair(reload) + LongJump(dest));
    assert Pair(restore) + (Pair(reload) + LongJump(dest)) == RestoreAndJump(rt, dest);
  }

  /** Code at the front; at the back the restore sequence and long jump of the taken
      branch. */
  method EmitWithRestore(buffer: array<Half>, start: nat, end: nat, code: seq<Half>, rt: int, dest: Word)
    returns (start': nat, end': nat)
    requires start + |code| + 10 <= end <= buffer.Length && 0 <= rt < 8
    modifies buffer
    ensures start' == start + |code| && end' == end - 10
    ensures Placed(old(buffer[..]), buffer[..], start, end, Piece(code, RestoreAndJump(rt, dest)))
  {
    ghost var was := buffer[..];
    PutCode(buffer, start, code);
    ghost var mid := buffer[..];
    end' := PushRestoreAndJump(buffer, end, rt, dest);
    start' := start + |code|;
    PlacedByStores(was, mid, buffer[..], start, end, Piece(code, RestoreAndJump(rt, dest)));
  }

  /** One iteration of the emission pass: writes the code at `start`, the pool below
      `end`, and moves both.  An `add` to a high register fails and writes nothing. */
  method EmitOne(buffer: array<Half>, h0: Half, h1: Half, at: Word, start: nat, end: nat)
    returns (ok: bool, start': nat, end': nat)
    requires end <= buffer.Length && Room(Classify(h0, h1), start, end)
    modifies buffer
    ensures ok <==> !Refused(h0, h1)
    ensures !ok ==> buffer[..] == old(buffer[..])
    ensures ok ==> start' == start + CodeSize(Classify(h0, h1)) && end' == end - PoolSize(Classify(h0, h1))
    ensures ok ==> Placed(old(buffer[..]), buffer[..], start, end, Gadget(h0, h1, at, start, end))
  {
    hide Placed, Pair, LongJump, RestoreAndJump;
    ok, start', end' := true, start, end;
    if IsLdr(h0) {
      var rd := h0 / 0x100 % 8;
      var code := [LdrPcHalf(rd, Label(start, end - 2) / 4), LdrImmHalf(rd, rd, 0)];
      var word := Plus(Align4(Plus(at, 4)), h0 % 0x100 * 4);
      assert Gadget(h0, h1, at, start, end) == Piece(code, Pair(word));
      start', end' := EmitWithLiteral(buffer, start, end, code, word);
    } else if IsB(h0) {
      var code := [BranchHalf(h0 / 0x100 % 16, (end - 6 - start) * 2 - 4)];
      var word := Plus(at, 4 + BJump(h0));
      assert Gadget(h0, h1, at, start, end) == Piece(code, LongJump(word));
      start', end' := EmitWithJump(buffer, start, end, code, word);
    } else if IsWideB(h0, h1) {
      var code := [WideBranchHalf(h1 / 0x1000 % 2, h0 / 0x40 % 16, (end - 6 - start) * 2 - 4)];
      var word := Plus(at, 4 + WideBJump(h0, h1));
      assert Gadget(h0, h1, at, start, end) == Piece(code, LongJump(word));
      start', end' := EmitWithJump(buffer, start, end, code, word);
    } else if IsBl(h0, h1) {
      var code := [PushHalf(7), LdrPcHalf(7, ((end - 2 - (start + 1)) * 2 - 4 + 2) / 4), MovHalf(14, 7),
         PopHalf(7), BlxHalf(14)];
      var word := Plus(at, 4 + BlJump(h0, h1));
      assert Gadget(h0, h1, at, start, end) == Piece(code, Pair(word));
      start', end' := EmitWithLiteral(buffer, start, end, code, word);
    } else if IsCbz(h0) {
      var rn := h0 % 8;
      var rt := Scratch(rn);
      var code := [PushHalf(rt), 0xf3ef, Mrs2Half(rt),
                   CbzHalf(h0 / 0x800 % 2, rn, (end - 10 - (start + 3)) * 2 - 4),
                   Msr1Half(rt), 0x8c00, PopHalf(rt)];
      var word := Plus(at, 4 + CbzJump(h0));
      assert Gadget(h0, h1, at, start, end) == Piece(code, RestoreAndJump(rt, word));
      start', end' := EmitWithRestore(buffer, start, end, code, rt, word);
    } else if IsLdrW(h0) {
      var rt := h1 / 0x1000;
      var code := [Ldr1Half(15), Ldr2Half(rt, Label(start, end - 2)), Ldr1Half(rt), Ldr2Half(rt, 0)];
      var word := Plus(Align4(Plus(at, 4)), if h0 / 0x80 % 2 == 0 then -(h1 % 0x1000) else h1 % 0x1000);
      assert Gadget(h0, h1, at, start, end) == Piece(code, Pair(word));
      start', end' := EmitWithLiteral(buffer, start, end, code, word);
    } else if IsAdd(h0) {
      if h0 / 0x80 % 2 == 1 {
        ok := false;
        return;
      }
      var rd := h0 % 8;
      var rt := Scratch(rd);
      var code := [PushHalf(rt), MovHalf(rt, rd), LdrPcHalf(rd, Label(start + 2, end - 2) / 4),
         AddHalf(rd, rt), PopHalf(rt)];
      var word := Plus(at, 4);
      assert Gadget(h0, h1, at, start, end) == Piece(code, Pair(word));
      start', end' := EmitWithLiteral(buffer, start, end, code, word);
    } else if Is32(h0) {
      start' := EmitCopy(buffer, start, end, [h0, h1]);
    } else {
      start' := EmitCopy(buffer, start, end, [h0]);
    }
  }

  lemma PlacedAgain(before: seq<Half>, mid: seq<Half>, after: seq<Half>, start: nat, end: nat, p: Piece, g: Piece)
    requires start + |p.code| + |p.pool| + |g.code| + |g.pool| <= end
    requires Placed(before, mid, start, end, p)
    requires Placed(mid, after, start + |p.code|, end - |p.pool|, g)
    ensures Placed(before, after, start, end, Piece(p.code + g.code, g.pool + p.pool))
  {
  }

  /** The state of the emission pass before the instruction at `off`: `p` is what has
      been written so far. */
  ghost predicate Emitted(area: Word, win: seq<Half>, buffer: seq<Half>, off: nat, start: nat, end: nat, p: Piece)
  {
    IsWindow(win) && Fits(win, off, start, end) && Fits(win, 0, Pad(win), Total(win)) &&
    end <= |buffer| == Total(win) &&
    start == Pad(win) + |p.code| && end + |p.pool| == |buffer| &&
    Placed(Zeros(Total(win)), buffer, Pad(win), Total(win), p) &&
    Emit(area, win, 0, Pad(win), Total(win)) == Around(Emit(area, win, off, start, end), p)
  }

  function Around(inner: Piece, outer: Piece): Piece {
    Piece(outer.code + inner.code, inner.pool + outer.pool)
  }

  lemma EmittedFirst(area: Word, win: seq<Half>)
    requires IsWindow(win)
    ensures Emitted(area, win, Zeros(Total(win)), 0, Pad(win), Total(win), Piece([], []))
  {
    hide Gadget, Emit;
    var p := Emit(area, win, 0, Pad(win), Total(win));
    assert Around(p, Piece([], [])) == p;
  }

  lemma EmittedNext(area: Word, win: seq<Half>, before: seq<Half>, after: seq<Half>, off: nat, start: nat, end: nat,
                    p: Piece, g: Piece)
    requires Emitted(area, win, before, off, start, end, p) && off < |win|
    requires Room(KindAt(win, off), start, end)
    requires g == Gadget(win[off], Second(win, off), Plus(area, 2 * off), start, end)
    requires Placed(before, after, start, end, g)
    ensures var k := KindAt(win, off);
            Emitted(area, win, after, off + Width(k), start + CodeSize(k), end - PoolSize(k), Around(g, p))
  {
    hide Gadget, Classify, Need, Splits, Emit;
    FitsRoom(win, off, start, end);
    PlacedAgain(Zeros(Total(win)), before, after, Pad(win), Total(win), p, g);
    EmitStep(area, win, off, start, end, p);
  }

  lemma EmitStep(area: Word, win: seq<Half>, off: nat, start: nat, end: nat, p: Piece)
    requires Fits(win, off, start, end) && off < |win| && Room(KindAt(win, off), start, end)
    ensures var k := KindAt(win, off);
            var g := Gadget(win[off], Second(win, off), Plus(area, 2 * off), start, end);
            Fits(win, off + Width(k), start + CodeSize(k), end - PoolSize(k)) &&
            Around(Emit(area, win, off, start, end), p)
            == Around(Emit(area, win, off + Width(k), start + CodeSize(k), end - PoolSize(k)), Around(g, p))
  {
    hide Gadget, Classify;
    FitsRoom(win, off, start, end);
    var k := KindAt(win, off);
    var g := Gadget(win[off], Second(win, off), Plus(area, 2 * off), start, end);
    var r := Emit(area, win, off + Width(k), start + CodeSize(k), end - PoolSize(k));
    assert p.code + (g.code + r.code) == (p.code + g.code) + r.code;
    assert (r.pool + g.pool) + p.pool == r.pool + (g.pool + p.pool);
  }

  lemma EmittedLast(area: Word, win: seq<Half>, before: seq<Half>, after: seq<Half>, start: nat, end: nat, p: Piece)
    requires Emitted(area, win, before, |win|, start, end, p)
    requires Stored(before, after, start, LongJump(Plus(area, 2 * |win| + 1)))
    ensures after == Trampoline(area, win)
  {
    hide LongJump, Gadget, Need, Splits, IsWindow, Plus;
    assert Around(Piece([], []), p) == p;
    assert |after| == |Trampoline(area, win)|;
  }

  /** Both passes and the closing jump, into a fresh zeroed buffer.  The hook fails
      exactly when some displaced instruction is refused. */
  method BuildTrampoline(area: Word, win: seq<Half>) returns (ok: bool, buffer: array<Half>, pad: nat)
    requires IsWindow(win)
    ensures fresh(buffer) && pad == Pad(win)
    ensures ok <==> !AnyRefused(win, 0)
    ensures ok ==> buffer[..] == Trampoline(area, win)
  {
    hide Gadget, Classify, LongJump, Need, Splits, Stored, Refused, Emitted, Around;
    var length;
    length, pad := SizeBuffer(win);
    buffer := new Half[length / 2](i => 0);
    var start: nat, end: nat := pad, length / 2;
    var offset: nat := 0;
    ok := true;
    ghost var p := Piece([], []);
    EmittedFirst(area, win);
    assert buffer[..] == Zeros(Total(win));
    while offset != |win|
      invariant offset <= |win| && Fits(win, offset, start, end) && end <= buffer.Length
      invariant Emitted(area, win, buffer[..], offset, start, end, p)
      invariant AnyRefused(win, 0) == AnyRefused(win, offset)
      decreases |win| - offset
    {
      var h0, h1 := win[offset], Second(win, offset);
      FitsRoom(win, offset, start, end);
      ghost var before := buffer[..];
      var start', end';
      ok, start', end' := EmitOne(buffer, h0, h1, Plus(area, 2 * offset), start, end);
      if !ok {
        return;
      }
      ghost var g := Gadget(h0, h1, Plus(area, 2 * offset), start, end);
      EmittedNext(area, win, before, buffer[..], offset, start, end, p, g);
      p := Around(g, p);
      start, end := start', end';
      offset := offset + WidthAt(win, offset);
    }
    ghost var before := buffer[..];
    PutCode(buffer, start, LongJump(Plus(area, 2 * |win| + 1)));
    EmittedLast(area, win, before, buffer[..], start, end, p);
  }
}
