/**
  `SubstrateHookFunctionThumb` as a whole: the re-hook path, the first hook and the patch
  of the entry.  A `Symbol` is the hooked function; `HookOnce` is what one call does to
  it, and the method does it in place.
 */
module ThumbHook {
  import opened Words
  import opened ThumbMachine
  import opened ThumbEncoding
  import opened ThumbSteps
  import opened ThumbGadgets
  import R = ThumbRelocate

  /** What a call leaves in `*result`: nothing was asked for, NULL, not written, or an
      address. */
  datatype Reply = NotAsked | Null | Unwritten | Address(value: Word)

  /** The code at the symbol, and the trampolines built for it so far. */
  datatype Entry = Entry(code: seq<Half>, built: seq<seq<Half>>)

  /** The outcomes of mmap and mprotect during one call. */
  datatype System = System(buffer: Option<Word>, protects: bool)

  /** One halfword of padding when the symbol is not word-aligned. */
  function AlignOf(area: Word): nat {
    if area / 2 % 2 == 0 then 0 else 1
  }

  function Required(area: Word): nat {
    2 * AlignOf(area) + 12
  }

  /** The test of the re-hook path. */
  predicate IsHooked(area: Word, code: seq<Half>)
    requires |code| >= 9
  {
    var i := AlignOf(area);
    (i == 0 || code[0] == NOP) && code[i] == BX_PC && code[i + 1] == NOP &&
    code[i + 2] == LDR_PC_LOW && code[i + 3] == LDR_PC_HIGH
  }

  /** The literal of a hooked entry, `arm[1]`. */
  function TargetOf(area: Word, code: seq<Half>): Word
    requires |code| >= 9
  {
    WordOf(code[AlignOf(area) + 4], code[AlignOf(area) + 5])
  }

  function Retargeted(area: Word, code: seq<Half>, replace: Word): (r: seq<Half>)
    requires |code| >= 9
    ensures |r| == |code|
  {
    var i := AlignOf(area);
    code[i + 4 := LowHalf(replace)][i + 5 := HighHalf(replace)]
  }

  function Nops(n: nat): (r: seq<Half>)
    ensures |r| == n
  {
    seq(n, i => NOP)
  }

  function Patched(area: Word, code: seq<Half>, used: nat, replace: Word): (r: seq<Half>)
    requires AlignOf(area) + 6 <= used <= |code|
    ensures |r| == |code|
  {
    Nops(AlignOf(area)) + R.LongJump(replace) + Nops(used - AlignOf(area) - 6) + code[used..]
  }

  /** Halfwords that the width loop displaces: one instruction can straddle the end of
      the patch. */
  function UsedOf(area: Word, code: seq<Half>): (u: nat)
    requires |code| >= 9
    ensures Required(area) / 2 <= u <= 8
  {
    var q := Required(area) / 2;
    if R.Splits(code, 0, q) then q else q + 1
  }

  /** One call of the hook function. */
  function HookOnce(area: Word, e: Entry, replace: Word, wanted: bool, sys: System): (Entry, Reply)
    requires |e.code| >= 9
    requires R.IsWindow(e.code[..UsedOf(area, e.code)])
  {
    if IsHooked(area, e.code) then
      (e.(code := Retargeted(area, e.code, replace)),
       if wanted then Address(TargetOf(area, e.code)) else NotAsked)
    else
      var used := UsedOf(area, e.code);
      var win := e.code[..used];
      var patched := Patched(area, e.code, used, replace);
      if !wanted then (e.(code := patched), NotAsked)
      else if sys.buffer.None? || R.AnyRefused(win, 0) then (e, Null)
      else if !sys.protects then (e, Unwritten)
      else (Entry(patched, e.built + [R.Trampoline(area, win)]), Address(Plus(sys.buffer.value, 2 * R.Pad(win) + 1)))
  }

  /** The width loop always ends within two halfwords of the patch. */
  lemma {:induction false} SomeBoundary(code: seq<Half>, off: nat, q: nat)
    requires off <= q < |code| && R.Splits(code, 0, off)
    ensures R.Splits(code, 0, q) || R.Splits(code, 0, q + 1)
    decreases q - off
  {
    if off < q {
      R.SplitsExtend(code, 0, off);
      var next := off + R.WidthAt(code, off);
      if next <= q {
        SomeBoundary(code, next, q);
      }
    }
  }

  lemma WindowOf(area: Word, code: seq<Half>)
    requires |code| >= 9
    ensures R.IsWindow(code[..UsedOf(area, code)])
    ensures forall u: nat :: Required(area) / 2 <= u < UsedOf(area, code) ==> !R.Splits(code, 0, u)
  {
    SomeBoundary(code, 0, Required(area) / 2);
    R.SplitsPrefix(code, 0, UsedOf(area, code));
  }

  lemma MeasuredIsUsed(area: Word, code: seq<Half>, u: nat)
    requires |code| >= 9
    requires Required(area) / 2 <= u <= Required(area) / 2 + 1 && R.Splits(code, 0, u)
    requires forall v: nat :: Required(area) / 2 <= v < u ==> !R.Splits(code, 0, v)
    ensures u == UsedOf(area, code)
  {
  }

  class Symbol {
    const area: Word
    var code: array<Half>
    var built: seq<seq<Half>>

    ghost predicate Valid()
      reads this
    {
      area % 2 == 0 && code.Length >= 9
    }

    ghost function Now(): Entry
      reads this, code
    {
      Entry(code[..], built)
    }

    constructor (area: Word, code: array<Half>)
      requires area % 2 == 0 && code.Length >= 9
      ensures Valid() && this.area == area && this.code == code && built == []
    {
      this.area, this.code, this.built := area, code, [];
    }

    method Hook(replace: Word, wanted: bool, sys: System) returns (reply: Reply)
      requires Valid()
      modifies this`built, code
      ensures Valid() && code == old(code)
      ensures R.IsWindow(old(code[..])[..UsedOf(area, old(code[..]))])
      ensures (Now(), reply) == HookOnce(area, old(Now()), replace, wanted, sys)
    {
      hide R.Trampoline, R.Pad, R.AnyRefused, Patched, R.Splits, R.LongJump, Plus;
      WindowOf(area, code[..]);
      var align := AlignOf(area);
      if (align == 0 || code[0] == NOP) && code[align] == BX_PC && code[align + 1] == NOP
         && code[align + 2] == LDR_PC_LOW && code[align + 3] == LDR_PC_HIGH
      {
        reply := if wanted then Address(WordOf(code[align + 4], code[align + 5])) else NotAsked;
        code[align + 4] := LowHalf(replace);
        code[align + 5] := HighHalf(replace);
        return;
      }
      var required := Required(area);
      var used := R.MeasureWindow(code[..], required);
      MeasuredIsUsed(area, code[..], used / 2);
      var backup := code[..used / 2];
      reply := NotAsked;
      if wanted {
        if sys.buffer.None? {
          return Null;
        }
        var ok, buffer, pad := R.BuildTrampoline(area, backup);
        if !ok {
          return Null;
        }
        if !sys.protects {
          return Unwritten;
        }
        reply := Address(Plus(sys.buffer.value, 2 * pad + 1));
        built := built + [buffer[..]];
      }
      Patch(align, used / 2, replace);
    }

    /** The stores of the entry patch. */
    method Patch(align: nat, used: nat, replace: Word)
      requires Valid() && align == AlignOf(area) && align + 6 <= used <= code.Length
      modifies code
      ensures code[..] == Patched(area, old(code[..]), used, replace)
    {
      if align != 0 {
        code[0] := NOP;
      }
      code[align] := BX_PC;
      code[align + 1] := NOP;
      code[align + 2] := LDR_PC_LOW;
      code[align + 3] := LDR_PC_HIGH;
      code[align + 4] := LowHalf(replace);
      code[align + 5] := HighHalf(replace);
      var trail := align + 6;
      for offset := trail to used
        invariant forall k :: 0 <= k < code.Length ==>
          code[k] == if trail <= k < offset then NOP else if k < align then NOP
                     else if k < trail then R.LongJump(replace)[k - align] else old(code[k])
      {
        code[offset] := NOP;
      }
    }
  }

  // ---------------------------------------------------------------- sequences of hooks

  /** All calls ask for a result. */
  function HookAll(area: Word, e: Entry, rs: seq<Word>, sys: seq<System>): (Entry, seq<Reply>)
    requires |e.code| >= 9 && |rs| == |sys|
    decreases |rs|
  {
    if rs == [] then (e, [])
    else
      WindowOf(area, e.code);
      var (e', reply) := HookOnce(area, e, rs[0], true, sys[0]);
      var (last, replies) := HookAll(area, e', rs[1..], sys[1..]);
      (last, [reply] + replies)
  }

  lemma PatchedIsHooked(area: Word, code: seq<Half>, used: nat, replace: Word)
    requires |code| >= 9 && AlignOf(area) + 6 <= used <= |code|
    ensures IsHooked(area, Patched(area, code, used, replace))
    ensures TargetOf(area, Patched(area, code, used, replace)) == replace
  {
    var i, p := AlignOf(area), Patched(area, code, used, replace);
    var jump := R.LongJump(replace);
    assert forall k :: 0 <= k < 6 ==> p[i + k] == jump[k];
    assert p[i + 4] == LowHalf(replace) && p[i + 5] == HighHalf(replace);
  }

  lemma RetargetedIsHooked(area: Word, code: seq<Half>, replace: Word)
    requires |code| >= 9 && IsHooked(area, code)
    ensures IsHooked(area, Retargeted(area, code, replace))
    ensures TargetOf(area, Retargeted(area, code, replace)) == replace
  {
  }

  /** Re-hooking a hooked symbol: each call answers with the replacement before it, and
      nothing more is built. */
  lemma {:induction false} RehookChain(area: Word, e: Entry, rs: seq<Word>, sys: seq<System>)
    requires |e.code| >= 9 && |rs| == |sys| && IsHooked(area, e.code)
    ensures var (last, replies) := HookAll(area, e, rs, sys);
            |replies| == |rs| && |last.code| == |e.code| && last.built == e.built && IsHooked(area, last.code) &&
            TargetOf(area, last.code) == (if rs == [] then TargetOf(area, e.code) else rs[|rs| - 1]) &&
            (forall k :: 0 <= k < |rs| ==>
              replies[k] == Address(if k == 0 then TargetOf(area, e.code) else rs[k - 1]))
    decreases |rs|
  {
    hide Retargeted, IsHooked, TargetOf, R.Splits;
    if rs != [] {
      WindowOf(area, e.code);
      RetargetedIsHooked(area, e.code, rs[0]);
      var (e', reply) := HookOnce(area, e, rs[0], true, sys[0]);
      RehookChain(area, e', rs[1..], sys[1..]);
    }
  }

  /** The instructions that the width loop displaces. */
  function Displaced(area: Word, code: seq<Half>): (win: seq<Half>)
    requires |code| >= 9
    ensures R.IsWindow(win)
  {
    WindowOf(area, code);
    code[..UsedOf(area, code)]
  }

  /** Every sequence of hooks on one symbol whose first call succeeds: the entry leads to
      the last replacement, the first reply is the trampoline, every later reply is the
      replacement before it, and exactly one trampoline was built. */
  lemma {:induction false} HookChain(area: Word, e: Entry, rs: seq<Word>, sys: seq<System>)
    requires |e.code| >= 9 && |rs| == |sys| > 0 && !IsHooked(area, e.code)
    requires sys[0].buffer.Some? && sys[0].protects
    requires !R.AnyRefused(Displaced(area, e.code), 0)
    ensures var (last, replies) := HookAll(area, e, rs, sys);
            var win := Displaced(area, e.code);
            |replies| == |rs| && |last.code| == |e.code| &&
            IsHooked(area, last.code) && TargetOf(area, last.code) == rs[|rs| - 1] &&
            last.built == e.built + [R.Trampoline(area, win)] &&
            replies[0] == Address(Plus(sys[0].buffer.value, 2 * R.Pad(win) + 1)) &&
            forall k :: 1 <= k < |rs| ==> replies[k] == Address(rs[k - 1])
  {
    hide Patched, IsHooked, TargetOf, R.Splits, R.Trampoline, R.AnyRefused, R.Pad;
    WindowOf(area, e.code);
    var used := UsedOf(area, e.code);
    PatchedIsHooked(area, e.code, used, rs[0]);
    var (e', reply) := HookOnce(area, e, rs[0], true, sys[0]);
    RehookChain(area, e', rs[1..], sys[1..]);
  }

  lemma AlignedEntry(area: Word)
    requires area % 2 == 0
    ensures (area + 2 * AlignOf(area)) % 4 == 0 && (AlignOf(area) == 0 || AlignOf(area) == 1)
  {
    var k := area / 2;
    assert area == 2 * k;
    if k % 2 == 0 {
      assert area == 4 * (k / 2);
    } else {
      assert area + 2 == 4 * (k / 2 + 1);
    }
  }

  lemma HookedHolds(rom: Rom, area: Word, code: seq<Half>)
    requires |code| >= 9 && IsHooked(area, code) && Holds(rom, area, code)
    ensures Holds(rom, area + 2 * AlignOf(area), R.LongJump(TargetOf(area, code)))
    ensures AlignOf(area) == 1 ==> Holds(rom, area, [NOP])
  {
    hide Holds;
    var i, target := AlignOf(area), TargetOf(area, code);
    var jump := code[i..i + 6];
    assert R.Pair(target) == [code[i + 4], code[i + 5]];
    assert jump == R.LongJump(target);
    assert code == code[..i] + (jump + code[i + 6..]);
    HoldsSplit(rom, area, code[..i], jump + code[i + 6..]);
    HoldsSplit(rom, area + 2 * i, jump, code[i + 6..]);
    HoldsOne(rom, area, code, 0);
  }

  /** Running a hooked entry leads to its target with the registers, flags and memory it
      was called with. */
  lemma EntryLeadsToTarget(env: Env, core: Core, area: Word, code: seq<Half>)
    requires area % 2 == 0 && area + 32 <= 0x1_0000_0000 && |code| >= 9 && IsHooked(area, code)
    requires Holds(env.rom, area, code)
    ensures Reaches(env, Run(core, area, Thumb), Interwork(core, TargetOf(area, code)))
  {
    hide Step, Reaches, Holds, Interwork, IsHooked, TargetOf, R.LongJump, AlignOf;
    HookedHolds(env.rom, area, code);
    AlignedEntry(area);
    if AlignOf(area) == 0 {
      DoLongJump(env, core, area, TargetOf(area, code));
    } else {
      NopThenJump(env, core, area, TargetOf(area, code));
    }
  }

  lemma NopThenJump(env: Env, core: Core, a: int, target: Word)
    requires CodeAddress(a) && CodeAddress(a + 2) && (a + 2) % 4 == 0
    requires Holds(env.rom, a, [NOP]) && Holds(env.rom, a + 2, R.LongJump(target))
    ensures Reaches(env, Run(core, a, Thumb), Interwork(core, target))
  {
    hide Step, Reaches, Holds, Interwork, R.LongJump, MovHalf, SetReg, Goes;
    NopHalf();
    DoMov(env, core, a, 8, 8);
    SetSame(core, 8);
    DoLongJump(env, core, a + 2, target);
    GoesThen(env, core, a, 2, core, Interwork(core, target));
  }

  // ---------------------------------------------------------------- what is left alone

  /** The first halfword that no hook touches: behind the displaced instructions, or behind
      the literal of an entry that is hooked already. */
  function FirstKept(area: Word, code: seq<Half>): (k: nat)
    requires |code| >= 9
    ensures AlignOf(area) + 6 <= k <= |code|
  {
    if IsHooked(area, code) then AlignOf(area) + 6 else UsedOf(area, code)
  }

  lemma HookOnceKeepsRest(area: Word, e: Entry, replace: Word, sys: System)
    requires |e.code| >= 9
    ensures R.IsWindow(e.code[..UsedOf(area, e.code)])
    ensures var code, code' := e.code, HookOnce(area, e, replace, true, sys).0.code;
            |code'| == |code| && FirstKept(area, code') <= FirstKept(area, code) &&
            forall k :: FirstKept(area, code) <= k < |code| ==> code'[k] == code[k]
  {
    hide R.IsWindow, R.AnyRefused, R.Trampoline, R.Splits, R.Pad, UsedOf, IsHooked, TargetOf;
    WindowOf(area, e.code);
    if IsHooked(area, e.code) {
      RetargetedIsHooked(area, e.code, replace);
    } else {
      PatchedIsHooked(area, e.code, UsedOf(area, e.code), replace);
      PatchedKeepsRest(area, e.code, UsedOf(area, e.code), replace);
    }
  }

  lemma PatchedKeepsRest(area: Word, code: seq<Half>, used: nat, replace: Word)
    requires AlignOf(area) + 6 <= used <= |code|
    ensures forall k :: used <= k < |code| ==> Patched(area, code, used, replace)[k] == code[k]
  {
  }

  /** No sequence of hooks, whatever fails in between, changes the function behind the
      instructions that the first one displaces. */
  lemma {:induction false} HooksKeepRest(area: Word, e: Entry, rs: seq<Word>, sys: seq<System>)
    requires |e.code| >= 9 && |rs| == |sys|
    ensures var last := HookAll(area, e, rs, sys).0;
            |last.code| == |e.code| && forall k :: FirstKept(area, e.code) <= k < |e.code| ==> last.code[k] == e.code[k]
    decreases |rs|
  {
    hide FirstKept, HookOnce;
    if rs != [] {
      HookOnceKeepsRest(area, e, rs[0], sys[0]);
      HooksKeepRest(area, HookOnce(area, e, rs[0], true, sys[0]).0, rs[1..], sys[1..]);
    }
  }
}
