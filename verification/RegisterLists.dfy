/**
  The register tables of MCRegisterInfo.c: lists of registers stored as differences, and
  the searches over them.
 */
module RegisterLists {
  import opened Words

  // ---------------------------------------------------------------- lists of differences

  /** A zero comes at or after `at`. */
  ghost predicate Terminated(lists: seq<Half>, at: nat) {
    exists z :: at <= z < |lists| && lists[z] == 0
  }

  function Advance(v: Half, d: Half): Half { (v + d) % 0x1_0000 }

  /** The registers that a walk from `at` visits, starting beside `v`. */
  ghost function Values(lists: seq<Half>, at: nat, v: Half): seq<Half>
    requires Terminated(lists, at)
    decreases |lists| - at
  {
    if lists[at] == 0 then [] else
      assert Terminated(lists, at + 1);
      [Advance(v, lists[at])] + Values(lists, at + 1, Advance(v, lists[at]))
  }

  function Sum(ds: seq<Half>): nat { if ds == [] then 0 else ds[0] + Sum(ds[1..]) }

  lemma AdvanceSum(v: Half, d: Half, s: nat)
    ensures (Advance(v, d) + s) % 0x1_0000 == (v + d + s) % 0x1_0000
  {
    var q := (v + d) / 0x1_0000;
    assert v + d == 0x1_0000 * q + Advance(v, d);
    var t := Advance(v, d) + s;
    assert t == 0x1_0000 * (t / 0x1_0000) + t % 0x1_0000;
    HalfUnique(v + d + s, q + t / 0x1_0000, t % 0x1_0000);
  }

  lemma HalfUnique(x: int, q: int, r: int)
    requires x == 0x1_0000 * q + r && 0 <= r < 0x1_0000
    ensures x % 0x1_0000 == r
  {
  }

  /** A list stops before its first zero, and its k-th register is the first one plus the
      sum of k + 1 differences, in sixteen bits. */
  lemma {:induction false} ValuesAreSums(lists: seq<Half>, at: nat, v: Half)
    requires Terminated(lists, at)
    ensures var n := |Values(lists, at, v)|;
            at + n < |lists| && lists[at + n] == 0 && forall k :: at <= k < at + n ==> lists[k] != 0
    ensures var vs := Values(lists, at, v);
            forall k :: 0 <= k < |vs| ==> vs[k] == (v + Sum(lists[at..at + k + 1])) % 0x1_0000
    decreases |lists| - at
  {
    var vs := Values(lists, at, v);
    if lists[at] != 0 {
      var v1 := Advance(v, lists[at]);
      assert Terminated(lists, at + 1);
      ValuesAreSums(lists, at + 1, v1);
      forall k | 0 <= k < |vs| ensures vs[k] == (v + Sum(lists[at..at + k + 1])) % 0x1_0000 {
        var ds := lists[at..at + k + 1];
        assert ds[0] == lists[at] && ds[1..] == lists[at + 1..at + k + 1];
        AdvanceSum(v, lists[at], Sum(ds[1..]));
        if k == 0 {
          assert ds[1..] == [];
        } else {
          assert vs[k] == Values(lists, at + 1, v1)[k - 1];
        }
      }
    }
  }

  /** The iterator over one list; `list` is None once the zero has been read. */
  class DiffListIterator {
    const lists: seq<Half>
    var val: Half
    var list: Position

    constructor (lists: seq<Half>, initVal: Half, diffList: nat)
      requires Terminated(lists, diffList)
      ensures Valid() && this.lists == lists && Pending() == [initVal] + Values(lists, diffList, initVal)
    {
      this.lists, val, list := lists, initVal, At(diffList);
    }

    ghost predicate Valid()
      reads this
    {
      list.At? ==> Terminated(lists, list.index)
    }

    /** The current register and those still to come. */
    ghost function Pending(): (p: seq<Half>)
      requires Valid()
      reads this
      ensures IsValid() <==> p != []
      ensures p != [] ==> p[0] == val
    {
      if list.Ended? then [] else [val] + Values(lists, list.index, val)
    }

    predicate IsValid()
      reads this
    {
      list.At?
    }

    method Next() returns (more: bool)
      requires Valid()
      modifies this
      ensures Valid()
      ensures old(Pending()) == [] ==> !more && Pending() == []
      ensures old(Pending()) != [] ==> Pending() == old(Pending())[1..] && more == (Pending() != [])
    {
      if list.Ended? {
        return false;
      }
      var d := lists[list.index];
      assert d != 0 ==> Terminated(lists, list.index + 1);
      list, val := At(list.index + 1), Advance(val, d);
      if d == 0 {
        list := Ended;
      }
      more := d != 0;
    }
  }

  datatype Position = At(index: nat) | Ended

  // ---------------------------------------------------------------- register classes

  datatype RegisterClass = RegisterClass(regSet: seq<Byte>)

  /** Bit `i` of `b`: `b & (1 << i)`. */
  predicate BitOf(b: nat, i: nat)
    decreases i
  {
    if i == 0 then b % 2 == 1 else BitOf(b / 2, i - 1)
  }

  predicate Contains(c: RegisterClass, reg: nat) {
    reg / 8 < |c.regSet| && BitOf(c.regSet[reg / 8], reg % 8)
  }

  /** The registers `from` to `from + n - 1` of `regs`, as bits 0 to n - 1. */
  function PackBits(regs: set<nat>, from: nat, n: nat): (b: nat)
    ensures b < Pow2(n)
    decreases n
  {
    if n == 0 then 0 else (if from in regs then 1 else 0) + 2 * PackBits(regs, from + 1, n - 1)
  }

  lemma {:induction false} PackedBits(regs: set<nat>, from: nat, n: nat, i: nat)
    requires i < n
    ensures BitOf(PackBits(regs, from, n), i) <==> from + i in regs
    decreases n
  {
    var rest := PackBits(regs, from + 1, n - 1);
    var b := PackBits(regs, from, n);
    assert b / 2 == rest && b % 2 == (if from in regs then 1 else 0);
    if i > 0 {
      PackedBits(regs, from + 1, n - 1, i - 1);
    }
  }

  /** The byte number `k` of the bit set of `regs`. */
  function PackByte(regs: set<nat>, k: nat): Byte {
    assert Pow2(8) == 2 * Pow2(7) == 4 * Pow2(6) == 8 * Pow2(5) == 16 * Pow2(4) == 32 * Pow2(3);
    PackBits(regs, 8 * k, 8)
  }

  /** A bit set of `n` bytes that was packed from a set of registers contains exactly the
      registers of that set that it has room for. */
  lemma ContainsExactly(regs: set<nat>, n: nat, reg: nat)
    ensures Contains(RegisterClass(seq(n, (k: int) requires 0 <= k < n => PackByte(regs, k))), reg)
            <==> reg in regs && reg < 8 * n
  {
    hide BitOf;
    var k, i := reg / 8, reg % 8;
    assert reg == 8 * k + i;
    PackedBits(regs, 8 * k, 8, i);
  }

  // ---------------------------------------------------------------- register descriptions

  /** Offsets into the shared arrays. */
  datatype RegisterDesc = RegisterDesc(subRegs: nat, superRegs: nat, subRegIndices: nat)

  datatype RegisterInfo = RegisterInfo(desc: seq<RegisterDesc>, diffLists: seq<Half>, subRegIndices: seq<Half>)
  {
    /** What the generated tables provide: every list is terminated, every sub-register has
        an index, and super-registers are registers. */
    ghost predicate WellFormed() {
      |desc| <= 0x1_0000 &&
      forall r :: 0 <= r < |desc| ==>
        var d := desc[r];
        Terminated(diffLists, d.subRegs) && Terminated(diffLists, d.superRegs) &&
        d.subRegIndices + |Values(diffLists, d.subRegs, r)| <= |subRegIndices| &&
        forall j :: 0 <= j < |Values(diffLists, d.superRegs, r)| ==> Values(diffLists, d.superRegs, r)[j] < |desc|
    }

    ghost function SubRegs(reg: nat): seq<Half>
      requires WellFormed() && reg < |desc|
    {
      Values(diffLists, desc[reg].subRegs, reg)
    }

    ghost function SuperRegs(reg: nat): (s: seq<Half>)
      requires WellFormed() && reg < |desc|
      ensures forall j :: 0 <= j < |s| ==> s[j] < |desc|
    {
      Values(diffLists, desc[reg].superRegs, reg)
    }

    /** The index under which sub-register number `k` of `reg` is known. */
    ghost function IndexOf(reg: nat, k: nat): Half
      requires WellFormed() && reg < |desc| && k < |SubRegs(reg)|
    {
      subRegIndices[desc[reg].subRegIndices + k]
    }

    /** `sub` is the sub-register of `reg` under the index `idx`: the first one listed. */
    ghost predicate IsSubReg(reg: nat, idx: nat, k: nat)
      requires WellFormed() && reg < |desc| && k < |SubRegs(reg)|
    {
      IndexOf(reg, k) == idx && forall j :: 0 <= j < k ==> IndexOf(reg, j) != idx
    }

    /** The sub-register of `reg` under `idx`, or 0: a search of the list from `k` on. */
    ghost function SubRegFrom(reg: nat, idx: nat, k: nat): Half
      requires WellFormed() && reg < |desc| && k <= |SubRegs(reg)|
      decreases |SubRegs(reg)| - k
    {
      if k == |SubRegs(reg)| then 0
      else if IndexOf(reg, k) == idx then SubRegs(reg)[k]
      else SubRegFrom(reg, idx, k + 1)
    }

    ghost predicate Matches(c: RegisterClass, reg: nat, idx: nat, v: nat)
      requires WellFormed()
    {
      v < |desc| && Contains(c, v) && SubRegFrom(v, idx, 0) == reg
    }

    /** None of the first `k` super-registers of `reg` matches. */
    ghost predicate NoneBefore(c: RegisterClass, reg: nat, idx: nat, k: nat)
      requires WellFormed() && reg < |desc| && k <= |SuperRegs(reg)|
    {
      forall j :: 0 <= j < k ==> !Matches(c, reg, idx, SuperRegs(reg)[j])
    }

    /** `super` is the first super-register of `reg` that matches, or 0 when none does. */
    ghost predicate FirstMatch(c: RegisterClass, reg: nat, idx: nat, super: nat)
      requires WellFormed() && reg < |desc|
    {
      (super == 0 && NoneBefore(c, reg, idx, |SuperRegs(reg)|)) ||
      exists k :: 0 <= k < |SuperRegs(reg)| && super == SuperRegs(reg)[k] && Matches(c, reg, idx, super) &&
                  NoneBefore(c, reg, idx, k)
    }

    /** One turn of the search, at a super-register that matches or does not. */
    lemma Searched(c: RegisterClass, reg: nat, idx: nat, k: nat)
      requires WellFormed() && reg < |desc| && k < |SuperRegs(reg)| && NoneBefore(c, reg, idx, k)
      ensures var v := SuperRegs(reg)[k];
              if Matches(c, reg, idx, v) then FirstMatch(c, reg, idx, v) else NoneBefore(c, reg, idx, k + 1)
    {
      hide RegisterInfo.WellFormed, Values, Terminated, RegisterInfo.SuperRegs, RegisterInfo.Matches;
    }

    lemma ListsAre(reg: nat)
      requires WellFormed() && reg < |desc|
      ensures reg < 0x1_0000 && Terminated(diffLists, desc[reg].subRegs) && Terminated(diffLists, desc[reg].superRegs)
      ensures SubRegs(reg) == Values(diffLists, desc[reg].subRegs, reg)
      ensures SuperRegs(reg) == Values(diffLists, desc[reg].superRegs, reg)
      ensures desc[reg].subRegIndices + |SubRegs(reg)| <= |subRegIndices|
    {
    }

    /** `MCRegisterInfo_getSubReg` */
    method GetSubReg(reg: nat, idx: nat) returns (sub: Half)
      requires WellFormed() && reg < |desc|
      ensures sub == SubRegFrom(reg, idx, 0)
    {
      hide RegisterInfo.WellFormed, Values, Terminated, RegisterInfo.SubRegs, RegisterInfo.SuperRegs,
        DiffListIterator.Pending,
        DiffListIterator.Valid;
      ListsAre(reg);
      var sri := desc[reg].subRegIndices;
      var iter := new DiffListIterator(diffLists, reg, desc[reg].subRegs);
      var more := iter.Next();
      ghost var k := 0;
      while iter.IsValid()
        invariant fresh(iter) && iter.Valid() && iter.lists == diffLists
        invariant k <= |SubRegs(reg)| && iter.Pending() == SubRegs(reg)[k..] && sri == desc[reg].subRegIndices + k
        invariant SubRegFrom(reg, idx, k) == SubRegFrom(reg, idx, 0)
        decreases |iter.Pending()|
      {
        if subRegIndices[sri] == idx {
          return iter.val;
        }
        more := iter.Next();
        sri := sri + 1;
        k := k + 1;
      }
      return 0;
    }

    /** `MCRegisterInfo_getMatchingSuperReg` */
    method GetMatchingSuperReg(reg: nat, idx: nat, c: RegisterClass) returns (super: Half)
      requires WellFormed()
      ensures reg >= |desc| ==> super == 0
      ensures reg < |desc| ==> FirstMatch(c, reg, idx, super)
    {
      if reg >= |desc| {
        return 0;
      }
      hide RegisterInfo.WellFormed, Values, Terminated, RegisterInfo.SubRegs, RegisterInfo.SuperRegs,
        DiffListIterator.Pending,
        DiffListIterator.Valid, RegisterInfo.SubRegFrom, Contains, RegisterInfo.FirstMatch;
      ListsAre(reg);
      var iter := new DiffListIterator(diffLists, reg, desc[reg].superRegs);
      var more := iter.Next();
      ghost var k := 0;
      assert NoneBefore(c, reg, idx, 0);
      hide RegisterInfo.NoneBefore;
      while iter.IsValid()
        invariant fresh(iter) && iter.Valid() && iter.lists == diffLists
        invariant k <= |SuperRegs(reg)| && iter.Pending() == SuperRegs(reg)[k..]
        invariant NoneBefore(c, reg, idx, k)
        decreases |iter.Pending()|
      {
        var val := iter.val;
        assert val == SuperRegs(reg)[k];
        Searched(c, reg, idx, k);
        if Contains(c, val) {
          var sub := GetSubReg(val, idx);
          if reg == sub {
            return val;
          }
        }
        more := iter.Next();
        k := k + 1;
      }
      NoneFound(c, reg, idx);
      return 0;
    }

    lemma NoneFound(c: RegisterClass, reg: nat, idx: nat)
      requires WellFormed() && reg < |desc| && NoneBefore(c, reg, idx, |SuperRegs(reg)|)
      ensures FirstMatch(c, reg, idx, 0)
    {
    }

    /** The search finds the sub-register listed first under the index, and 0 when there is
        none. */
    lemma {:induction false} SubRegIsFirst(reg: nat, idx: nat, k: nat)
      requires WellFormed() && reg < |desc| && k <= |SubRegs(reg)|
      requires forall j :: 0 <= j < k ==> IndexOf(reg, j) != idx
      ensures (SubRegFrom(reg, idx, k) == 0 && forall j :: 0 <= j < |SubRegs(reg)| ==> IndexOf(reg, j) != idx) ||
              exists j :: 0 <= j < |SubRegs(reg)| && IsSubReg(reg, idx, j) && SubRegFrom(reg, idx, k) == SubRegs(reg)[j]
      decreases |SubRegs(reg)| - k
    {
      if k < |SubRegs(reg)| {
        if IndexOf(reg, k) == idx {
          assert IsSubReg(reg, idx, k);
        } else {
          SubRegIsFirst(reg, idx, k + 1);
        }
      }
    }

    /** Zero means that nothing matches exactly when no match is the register 0: a class
        without register 0 suffices. */
    lemma ZeroMeansNone(c: RegisterClass, reg: nat, idx: nat, super: nat)
      requires WellFormed() && reg < |desc| && FirstMatch(c, reg, idx, super)
      ensures !Contains(c, 0) ==>
                (super == 0 <==> NoneBefore(c, reg, idx, |SuperRegs(reg)|))
      ensures super != 0 ==> super in SuperRegs(reg) && Matches(c, reg, idx, super)
    {
    }
  }
}
