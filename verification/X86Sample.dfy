/**
  What X86Window asks of a displaced window can be met: a call and a copied instruction, in
  32-bit and in 64-bit code.
 */
module X86Sample {
  import opened Words
  import opened X86Relocate
  import opened X86Meaning
  import opened X86Gadgets
  import opened X86Window

  /** `call` of the address 0x1000 bytes behind it. */
  function CallInsn(): Insn { Insn([0xe8, 0, 0x10, 0, 0], NoRip) }

  function NopInsn(): Insn { Insn([0x90], NoRip) }

  function Sample(): seq<Insn> { [CallInsn(), NopInsn()] }

  /** The decoder knows `nop`, and it does nothing. */
  ghost predicate NopFalls(m: Machine) {
    m.complete(NopInsn().bytes) && forall core: Core :: m.plain(NopInsn().bytes, core) == Fall(core)
  }

  lemma CallForm(ia32: bool)
    ensures CallInsn().Valid(ia32) && CallInsn().Op() == 0xe8 && CallInsn().Rel32() == 0x1000 && CallInsn().Width() == 5
  {
  }

  lemma NopForm(ia32: bool)
    ensures var i := NopInsn();
            i.Valid(ia32) && i.Op() == 0x90 && IsCopied(i) && Delimited(i.bytes) && !IsBranch(ia32, i.bytes) &&
            !ObservesIp(ia32, i.bytes) && !IsStoreAbove(i.bytes) && i.Width() == 1
  {
  }

  lemma ViewAgrees(s: Setting, c: Core, d: Core)
    requires s.Valid() && Agree(c, d, s.hidden)
    ensures Agree(c.(mem := View(s.m0.code, c.mem)), d.(mem := View(s.m.code, d.mem)), s.hidden)
  {
  }

  lemma NopQuiet(s: Setting, insn: Insn, o: State)
    requires s.Valid() && insn == NopInsn() && insn.Valid(s.m.ia32) && NopFalls(s.m) && o.State?
    ensures Quiet(s, insn, o) && !Transfers(s, insn, o)
  {
    hide Agree, View, IsBranch, ObservesIp;
    NopForm(s.m.ia32);
    forall d: Core | Agree(CoreOf(o), d, s.hidden)
      ensures EffectsAgree(CopyEffect(s.m0, insn.bytes, CoreOf(o)), CopyEffect(s.m, insn.bytes, d), s.hidden)
    {
      ViewAgrees(s, CoreOf(o), d);
    }
  }

  /** The bytes below the stack pointer, before and after the call. */
  ghost function Dead(ia32: bool, sp: int): iset<int> {
    iset b: int | InSlot(ia32, sp, b) || InSlot(ia32, Ptr(ia32, sp - PtrSize(ia32)), b)
  }

  /** The setting is laid out for a run with the stack pointer `sp`. */
  ghost predicate Placed(s: Setting, area: int, buf: int, sp: int) {
    LaidOut(s, Sample(), area, buf) && NopFalls(s.m) && area + 0x2000 < 0x8000_0000 &&
    SlotDead(s.m.ia32, sp, s.hidden) && SlotDead(s.m.ia32, Ptr(s.m.ia32, sp - PtrSize(s.m.ia32)), s.hidden)
  }

  lemma SampleRelocatable(s: Setting, area: int, buf: int, sp: int)
    requires Placed(s, area, buf, sp)
    ensures AllRelocatable(s, Sample(), area, buf)
  {
    hide SlotDead, Is32BitOffset, Holds, BytesOf, EmitAll, Gadget, Ptr, IsBranch, ObservesIp, Used, Insn.Rel32,
      Setting.Valid;
    var ia32 := s.m.ia32;
    CallForm(ia32);
    NopForm(ia32);
    PtrIs(ia32, area + 5 + 0x1000, 0, area + 5 + 0x1000);
    PtrIs(ia32, area + 6, 0, area + 6);
    NopWhole(s.m);
    var rest, here := [NopInsn()], buf + |Gadget(ia32, CallInsn(), area, buf)|;
    assert Sample()[1..] == rest && rest[1..] == [];
    var after := here + |Gadget(ia32, NopInsn(), area + 5, here)|;
    assert AllRelocatable(s, [], area + 6, after);
    assert AllRelocatable(s, rest, area + 5, here);
  }

  lemma NopWhole(m: Machine)
    requires NopFalls(m)
    ensures Whole(m, NopInsn().bytes)
  {
  }

  /** The call leaves, and the two runs go on behind it when its routine has returned. */
  lemma SampleIsQuiet(any: Machine, area: int, buf: int, o: State) returns (s: Setting)
    requires NopFalls(any) && Valid(any.ia32, o) && o.ip == area && area + 0x2000 < 0x8000_0000
    requires AllValid(any.ia32, Sample()) && buf >= 0
    requires buf + |EmitAll(any.ia32, Sample(), area, buf)| + 32 < Space(any.ia32)
    ensures s.m == any.(code := s.m.code) && LaidOut(s, Sample(), area, buf)
    ensures AllRelocatable(s, Sample(), area, buf) && QuietRun(s, Sample(), o)
    ensures OriginalExit(s, Sample(), area, o).1 == area + 5 && OriginalExit(s, Sample(), area, o).2 == [NopInsn()]
    ensures forall o1: State :: Returned(s, o, o1) ==>
              QuietRun(AfterCall(s, Ptr(any.ia32, o.sp - PtrSize(any.ia32))), [NopInsn()], o1)
  {
    hide LaidOut, AllRelocatable, QuietRun, OriginalExit, Returned, EmitAll, SlotDead, Ptr;
    s := PlacedExists(any, area, buf, o.sp);
    SampleRelocatable(s, area, buf, o.sp);
    CallLeaves(s, area, buf, o);
    forall o1: State | Returned(s, o, o1)
      ensures QuietRun(AfterCall(s, Ptr(any.ia32, o.sp - PtrSize(any.ia32))), [NopInsn()], o1)
    {
      RestQuiet(s, area, buf, o, o1);
    }
  }

  /** The state `o1` is behind the call that was made from `o`, with the same stack pointer. */
  ghost predicate Returned(s: Setting, o: State, o1: State) {
    o.State? && Valid(s.m.ia32, o1) && o1.ip == o.ip + 5 && o1.sp == o.sp
  }

  lemma PlacedExists(any: Machine, area: int, buf: int, sp: int) returns (s: Setting)
    requires NopFalls(any) && 0 <= area && area + 0x2000 < 0x8000_0000 && AllValid(any.ia32, Sample()) && buf >= 0
    requires buf + |EmitAll(any.ia32, Sample(), area, buf)| + 32 < Space(any.ia32)
    ensures Placed(s, area, buf, sp) && s.m == any.(code := s.m.code)
  {
    hide LaidOut, EmitAll, InSlot, Ptr, Insn.Valid;
    SampleUsed();
    s := LayoutExists(any, Sample(), area, buf, Dead(any.ia32, sp));
  }

  lemma SampleUsed()
    ensures Used(Sample()) == 6
  {
    var rest := [NopInsn()];
    assert Sample()[1..] == rest && rest[1..] == [];
    assert Used(rest) == 1;
  }

  lemma CallLeaves(s: Setting, area: int, buf: int, o: State)
    requires Valid(s.m.ia32, o) && Placed(s, area, buf, o.sp) && AllValid(s.m.ia32, Sample())
    ensures QuietRun(s, Sample(), o)
    ensures OriginalExit(s, Sample(), area, o).1 == area + 5 && OriginalExit(s, Sample(), area, o).2 == [NopInsn()]
  {
    hide LaidOut, SlotDead, Step, Ptr, Insn.Rel32, Insn.Valid;
    CallForm(s.m.ia32);
    assert Sample()[1..] == [NopInsn()];
  }

  lemma RestQuiet(s: Setting, area: int, buf: int, o: State, o1: State)
    requires o.State? && Placed(s, area, buf, o.sp) && Returned(s, o, o1) && o.ip == area &&
             AllValid(s.m.ia32, [NopInsn()])
    ensures QuietRun(AfterCall(s, Ptr(s.m.ia32, o.sp - PtrSize(s.m.ia32))), [NopInsn()], o1)
  {
    hide Holds, BytesOf, EmitAll, Gadget, IsBranch, ObservesIp, Used, Step, Quiet, Transfers, Insn.Valid, InSlot,
      InPtr, Ptr;
    var ia32, insn := s.m.ia32, NopInsn();
    var s' := AfterCall(s, Ptr(ia32, o.sp - PtrSize(ia32)));
    NopForm(ia32);
    NopWhole(s.m);
    assert Sample()[1..] == [insn];
    LaidNext(s, Sample(), area, buf);
    LaidNext(s, [insn], area + 5, buf + |Gadget(ia32, CallInsn(), area, buf)|);
    NopQuiet(s', insn, o1);
    CopyStep(s.m0, o1, insn.bytes);
    PtrIs(ia32, o1.sp, 0, o1.sp);
  }
}
