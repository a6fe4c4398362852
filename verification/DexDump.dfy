/**
  The layout that `DumpClass` builds: class definitions rewritten in order, and an extra
  section to which relocated code items and re-encoded class data are appended, each at
  an offset that is recorded before the final file is put together.

  Loading and initialising classes is the virtual machine's business: what it leaves
  behind for each class is the input `Runtime`.  Class data and code items are read from
  the memory of the process.
 */
module DexDump {
  import opened Words
  import opened Leb128
  import opened ClassData
  import opened CodeItem

  // ---------------------------------------------------------------- inputs

  datatype ClassDef = ClassDef(classIdx: Word, accessFlags: Word, superclassIdx: Word, interfacesOff: Word,
                               sourceFileIdx: Word, annotationsOff: Word, classDataOff: Word, staticValuesOff: Word)

  /** What the loop over the classes goes by: the memory of the process, the address in it
      at which the DEX image begins, the part of the file that stays where it is (from the
      end of the class definitions to the end of the mapping), and the origin of the extra
      section. */
  datatype Limits = Limits(memory: seq<Byte>, baseAddr: Word, start: nat, end: nat, origin: nat)

  /** A method of the virtual machine: its flags and the address of its instructions. */
  datatype RtMethod = RtMethod(accessFlags: Word, insns: Option<Word>)

  /** The code item begins sixteen bytes before the instructions. */
  function ItemAddress(m: RtMethod): Word
    requires m.insns.Some?
  {
    Wrap(m.insns.value - 16)
  }

  function CodeOffset(l: Limits, m: RtMethod): Word
    requires m.insns.Some?
  {
    Wrap(m.insns.value - 16 - l.baseAddr)
  }

  /** A class of the framework or without class data is passed over; one that cannot be
      defined or read is skipped; any other is there with its methods. */
  datatype Runtime =
    | Passed
    | Failed
    | Loaded(direct: seq<RtMethod>, virtual: seq<RtMethod>)
  {
    /** The class data and the code that the dumper reads are mapped, and the virtual machine
        has the methods that the class data lists. */
    predicate Valid(l: Limits, def: ClassDef) {
      (def.classDataOff == 0 ==> Passed?) &&
      (Loaded? ==>
        ItemAt(l.memory, DataAddress(l, def)).Some? &&
        |direct| == |DataOf(l, def).directMethods| && |virtual| == |DataOf(l, def).virtualMethods| &&
        TableReadable(l, direct) && TableReadable(l, virtual))
    }
  }

  predicate AllValid(l: Limits, defs: seq<ClassDef>, rts: seq<Runtime>) {
    |defs| == |rts| && forall i :: 0 <= i < |rts| ==> rts[i].Valid(l, defs[i])
  }

  function DataAddress(l: Limits, def: ClassDef): Word { Plus(l.baseAddr, def.classDataOff) }

  /** The class data as it lies in memory. */
  function DataOf(l: Limits, def: ClassDef): (cd: ClassData)
    requires ItemAt(l.memory, DataAddress(l, def)).Some?
    ensures cd.Countable()
  {
    ItemCountable(l.memory, DataAddress(l, def));
    ItemAt(l.memory, DataAddress(l, def)).value.0
  }

  predicate CodeReadable(l: Limits, m: RtMethod) {
    Moves(l, m) ==>
      match LengthOf(l.memory, ItemAddress(m))
      case None => false
      case Some(len) => 0 <= len && ItemAddress(m) + len <= |l.memory|
  }

  predicate TableReadable(l: Limits, ms: seq<RtMethod>) {
    forall i :: 0 <= i < |ms| ==> CodeReadable(l, ms[i])
  }

  /** The bytes that are copied for a method whose code moves. */
  function ItemBytes(l: Limits, m: RtMethod): seq<Byte> {
    if Moves(l, m) && CodeReadable(l, m)
    then l.memory[ItemAddress(m)..ItemAddress(m) + LengthOf(l.memory, ItemAddress(m)).value]
    else []
  }

  /** The mapped file: the DEX image begins at offset `base` of the mapping `mem`, and at
      `baseAddr` of the whole memory of the process; the class definitions lie at
      `classDefsOff` from there. */
  datatype Mapped = Mapped(mem: seq<Byte>, base: nat, classDefsOff: nat, defs: seq<ClassDef>,
                           memory: seq<Byte>, baseAddr: Word)
  {
    /** Offset of the first byte behind the class definitions. */
    function Start(): nat { classDefsOff + 32 * |defs| }

    predicate Valid() { base + Start() <= |mem| }

    /** Offset of the end of the mapping. */
    function End(): nat
      requires Valid()
    { |mem| - base }

    /** `total_pointer` before the first class. */
    function Origin(): nat
      requires Valid()
    { AlignUp(End()) }
  }

  function Padding(n: nat): nat { (4 - n % 4) % 4 }

  function AlignUp(n: nat): nat { n + Padding(n) }

  lemma AlignedUp(n: nat)
    ensures AlignUp(n) % 4 == 0 && n <= AlignUp(n) < n + 4
    ensures Padding(n) == 0 <==> n % 4 == 0
  {
    var k := n / 4;
    if n % 4 == 0 {
      FourTimes(AlignUp(n), k);
    } else {
      FourTimes(AlignUp(n), k + 1);
    }
  }

  function ZeroBytes(n: nat): (z: seq<Byte>)
    ensures |z| == n
  {
    seq(n, i => 0)
  }

  // ---------------------------------------------------------------- the allocator

  /** The extra section after one more item, padded to a multiple of four. */
  function Append(extra: seq<Byte>, item: seq<Byte>): seq<Byte> {
    extra + item + ZeroBytes(Padding(|extra| + |item|))
  }

  lemma AppendAligned(extra: seq<Byte>, item: seq<Byte>)
    ensures |Append(extra, item)| % 4 == 0 && extra <= Append(extra, item)
    ensures |extra| + |item| <= |Append(extra, item)|
    ensures Append(extra, item)[|extra|..|extra| + |item|] == item
  {
    AlignedUp(|extra| + |item|);
  }

  lemma ReadableItem(l: Limits, m: RtMethod)
    requires Moves(l, m) && CodeReadable(l, m)
    ensures LengthOf(l.memory, ItemAddress(m)).Some?
    ensures var a, len := ItemAddress(m), LengthOf(l.memory, ItemAddress(m)).value;
            0 <= len && a + len <= |l.memory| && ItemBytes(l, m) == l.memory[a..a + len]
  {
    hide LengthOf, IsNative, Flags, Inside, CodeOffset;
  }

  function Flags(m: RtMethod): Word { m.accessFlags % 0x4_0000 }

  predicate IsNative(flags: Word) { flags / 0x100 % 2 == 1 }

  predicate Inside(l: Limits, off: Word) { l.start <= off <= l.end }

  /** The method's code lies outside the file and is copied to the extra section. */
  predicate Moves(l: Limits, m: RtMethod) {
    m.insns.Some? && !IsNative(Flags(m)) && !Inside(l, CodeOffset(l, m)) && CodeOffset(l, m) != 0
  }

  /** The table entry of a method after the dump, with `extra` as written so far. */
  function PatchMethod(l: Limits, e: Method, m: RtMethod, extra: seq<Byte>): Method {
    if m.insns.None? || IsNative(Flags(m)) then
      (if e.codeOff != 0 then e.(accessFlags := Flags(m), codeOff := 0) else e)
    else if Moves(l, m) then e.(accessFlags := Flags(m), codeOff := Wrap(l.origin + |extra|))
    else e.(accessFlags := Flags(m), codeOff := CodeOffset(l, m))
  }

  function ExtraAfter(l: Limits, m: RtMethod, extra: seq<Byte>): seq<Byte> {
    if Moves(l, m) then Append(extra, ItemBytes(l, m)) else extra
  }

  function PatchMethods(l: Limits, es: seq<Method>, ms: seq<RtMethod>, extra: seq<Byte>): (r: (seq<Method>, seq<Byte>))
    requires |es| == |ms|
    ensures |r.0| == |es|
    decreases |es|
  {
    if es == [] then ([], extra)
    else
      var (rest, x) := PatchMethods(l, es[1..], ms[1..], ExtraAfter(l, ms[0], extra));
      ([PatchMethod(l, es[0], ms[0], extra)] + rest, x)
  }

  /** The class data after the dump, and the extra section. */
  function PatchData(l: Limits, def: ClassDef, rt: Runtime, extra: seq<Byte>): (r: (ClassData, seq<Byte>))
    requires rt.Loaded? && rt.Valid(l, def)
    ensures r.0.Countable()
  {
    var data := DataOf(l, def);
    var (dm, x) := PatchMethods(l, data.directMethods, rt.direct, extra);
    var (vm, y) := PatchMethods(l, data.virtualMethods, rt.virtual, x);
    (data.(directMethods := dm, virtualMethods := vm), y)
  }

  /** Some entry differs, some code moved, or the class data itself lies outside. */
  predicate NeedsExtra(l: Limits, def: ClassDef, rt: Runtime, extra: seq<Byte>)
    requires rt.Loaded? && rt.Valid(l, def)
  {
    !Inside(l, def.classDataOff) || PatchData(l, def, rt, extra).0 != DataOf(l, def) ||
    (exists i :: 0 <= i < |rt.direct| && Moves(l, rt.direct[i])) ||
    (exists i :: 0 <= i < |rt.virtual| && Moves(l, rt.virtual[i]))
  }

  /** One iteration over the classes: the record written, if any, and the extra section. */
  function DumpOne(l: Limits, def: ClassDef, rt: Runtime, extra: seq<Byte>): (Option<ClassDef>, seq<Byte>)
    requires rt.Valid(l, def)
  {
    match rt
    case Passed => (Some(def.(classDataOff := 0, annotationsOff := 0)), extra)
    case Failed => (None, extra)
    case Loaded(_, _) =>
      var (cd, x) := PatchData(l, def, rt, extra);
      if NeedsExtra(l, def, rt, extra) then
        (Some(def.(classDataOff := Wrap(l.origin + |x|))), Append(x, EncodeItem(cd)))
      else
        (Some(def), x)
  }

  function DumpAll(l: Limits, defs: seq<ClassDef>, rts: seq<Runtime>, extra: seq<Byte>): (seq<ClassDef>, seq<Byte>)
    requires AllValid(l, defs, rts)
    decreases |defs|
  {
    if defs == [] then ([], extra)
    else
      var (def, x) := DumpOne(l, defs[0], rts[0], extra);
      var (rest, y) := DumpAll(l, defs[1..], rts[1..], x);
      ((if def.Some? then [def.value] else []) + rest, y)
  }

  // ---------------------------------------------------------------- the loops of the source

  function Behind<T>(front: seq<T>, r: (seq<T>, seq<Byte>)): (seq<T>, seq<Byte>) {
    (front + r.0, r.1)
  }

  lemma BehindNothing<T>(r: (seq<T>, seq<Byte>))
    ensures Behind([], r) == r
  {
    assert [] + r.0 == r.0;
  }

  lemma BehindMore<T>(front: seq<T>, more: seq<T>, r: (seq<T>, seq<Byte>))
    ensures Behind(front, (more + r.0, r.1)) == Behind(front + more, r)
  {
    assert front + (more + r.0) == (front + more) + r.0;
  }

  /** Something in the table was changed. */
  ghost predicate TableChanged(l: Limits, es: seq<Method>, ms: seq<RtMethod>, out: seq<Method>) {
    out != es || exists k :: 0 <= k < |ms| && Moves(l, ms[k])
  }

  lemma PatchNone(l: Limits, es: seq<Method>, ms: seq<RtMethod>, extra: seq<Byte>)
    requires |es| == |ms|
    ensures PatchMethods(l, es, ms, extra) == Behind([], PatchMethods(l, es[0..], ms[0..], extra))
    ensures !TableChanged(l, es[..0], ms[..0], [])
  {
    hide PatchMethods, Behind;
    assert es[0..] == es && ms[0..] == ms;
    BehindNothing(PatchMethods(l, es, ms, extra));
  }

  lemma PatchTurn(l: Limits, es: seq<Method>, ms: seq<RtMethod>, i: nat, out: seq<Method>, before: seq<Byte>,
                  e: Method, after: seq<Byte>, whole: (seq<Method>, seq<Byte>))
    requires i < |es| == |ms| && |out| == i && whole == Behind(out, PatchMethods(l, es[i..], ms[i..], before))
    requires e == PatchMethod(l, es[i], ms[i], before) && after == ExtraAfter(l, ms[i], before)
    ensures whole == Behind(out + [e], PatchMethods(l, es[i + 1..], ms[i + 1..], after))
    ensures TableChanged(l, es[..i + 1], ms[..i + 1], out + [e])
            <==> TableChanged(l, es[..i], ms[..i], out) || e != es[i] || Moves(l, ms[i])
  {
    hide PatchMethod, ExtraAfter, Moves, Behind;
    assert es[i..][1..] == es[i + 1..] && ms[i..][1..] == ms[i + 1..];
    BehindMore(out, [e], PatchMethods(l, es[i + 1..], ms[i + 1..], after));
    ChangedMore(l, es, ms, i, out, e);
  }

  lemma ChangedMore(l: Limits, es: seq<Method>, ms: seq<RtMethod>, i: nat, out: seq<Method>, e: Method)
    requires i < |es| == |ms| && |out| == i
    ensures TableChanged(l, es[..i + 1], ms[..i + 1], out + [e])
            <==> TableChanged(l, es[..i], ms[..i], out) || e != es[i] || Moves(l, ms[i])
  {
    hide Moves;
    assert es[..i + 1] == es[..i] + [es[i]] && ms[..i + 1] == ms[..i] + [ms[i]];
    assert (out + [e])[i] == e && (out + [e])[..i] == out && es[..i + 1][i] == es[i] && es[..i + 1][..i] == es[..i];
    forall k | 0 <= k < i ensures ms[..i + 1][k] == ms[..i][k] {
    }
    assert ms[..i + 1][i] == ms[i];
  }

  lemma PatchDone(l: Limits, es: seq<Method>, ms: seq<RtMethod>, out: seq<Method>, extra: seq<Byte>,
                  whole: (seq<Method>, seq<Byte>))
    requires |es| == |ms| == |out| && whole == Behind(out, PatchMethods(l, es[|es|..], ms[|es|..], extra))
    ensures (out, extra) == whole
    ensures TableChanged(l, es[..|es|], ms[..|es|], out) <==> TableChanged(l, es, ms, out)
  {
    assert out + [] == out && es[|es|..] == [] && es[..|es|] == es && ms[..|es|] == ms;
  }

  class Dumper {
    const l: Limits
    var totalPointer: Word
    var extra: seq<Byte>
    var classDefs: seq<ClassDef>

    ghost predicate Valid()
      reads this
    {
      l.origin % 4 == 0 && |extra| % 4 == 0 && totalPointer == Wrap(l.origin + |extra|)
    }

    constructor (l: Limits)
      requires l.origin % 4 == 0
      ensures Valid() && this.l == l && extra == [] && classDefs == []
    {
      this.l, totalPointer, extra, classDefs := l, Wrap(l.origin), [], [];
    }

    /** Writes one item and pads until `total_pointer & 3` is zero. */
    method WriteItem(item: seq<Byte>)
      requires Valid()
      modifies this`totalPointer, this`extra
      ensures Valid() && extra == Append(old(extra), item)
    {
      var pad := Padding(|extra| + |item|);
      ghost var len := |extra| + |item|;
      extra := extra + item;
      totalPointer := Plus(totalPointer, |item|);
      WrapAgain(l.origin + |old(extra)|, |item|);
      ghost var padded := 0;
      while totalPointer % 4 != 0
        invariant padded <= pad && |extra| == len + padded
        invariant extra == old(extra) + item + ZeroBytes(padded)
        invariant totalPointer == Wrap(l.origin + |extra|)
        decreases pad - padded
      {
        SameRemainder(l.origin, |extra|);
        PaddingEnds(len, padded);
        extra := extra + [0];
        WrapAgain(l.origin + len + padded, 1);
        totalPointer := Plus(totalPointer, 1);
        padded := padded + 1;
      }
      SameRemainder(l.origin, |extra|);
      PaddingEnds(len, padded);
    }

    /** The loop over one method table. */
    method PatchTable(es: seq<Method>, ms: seq<RtMethod>) returns (out: seq<Method>, need: bool)
      requires Valid() && |es| == |ms| && TableReadable(l, ms)
      modifies this`totalPointer, this`extra
      ensures Valid() && (out, extra) == PatchMethods(l, es, ms, old(extra))
      ensures need <==> TableChanged(l, es, ms, out)
    {
      hide PatchMethods, Behind, TableChanged, ExtraAfter, PatchMethod, Moves, CodeReadable;
      out, need := [], false;
      ghost var whole := PatchMethods(l, es, ms, extra);
      PatchNone(l, es, ms, extra);
      for i := 0 to |es|
        invariant Valid() && |out| == i
        invariant whole == Behind(out, PatchMethods(l, es[i..], ms[i..], extra))
        invariant need <==> TableChanged(l, es[..i], ms[..i], out)
      {
        ghost var before := extra;
        var e, changed := PatchEntry(es[i], ms[i]);
        need := need || changed;
        PatchTurn(l, es, ms, i, out, before, e, extra, whole);
        out := out + [e];
      }
      PatchDone(l, es, ms, out, extra, whole);
    }

    method PatchEntry(was: Method, m: RtMethod) returns (e: Method, need: bool)
      requires Valid() && CodeReadable(l, m)
      modifies this`totalPointer, this`extra
      ensures Valid() && e == PatchMethod(l, was, m, old(extra)) && extra == ExtraAfter(l, m, old(extra))
      ensures need <==> e != was || Moves(l, m)
    {
      hide Append, IsNative, LengthOf, ItemBytes, CodeReadable, ItemAddress;
      var flags := Flags(m);
      hide Flags;
      e, need := was, false;
      if m.insns.None? || IsNative(flags) {
        if e.codeOff != 0 {
          need := true;
          e := e.(accessFlags := flags, codeOff := 0);
        }
        return;
      }
      var off := CodeOffset(l, m);
      if flags != e.accessFlags {
        need := true;
        e := e.(accessFlags := flags);
      }
      if off != e.codeOff && (Inside(l, off) || off == 0) {
        need := true;
        e := e.(codeOff := off);
      }
      if !Inside(l, off) && off != 0 {
        need := true;
        e := e.(codeOff := totalPointer);
        var item := ItemAddress(m);
        ReadableItem(l, m);
        var len := CodeItemLength(l.memory, item);
        WriteItem(l.memory[item..item + len]);
      }
    }

    /** The body of the loop over the classes. */
    method DumpClass(def: ClassDef, rt: Runtime)
      requires Valid() && rt.Valid(l, def)
      modifies this
      ensures Valid()
      ensures var (d, x) := DumpOne(l, def, rt, old(extra));
              extra == x && classDefs == old(classDefs) + (if d.Some? then [d.value] else [])
    {
      hide Append, PatchMethods, EncodeItem, ItemAt, TableReadable;
      if rt.Failed? {
        return;
      }
      var temp := def;
      if rt.Passed? {
        temp := temp.(classDataOff := 0, annotationsOff := 0);
      } else {
        var needExtra := !Inside(l, def.classDataOff);
        var data, _ := ReadClassData(l.memory, DataAddress(l, def));
        var dm, vm, n1, n2;
        dm, n1 := PatchTable(data.directMethods, rt.direct);
        vm, n2 := PatchTable(data.virtualMethods, rt.virtual);
        var cd := data.(directMethods := dm, virtualMethods := vm);
        assert (cd, extra) == PatchData(l, def, rt, old(extra));
        if needExtra || n1 || n2 {
          var out := EncodeClassData(cd);
          temp := temp.(classDataOff := totalPointer);
          WriteItem(out[..]);
        }
      }
      classDefs := classDefs + [temp];
    }

    method DumpClasses(defs: seq<ClassDef>, rts: seq<Runtime>)
      requires Valid() && extra == [] && classDefs == []
      requires AllValid(l, defs, rts)
      modifies this
      ensures Valid() && (classDefs, extra) == DumpAll(l, defs, rts, [])
    {
      hide DumpOne;
      assert defs[0..] == defs && rts[0..] == rts;
      BehindNothing(DumpAll(l, defs, rts, []));
      for i := 0 to |defs|
        invariant Valid()
        invariant DumpAll(l, defs, rts, []) == Behind(classDefs, DumpAll(l, defs[i..], rts[i..], extra))
      {
        assert defs[i..][1..] == defs[i + 1..] && rts[i..][1..] == rts[i + 1..];
        ghost var was, before := classDefs, extra;
        DumpClass(defs[i], rts[i]);
        ghost var d := DumpOne(l, defs[i], rts[i], before).0;
        BehindMore(was, if d.Some? then [d.value] else [], DumpAll(l, defs[i + 1..], rts[i + 1..], extra));
      }
      assert classDefs + [] == classDefs && defs[|defs|..] == [];
    }
  }

  lemma SameRemainder(origin: nat, n: nat)
    requires origin % 4 == 0
    ensures Wrap(origin + n) % 4 == n % 4
  {
    var o, k, r := origin / 4, n / 4, n % 4;
    assert origin == 4 * o && n == 4 * k + r;
    var q, w := (origin + n) / 0x1_0000_0000, Wrap(origin + n);
    assert w == 4 * (o + k - 0x4000_0000 * q) + r;
    ModFour(w, o + k - 0x4000_0000 * q, r);
  }

  lemma PaddingEnds(n: nat, padded: nat)
    requires padded <= Padding(n)
    ensures (n + padded) % 4 == 0 <==> padded == Padding(n)
  {
    var k, r := n / 4, n % 4;
    assert n == 4 * k + r;
    if r == 0 {
    } else if r + padded < 4 {
      ModFour(n + padded, k, r + padded);
    } else {
      ModFour(n + padded, k + 1, 0);
    }
  }
}
