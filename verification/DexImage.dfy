/**
  The dumped file resolves: every offset that the dumper recorded while it wrote the
  extra section names, in the assembled file, exactly the item it was recorded for.
 */
module DexImage {
  import opened Words
  import opened Leb128
  import opened ClassData
  import opened CodeItem
  import opened DexDump

  // ---------------------------------------------------------------- one method table

  /** Where the relocated code of a patched entry begins in the extra section. */
  function CodePos(l: Limits, e: Method): int { e.codeOff - l.origin }

  /** `item` lies at `pos` of the extra section `x`, which was no longer than `low`
      before it. */
  predicate LiesAt(x: seq<Byte>, low: nat, pos: int, item: seq<Byte>) {
    low <= pos && pos % 4 == 0 && pos + |item| <= |x| && x[pos..pos + |item|] == item
  }

  ghost predicate TablePlaced(l: Limits, es: seq<Method>, ms: seq<RtMethod>, low: nat, x: seq<Byte>)
    requires |es| == |ms|
  {
    (forall j :: 0 <= j < |ms| && Moves(l, ms[j]) ==> LiesAt(x, low, CodePos(l, es[j]), ItemBytes(l, ms[j]))) &&
    forall j, k :: 0 <= j < k < |ms| && Moves(l, ms[j]) && Moves(l, ms[k]) ==>
      es[j].codeOff + |ItemBytes(l, ms[j])| <= es[k].codeOff
  }

  lemma {:induction false} TableGrows(l: Limits, es: seq<Method>, ms: seq<RtMethod>, extra: seq<Byte>)
    requires |es| == |ms| && |extra| % 4 == 0
    ensures var x := PatchMethods(l, es, ms, extra).1; extra <= x && |x| % 4 == 0
    decreases |es|
  {
    hide Append, PatchMethod;
    if es != [] {
      if Moves(l, ms[0]) {
        AppendAligned(extra, ItemBytes(l, ms[0]));
      }
      TableGrows(l, es[1..], ms[1..], ExtraAfter(l, ms[0], extra));
    }
  }

  /** Every relocated code item of a table lies, word-aligned and in order, where its
      entry says. */
  lemma {:induction false} TableIsPlaced(l: Limits, es: seq<Method>, ms: seq<RtMethod>, extra: seq<Byte>)
    requires |es| == |ms| && |extra| % 4 == 0 && l.origin % 4 == 0
    requires l.origin + |PatchMethods(l, es, ms, extra).1| < 0x1_0000_0000
    ensures var (out, x) := PatchMethods(l, es, ms, extra); TablePlaced(l, out, ms, |extra|, x)
    decreases |es|
  {
    if es != [] {
      hide Append;
      var m, x1 := ms[0], ExtraAfter(l, ms[0], extra);
      var (rest, x) := PatchMethods(l, es[1..], ms[1..], x1);
      var (out, _) := PatchMethods(l, es, ms, extra);
      if Moves(l, m) {
        AppendAligned(extra, ItemBytes(l, m));
      }
      TableGrows(l, es[1..], ms[1..], x1);
      TableIsPlaced(l, es[1..], ms[1..], x1);
      if Moves(l, m) {
        FirstPlaced(l, es, ms, extra);
      }
      forall j | 0 <= j < |ms| && Moves(l, ms[j])
        ensures LiesAt(x, |extra|, CodePos(l, out[j]), ItemBytes(l, ms[j]))
      {
        if j > 0 {
          assert out[j] == rest[j - 1] && ms[j] == ms[1..][j - 1];
        }
      }
      forall j, k | 0 <= j < k < |ms| && Moves(l, ms[j]) && Moves(l, ms[k])
        ensures out[j].codeOff + |ItemBytes(l, ms[j])| <= out[k].codeOff
      {
        assert out[k] == rest[k - 1] && ms[k] == ms[1..][k - 1];
        if j > 0 {
          assert out[j] == rest[j - 1] && ms[j] == ms[1..][j - 1];
        } else {
          assert LiesAt(x, |x1|, CodePos(l, rest[k - 1]), ItemBytes(l, ms[k]));
        }
      }
    }
  }

  lemma FirstPlaced(l: Limits, es: seq<Method>, ms: seq<RtMethod>, extra: seq<Byte>)
    requires |es| == |ms| > 0 && |extra| % 4 == 0 && l.origin % 4 == 0
    requires l.origin + |PatchMethods(l, es, ms, extra).1| < 0x1_0000_0000
    requires Moves(l, ms[0])
    ensures var (out, x) := PatchMethods(l, es, ms, extra);
            out[0].codeOff == l.origin + |extra| && LiesAt(x, |extra|, |extra|, ItemBytes(l, ms[0])) &&
            |extra| + |ItemBytes(l, ms[0])| <= |ExtraAfter(l, ms[0], extra)|
  {
    hide Append, ItemBytes, Inside, CodeOffset, IsNative, Flags;
    var item := ItemBytes(l, ms[0]);
    AppendAligned(extra, item);
    var x1 := Append(extra, item);
    TableGrows(l, es[1..], ms[1..], x1);
    var x := PatchMethods(l, es, ms, extra).1;
    WrapUnique(l.origin + |extra|, 0, l.origin + |extra|);
    assert x[|extra|..|extra| + |item|] == x1[|extra|..|extra| + |item|];
  }

  // ---------------------------------------------------------------- one class

  /** Where the class's own item begins, and the patched class data with its tables. */
  lemma ClassIsPlaced(l: Limits, def: ClassDef, rt: Runtime, extra: seq<Byte>)
    requires rt.Valid(l, def) && rt.Loaded? && |extra| % 4 == 0 && l.origin % 4 == 0
    requires l.origin + |DumpOne(l, def, rt, extra).1| < 0x1_0000_0000
    ensures var (d, y) := DumpOne(l, def, rt, extra);
            var (cd, x) := PatchData(l, def, rt, extra);
            d.Some? && extra <= x <= y && |x| % 4 == 0 && |y| % 4 == 0 &&
            var x' := PatchMethods(l, DataOf(l, def).directMethods, rt.direct, extra).1;
            extra <= x' <= x &&
            TablePlaced(l, cd.directMethods, rt.direct, |extra|, x') &&
            TablePlaced(l, cd.virtualMethods, rt.virtual, |x'|, x) &&
            (NeedsExtra(l, def, rt, extra) ==>
              LiesAt(y, |x|, d.value.classDataOff - l.origin, EncodeItem(cd)))
  {
    hide TablePlaced, Append, PatchMethods, EncodeItem, Moves, NeedsExtra, ItemAt, DataOf, TableReadable, DataAddress;
    var dm, vm := DataOf(l, def).directMethods, DataOf(l, def).virtualMethods;
    TableGrows(l, dm, rt.direct, extra);
    var x' := PatchMethods(l, dm, rt.direct, extra).1;
    TableGrows(l, vm, rt.virtual, x');
    var (cd, x) := PatchData(l, def, rt, extra);
    AppendAligned(x, EncodeItem(cd));
    WrapUnique(l.origin + |x|, 0, l.origin + |x|);
    TableIsPlaced(l, dm, rt.direct, extra);
    TableIsPlaced(l, vm, rt.virtual, x');
  }

  // ---------------------------------------------------------------- all classes

  predicate NoneFailed(rts: seq<Runtime>) {
    forall i :: 0 <= i < |rts| ==> !rts[i].Failed?
  }

  /** The extra section when the dumper comes to class `i`. */
  function ExtraBefore(l: Limits, defs: seq<ClassDef>, rts: seq<Runtime>, i: nat, extra: seq<Byte>): seq<Byte>
    requires AllValid(l, defs, rts) && i <= |defs|
    decreases i
  {
    if i == 0 then extra
    else ExtraBefore(l, defs[1..], rts[1..], i - 1, DumpOne(l, defs[0], rts[0], extra).1)
  }

  lemma OneGrows(l: Limits, def: ClassDef, rt: Runtime, extra: seq<Byte>)
    requires rt.Valid(l, def) && |extra| % 4 == 0
    ensures var x := DumpOne(l, def, rt, extra).1; extra <= x && |x| % 4 == 0
  {
    hide Append, PatchMethods, EncodeItem, Moves, NeedsExtra;
    if rt.Loaded? {
      TableGrows(l, DataOf(l, def).directMethods, rt.direct, extra);
      var x' := PatchMethods(l, DataOf(l, def).directMethods, rt.direct, extra).1;
      TableGrows(l, DataOf(l, def).virtualMethods, rt.virtual, x');
      var (cd, x) := PatchData(l, def, rt, extra);
      AppendAligned(x, EncodeItem(cd));
    }
  }

  /** When no class is skipped, record `i` is the one written for class `i`, and what was
      in the extra section after it is still there at the end. */
  lemma {:induction false} RecordOf(l: Limits, defs: seq<ClassDef>, rts: seq<Runtime>, i: nat, extra: seq<Byte>)
    requires AllValid(l, defs, rts) && NoneFailed(rts) && i < |defs| && |extra| % 4 == 0
    ensures var (out, x) := DumpAll(l, defs, rts, extra);
            var before := ExtraBefore(l, defs, rts, i, extra);
            var (d, after) := DumpOne(l, defs[i], rts[i], before);
            |out| == |defs| && d == Some(out[i]) &&
            |before| % 4 == 0 && extra <= before <= after <= x
    decreases |defs|
  {
    hide DumpOne;
    NoFailures(rts);
    RecordExists(l, defs[0], rts[0], extra);
    OneGrows(l, defs[0], rts[0], extra);
    var x1 := DumpOne(l, defs[0], rts[0], extra).1;
    AllGrow(l, defs[1..], rts[1..], x1);
    if i > 0 {
      RecordOf(l, defs[1..], rts[1..], i - 1, x1);
    }
  }

  lemma RecordExists(l: Limits, def: ClassDef, rt: Runtime, extra: seq<Byte>)
    requires rt.Valid(l, def) && !rt.Failed?
    ensures DumpOne(l, def, rt, extra).0.Some?
  {
  }

  lemma {:induction false} AllGrow(l: Limits, defs: seq<ClassDef>, rts: seq<Runtime>, extra: seq<Byte>)
    requires AllValid(l, defs, rts) && |extra| % 4 == 0
    ensures var (out, x) := DumpAll(l, defs, rts, extra);
            extra <= x && |x| % 4 == 0 && |out| == |defs| - Failures(rts)
    decreases |defs|
  {
    hide DumpOne;
    if defs != [] {
      OneGrows(l, defs[0], rts[0], extra);
      RecordIff(l, defs[0], rts[0], extra);
      AllGrow(l, defs[1..], rts[1..], DumpOne(l, defs[0], rts[0], extra).1);
    }
  }

  lemma RecordIff(l: Limits, def: ClassDef, rt: Runtime, extra: seq<Byte>)
    requires rt.Valid(l, def)
    ensures DumpOne(l, def, rt, extra).0.Some? <==> !rt.Failed?
  {
  }

  function Failures(rts: seq<Runtime>): nat {
    if rts == [] then 0 else (if rts[0].Failed? then 1 else 0) + Failures(rts[1..])
  }

  lemma {:induction false} NoFailures(rts: seq<Runtime>)
    ensures Failures(rts) == 0 <==> NoneFailed(rts)
  {
    if rts != [] {
      NoFailures(rts[1..]);
      assert rts == [rts[0]] + rts[1..];
    }
  }

  // ---------------------------------------------------------------- no two items overlap

  /** An item of the extra section, at the place that was recorded for it. */
  datatype Placement = Placement(pos: int, bytes: seq<Byte>)

  /** The code items that a patched table records. */
  function TableItems(l: Limits, es: seq<Method>, ms: seq<RtMethod>): seq<Placement>
    requires |es| == |ms|
    decreases |es|
  {
    if es == [] then []
    else (if Moves(l, ms[0]) then [Placement(CodePos(l, es[0]), ItemBytes(l, ms[0]))] else [])
         + TableItems(l, es[1..], ms[1..])
  }

  /** All items that are recorded for one class. */
  function ClassItems(l: Limits, def: ClassDef, rt: Runtime, extra: seq<Byte>): seq<Placement>
    requires rt.Valid(l, def)
  {
    if !rt.Loaded? then []
    else
      var cd := PatchData(l, def, rt, extra).0;
      var d := DumpOne(l, def, rt, extra).0;
      TableItems(l, cd.directMethods, rt.direct) + TableItems(l, cd.virtualMethods, rt.virtual) +
      (if d.Some? && NeedsExtra(l, def, rt, extra)
       then [Placement(d.value.classDataOff - l.origin, EncodeItem(cd))] else [])
  }

  /** All items that are recorded for all classes. */
  function AllItems(l: Limits, defs: seq<ClassDef>, rts: seq<Runtime>, extra: seq<Byte>): seq<Placement>
    requires AllValid(l, defs, rts)
    decreases |defs|
  {
    if defs == [] then []
    else ClassItems(l, defs[0], rts[0], extra) + AllItems(l, defs[1..], rts[1..], DumpOne(l, defs[0], rts[0], extra).1)
  }

  /** The items lie in `x` from `low` on, each behind the one before. */
  predicate Stacked(items: seq<Placement>, low: nat, x: seq<Byte>)
    decreases |items|
  {
    if items == [] then low <= |x|
    else
      LiesAt(x, low, items[0].pos, items[0].bytes) && Stacked(items[1..], items[0].pos + |items[0].bytes|, x)
  }

  lemma StackedLower(items: seq<Placement>, low: nat, low': nat, x: seq<Byte>)
    requires Stacked(items, low, x) && low' <= low
    ensures Stacked(items, low', x)
  {
  }

  lemma {:induction false} StackedConcat(a: seq<Placement>, b: seq<Placement>, low: nat, x: seq<Byte>, y: seq<Byte>)
    requires Stacked(a, low, x) && x <= y && Stacked(b, |x|, y)
    ensures Stacked(a + b, low, y)
    decreases |a|
  {
    if a == [] {
      assert a + b == b;
      StackedLower(b, |x|, low, y);
    } else {
      assert (a + b)[1..] == a[1..] + b;
      StillThere(x, y, low, a[0].pos, a[0].bytes);
      hide LiesAt;
      StackedConcat(a[1..], b, a[0].pos + |a[0].bytes|, x, y);
    }
  }

  lemma {:induction false} StackedApart(items: seq<Placement>, low: nat, x: seq<Byte>, j: nat, k: nat)
    requires Stacked(items, low, x) && j < k < |items|
    ensures items[j].pos + |items[j].bytes| <= items[k].pos
    decreases |items|
  {
    if j == 0 {
      StackedAbove(items[1..], items[0].pos + |items[0].bytes|, x, k - 1);
    } else {
      StackedApart(items[1..], items[0].pos + |items[0].bytes|, x, j - 1, k - 1);
    }
  }

  lemma {:induction false} StackedAbove(items: seq<Placement>, low: nat, x: seq<Byte>, k: nat)
    requires Stacked(items, low, x) && k < |items|
    ensures low <= items[k].pos
    decreases |items|
  {
    if k > 0 {
      StackedAbove(items[1..], items[0].pos + |items[0].bytes|, x, k - 1);
    }
  }

  lemma {:induction false} TableStacked(l: Limits, es: seq<Method>, ms: seq<RtMethod>, extra: seq<Byte>)
    requires |es| == |ms| && |extra| % 4 == 0 && l.origin % 4 == 0
    requires l.origin + |PatchMethods(l, es, ms, extra).1| < 0x1_0000_0000
    ensures var (out, x) := PatchMethods(l, es, ms, extra); Stacked(TableItems(l, out, ms), |extra|, x)
    decreases |es|
  {
    hide Append, ItemBytes, Moves, LiesAt, PatchMethod;
    if es != [] {
      var m, x1 := ms[0], ExtraAfter(l, ms[0], extra);
      var (rest, x) := PatchMethods(l, es[1..], ms[1..], x1);
      var (out, _) := PatchMethods(l, es, ms, extra);
      assert out[1..] == rest;
      if Moves(l, m) {
        AppendAligned(extra, ItemBytes(l, m));
        FirstPlaced(l, es, ms, extra);
      }
      TableGrows(l, es[1..], ms[1..], x1);
      TableStacked(l, es[1..], ms[1..], x1);
      if Moves(l, m) {
        var items := TableItems(l, rest, ms[1..]);
        StackedLower(items, |x1|, |extra| + |ItemBytes(l, m)|, x);
        var first := Placement(|extra|, ItemBytes(l, m));
        assert TableItems(l, out, ms) == [first] + items && ([first] + items)[1..] == items;
      } else {
        assert TableItems(l, out, ms) == TableItems(l, rest, ms[1..]);
      }
    }
  }

  lemma ClassStacked(l: Limits, def: ClassDef, rt: Runtime, extra: seq<Byte>)
    requires rt.Valid(l, def) && |extra| % 4 == 0 && l.origin % 4 == 0
    requires l.origin + |DumpOne(l, def, rt, extra).1| < 0x1_0000_0000
    ensures Stacked(ClassItems(l, def, rt, extra), |extra|, DumpOne(l, def, rt, extra).1)
  {
    hide Append, PatchMethods, EncodeItem, Moves, NeedsExtra, ItemAt, DataOf, TableReadable, DataAddress, TableItems,
      TablePlaced,
      LiesAt;
    if rt.Loaded? {
      ClassIsPlaced(l, def, rt, extra);
      var data := DataOf(l, def);
      var (cd, x) := PatchData(l, def, rt, extra);
      var (d, y) := DumpOne(l, def, rt, extra);
      var x' := PatchMethods(l, data.directMethods, rt.direct, extra).1;
      TableGrows(l, data.directMethods, rt.direct, extra);
      TableStacked(l, data.directMethods, rt.direct, extra);
      TableStacked(l, data.virtualMethods, rt.virtual, x');
      var a, b := TableItems(l, cd.directMethods, rt.direct), TableItems(l, cd.virtualMethods, rt.virtual);
      StackedConcat(a, b, |extra|, x', x);
      if NeedsExtra(l, def, rt, extra) {
        OneStacked(y, |x|, d.value.classDataOff - l.origin, EncodeItem(cd));
        StackedConcat(a + b, [Placement(d.value.classDataOff - l.origin, EncodeItem(cd))], |extra|, x, y);
      } else {
        assert a + b + [] == a + b;
      }
    }
  }

  lemma OneStacked(y: seq<Byte>, low: nat, pos: int, bytes: seq<Byte>)
    requires LiesAt(y, low, pos, bytes)
    ensures Stacked([Placement(pos, bytes)], low, y)
  {
    assert Stacked([], pos + |bytes|, y);
  }

  lemma {:induction false} AllStacked(l: Limits, defs: seq<ClassDef>, rts: seq<Runtime>, extra: seq<Byte>)
    requires AllValid(l, defs, rts) && |extra| % 4 == 0 && l.origin % 4 == 0
    requires l.origin + |DumpAll(l, defs, rts, extra).1| < 0x1_0000_0000
    ensures Stacked(AllItems(l, defs, rts, extra), |extra|, DumpAll(l, defs, rts, extra).1)
    decreases |defs|
  {
    hide DumpOne, ClassItems, LiesAt, Runtime.Valid;
    if defs != [] {
      OneGrows(l, defs[0], rts[0], extra);
      var x1 := DumpOne(l, defs[0], rts[0], extra).1;
      AllGrow(l, defs[1..], rts[1..], x1);
      ClassStacked(l, defs[0], rts[0], extra);
      AllStacked(l, defs[1..], rts[1..], x1);
      StackedConcat(ClassItems(l, defs[0], rts[0], extra), AllItems(l, defs[1..], rts[1..], x1), |extra|, x1,
                    DumpAll(l, defs, rts, extra).1);
    }
  }

  /** All items of all classes, code items and class data, lie in the extra section at their
      recorded places, one behind the other: no two of them overlap. */
  lemma ItemsDisjoint(l: Limits, defs: seq<ClassDef>, rts: seq<Runtime>)
    requires AllValid(l, defs, rts) && l.origin % 4 == 0
    requires l.origin + |DumpAll(l, defs, rts, []).1| < 0x1_0000_0000
    ensures var items, x := AllItems(l, defs, rts, []), DumpAll(l, defs, rts, []).1;
            (forall k :: 0 <= k < |items| ==> LiesAt(x, 0, items[k].pos, items[k].bytes)) &&
            forall j, k :: 0 <= j < k < |items| ==> items[j].pos + |items[j].bytes| <= items[k].pos
  {
    hide DumpAll, AllItems, LiesAt, Runtime.Valid;
    AllStacked(l, defs, rts, []);
    var items, x := AllItems(l, defs, rts, []), DumpAll(l, defs, rts, []).1;
    forall k | 0 <= k < |items| ensures LiesAt(x, 0, items[k].pos, items[k].bytes) {
      StackedLies(items, 0, x, k);
    }
    forall j, k | 0 <= j < k < |items| ensures items[j].pos + |items[j].bytes| <= items[k].pos {
      StackedApart(items, 0, x, j, k);
    }
  }

  lemma {:induction false} StackedLies(items: seq<Placement>, low: nat, x: seq<Byte>, k: nat)
    requires Stacked(items, low, x) && k < |items|
    ensures LiesAt(x, low, items[k].pos, items[k].bytes)
    decreases |items|
  {
    if k > 0 {
      StackedLies(items[1..], items[0].pos + |items[0].bytes|, x, k - 1);
    }
  }

  // ---------------------------------------------------------------- the file

  function DefBytes(d: ClassDef): (bs: seq<Byte>)
    ensures |bs| == 32
  {
    U4(d.classIdx) + U4(d.accessFlags) + U4(d.superclassIdx) + U4(d.interfacesOff) + U4(d.sourceFileIdx)
    + U4(d.annotationsOff) + U4(d.classDataOff) + U4(d.staticValuesOff)
  }

  function DefsBytes(ds: seq<ClassDef>): (bs: seq<Byte>)
    ensures |bs| == 32 * |ds|
  {
    if ds == [] then [] else DefBytes(ds[0]) + DefsBytes(ds[1..])
  }

  lemma {:induction false} DefAt(ds: seq<ClassDef>, i: nat)
    requires i < |ds|
    ensures DefsBytes(ds)[32 * i..32 * i + 32] == DefBytes(ds[i])
    decreases |ds|
  {
    hide DefBytes;
    var bs := DefsBytes(ds);
    if i > 0 {
      DefAt(ds[1..], i - 1);
      assert bs[32..] == DefsBytes(ds[1..]);
      assert bs[32 * i..32 * i + 32] == bs[32..][32 * (i - 1)..32 * (i - 1) + 32];
    }
  }

  /** The saved header, the records, the saved data section (in which method bodies may
      have been overwritten in place) and the extra section. */
  function Assemble(m: Mapped, defs: seq<ClassDef>, data: seq<Byte>, extra: seq<Byte>): seq<Byte>
    requires m.Valid()
  {
    m.mem[..m.base + m.classDefsOff] + DefsBytes(defs) + data + extra
  }

  function LimitsOf(m: Mapped): Limits
    requires m.Valid()
  {
    Limits(m.memory, m.baseAddr, m.Start(), m.End(), m.Origin())
  }

  /** The extra section begins in the file where the first recorded offset says, exactly
      when the mapping ends on a four-byte boundary and no class was skipped. */
  lemma ExtraBeginsAtOriginIff(m: Mapped, rts: seq<Runtime>, data: seq<Byte>)
    requires m.Valid() && AllValid(LimitsOf(m), m.defs, rts)
    requires |data| == m.End() - m.Start()
    ensures var (defs, x) := DumpAll(LimitsOf(m), m.defs, rts, []);
            |Assemble(m, defs, data, x)| - |x| == m.base + m.Origin() <==>
            m.End() % 4 == 0 && NoneFailed(rts)
  {
    hide DumpAll;
    AllGrow(LimitsOf(m), m.defs, rts, []);
    NoFailures(rts);
    AlignedUp(m.End());
  }

  lemma SliceOfTail(front: seq<Byte>, x: seq<Byte>, lo: nat, hi: nat)
    requires lo <= hi <= |x|
    ensures (front + x)[|front| + lo..|front| + hi] == x[lo..hi]
  {
  }

  lemma StillThere(x: seq<Byte>, y: seq<Byte>, low: nat, pos: int, item: seq<Byte>)
    requires x <= y && LiesAt(x, low, pos, item)
    ensures LiesAt(y, low, pos, item)
  {
    assert y[pos..pos + |item|] == x[pos..pos + |item|];
  }

  ghost predicate CodeResolves(file: seq<Byte>, base: nat, e: Method, item: seq<Byte>) {
    var at := base + e.codeOff;
    e.codeOff % 4 == 0 && at + |item| <= |file| && file[at..at + |item|] == item
  }

  /** The code item `c` lies in memory, word-aligned, at the address `at`. */
  ghost predicate HoldsCode(memory: seq<Byte>, at: nat, c: Code) {
    c.WellFormed() && at % 4 == 0 && at + |c.Bytes()| <= |memory| && memory[at..at + |c.Bytes()|] == c.Bytes()
  }

  /** The entry names the bytes that were copied, and they are the whole code item of the
      method, whichever that is. */
  ghost predicate MethodResolves(l: Limits, file: seq<Byte>, base: nat, e: Method, m: RtMethod)
    requires m.insns.Some?
  {
    CodeResolves(file, base, e, ItemBytes(l, m)) &&
    forall c: Code :: HoldsCode(l.memory, ItemAddress(m), c) ==> CodeResolves(file, base, e, c.Bytes())
  }

  /** What is copied for a method is its code item, neither more nor less. */
  lemma CopiesItem(l: Limits, m: RtMethod, c: Code)
    requires Moves(l, m) && HoldsCode(l.memory, ItemAddress(m), c)
    ensures CodeReadable(l, m) && ItemBytes(l, m) == c.Bytes()
  {
    hide LengthOf, Code.WellFormed, Code.Bytes, Inside, IsNative, Flags, CodeOffset;
    var a, n := ItemAddress(m), |c.Bytes()|;
    var mem := l.memory;
    assert mem == mem[..a] + c.Bytes() + mem[a + n..];
    LengthIsExact(mem[..a], c, mem[a + n..]);
  }

  lemma ItemIsMethod(l: Limits, file: seq<Byte>, base: nat, e: Method, m: RtMethod)
    requires Moves(l, m) && CodeResolves(file, base, e, ItemBytes(l, m))
    ensures MethodResolves(l, file, base, e, m)
  {
    hide ItemBytes, CodeResolves, Code.Bytes, Inside, IsNative, Flags, CodeOffset, CodeReadable;
    forall c: Code | HoldsCode(l.memory, ItemAddress(m), c) ensures CodeResolves(file, base, e, c.Bytes()) {
      CopiesItem(l, m, c);
    }
  }

  /** The dumped file resolves.  For every class, with the mapping ending on a four-byte
      boundary and no class skipped: its record is in its place; if it was given an item
      in the extra section, reading class data at the recorded offset returns exactly the
      patched class data; and every relocated code offset names exactly the bytes of the
      code item that lies before that method's instructions in memory. */
  lemma DumpResolves(m: Mapped, rts: seq<Runtime>, data: seq<Byte>, i: nat)
    requires m.Valid() && AllValid(LimitsOf(m), m.defs, rts) && NoneFailed(rts) && i < |rts|
    requires |data| == m.End() - m.Start() && m.End() % 4 == 0
    requires m.Origin() + |DumpAll(LimitsOf(m), m.defs, rts, []).1| < 0x1_0000_0000
    ensures var l := LimitsOf(m);
            var (defs, x) := DumpAll(l, m.defs, rts, []);
            var file := Assemble(m, defs, data, x);
            var before := ExtraBefore(l, m.defs, rts, i, []);
            |defs| == |m.defs| &&
            file[m.base + m.classDefsOff + 32 * i..][..32] == DefBytes(defs[i]) &&
            (rts[i].Loaded? ==>
              var cd := PatchData(l, m.defs[i], rts[i], before).0;
              (NeedsExtra(l, m.defs[i], rts[i], before) ==>
                var at := m.base + defs[i].classDataOff;
                defs[i].classDataOff % 4 == 0 && ItemAt(file, at) == Some((cd, at + |EncodeItem(cd)|))) &&
              (forall j :: 0 <= j < |rts[i].direct| && Moves(l, rts[i].direct[j]) ==>
                MethodResolves(l, file, m.base, cd.directMethods[j], rts[i].direct[j])) &&
              (forall j :: 0 <= j < |rts[i].virtual| && Moves(l, rts[i].virtual[j]) ==>
                MethodResolves(l, file, m.base, cd.virtualMethods[j], rts[i].virtual[j])))
  {
    hide DumpAll, DumpOne, PatchData, ExtraBefore, DefsBytes, DefBytes, EncodeItem, Moves, NeedsExtra, ItemAt;
    var l := LimitsOf(m);
    var (defs, x) := DumpAll(l, m.defs, rts, []);
    var file := Assemble(m, defs, data, x);
    var before := ExtraBefore(l, m.defs, rts, i, []);
    RecordOf(l, m.defs, rts, i, []);
    DefAt(defs, i);
    RecordInPlace(m, defs, data, x, i);
    AlignedUp(m.End());
    var front := m.mem[..m.base + m.classDefsOff] + DefsBytes(defs) + data;
    assert file == front + x && |front| == m.base + m.Origin();
    if rts[i].Loaded? {
      ClassResolves(l, m.defs[i], rts[i], before, x, front, m.base);
    }
  }

  lemma RecordInPlace(m: Mapped, defs: seq<ClassDef>, data: seq<Byte>, x: seq<Byte>, i: nat)
    requires m.Valid() && i < |defs|
    ensures m.base + m.classDefsOff + 32 * i + 32 <= |Assemble(m, defs, data, x)|
    ensures Assemble(m, defs, data, x)[m.base + m.classDefsOff + 32 * i..][..32] == DefBytes(defs[i])
  {
    hide DefBytes;
    DefAt(defs, i);
    hide DefsBytes;
    var head := m.mem[..m.base + m.classDefsOff];
    var bs := DefsBytes(defs);
    assert Assemble(m, defs, data, x) == head + (bs + (data + x));
    SliceOfTail(head, bs + (data + x), 32 * i, 32 * i + 32);
    assert (bs + (data + x))[32 * i..32 * i + 32] == bs[32 * i..32 * i + 32];
  }

  lemma ClassResolves(l: Limits, def: ClassDef, rt: Runtime, before: seq<Byte>, x: seq<Byte>, front: seq<Byte>,
          base: nat)
    requires rt.Valid(l, def) && rt.Loaded? && |before| % 4 == 0 && l.origin % 4 == 0
    requires DumpOne(l, def, rt, before).1 <= x && l.origin + |x| < 0x1_0000_0000
    requires |front| == base + l.origin
    ensures var cd := PatchData(l, def, rt, before).0;
            var d := DumpOne(l, def, rt, before).0;
            var file := front + x;
            d.Some? &&
            (NeedsExtra(l, def, rt, before) ==>
              var at := base + d.value.classDataOff;
              d.value.classDataOff % 4 == 0 && ItemAt(file, at) == Some((cd, at + |EncodeItem(cd)|))) &&
            (forall j :: 0 <= j < |rt.direct| && Moves(l, rt.direct[j]) ==>
              MethodResolves(l, file, base, cd.directMethods[j], rt.direct[j])) &&
            (forall j :: 0 <= j < |rt.virtual| && Moves(l, rt.virtual[j]) ==>
              MethodResolves(l, file, base, cd.virtualMethods[j], rt.virtual[j]))
  {
    hide DumpOne, PatchMethods, EncodeItem, NeedsExtra, ItemAt, LiesAt, DataOf, TableReadable, DataAddress,
      MethodResolves, ItemBytes, Inside, CodeOffset, IsNative, Flags;
    ClassIsPlaced(l, def, rt, before);
    var file := front + x;
    var (d, y) := DumpOne(l, def, rt, before);
    var (cd, x1) := PatchData(l, def, rt, before);
    var x0 := PatchMethods(l, DataOf(l, def).directMethods, rt.direct, before).1;
    if NeedsExtra(l, def, rt, before) {
      StillThere(y, x, |x1|, d.value.classDataOff - l.origin, EncodeItem(cd));
      ItemResolves(front, x, |x1|, d.value.classDataOff - l.origin, cd, base, l.origin);
    }
    forall j | 0 <= j < |rt.direct| && Moves(l, rt.direct[j])
      ensures MethodResolves(l, file, base, cd.directMethods[j], rt.direct[j])
    {
      var item, e := ItemBytes(l, rt.direct[j]), cd.directMethods[j];
      StillThere(x0, x, |before|, CodePos(l, e), item);
      TailResolves(front, x, |before|, CodePos(l, e), item, base, l.origin);
      ItemIsMethod(l, file, base, e, rt.direct[j]);
    }
    forall j | 0 <= j < |rt.virtual| && Moves(l, rt.virtual[j])
      ensures MethodResolves(l, file, base, cd.virtualMethods[j], rt.virtual[j])
    {
      var item, e := ItemBytes(l, rt.virtual[j]), cd.virtualMethods[j];
      StillThere(x1, x, |x0|, CodePos(l, e), item);
      TailResolves(front, x, |x0|, CodePos(l, e), item, base, l.origin);
      ItemIsMethod(l, file, base, e, rt.virtual[j]);
    }
  }

  lemma TailResolves(front: seq<Byte>, x: seq<Byte>, low: nat, pos: int, item: seq<Byte>, base: nat, origin: nat)
    requires LiesAt(x, low, pos, item) && |front| == base + origin && origin % 4 == 0
    ensures var at := base + (origin + pos);
            (origin + pos) % 4 == 0 && at + |item| <= |front + x| && (front + x)[at..at + |item|] == item
  {
    SliceOfTail(front, x, pos, pos + |item|);
    FourTimes(origin + pos, origin / 4 + pos / 4);
  }

  lemma ItemResolves(front: seq<Byte>, x: seq<Byte>, low: nat, pos: int, cd: ClassData, base: nat, origin: nat)
    requires cd.Countable() && LiesAt(x, low, pos, EncodeItem(cd)) && |front| == base + origin && origin % 4 == 0
    ensures var at := base + (origin + pos);
            (origin + pos) % 4 == 0 && ItemAt(front + x, at) == Some((cd, at + |EncodeItem(cd)|))
  {
    hide ItemAt, EncodeItem;
    var item := EncodeItem(cd);
    TailResolves(front, x, low, pos, item, base, origin);
    var at := base + (origin + pos);
    var file := front + x;
    assert file == file[..at] + item + file[at + |item|..];
    ItemRoundTrip(file[..at], cd, file[at + |item|..]);
  }
}
