/**
  `ReadClassData` and `EncodeClassData`: a class_data_item of the Dalvik Executable
  format is four counts followed by the fields and methods, every number in LEB128.
 */
module ClassData {
  import opened Words
  import opened Leb128

  datatype Field = Field(fieldIdx: Word, accessFlags: Word)

  datatype Method = Method(methodIdx: Word, accessFlags: Word, codeOff: Word)

  /** The expanded form.  The header of the source holds the four lengths. */
  datatype ClassData = ClassData(
    staticFields: seq<Field>,
    instanceFields: seq<Field>,
    directMethods: seq<Method>,
    virtualMethods: seq<Method>)
  {
    /** The lengths fit the u4 fields of the header. */
    predicate Countable() {
      |staticFields| < 0x1_0000_0000 && |instanceFields| < 0x1_0000_0000 &&
      |directMethods| < 0x1_0000_0000 && |virtualMethods| < 0x1_0000_0000
    }
  }

  // ---------------------------------------------------------------- the item as a list of numbers

  function FieldWords(fs: seq<Field>): seq<Word> {
    if fs == [] then [] else [fs[0].fieldIdx, fs[0].accessFlags] + FieldWords(fs[1..])
  }

  function MethodWords(ms: seq<Method>): seq<Word> {
    if ms == [] then [] else [ms[0].methodIdx, ms[0].accessFlags, ms[0].codeOff] + MethodWords(ms[1..])
  }

  function ItemWords(cd: ClassData): seq<Word>
    requires cd.Countable()
  {
    [|cd.staticFields|, |cd.instanceFields|, |cd.directMethods|, |cd.virtualMethods|]
    + FieldWords(cd.staticFields) + FieldWords(cd.instanceFields)
    + MethodWords(cd.directMethods) + MethodWords(cd.virtualMethods)
  }

  function EncodeAll(ws: seq<Word>): seq<Byte> {
    if ws == [] then [] else Encode(ws[0]) + EncodeAll(ws[1..])
  }

  /** The class_data_item. */
  function EncodeItem(cd: ClassData): seq<Byte>
    requires cd.Countable()
  {
    EncodeAll(ItemWords(cd))
  }

  lemma {:induction false} EncodeAllConcat(x: seq<Word>, y: seq<Word>)
    ensures EncodeAll(x + y) == EncodeAll(x) + EncodeAll(y)
  {
    hide Encode;
    if x == [] {
      assert [] + y == y;
    } else {
      EncodeAllConcat(x[1..], y);
      assert (x + y)[1..] == x[1..] + y;
    }
  }

  lemma EncodeOne(w: Word)
    ensures EncodeAll([w]) == Encode(w)
  {
    assert [w][1..] == [];
    assert EncodeAll([w]) == Encode(w) + EncodeAll([]);
  }

  lemma EncodeTwo(v: Word, w: Word)
    ensures EncodeAll([v, w]) == Encode(v) + Encode(w)
  {
    assert [v, w][1..] == [w];
    EncodeOne(w);
  }

  lemma EncodeThree(u: Word, v: Word, w: Word)
    ensures EncodeAll([u, v, w]) == Encode(u) + Encode(v) + Encode(w)
  {
    assert [u, v, w][1..] == [v, w];
    EncodeTwo(v, w);
  }

  // ---------------------------------------------------------------- reading

  /** `n` numbers from `pos` on, and where they end. */
  function NumbersAt(data: seq<Byte>, pos: nat, n: nat): Option<(seq<Word>, nat)>
    decreases n
  {
    if n == 0 then Some(([], pos))
    else if !Readable(data, pos) then None
    else
      match NumbersAt(data, EndAt(data, pos), n - 1)
      case None => None
      case Some((ws, e)) => Some(([UnsignedAt(data, pos)] + ws, e))
  }

  lemma {:induction false} NumbersConcat(data: seq<Byte>, pos: nat, m: nat, n: nat)
    requires NumbersAt(data, pos, m).Some?
    ensures var (ws, e) := NumbersAt(data, pos, m).value;
            NumbersAt(data, pos, m + n) ==
            match NumbersAt(data, e, n)
            case None => None
            case Some((vs, e')) => Some((ws + vs, e'))
    decreases m
  {
    if m == 0 {
      var r := NumbersAt(data, pos, n);
      if r.Some? {
        assert [] + r.value.0 == r.value.0;
      }
    } else {
      NumbersConcat(data, EndAt(data, pos), m - 1, n);
      var (ws, e) := NumbersAt(data, EndAt(data, pos), m - 1).value;
      var r := NumbersAt(data, e, n);
      if r.Some? {
        assert [UnsignedAt(data, pos)] + (ws + r.value.0) == ([UnsignedAt(data, pos)] + ws) + r.value.0;
      }
    }
  }

  /** What has been encoded is read back, wherever it lies. */
  lemma {:induction false} NumbersRoundTrip(pre: seq<Byte>, ws: seq<Word>, post: seq<Byte>)
    ensures NumbersAt(pre + EncodeAll(ws) + post, |pre|, |ws|) == Some((ws, |pre| + |EncodeAll(ws)|))
    decreases |ws|
  {
    var data := pre + EncodeAll(ws) + post;
    if ws != [] {
      var bs := Encode(ws[0]);
      EncodeIsUleb(ws[0]);
      assert data == pre + bs + (EncodeAll(ws[1..]) + post);
      UnsignedReads(pre, bs, EncodeAll(ws[1..]) + post);
      NumbersRoundTrip(pre + bs, ws[1..], post);
      assert data == (pre + bs) + EncodeAll(ws[1..]) + post;
      assert [ws[0]] + ws[1..] == ws;
    }
  }

  function FieldsOf(ws: seq<Word>): (fs: seq<Field>)
    requires |ws| % 2 == 0
    ensures |fs| == |ws| / 2
    decreases |ws|
  {
    if ws == [] then [] else [Field(ws[0], ws[1])] + FieldsOf(ws[2..])
  }

  function MethodsOf(ws: seq<Word>): (ms: seq<Method>)
    requires |ws| % 3 == 0
    ensures |ms| == |ws| / 3
    decreases |ws|
  {
    if ws == [] then [] else [Method(ws[0], ws[1], ws[2])] + MethodsOf(ws[3..])
  }

  lemma {:induction false} FieldsRoundTrip(fs: seq<Field>)
    ensures |FieldWords(fs)| == 2 * |fs| && FieldsOf(FieldWords(fs)) == fs
  {
    if fs != [] {
      FieldsRoundTrip(fs[1..]);
      assert FieldWords(fs)[2..] == FieldWords(fs[1..]);
    }
  }

  lemma {:induction false} MethodsRoundTrip(ms: seq<Method>)
    ensures |MethodWords(ms)| == 3 * |ms| && MethodsOf(MethodWords(ms)) == ms
  {
    if ms != [] {
      MethodsRoundTrip(ms[1..]);
      assert MethodWords(ms)[3..] == MethodWords(ms[1..]);
    }
  }

  function NumbersLen(data: seq<Byte>, pos: nat, n: nat): (r: Option<(seq<Word>, nat)>)
    ensures r.Some? ==> |r.value.0| == n
  {
    NumbersLength(data, pos, n);
    NumbersAt(data, pos, n)
  }

  lemma {:induction false} NumbersLength(data: seq<Byte>, pos: nat, n: nat)
    ensures NumbersAt(data, pos, n).Some? ==> |NumbersAt(data, pos, n).value.0| == n
    decreases n
  {
    if n > 0 && Readable(data, pos) {
      NumbersLength(data, EndAt(data, pos), n - 1);
    }
  }

  function FieldsAt(data: seq<Byte>, pos: nat, n: nat): Option<(seq<Field>, nat)> {
    match NumbersLen(data, pos, 2 * n)
    case None => None
    case Some((ws, e)) => Some((FieldsOf(ws), e))
  }

  function MethodsAt(data: seq<Byte>, pos: nat, n: nat): Option<(seq<Method>, nat)> {
    match NumbersLen(data, pos, 3 * n)
    case None => None
    case Some((ws, e)) => Some((MethodsOf(ws), e))
  }

  /** The class data read at `pos`, and where it ends. */
  function ItemAt(data: seq<Byte>, pos: nat): Option<(ClassData, nat)> {
    match NumbersLen(data, pos, 4)
    case None => None
    case Some((h, p0)) =>
      match FieldsAt(data, p0, h[0])
      case None => None
      case Some((sf, p1)) =>
        match FieldsAt(data, p1, h[1])
        case None => None
        case Some((inf, p2)) =>
          match MethodsAt(data, p2, h[2])
          case None => None
          case Some((dm, p3)) =>
            match MethodsAt(data, p3, h[3])
            case None => None
            case Some((vm, p4)) => Some((ClassData(sf, inf, dm, vm), p4))
  }

  /** What is read has lengths that fit its header. */
  lemma ItemCountable(data: seq<Byte>, pos: nat)
    requires ItemAt(data, pos).Some?
    ensures ItemAt(data, pos).value.0.Countable()
  {
    hide NumbersAt, FieldsOf, MethodsOf;
  }

  lemma FieldsBack(pre: seq<Byte>, fs: seq<Field>, post: seq<Byte>)
    ensures FieldsAt(pre + EncodeAll(FieldWords(fs)) + post, |pre|, |fs|)
            == Some((fs, |pre| + |EncodeAll(FieldWords(fs))|))
  {
    FieldsRoundTrip(fs);
    NumbersRoundTrip(pre, FieldWords(fs), post);
  }

  lemma MethodsBack(pre: seq<Byte>, ms: seq<Method>, post: seq<Byte>)
    ensures MethodsAt(pre + EncodeAll(MethodWords(ms)) + post, |pre|, |ms|)
            == Some((ms, |pre| + |EncodeAll(MethodWords(ms))|))
  {
    MethodsRoundTrip(ms);
    NumbersRoundTrip(pre, MethodWords(ms), post);
  }

  /** Reading an encoded item returns the class data and stops right after it. */
  lemma ItemRoundTrip(pre: seq<Byte>, cd: ClassData, post: seq<Byte>)
    requires cd.Countable()
    ensures ItemAt(pre + EncodeItem(cd) + post, |pre|) == Some((cd, |pre| + |EncodeItem(cd)|))
  {
    hide FieldsAt, MethodsAt, NumbersAt, FieldWords, MethodWords, EncodeAll;
    var h: seq<Word> := [|cd.staticFields|, |cd.instanceFields|, |cd.directMethods|, |cd.virtualMethods|];
    var a, b := FieldWords(cd.staticFields), FieldWords(cd.instanceFields);
    var c, d := MethodWords(cd.directMethods), MethodWords(cd.virtualMethods);
    var eh, ea, eb, ec, ed := EncodeAll(h), EncodeAll(a), EncodeAll(b), EncodeAll(c), EncodeAll(d);
    EncodeAllConcat(h + a + b + c, d);
    EncodeAllConcat(h + a + b, c);
    EncodeAllConcat(h + a, b);
    EncodeAllConcat(h, a);
    var data := pre + EncodeItem(cd) + post;
    assert data == pre + eh + (ea + eb + ec + ed + post);
    NumbersRoundTrip(pre, h, ea + eb + ec + ed + post);
    assert data == (pre + eh) + ea + (eb + ec + ed + post);
    FieldsBack(pre + eh, cd.staticFields, eb + ec + ed + post);
    assert data == (pre + eh + ea) + eb + (ec + ed + post);
    FieldsBack(pre + eh + ea, cd.instanceFields, ec + ed + post);
    assert data == (pre + eh + ea + eb) + ec + (ed + post);
    MethodsBack(pre + eh + ea + eb, cd.directMethods, ed + post);
    assert data == (pre + eh + ea + eb + ec) + ed + post;
    MethodsBack(pre + eh + ea + eb + ec, cd.virtualMethods, post);
  }

  // ---------------------------------------------------------------- the reader's loops

  lemma {:induction false} FieldsOfConcat(x: seq<Word>, y: seq<Word>)
    requires |x| % 2 == 0 && |y| % 2 == 0
    ensures FieldsOf(x + y) == FieldsOf(x) + FieldsOf(y)
  {
    if x == [] {
      assert [] + y == y;
    } else {
      FieldsOfConcat(x[2..], y);
      assert (x + y)[2..] == x[2..] + y;
    }
  }

  lemma {:induction false} MethodsOfConcat(x: seq<Word>, y: seq<Word>)
    requires |x| % 3 == 0 && |y| % 3 == 0
    ensures MethodsOf(x + y) == MethodsOf(x) + MethodsOf(y)
  {
    if x == [] {
      assert [] + y == y;
    } else {
      MethodsOfConcat(x[3..], y);
      assert (x + y)[3..] == x[3..] + y;
    }
  }

  /** One more number is readable as long as not all have been read. */
  lemma NumbersMore(data: seq<Byte>, pos: nat, i: nat, n: nat)
    requires i < n && NumbersAt(data, pos, n).Some? && NumbersAt(data, pos, i).Some?
    ensures var e := NumbersAt(data, pos, i).value.1;
            Readable(data, e) &&
            NumbersAt(data, pos, i + 1) ==
            Some((NumbersAt(data, pos, i).value.0 + [UnsignedAt(data, e)], EndAt(data, e)))
  {
    NumbersConcat(data, pos, i, n - i);
    NumbersConcat(data, pos, i, 1);
    var e := NumbersAt(data, pos, i).value.1;
    assert NumbersAt(data, e, n - i).Some?;
    assert NumbersAt(data, EndAt(data, e), 0) == Some(([], EndAt(data, e)));
    assert [UnsignedAt(data, e)] + [] == [UnsignedAt(data, e)];
    assert NumbersAt(data, e, 1) == Some(([UnsignedAt(data, e)], EndAt(data, e)));
  }

  lemma OneField(a: Word, b: Word)
    ensures FieldsOf([a, b]) == [Field(a, b)]
  {
    assert [a, b][2..] == [];
  }

  lemma OneMethod(a: Word, b: Word, c: Word)
    ensures MethodsOf([a, b, c]) == [Method(a, b, c)]
  {
    assert [a, b, c][3..] == [];
  }

  method ReadFields(data: seq<Byte>, pos: nat, n: nat) returns (fs: seq<Field>, next: nat)
    requires FieldsAt(data, pos, n).Some?
    ensures FieldsAt(data, pos, n) == Some((fs, next))
  {
    fs, next := [], pos;
    for i := 0 to n
      invariant FieldsAt(data, pos, i) == Some((fs, next))
    {
      hide Readable, EndAt, UnsignedAt, NumbersAt, FieldsOf, MethodsOf;
      NumbersMore(data, pos, 2 * i, 2 * n);
      NumbersMore(data, pos, 2 * i + 1, 2 * n);
      ghost var ws := NumbersLen(data, pos, 2 * i).value.0;
      var fieldIdx, accessFlags;
      fieldIdx, next := ReadUnsignedLeb128(data, next);
      accessFlags, next := ReadUnsignedLeb128(data, next);
      fs := fs + [Field(fieldIdx, accessFlags)];
      assert ws + [fieldIdx] + [accessFlags] == ws + [fieldIdx, accessFlags];
      FieldsOfConcat(ws, [fieldIdx, accessFlags]);
      OneField(fieldIdx, accessFlags);
      assert 2 * i + 1 + 1 == 2 * (i + 1);
    }
  }

  method ReadMethods(data: seq<Byte>, pos: nat, n: nat) returns (ms: seq<Method>, next: nat)
    requires MethodsAt(data, pos, n).Some?
    ensures MethodsAt(data, pos, n) == Some((ms, next))
  {
    ms, next := [], pos;
    for i := 0 to n
      invariant MethodsAt(data, pos, i) == Some((ms, next))
    {
      hide Readable, EndAt, UnsignedAt, NumbersAt, FieldsOf, MethodsOf;
      NumbersMore(data, pos, 3 * i, 3 * n);
      NumbersMore(data, pos, 3 * i + 1, 3 * n);
      NumbersMore(data, pos, 3 * i + 2, 3 * n);
      ghost var ws := NumbersLen(data, pos, 3 * i).value.0;
      var methodIdx, accessFlags, codeOff;
      methodIdx, next := ReadUnsignedLeb128(data, next);
      accessFlags, next := ReadUnsignedLeb128(data, next);
      codeOff, next := ReadUnsignedLeb128(data, next);
      ms := ms + [Method(methodIdx, accessFlags, codeOff)];
      assert ws + [methodIdx] + [accessFlags] + [codeOff] == ws + [methodIdx, accessFlags, codeOff];
      MethodsOfConcat(ws, [methodIdx, accessFlags, codeOff]);
      OneMethod(methodIdx, accessFlags, codeOff);
      assert 3 * i + 2 + 1 == 3 * (i + 1);
    }
  }

  /** ReadClassData on a non-null pointer, with memory to hold the result. */
  method ReadClassData(data: seq<Byte>, pos: nat) returns (cd: ClassData, next: nat)
    requires ItemAt(data, pos).Some?
    ensures ItemAt(data, pos) == Some((cd, next))
  {
    hide Readable, EndAt, UnsignedAt, NumbersAt, FieldsAt, MethodsAt;
    HeaderAt(data, pos);
    var sn, inn, dn, vn;
    sn, next := ReadUnsignedLeb128(data, pos);
    inn, next := ReadUnsignedLeb128(data, next);
    dn, next := ReadUnsignedLeb128(data, next);
    vn, next := ReadUnsignedLeb128(data, next);
    var sf, inf, dm, vm;
    sf, next := ReadFields(data, next, sn);
    inf, next := ReadFields(data, next, inn);
    dm, next := ReadMethods(data, next, dn);
    vm, next := ReadMethods(data, next, vn);
    cd := ClassData(sf, inf, dm, vm);
  }

  /** The four counts. */
  lemma HeaderAt(data: seq<Byte>, pos: nat)
    requires NumbersAt(data, pos, 4).Some?
    ensures Readable(data, pos) && Readable(data, EndAt(data, pos))
    ensures Readable(data, EndAt(data, EndAt(data, pos)))
    ensures Readable(data, EndAt(data, EndAt(data, EndAt(data, pos))))
    ensures var e1 := EndAt(data, pos);
            var e2 := EndAt(data, e1);
            var e3 := EndAt(data, e2);
            NumbersAt(data, pos, 4)
            == Some(([UnsignedAt(data, pos), UnsignedAt(data, e1), UnsignedAt(data, e2), UnsignedAt(data, e3)],
                     EndAt(data, e3)))
  {
    hide Readable, EndAt, UnsignedAt;
    NumbersMore(data, pos, 0, 4);
    var e1 := EndAt(data, pos);
    assert [] + [UnsignedAt(data, pos)] == [UnsignedAt(data, pos)];
    assert NumbersAt(data, pos, 1) == Some(([UnsignedAt(data, pos)], e1));
    hide NumbersAt;
    NumbersMore(data, pos, 1, 4);
    NumbersMore(data, pos, 2, 4);
    NumbersMore(data, pos, 3, 4);
    var a, b := UnsignedAt(data, pos), UnsignedAt(data, e1);
    var c, d := UnsignedAt(data, EndAt(data, e1)), UnsignedAt(data, EndAt(data, EndAt(data, e1)));
    assert [a] + [b] + [c] + [d] == [a, b, c, d];
  }

  // ---------------------------------------------------------------- the writer's two passes

  method FieldsSize(fs: seq<Field>) returns (len: nat)
    ensures len == |EncodeAll(FieldWords(fs))|
  {
    len := 0;
    for i := 0 to |fs|
      invariant len + |EncodeAll(FieldWords(fs[i..]))| == |EncodeAll(FieldWords(fs))|
    {
      FieldsHead(fs[i..]);
      assert fs[i..][1..] == fs[i + 1..];
      var a := UnsignedLeb128Size(fs[i].fieldIdx);
      var b := UnsignedLeb128Size(fs[i].accessFlags);
      len := len + a + b;
    }
  }

  method MethodsSize(ms: seq<Method>) returns (len: nat)
    ensures len == |EncodeAll(MethodWords(ms))|
  {
    len := 0;
    for i := 0 to |ms|
      invariant len + |EncodeAll(MethodWords(ms[i..]))| == |EncodeAll(MethodWords(ms))|
    {
      MethodsHead(ms[i..]);
      assert ms[i..][1..] == ms[i + 1..];
      var a := UnsignedLeb128Size(ms[i].methodIdx);
      var b := UnsignedLeb128Size(ms[i].accessFlags);
      var c := UnsignedLeb128Size(ms[i].codeOff);
      len := len + a + b + c;
    }
  }

  lemma FieldsHead(fs: seq<Field>)
    requires fs != []
    ensures EncodeAll(FieldWords(fs))
            == Encode(fs[0].fieldIdx) + Encode(fs[0].accessFlags) + EncodeAll(FieldWords(fs[1..]))
  {
    EncodeAllConcat([fs[0].fieldIdx, fs[0].accessFlags], FieldWords(fs[1..]));
    EncodeTwo(fs[0].fieldIdx, fs[0].accessFlags);
  }

  lemma MethodsHead(ms: seq<Method>)
    requires ms != []
    ensures EncodeAll(MethodWords(ms))
            == Encode(ms[0].methodIdx) + Encode(ms[0].accessFlags) + Encode(ms[0].codeOff)
               + EncodeAll(MethodWords(ms[1..]))
  {
    EncodeAllConcat([ms[0].methodIdx, ms[0].accessFlags, ms[0].codeOff], MethodWords(ms[1..]));
    EncodeThree(ms[0].methodIdx, ms[0].accessFlags, ms[0].codeOff);
  }

  method WriteFields(store: array<Byte>, pos: nat, fs: seq<Field>) returns (next: nat)
    requires pos + |EncodeAll(FieldWords(fs))| <= store.Length
    modifies store
    ensures next == pos + |EncodeAll(FieldWords(fs))|
    ensures store[..next] == old(store[..pos]) + EncodeAll(FieldWords(fs))
  {
    hide Encode, EncodeAll, FieldWords;
    next := pos;
    assert fs[0..] == fs;
    for i := 0 to |fs|
      invariant pos <= next && next + |EncodeAll(FieldWords(fs[i..]))| == pos + |EncodeAll(FieldWords(fs))|
      invariant store[..next] + EncodeAll(FieldWords(fs[i..])) == old(store[..pos]) + EncodeAll(FieldWords(fs))
    {
      FieldsHead(fs[i..]);
      assert fs[i..][1..] == fs[i + 1..];
      next := WriteLeb128(store, next, fs[i].fieldIdx);
      next := WriteLeb128(store, next, fs[i].accessFlags);
    }
    NoFields(fs[|fs|..]);
  }

  lemma NoFields(fs: seq<Field>)
    requires fs == []
    ensures EncodeAll(FieldWords(fs)) == []
  {
  }

  lemma NoMethods(ms: seq<Method>)
    requires ms == []
    ensures EncodeAll(MethodWords(ms)) == []
  {
  }

  method WriteMethods(store: array<Byte>, pos: nat, ms: seq<Method>) returns (next: nat)
    requires pos + |EncodeAll(MethodWords(ms))| <= store.Length
    modifies store
    ensures next == pos + |EncodeAll(MethodWords(ms))|
    ensures store[..next] == old(store[..pos]) + EncodeAll(MethodWords(ms))
  {
    hide Encode, EncodeAll, MethodWords;
    next := pos;
    assert ms[0..] == ms;
    for i := 0 to |ms|
      invariant pos <= next && next + |EncodeAll(MethodWords(ms[i..]))| == pos + |EncodeAll(MethodWords(ms))|
      invariant store[..next] + EncodeAll(MethodWords(ms[i..])) == old(store[..pos]) + EncodeAll(MethodWords(ms))
    {
      MethodsHead(ms[i..]);
      assert ms[i..][1..] == ms[i + 1..];
      next := WriteLeb128(store, next, ms[i].methodIdx);
      next := WriteLeb128(store, next, ms[i].accessFlags);
      next := WriteLeb128(store, next, ms[i].codeOff);
    }
    NoMethods(ms[|ms|..]);
  }

  lemma ItemParts(cd: ClassData)
    requires cd.Countable()
    ensures EncodeItem(cd) ==
            HeaderBytes(cd)
            + EncodeAll(FieldWords(cd.staticFields)) + EncodeAll(FieldWords(cd.instanceFields))
            + EncodeAll(MethodWords(cd.directMethods)) + EncodeAll(MethodWords(cd.virtualMethods))
  {
    hide FieldWords, MethodWords, EncodeAll, Encode;
    var sn: Word, inn: Word, dn: Word, vn: Word :=
      |cd.staticFields|, |cd.instanceFields|, |cd.directMethods|, |cd.virtualMethods|;
    var h := [sn, inn, dn, vn];
    var a, b := FieldWords(cd.staticFields), FieldWords(cd.instanceFields);
    var c, d := MethodWords(cd.directMethods), MethodWords(cd.virtualMethods);
    EncodeAllConcat(h + a + b + c, d);
    EncodeAllConcat(h + a + b, c);
    EncodeAllConcat(h + a, b);
    EncodeAllConcat(h, a);
    assert h == [sn, inn] + [dn, vn];
    EncodeAllConcat([sn, inn], [dn, vn]);
    EncodeTwo(sn, inn);
    EncodeTwo(dn, vn);
  }

  method HeaderSize(cd: ClassData) returns (len: nat)
    requires cd.Countable()
    ensures len == |HeaderBytes(cd)|
  {
    hide Encode;
    var n0 := UnsignedLeb128Size(|cd.staticFields|);
    var n1 := UnsignedLeb128Size(|cd.instanceFields|);
    var n2 := UnsignedLeb128Size(|cd.directMethods|);
    var n3 := UnsignedLeb128Size(|cd.virtualMethods|);
    len := n0 + n1 + n2 + n3;
  }

  function HeaderBytes(cd: ClassData): seq<Byte> {
    Encode(|cd.staticFields|) + Encode(|cd.instanceFields|) + Encode(|cd.directMethods|) + Encode(|cd.virtualMethods|)
  }

  method WriteHeader(store: array<Byte>, cd: ClassData) returns (next: nat)
    requires cd.Countable() && |HeaderBytes(cd)| <= store.Length
    modifies store
    ensures next == |HeaderBytes(cd)| && store[..next] == HeaderBytes(cd)
  {
    hide Encode;
    next := WriteLeb128(store, 0, |cd.staticFields|);
    next := WriteLeb128(store, next, |cd.instanceFields|);
    next := WriteLeb128(store, next, |cd.directMethods|);
    next := WriteLeb128(store, next, |cd.virtualMethods|);
  }

  /** EncodeClassData, with memory for the result: the block that the first pass sizes is
      filled exactly by the second. */
  method EncodeClassData(cd: ClassData) returns (store: array<Byte>)
    requires cd.Countable()
    ensures fresh(store) && store[..] == EncodeItem(cd)
  {
    hide FieldWords, MethodWords, EncodeAll, HeaderBytes, EncodeItem;
    ItemParts(cd);
    var n0 := HeaderSize(cd);
    var n1 := FieldsSize(cd.staticFields);
    var n2 := FieldsSize(cd.instanceFields);
    var n3 := MethodsSize(cd.directMethods);
    var n4 := MethodsSize(cd.virtualMethods);
    var len := n0 + n1 + n2 + n3 + n4;
    store := new Byte[len];
    var at := WriteHeader(store, cd);
    at := WriteFields(store, at, cd.staticFields);
    at := WriteFields(store, at, cd.instanceFields);
    at := WriteMethods(store, at, cd.directMethods);
    at := WriteMethods(store, at, cd.virtualMethods);
    assert store[..] == store[..at];
  }
}
