/**
  How long a code_item is: the catch-handler walker `codeitem_end` and the length that the
  dumper computes from it, against the code_item and encoded_catch_handler_list of the
  Dalvik Executable format.
 */
module CodeItem {
  import opened Words
  import opened Leb128

  // ---------------------------------------------------------------- the format

  /** One encoded_catch_handler, its numbers given by their bytes: any LEB128 spelling of
      a number is allowed. */
  datatype CatchHandler = CatchHandler(size: seq<Byte>, pairs: seq<(seq<Byte>, seq<Byte>)>, catchAll: Option<seq<Byte>>)
  {
    /** `size` counts the pairs; it is not positive when a catch-all follows them. */
    predicate WellFormed() {
      IsSleb(size) &&
      |pairs| == Abs(SignedGroups(size)) &&
      (catchAll.Some? <==> SignedGroups(size) <= 0) &&
      (catchAll.Some? ==> IsUleb(catchAll.value)) &&
      forall i :: 0 <= i < |pairs| ==> IsUleb(pairs[i].0) && IsUleb(pairs[i].1)
    }

    function Bytes(): seq<Byte> {
      size + PairBytes(pairs) + (if catchAll.Some? then catchAll.value else [])
    }
  }

  datatype HandlerList = HandlerList(count: seq<Byte>, handlers: seq<CatchHandler>)
  {
    predicate WellFormed() {
      IsUleb(count) && Groups(count) == |handlers| && forall h :: h in handlers ==> h.WellFormed()
    }

    function Bytes(): seq<Byte> {
      count + HandlerBytes(handlers)
    }
  }

  function Abs(n: int): nat { if n < 0 then -n else n }

  function PairBytes(ps: seq<(seq<Byte>, seq<Byte>)>): seq<Byte> {
    if ps == [] then [] else ps[0].0 + ps[0].1 + PairBytes(ps[1..])
  }

  function HandlerBytes(hs: seq<CatchHandler>): seq<Byte> {
    if hs == [] then [] else hs[0].Bytes() + HandlerBytes(hs[1..])
  }

  // ---------------------------------------------------------------- the walker

  /** Where `n` unsigned numbers from `pos` on end. */
  function SkipAt(data: seq<Byte>, pos: nat, n: nat): Option<nat>
    decreases n
  {
    if n == 0 then Some(pos)
    else if !Readable(data, pos) then None
    else SkipAt(data, EndAt(data, pos), n - 1)
  }

  /** Negation of an int32_t: the least one is its own negative. */
  function Negate(n: int): int {
    if n == -0x8000_0000 then n else -n
  }

  /** How many numbers the walker skips after the count `n`. */
  function Following(n: int): nat {
    var num := if n <= 0 then Negate(n) else n;
    (if num > 0 then 2 * num else 0) + (if n <= 0 then 1 else 0)
  }

  function HandlersEnd(data: seq<Byte>, pos: nat, n: nat): Option<nat>
    decreases n
  {
    if n == 0 then Some(pos)
    else if !Readable(data, pos) then None
    else
      match SkipAt(data, EndAt(data, pos), Following(SignedAt(data, pos)))
      case None => None
      case Some(e) => HandlersEnd(data, e, n - 1)
  }

  function ListEnd(data: seq<Byte>, pos: nat): Option<nat> {
    if !Readable(data, pos) then None else HandlersEnd(data, EndAt(data, pos), UnsignedAt(data, pos))
  }

  lemma {:induction false} SkipConcat(data: seq<Byte>, pos: nat, m: nat, n: nat)
    requires SkipAt(data, pos, m).Some?
    ensures SkipAt(data, pos, m + n) == SkipAt(data, SkipAt(data, pos, m).value, n)
    decreases m
  {
    if m > 0 {
      SkipConcat(data, EndAt(data, pos), m - 1, n);
    }
  }

  /** codeitem_end. */
  method CodeItemEnd(data: seq<Byte>, pos: nat) returns (next: nat)
    requires ListEnd(data, pos).Some?
    ensures ListEnd(data, pos) == Some(next)
  {
    hide Readable, EndAt, UnsignedAt, SignedAt;
    var numOfList: nat;
    numOfList, next := ReadUnsignedLeb128(data, pos);
    while numOfList > 0
      invariant HandlersEnd(data, next, numOfList) == ListEnd(data, pos)
    {
      ghost var from := next;
      var numOfHandlers;
      numOfHandlers, next := ReadSignedLeb128(data, next);
      var num := numOfHandlers;
      if numOfHandlers <= 0 {
        num := Negate(numOfHandlers);
      }
      ghost var total := Following(numOfHandlers);
      ghost var done := 0;
      ghost var first := next;
      while num > 0
        invariant done + (if num > 0 then 2 * num else 0) + (if numOfHandlers <= 0 then 1 else 0) == total
        invariant SkipAt(data, next, total - done) == SkipAt(data, first, total)
        decreases num
      {
        var _, p := ReadUnsignedLeb128(data, next);
        var _, q := ReadUnsignedLeb128(data, p);
        next := q;
        num := num - 1;
        done := done + 2;
      }
      if numOfHandlers <= 0 {
        var _, p := ReadUnsignedLeb128(data, next);
        next := p;
      }
      assert SkipAt(data, next, 0) == Some(next);
      numOfList := numOfList - 1;
    }
  }

  // ---------------------------------------------------------------- the walker meets the format

  /** A well-formed spelling is skipped exactly. */
  lemma SkipOne(pre: seq<Byte>, bs: seq<Byte>, post: seq<Byte>)
    requires IsUleb(bs)
    ensures SkipAt(pre + bs + post, |pre|, 1) == Some(|pre| + |bs|)
  {
    UnsignedReads(pre, bs, post);
    assert SkipAt(pre + bs + post, |pre| + |bs|, 0) == Some(|pre| + |bs|);
  }

  lemma {:induction false} SkipPairs(pre: seq<Byte>, ps: seq<(seq<Byte>, seq<Byte>)>, post: seq<Byte>)
    requires forall i :: 0 <= i < |ps| ==> IsUleb(ps[i].0) && IsUleb(ps[i].1)
    ensures SkipAt(pre + PairBytes(ps) + post, |pre|, 2 * |ps|) == Some(|pre| + |PairBytes(ps)|)
    decreases |ps|
  {
    hide IsUleb, Readable, EndAt;
    var data := pre + PairBytes(ps) + post;
    if ps != [] {
      hide SkipAt;
      var a, b, rest := ps[0].0, ps[0].1, PairBytes(ps[1..]);
      assert data == pre + a + (b + rest + post);
      SkipOne(pre, a, b + rest + post);
      assert data == (pre + a) + b + (rest + post);
      SkipOne(pre + a, b, rest + post);
      SkipConcat(data, |pre|, 1, 1);
      assert data == (pre + a + b) + rest + post;
      SkipPairs(pre + a + b, ps[1..], post);
      SkipConcat(data, |pre|, 2, 2 * |ps[1..]|);
      assert 2 + 2 * |ps[1..]| == 2 * |ps|;
    }
  }

  lemma {:induction false} PairsLength(ps: seq<(seq<Byte>, seq<Byte>)>)
    requires forall i :: 0 <= i < |ps| ==> IsUleb(ps[i].0) && IsUleb(ps[i].1)
    ensures |PairBytes(ps)| >= 2 * |ps|
    decreases |ps|
  {
    if ps != [] {
      PairsLength(ps[1..]);
    }
  }

  lemma OneHandler(pre: seq<Byte>, h: CatchHandler, post: seq<Byte>)
    requires h.WellFormed() && |h.Bytes()| < 0x1_0000_0000
    ensures var data := pre + h.Bytes() + post;
            Readable(data, |pre|) &&
            SkipAt(data, EndAt(data, |pre|), Following(SignedAt(data, |pre|))) == Some(|pre| + |h.Bytes()|)
  {
    hide IsSleb, IsUleb, Readable, EndAt, SignedAt, SignedGroups, SkipAt;
    var data := pre + h.Bytes() + post;
    var n := SignedGroups(h.size);
    var tail := if h.catchAll.Some? then h.catchAll.value else [];
    var pairs := PairBytes(h.pairs);
    assert h.Bytes() == h.size + pairs + tail;
    Regrouped(pre, h.size, pairs, tail, post);
    SignedReads(pre, h.size, pairs + tail + post);
    PairsLength(h.pairs);
    assert n != -0x8000_0000;
    SkipPairs(pre + h.size, h.pairs, tail + post);
    if h.catchAll.Some? {
      SkipOne(pre + h.size + pairs, tail, post);
      SkipConcat(data, |pre + h.size|, 2 * |h.pairs|, 1);
    }
  }

  lemma Regrouped(pre: seq<Byte>, a: seq<Byte>, b: seq<Byte>, c: seq<Byte>, post: seq<Byte>)
    ensures pre + (a + b + c) + post == pre + a + (b + c + post)
    ensures pre + (a + b + c) + post == (pre + a) + b + (c + post)
    ensures pre + (a + b + c) + post == (pre + a + b) + c + post
  {
    assert pre + (a + b + c) == (pre + a + b) + c;
    assert (pre + a + b) + c + post == (pre + a) + b + (c + post);
  }

  lemma {:induction false} AllHandlers(pre: seq<Byte>, hs: seq<CatchHandler>, post: seq<Byte>)
    requires (forall h :: h in hs ==> h.WellFormed()) && |HandlerBytes(hs)| < 0x1_0000_0000
    ensures HandlersEnd(pre + HandlerBytes(hs) + post, |pre|, |hs|) == Some(|pre| + |HandlerBytes(hs)|)
    decreases |hs|
  {
    hide CatchHandler.WellFormed, CatchHandler.Bytes, SkipAt, Readable, EndAt, SignedAt, Following;
    if hs != [] {
      var b, rest := hs[0].Bytes(), HandlerBytes(hs[1..]);
      var data := pre + HandlerBytes(hs) + post;
      assert data == pre + b + (rest + post);
      OneHandler(pre, hs[0], rest + post);
      assert data == (pre + b) + rest + post;
      AllHandlers(pre + b, hs[1..], post);
    }
  }

  /** On every well-formed list that fits a 32-bit address space, the walker stops exactly
      one past its last byte. */
  lemma WalkerStopsAtEnd(pre: seq<Byte>, l: HandlerList, post: seq<Byte>)
    requires l.WellFormed() && |l.Bytes()| < 0x1_0000_0000
    ensures ListEnd(pre + l.Bytes() + post, |pre|) == Some(|pre| + |l.Bytes()|)
  {
    hide HandlersEnd, HandlerBytes, CatchHandler.WellFormed, CatchHandler.Bytes, IsUleb;
    var rest := HandlerBytes(l.handlers);
    var data := pre + l.Bytes() + post;
    assert data == pre + l.count + (rest + post);
    UnsignedReads(pre, l.count, rest + post);
    assert data == (pre + l.count) + rest + post;
    AllHandlers(pre + l.count, l.handlers, post);
  }

  // ---------------------------------------------------------------- code items

  function U2(h: Half): (bs: seq<Byte>)
    ensures |bs| == 2
  {
    var v: int := h;
    [v % 0x100, v / 0x100]
  }

  function U4(w: Word): (bs: seq<Byte>)
    ensures |bs| == 4
  {
    [ByteAt(w, 0), ByteAt(w, 1), ByteAt(w, 2), ByteAt(w, 3)]
  }

  function U2At(data: seq<Byte>, pos: nat): Half
    requires pos + 2 <= |data|
  {
    var low: int, high: int := data[pos], data[pos + 1];
    low + 0x100 * high
  }

  function U4At(data: seq<Byte>, pos: nat): Word
    requires pos + 4 <= |data|
  {
    WordOfBytes(data[pos], data[pos + 1], data[pos + 2], data[pos + 3])
  }

  lemma U2RoundTrip(data: seq<Byte>, pos: nat, h: Half)
    requires pos + 2 <= |data| && data[pos..pos + 2] == U2(h)
    ensures U2At(data, pos) == h
  {
    assert data[pos] == data[pos..pos + 2][0] && data[pos + 1] == data[pos..pos + 2][1];
  }

  lemma U4RoundTrip(data: seq<Byte>, pos: nat, w: Word)
    requires pos + 4 <= |data| && data[pos..pos + 4] == U4(w)
    ensures U4At(data, pos) == w
  {
    var s := data[pos..pos + 4];
    assert data[pos] == s[0] && data[pos + 1] == s[1] && data[pos + 2] == s[2] && data[pos + 3] == s[3];
    WordBytesRoundTrip(w);
  }

  datatype Try = Try(startAddr: Word, insnCount: Half, handlerOff: Half)

  datatype Code = Code(registersSize: Half, insSize: Half, outsSize: Half, debugInfoOff: Word, insns: seq<Half>,
                       padding: Half, tries: seq<Try>, handlers: HandlerList)
  {
    predicate WellFormed() {
      |insns| < 0x1_0000_0000 && |tries| < 0x1_0000 && handlers.WellFormed() && |handlers.Bytes()| < 0x1_0000_0000
    }

    function Header(): (bs: seq<Byte>)
      requires WellFormed()
      ensures |bs| == 16
    {
      U2(registersSize) + U2(insSize) + U2(outsSize) + U2(|tries|) + U4(debugInfoOff) + U4(|insns|)
    }

    /** The item; padding, tries and handlers are there only when there are tries. */
    function Bytes(): seq<Byte>
      requires WellFormed()
    {
      Header() + InsnBytes(insns) +
      (if tries == [] then []
       else (if |insns| % 2 == 1 then U2(padding) else []) + TryBytes(tries) + handlers.Bytes())
    }
  }

  function InsnBytes(insns: seq<Half>): (bs: seq<Byte>)
    ensures |bs| == 2 * |insns|
  {
    if insns == [] then [] else U2(insns[0]) + InsnBytes(insns[1..])
  }

  function TryBytes(tries: seq<Try>): (bs: seq<Byte>)
    ensures |bs| == 8 * |tries|
  {
    if tries == [] then []
    else U4(tries[0].startAddr) + U2(tries[0].insnCount) + U2(tries[0].handlerOff) + TryBytes(tries[1..])
  }

  /** dexGetCatchHandlerData: behind the instructions, rounded up to four bytes, and the
      tries.  Positions in `data` are addresses. */
  function HandlerData(data: seq<Byte>, item: nat): nat
    requires item + 16 <= |data|
  {
    var insnsEnd := item + 16 + 2 * U4At(data, item + 12);
    (if insnsEnd % 4 != 0 then insnsEnd + 2 else insnsEnd) + 8 * U2At(data, item + 6)
  }

  function LengthOf(data: seq<Byte>, item: nat): Option<int> {
    if item + 16 > |data| then None
    else if U2At(data, item + 6) != 0 then
      match ListEnd(data, HandlerData(data, item))
      case None => None
      case Some(e) => Some(e - item)
    else Some(16 + 2 * U4At(data, item + 12))
  }

  /** The length that the dumper copies. */
  method CodeItemLength(data: seq<Byte>, item: nat) returns (len: int)
    requires LengthOf(data, item).Some?
    ensures LengthOf(data, item) == Some(len)
  {
    if U2At(data, item + 6) != 0 {
      var tail := CodeItemEnd(data, HandlerData(data, item));
      len := tail - item;
    } else {
      len := 16 + 2 * U4At(data, item + 12);
    }
  }

  lemma HeaderReads(pre: seq<Byte>, c: Code, post: seq<Byte>)
    requires c.WellFormed()
    ensures var data := pre + c.Bytes() + post;
            |pre| + 16 <= |data| && U2At(data, |pre| + 6) == |c.tries| && U4At(data, |pre| + 12) == |c.insns|
  {
    hide U2, U4, InsnBytes, TryBytes, U2At, U4At;
    var data := pre + c.Bytes() + post;
    var h := c.Header();
    assert h[6..8] == U2(|c.tries|) && h[12..16] == U4(|c.insns|);
    assert data[|pre|..|pre| + 16] == h;
    assert data[|pre| + 6..|pre| + 8] == h[6..8] && data[|pre| + 12..|pre| + 16] == h[12..16];
    U2RoundTrip(data, |pre| + 6, |c.tries|);
    U4RoundTrip(data, |pre| + 12, |c.insns|);
  }

  /** For every well-formed code item at a word-aligned address, the computed length is
      the length of the item. */
  lemma LengthIsExact(pre: seq<Byte>, c: Code, post: seq<Byte>)
    requires c.WellFormed() && |pre| % 4 == 0
    ensures LengthOf(pre + c.Bytes() + post, |pre|) == Some(|c.Bytes()|)
  {
    hide U2At, U4At, HandlerList.WellFormed, ListEnd;
    var data := pre + c.Bytes() + post;
    HeaderReads(pre, c, post);
    if c.tries != [] {
      var pad := if |c.insns| % 2 == 1 then U2(c.padding) else [];
      var front := c.Header() + InsnBytes(c.insns) + pad + TryBytes(c.tries);
      assert c.Bytes() == front + c.handlers.Bytes();
      assert data == (pre + front) + c.handlers.Bytes() + post;
      RoundsUp(|pre|, |c.insns|);
      assert HandlerData(data, |pre|) == |pre + front|;
      WalkerStopsAtEnd(pre + front, c.handlers, post);
    }
  }

  lemma RoundsUp(base: nat, n: nat)
    requires base % 4 == 0
    ensures (base + 16 + 2 * n) % 4 == 0 <==> n % 2 == 0
  {
    var b, k := base / 4, n / 2;
    assert base == 4 * b;
    if n % 2 == 0 {
      FourTimes(base + 16 + 2 * n, b + 4 + k);
    } else {
      ModFour(base + 16 + 2 * n, b + 4 + k, 2);
    }
  }
}
