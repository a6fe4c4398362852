/**
  The driver of cs.c: `cs_disasm`, which fills a growing array of instructions, against
  the single-stepping `cs_disasm_iter`; and the ownership of the memory blocks involved.
  The decoder of each architecture, its printers and its tables are parameters.
 */
module Disassembler {
  import opened Words

  type Address = x: int | 0 <= x < 0x1_0000_0000_0000_0000

  /** What the decoder, the instruction tables and the printers write into an instruction;
      `Data` marks bytes that were skipped. */
  datatype Text = Code(id: nat, words: string) | Data

  datatype Outcome = Decoded(size: nat, id: nat, words: string) | Broken

  /** A cs_insn.  `detail` is the address of a separate block. */
  datatype Insn = Insn(address: Address, bytes: seq<Byte>, text: Text, detail: Option<nat>)
  {
    function Size(): nat { |bytes| }

    /** The instruction without its block. */
    function Plain(): Insn { this.(detail := None) }
  }

  /** What the skip-data callback is shown: `cs_disasm` hands it the whole buffer and the
      offset of the broken instruction, `cs_disasm_iter` what is left and the offset zero. */
  datatype View = Whole(buffer: seq<Byte>) | Rest

  /** The fields of cs_struct that the driver only reads.  `decode` maps the decoder state,
      the bytes left and their address to an outcome and a new state; `reset` clears the IT
      block of the ARM decoder and is the identity for the other architectures. */
  datatype Setup<!S(!new)> = Setup(
    decode: (S, seq<Byte>, Address) -> (Outcome, S),
    reset: S -> S,
    skip: Option<nat>,   // skipdata_size, when skipping is on
    callback: Option<(seq<Byte>, nat) -> nat>,
    detail: bool,
    cache: nat,          // INSN_CACHE_SIZE
    exact: bool)         // CAPSTONE_USE_SYS_DYN_MEM
  {
    /** What every decoder promises: it consumes at least one byte and no more than there
        are, so that empty input is broken.  A callback skips no more than an instruction
        has room for. */
    ghost predicate Sound() {
      cache > 0 && (skip.Some? ==> skip.value > 0) &&
      (callback.Some? ==> forall bs: seq<Byte>, at: nat :: callback.value(bs, at) <= 16) &&
      forall s: S, code: seq<Byte>, a: Address :: decode(s, code, a).0.Decoded? ==>
        0 < decode(s, code, a).0.size <= |code|
    }
  }

  function Forward(a: Address, n: nat): Address { (a + n) % 0x1_0000_0000_0000_0000 }

  function Min(x: nat, y: nat): nat { if x < y then x else y }

  /** The bytes kept of an instruction that is `n` bytes long: its last sixteen. */
  function Kept(code: seq<Byte>, n: nat): seq<Byte>
    requires n <= |code|
  {
    code[n - Min(16, n)..n]
  }

  // ---------------------------------------------------------------- one step

  /** The bytes to skip before the rest `code`, if any. */
  function Skipped<S(!new)>(setup: Setup<S>, view: View, code: seq<Byte>): (n: nat)
    ensures n <= |code|
  {
    if setup.skip.None? || setup.skip.value > |code| then 0
    else if setup.callback.None? then setup.skip.value
    else
      var n := match view
        case Whole(buffer) => setup.callback.value(buffer, if |code| <= |buffer| then |buffer| - |code| else 0)
        case Rest => setup.callback.value(code, 0);
      if n > |code| then 0 else n
  }

  datatype Stepped<S> = Stepped(insn: Insn, taken: nat, state: S) | Failed(state: S)

  /** One instruction, or one run of skipped bytes. */
  ghost function StepOf<S(!new)>(setup: Setup<S>, view: View, state: S, code: seq<Byte>, a: Address): (r: Stepped<S>)
    requires setup.Sound()
    ensures r.Stepped? ==> 0 < r.taken <= |code| && r.insn.address == a
    ensures code == [] ==> r.Failed?
  {
    var (outcome, state') := setup.decode(state, code, a);
    match outcome
    case Decoded(n, id, words) => Stepped(Insn(a, Kept(code, n), Code(id, words), None), n, state')
    case Broken =>
      var n := Skipped(setup, view, code);
      if n == 0 then Failed(state') else Stepped(Insn(a, code[..n], Data, None), n, state')
  }

  /** Stepping until a failure, or until `count` instructions; zero stands for no limit. */
  ghost function Iterate<S(!new)>(setup: Setup<S>, view: View, state: S, code: seq<Byte>, a: Address,
          count: nat): seq<Insn>
    requires setup.Sound()
    decreases |code|
  {
    match StepOf(setup, view, state, code, a)
    case Failed(_) => []
    case Stepped(insn, n, state') =>
      if count == 1 then [insn]
      else [insn] + Iterate(setup, view, state', code[n..], Forward(a, n), if count == 0 then 0 else count - 1)
  }

  /** The bytes that each of these steps consumed. */
  ghost function Slices<S(!new)>(setup: Setup<S>, view: View, state: S, code: seq<Byte>, a: Address,
          count: nat): (r: seq<seq<Byte>>)
    requires setup.Sound()
    decreases |code|
  {
    match StepOf(setup, view, state, code, a)
    case Failed(_) => []
    case Stepped(insn, n, state') =>
      if count == 1 then [code[..n]]
      else [code[..n]] + Slices(setup, view, state', code[n..], Forward(a, n), if count == 0 then 0 else count - 1)
  }

  function Flat(ss: seq<seq<Byte>>): seq<Byte> {
    if ss == [] then [] else ss[0] + Flat(ss[1..])
  }

  /** Length of the first `k` slices. */
  function Before(ss: seq<seq<Byte>>, k: nat): nat
    requires k <= |ss|
  {
    |Flat(ss[..k])|
  }

  lemma {:induction false} FlatCons(x: seq<Byte>, ss: seq<seq<Byte>>, k: nat)
    requires k <= |ss|
    ensures Flat([x] + ss) == x + Flat(ss)
    ensures Before([x] + ss, k + 1) == |x| + Before(ss, k)
  {
    assert ([x] + ss)[1..] == ss;
    assert ([x] + ss)[..k + 1] == [x] + ss[..k];
    assert ([x] + ss[..k])[1..] == ss[..k];
  }

  lemma ForwardTwice(a: Address, m: nat, n: nat)
    ensures Forward(Forward(a, m), n) == Forward(a, m + n)
  {
    var q := (a + m) / 0x1_0000_0000_0000_0000;
    assert a + m == 0x1_0000_0000_0000_0000 * q + Forward(a, m);
    var p := (Forward(a, m) + n) / 0x1_0000_0000_0000_0000;
    assert a + m + n == 0x1_0000_0000_0000_0000 * (q + p) + Forward(Forward(a, m), n);
    Unique(a + m + n, q + p, Forward(Forward(a, m), n));
  }

  lemma Unique(x: int, q: int, r: int)
    requires x == 0x1_0000_0000_0000_0000 * q + r && 0 <= r < 0x1_0000_0000_0000_0000
    ensures x % 0x1_0000_0000_0000_0000 == r
  {
  }

  /** An instruction at `a` that was made of the bytes `slice`. */
  predicate MadeOf(insn: Insn, slice: seq<Byte>, a: Address) {
    insn.address == a && slice != [] &&
    insn.bytes == if insn.text == Data then slice else Kept(slice, |slice|)
  }

  /** `insns` were made of consecutive slices of `code`, from its first byte on. */
  ghost predicate Tile(insns: seq<Insn>, ss: seq<seq<Byte>>, code: seq<Byte>, a: Address) {
    |insns| == |ss| && Flat(ss) <= code &&
    forall k :: 0 <= k < |ss| ==> MadeOf(insns[k], ss[k], Forward(a, Before(ss, k)))
  }

  lemma TileOne(insn: Insn, first: seq<Byte>, code: seq<Byte>, a: Address)
    requires MadeOf(insn, first, a) && first <= code
    ensures Tile([insn], [first], code, a)
  {
    FlatCons(first, [], 0);
    assert [first] + [] == [first];
    assert [first][..0] == [];
  }

  lemma TileCons(insn: Insn, first: seq<Byte>, insns: seq<Insn>, ss: seq<seq<Byte>>, code: seq<Byte>, a: Address)
    requires MadeOf(insn, first, a) && first <= code
    requires Tile(insns, ss, code[|first|..], Forward(a, |first|))
    ensures Tile([insn] + insns, [first] + ss, code, a)
  {
    hide Forward, MadeOf, Flat, Before;
    FlatCons(first, ss, 0);
    assert first + code[|first|..] == code;
    forall k | 0 <= k < |ss| + 1
      ensures MadeOf(([insn] + insns)[k], ([first] + ss)[k], Forward(a, Before([first] + ss, k)))
    {
      if k == 0 {
        BeforeNone([first] + ss);
        ForwardNone(a);
      } else {
        FlatCons(first, ss, k - 1);
        ForwardTwice(a, |first|, Before(ss, k - 1));
      }
    }
  }

  lemma BeforeNone(ss: seq<seq<Byte>>)
    ensures Before(ss, 0) == 0
  {
    assert ss[..0] == [];
  }

  lemma ForwardNone(a: Address)
    ensures Forward(a, 0) == a
  {
  }

  /** The consumed slices tile a prefix of the input, in order: each instruction lies where
      the ones before it end, and keeps the last sixteen bytes of its slice. */
  lemma {:induction false} SlicesTile<S(!new)>(setup: Setup<S>, view: View, state: S, code: seq<Byte>, a: Address,
          count: nat)
    requires setup.Sound()
    ensures Tile(Iterate(setup, view, state, code, a, count), Slices(setup, view, state, code, a, count), code, a)
    ensures count > 0 ==> |Iterate(setup, view, state, code, a, count)| <= count
    decreases |code|
  {
    hide Tile, MadeOf, Forward, StepOf, Setup.Sound;
    var r := StepOf(setup, view, state, code, a);
    if r.Failed? {
      TileNone(code, a);
    } else {
      var n, rest := r.taken, if count == 0 then 0 else count - 1;
      FirstMade(setup, view, state, code, a);
      if count == 1 {
        TileOne(r.insn, code[..n], code, a);
      } else {
        SlicesTile(setup, view, r.state, code[n..], Forward(a, n), rest);
        TileCons(r.insn, code[..n], Iterate(setup, view, r.state, code[n..], Forward(a, n), rest),
                 Slices(setup, view, r.state, code[n..], Forward(a, n), rest), code, a);
      }
    }
  }

  lemma TileNone(code: seq<Byte>, a: Address)
    ensures Tile([], [], code, a)
  {
  }

  lemma FirstMade<S(!new)>(setup: Setup<S>, view: View, state: S, code: seq<Byte>, a: Address)
    requires setup.Sound() && StepOf(setup, view, state, code, a).Stepped?
    ensures var r := StepOf(setup, view, state, code, a);
            MadeOf(r.insn, code[..r.taken], a)
  {
  }

  function BytesOf(insns: seq<Insn>): seq<seq<Byte>> { seq(|insns|,
          (k: int) requires 0 <= k < |insns| => insns[k].bytes) }

  /** When nothing is longer than sixteen bytes, the kept bytes put end to end are a prefix
      of the input, and each instruction begins `Size` bytes after the one before. */
  lemma ShortInsnsTile(insns: seq<Insn>, ss: seq<seq<Byte>>, code: seq<Byte>, a: Address)
    requires Tile(insns, ss, code, a) && forall k :: 0 <= k < |ss| ==> |ss[k]| <= 16
    ensures Flat(BytesOf(insns)) <= code
    ensures forall k :: 0 <= k < |insns| - 1 ==> insns[k + 1].address == Forward(insns[k].address, insns[k].Size())
  {
    hide Forward;
    forall k | 0 <= k < |ss| ensures insns[k].bytes == ss[k] {
      assert MadeOf(insns[k], ss[k], Forward(a, Before(ss, k)));
    }
    assert BytesOf(insns) == ss;
    forall k | 0 <= k < |insns| - 1
      ensures insns[k + 1].address == Forward(insns[k].address, insns[k].Size())
    {
      assert MadeOf(insns[k], ss[k], Forward(a, Before(ss, k)));
      assert MadeOf(insns[k + 1], ss[k + 1], Forward(a, Before(ss, k + 1)));
      BeforeNext(ss, k);
      ForwardTwice(a, Before(ss, k), |ss[k]|);
    }
  }

  lemma {:induction false} BeforeNext(ss: seq<seq<Byte>>, k: nat)
    requires k < |ss|
    ensures Before(ss, k + 1) == Before(ss, k) + |ss[k]|
  {
    if k == 0 {
      assert ss[..1] == [ss[0]] && ss[..0] == [];
      assert Flat([ss[0]][1..]) == [];
    } else {
      BeforeNext(ss[1..], k - 1);
      assert ss[..k + 1][1..] == ss[1..][..k] && ss[..k][1..] == ss[1..][..k - 1];
    }
  }

  // ---------------------------------------------------------------- blocks of memory

  /** The blocks that the details of `s` occupy. */
  ghost function Ids(s: seq<Insn>): set<nat> {
    set k | 0 <= k < |s| && s[k].detail.Some? :: s[k].detail.value
  }

  /** No block belongs to two instructions. */
  ghost predicate Distinct(s: seq<Insn>) {
    forall i, j :: 0 <= i < j < |s| && s[i].detail.Some? ==> s[i].detail != s[j].detail
  }

  ghost function PlainAll(s: seq<Insn>): seq<Insn> {
    seq(|s|, (k: int) requires 0 <= k < |s| => s[k].Plain())
  }

  ghost function Block(b: Option<nat>): set<nat> { if b.Some? then {b.value} else {} }

  lemma IdsCons(s: seq<Insn>)
    requires s != [] && Distinct(s)
    ensures Distinct(s[1..])
    ensures s[0].detail.Some? ==> Ids(s) == Ids(s[1..]) + {s[0].detail.value} && s[0].detail.value !in Ids(s[1..])
    ensures s[0].detail.None? ==> Ids(s) == Ids(s[1..])
  {
    forall b | b in Ids(s) ensures b in Ids(s[1..]) || s[0].detail == Some(b) {
      var k :| 0 <= k < |s| && s[k].detail == Some(b);
      if k > 0 {
        assert s[1..][k - 1] == s[k];
      }
    }
    forall b | b in Ids(s[1..]) ensures b in Ids(s) && s[0].detail != Some(b) {
      var k :| 0 <= k < |s[1..]| && s[1..][k].detail == Some(b);
      assert s[k + 1] == s[1..][k];
    }
  }

  lemma IdsAppend(s: seq<Insn>, x: Insn)
    requires Distinct(s) && (x.detail.Some? ==> x.detail.value !in Ids(s))
    ensures Distinct(s + [x])
    ensures Ids(s + [x]) == Ids(s) + Block(x.detail)
  {
    var t := s + [x];
    forall i, j | 0 <= i < j < |t| && t[i].detail.Some? ensures t[i].detail != t[j].detail {
      if j == |s| {
        assert t[i].detail.value in Ids(s);
      }
    }
    forall b | b in Ids(s) ensures b in Ids(t) {
      var k :| 0 <= k < |s| && s[k].detail == Some(b);
      assert t[k] == s[k];
    }
    assert t[|s|] == x;
  }

  /** The blocks in `live` are those of `before`, the array `block` and one detail for each
      instruction that has one. */
  ghost predicate Owned(s: seq<Insn>, block: nat, before: set<nat>, live: set<nat>) {
    Distinct(s) && block !in before && block !in Ids(s) && Ids(s) !! before && live == before + {block} + Ids(s)
  }

  lemma OwnedNone(block: nat, before: set<nat>)
    requires block !in before
    ensures Owned([], block, before, before + {block}) && PlainAll([]) == [] && NoDetails([])
  {
  }

  lemma OwnedMore(s: seq<Insn>, x: Insn, block: nat, before: set<nat>, live: set<nat>)
    requires Owned(s, block, before, live) && (x.detail.Some? ==> x.detail.value !in live)
    ensures Owned(s + [x], block, before, live + Block(x.detail))
    ensures PlainAll(s + [x]) == PlainAll(s) + [x.Plain()]
    ensures NoDetails(s) && x.detail.None? ==> NoDetails(s + [x])
  {
    hide Ids, Distinct;
    IdsAppend(s, x);
  }

  lemma PlainLength(s: seq<Insn>)
    ensures |PlainAll(s)| == |s|
  {
  }

  lemma OwnedBlock(s: seq<Insn>, block: nat, before: set<nat>, live: set<nat>)
    requires Owned(s, block, before, live)
    ensures block in live && (s == [] ==> live - {block} == before)
  {
  }

  ghost predicate NoDetails(s: seq<Insn>) { forall k :: 0 <= k < |s| ==> s[k].detail.None? }

  lemma OwnedMoved(s: seq<Insn>, block: nat, moved: nat, before: set<nat>, live: set<nat>)
    requires Owned(s, block, before, live) && moved !in live
    ensures Owned(s, moved, before, live - {block} + {moved})
  {
    hide Ids, Distinct;
  }

  /** One turn of the loop, seen from the whole: `want` is what is done and what is to come. */
  lemma Turn<S(!new)>(setup: Setup<S>, view: View, state: S, code: seq<Byte>, a: Address, left: nat, done: seq<Insn>,
          want: seq<Insn>)
    requires setup.Sound() && PlainAll(done) + Iterate(setup, view, state, code, a, left) == want
    ensures var r := StepOf(setup, view, state, code, a);
            r.Failed? ==> PlainAll(done) == want
    ensures var r := StepOf(setup, view, state, code, a);
            r.Stepped? ==>
              if left == 1 then PlainAll(done) + [r.insn] == want
              else PlainAll(done) + [r.insn]
                   + Iterate(setup, view, r.state, code[r.taken..], Forward(a, r.taken),
                       if left == 0 then 0 else left - 1) == want
  {
    hide StepOf, PlainAll, Forward, Setup.Sound;
  }

  lemma CacheIsPositive<S(!new)>(setup: Setup<S>)
    requires setup.Sound()
    ensures setup.cache > 0
  {
  }

  lemma IterateEmpty<S(!new)>(setup: Setup<S>, view: View, state: S, a: Address, left: nat)
    requires setup.Sound()
    ensures Iterate(setup, view, state, [], a, left) == []
  {
  }

  // ---------------------------------------------------------------- the callback

  /** Wherever stepping through the buffer comes upon a broken instruction, the callback
      skips as much of the whole buffer as it would of what is left. */
  ghost predicate SkipsAlike<S(!new)>(setup: Setup<S>, view: View, state: S, code: seq<Byte>, a: Address, count: nat)
    requires setup.Sound()
    decreases |code|
  {
    (setup.decode(state, code, a).0.Broken? ==> Skipped(setup, view, code) == Skipped(setup, Rest, code)) &&
    match StepOf(setup, Rest, state, code, a)
    case Failed(_) => true
    case Stepped(_, n, state') =>
      count == 1 || SkipsAlike(setup, view, state', code[n..], Forward(a, n), if count == 0 then 0 else count - 1)
  }

  /** The two entry points find the same instructions exactly when the callback, if there is
      one, answers alike wherever it is asked. */
  lemma {:induction false} SameInsnsIff<S(!new)>(setup: Setup<S>, view: View, state: S, code: seq<Byte>, a: Address,
          count: nat)
    requires setup.Sound()
    ensures Iterate(setup, view, state, code, a, count) == Iterate(setup, Rest, state, code, a, count)
            <==> SkipsAlike(setup, view, state, code, a, count)
    decreases |code|
  {
    hide Setup.Sound, Forward, Kept, Skipped;
    var r, r' := StepOf(setup, view, state, code, a), StepOf(setup, Rest, state, code, a);
    if r.Stepped? && r'.Stepped? && r.insn == r'.insn {
      SameTaken(setup, view, state, code, a);
      if count != 1 {
        var x := Iterate(setup, view, r.state, code[r.taken..], Forward(a, r.taken),
            if count == 0 then 0 else count - 1);
        var y := Iterate(setup, Rest, r.state, code[r.taken..], Forward(a, r.taken),
            if count == 0 then 0 else count - 1);
        SameInsnsIff(setup, view, r.state, code[r.taken..], Forward(a, r.taken), if count == 0 then 0 else count - 1);
        assert ([r.insn] + x)[1..] == x && ([r.insn] + y)[1..] == y;
      }
    } else {
      Unlike(setup, view, state, code, a);
      if r.Stepped? {
        assert Iterate(setup, view, state, code, a, count)[0] == r.insn;
      }
      if r'.Stepped? {
        assert Iterate(setup, Rest, state, code, a, count)[0] == r'.insn;
      }
    }
  }

  lemma SameTaken<S(!new)>(setup: Setup<S>, view: View, state: S, code: seq<Byte>, a: Address)
    requires setup.Sound()
    ensures var r, r' := StepOf(setup, view, state, code, a), StepOf(setup, Rest, state, code, a);
            r.Stepped? && r'.Stepped? && r.insn == r'.insn ==>
              r.taken == r'.taken && r.state == r'.state &&
              (setup.decode(state, code, a).0.Broken? ==> Skipped(setup, view, code) == Skipped(setup, Rest, code))
  {
    hide Skipped;
    if setup.decode(state, code, a).0.Broken? {
      var m, n := Skipped(setup, view, code), Skipped(setup, Rest, code);
      assert |code[..m]| == m && |code[..n]| == n;
    }
  }

  lemma Unlike<S(!new)>(setup: Setup<S>, view: View, state: S, code: seq<Byte>, a: Address)
    requires setup.Sound()
    ensures var r, r' := StepOf(setup, view, state, code, a), StepOf(setup, Rest, state, code, a);
            !(r.Stepped? && r'.Stepped? && r.insn == r'.insn) && !(r.Failed? && r'.Failed?) ==>
              setup.decode(state, code, a).0.Broken? && Skipped(setup, view, code) != Skipped(setup, Rest, code)
    ensures var r, r' := StepOf(setup, view, state, code, a), StepOf(setup, Rest, state, code, a);
            r.Failed? && r'.Failed? && setup.decode(state, code, a).0.Broken? ==>
              Skipped(setup, view, code) == Skipped(setup, Rest, code)
  {
    hide Skipped;
  }

  /** Without a callback they always do. */
  lemma {:induction false} SameWithoutCallback<S(!new)>(setup: Setup<S>, view: View, state: S, code: seq<Byte>,
          a: Address,
                                                        count: nat)
    requires setup.Sound() && setup.callback.None?
    ensures SkipsAlike(setup, view, state, code, a, count)
    decreases |code|
  {
    hide Setup.Sound, Forward, Kept;
    var r := StepOf(setup, Rest, state, code, a);
    if r.Stepped? && count != 1 {
      SameWithoutCallback(setup, view, r.state, code[r.taken..], Forward(a, r.taken),
          if count == 0 then 0 else count - 1);
    }
  }

  // ---------------------------------------------------------------- the handle

  datatype Errnum = Ok | Memory

  /** The caller's cursors, which the stepping entry point moves. */
  class Cursor {
    var code: seq<Byte>
    var address: Address

    constructor (code: seq<Byte>, address: Address)
      ensures this.code == code && this.address == address
    {
      this.code, this.address := code, address;
    }
  }

  /** A cs_struct together with the allocator behind it.  The n-th allocation succeeds
      when `grants(n)`; `live` are the blocks allocated and not yet freed. */
  class Engine<S(!new)> {
    const setup: Setup<S>
    const grants: nat -> bool
    var state: S
    var errnum: Errnum
    var calls: nat
    var live: set<nat>

    constructor (setup: Setup<S>, grants: nat -> bool, state: S)
      requires setup.Sound()
      ensures Valid() && live == {} && this.state == state && this.setup == setup && this.grants == grants
    {
      this.setup, this.grants, this.state := setup, grants, state;
      errnum, calls, live := Ok, 0, {};
    }

    ghost predicate Valid()
      reads this`live, this`calls
    {
      setup.Sound() && forall b :: b in live ==> b < calls
    }

    method Malloc() returns (b: Option<nat>)
      requires Valid()
      modifies this`calls, this`live
      ensures Valid() && calls == old(calls) + 1
      ensures b == if grants(old(calls)) then Some(old(calls)) else None
      ensures live == if b.Some? then old(live) + {old(calls)} else old(live)
    {
      b := None;
      if grants(calls) {
        b := Some(calls);
        live := live + {calls};
      }
      calls := calls + 1;
    }

    /** Frees a block that is allocated; None is the null pointer. */
    method Free(b: Option<nat>)
      requires Valid() && (b.Some? ==> b.value in live)
      modifies this`live
      ensures Valid() && live == if b.Some? then old(live) - {b.value} else old(live)
    {
      if b.Some? {
        live := live - {b.value};
      }
    }

    /** Moves a block; the old one stays when there is no room. */
    method Realloc(b: nat) returns (moved: Option<nat>)
      requires Valid() && b in live
      modifies this`calls, this`live
      ensures Valid() && calls == old(calls) + 1
      ensures moved == if grants(old(calls)) then Some(old(calls)) else None
      ensures live == if moved.Some? then old(live) - {b} + {old(calls)} else old(live)
    {
      moved := None;
      if grants(calls) {
        moved := Some(calls);
        live := live - {b} + {calls};
      }
      calls := calls + 1;
    }

    // -------------------------------------------------------------- stepping

    /** `cs_disasm_iter`: one step, which moves the cursors past what it consumed. */
    method Step(cursor: Cursor) returns (found: bool, insn: Insn)
      requires setup.Sound()
      modifies this`state, this`errnum, cursor
      ensures var r := StepOf(setup, Rest, old(state), old(cursor.code), old(cursor.address));
              found == r.Stepped? && state == r.state &&
              (found ==> insn == r.insn && cursor.code == old(cursor.code)[r.taken..] &&
                         cursor.address == Forward(old(cursor.address), r.taken)) &&
              (!found ==> cursor.code == old(cursor.code) && cursor.address == old(cursor.address))
    {
      errnum := Ok;
      insn := Insn(cursor.address, [], Data, None);
      var (outcome, state') := setup.decode(state, cursor.code, cursor.address);
      state := state';
      if outcome.Decoded? {
        insn := insn.(bytes := Kept(cursor.code, outcome.size), text := Code(outcome.id, outcome.words));
        cursor.code, cursor.address := cursor.code[outcome.size..], Forward(cursor.address, outcome.size);
      } else {
        if setup.skip.None? || setup.skip.value > |cursor.code| {
          return false, insn;
        }
        var n := setup.skip.value;
        if setup.callback.Some? {
          n := setup.callback.value(cursor.code, 0);
          if n > |cursor.code| {
            return false, insn;
          }
          if n == 0 {
            return false, insn;
          }
        }
        insn := insn.(bytes := cursor.code[..n]);
        cursor.code, cursor.address := cursor.code[n..], Forward(cursor.address, n);
      }
      found := true;
    }

    // -------------------------------------------------------------- whole buffers

    /** Frees the blocks of the first `c` instructions. */
    method FreeDetails(insns: array<Insn>, c: nat)
      requires Valid() && c <= insns.Length && Distinct(insns[..c]) && Ids(insns[..c]) <= live
      modifies this`live
      ensures Valid() && live == old(live) - Ids(insns[..c])
    {
      for i := 0 to c
        invariant Valid() && Distinct(insns[i..c]) && Ids(insns[i..c]) <= live
        invariant live == old(live) - (Ids(insns[..c]) - Ids(insns[i..c]))
      {
        assert insns[i..c][1..] == insns[i + 1..c];
        IdsCons(insns[i..c]);
        Free(insns[i].detail);
      }
    }

    /** `cs_free` */
    method FreeAll(insns: array<Insn>, block: nat)
      requires Valid() && Distinct(insns[..]) && Ids(insns[..]) <= live && block in live && block !in Ids(insns[..])
      modifies this`live
      ensures Valid() && live == old(live) - Ids(insns[..]) - {block}
    {
      assert insns[..insns.Length] == insns[..];
      FreeDetails(insns, insns.Length);
      Free(Some(block));
    }

    /** The old contents in an array of another length. */
    method Resized(insns: array<Insn>, n: nat) returns (moved: array<Insn>)
      ensures fresh(moved) && moved.Length == n
      ensures moved[..Min(n, insns.Length)] == insns[..Min(n, insns.Length)]
    {
      moved := new Insn[n]((k: nat) => Insn(0, [], Data, None));
      for i := 0 to Min(n, insns.Length)
        invariant moved[..i] == insns[..i]
      {
        moved[i] := insns[i];
      }
    }

    /** The first `c` entries of `total` hold what was disassembled, and own exactly the
        blocks allocated since the call. */
    ghost predicate Owns(total: array<Insn>, c: nat, block: nat, before: set<nat>)
      reads this, total
    {
      c <= total.Length && Owned(total[..c], block, before, live)
    }

    /** The body of the loop up to the counters: decodes into entry `at`, or skips. */
    method Fill(input: seq<Byte>, total: array<Insn>, at: nat, code: seq<Byte>,
            address: Address) returns (found: bool, n: nat)
      requires Valid() && at < total.Length && |code| <= |input|
      modifies this`state, this`calls, this`live, total
      ensures Valid() && calls >= old(calls)
      ensures var r := StepOf(setup, Whole(input), old(state), code, address);
              found == r.Stepped? && state == r.state && (found ==> n == r.taken && total[at].Plain() == r.insn)
      ensures total[..at] == old(total[..at])
      ensures found ==> (total[at].detail.Some? ==> old(calls) <= total[at].detail.value) &&
                        live == old(live) + Block(total[at].detail)
      ensures found && !setup.detail ==> total[at].detail.None?
      ensures !found ==> live == old(live)
    {
      var detail: Option<nat> := None;
      n := 0;
      if setup.detail {
        detail := Malloc();
      }
      var (outcome, state') := setup.decode(state, code, address);
      state := state';
      if outcome.Decoded? {
        total[at] := Insn(address, Kept(code, outcome.size), Code(outcome.id, outcome.words), detail);
        n := outcome.size;
      } else {
        if setup.detail {
          Free(detail);
        }
        if setup.skip.None? || setup.skip.value > |code| {
          return false, n;
        }
        n := setup.skip.value;
        if setup.callback.Some? {
          n := setup.callback.value(input, |input| - |code|);
          if n > |code| {
            return false, n;
          }
          if n == 0 {
            return false, n;
          }
        }
        total[at] := Insn(address, code[..n], Data, None);
      }
      found := true;
    }

    /** One turn of the loop as far as the array and its blocks are concerned. */
    method Next(input: seq<Byte>, total: array<Insn>, at: nat, code: seq<Byte>, address: Address,
                ghost block: nat, ghost before: set<nat>)
      returns (found: bool, n: nat)
      requires Valid() && at < total.Length && |code| <= |input| && Owns(total, at, block, before)
      requires !setup.detail ==> NoDetails(total[..at])
      modifies this`state, this`calls, this`live, total
      ensures Valid() && calls >= old(calls)
      ensures var r := StepOf(setup, Whole(input), old(state), code, address);
              found == r.Stepped? && state == r.state &&
              if r.Stepped? then n == r.taken && PlainAll(total[..at + 1]) == PlainAll(old(total[..at])) + [r.insn]
              else total[..at] == old(total[..at])
      ensures var c := if found then at + 1 else at;
              Owns(total, c, block, before) && (!setup.detail ==> NoDetails(total[..c]))
    {
      hide StepOf, Setup.Sound, Ids, Distinct, PlainAll, Owned, Forward, NoDetails;
      ghost var done, live1 := total[..at], live;
      found, n := Fill(input, total, at, code, address);
      if found {
        assert total[..at + 1] == done + [total[at]];
        OwnedMore(done, total[at], block, before, live1);
      }
    }

    /** Frees everything after a failed reallocation. */
    method GiveUp(total: array<Insn>, c: nat, block: nat, ghost before: set<nat>)
      requires Valid() && Owns(total, c, block, before)
      requires !setup.detail ==> NoDetails(total[..c])
      modifies this`live
      ensures Valid() && live == before
    {
      if setup.detail {
        FreeDetails(total, c);
      } else {
        assert Ids(total[..c]) == {};
      }
      Free(Some(block));
    }

    /** `realloc` of the array of instructions. */
    method Move(total: array<Insn>, c: nat, block: nat, n: nat, ghost before: set<nat>)
      returns (moved: Option<nat>, total': array<Insn>)
      requires Valid() && Owns(total, c, block, before) && c <= n
      modifies this`calls, this`live
      ensures Valid() && calls == old(calls) + 1 && (moved.None? <==> !grants(old(calls)))
      ensures moved.None? ==> total' == total && live == old(live)
      ensures moved.Some? ==>
                fresh(total') && total'.Length == n && total'[..c] == total[..c] &&
                moved.value == old(calls) && Owns(total', c, moved.value, before)
    {
      assert block in live && block < calls;
      moved := Realloc(block);
      total' := total;
      if moved.Some? {
        total' := Resized(total, n);
        assert total'[..c] == total'[..Min(n, total.Length)][..c] == total[..c];
        OwnedMoved(total[..c], block, moved.value, before, old(live));
      }
    }

    /** One of these allocations failed. */
    ghost predicate Refused(from: nat, stop: nat) { exists n :: from <= n < stop && !grants(n) }

    /** Room for `cacheSize` more entries; without it everything is freed. */
    method Grow(total: array<Insn>, c: nat, block: nat, cacheSize: nat, ghost before: set<nat>)
      returns (total': array<Insn>, block': nat)
      requires Valid() && errnum == Ok && total.Length == c && Owns(total, c, block, before)
      requires !setup.detail ==> NoDetails(total[..c])
      modifies this`errnum, this`calls, this`live
      ensures Valid() && old(calls) <= calls
      ensures errnum == Ok ==>
                fresh(total') && total'.Length == c + cacheSize && total'[..c] == total[..c] &&
                old(calls) <= block' < calls && Owns(total', c, block', before)
      ensures errnum == Memory ==> live == before && Refused(old(calls), calls)
    {
      hide Setup.Sound, Ids, Distinct, Owned, NoDetails;
      block' := block;
      var moved: Option<nat>;
      moved, total' := Move(total, c, block, c + cacheSize, before);
      if moved.None? {
        GiveUp(total, c, block, before);
        errnum := Memory;
      } else {
        block' := moved.value;
      }
    }

    /** The end of `cs_disasm`: gives back what the array holds beyond its `c` entries. */
    method Trim(total: array<Insn>, c: nat, f: nat, cacheSize: nat, block: nat, ghost before: set<nat>)
      returns (n: nat, insns: array?<Insn>, block': nat)
      requires Valid() && errnum == Ok && Owns(total, c, block, before) && block < calls
      requires f <= cacheSize && total.Length == c + cacheSize - f
      requires !setup.detail ==> NoDetails(total[..c])
      modifies this`errnum, this`calls, this`live
      ensures Valid() && old(calls) <= calls
      ensures (insns == null) == (n == 0) && (n == 0 ==> live == before)
      ensures errnum == Ok ==> n == c
      ensures insns != null ==>
                errnum == Ok && (insns == total || fresh(insns)) && insns.Length == c &&
                Owns(insns, c, block', before) &&
                insns[..] == total[..c]
      ensures errnum == Memory ==> Refused(old(calls), calls)
    {
      hide Setup.Sound, Ids, Distinct, Owned, NoDetails;
      n, insns, block' := c, null, block;
      OwnedBlock(total[..c], block, before, live);
      if c == 0 {
        Free(Some(block));
      } else {
        var kept := total;
        if f != cacheSize {
          var moved: Option<nat>;
          moved, kept := Move(total, c, block, total.Length - (cacheSize - f), before);
          if moved.None? {
            GiveUp(total, c, block, before);
            n, errnum := 0, Memory;
            return;
          }
          block' := moved.value;
        }
        insns := kept;
        assert kept[..c] == kept[..];
      }
    }

    /** The loop of `cs_disasm` and what follows it, from an empty array of `cacheSize`
        entries. */
    method Collect(input: seq<Byte>, start: Address, count: nat, empty: array<Insn>, first: nat, ghost before: set<nat>)
      returns (c: nat, insns: array?<Insn>, block: nat)
      requires Valid() && errnum == Ok && empty.Length > 0 && Owns(empty, 0, first, before)
      requires first < calls && (!setup.detail ==> NoDetails(empty[..0])) && PlainAll(empty[..0]) == []
      modifies this`state, this`errnum, this`calls, this`live, empty
      ensures Valid() && old(calls) <= calls
      ensures errnum == Ok ==> c == |Iterate(setup, Whole(input), old(state), input, start, count)|
      ensures (insns == null) == (c == 0) && (c == 0 ==> live == before)
      ensures insns != null ==>
                errnum == Ok && (insns == empty || fresh(insns)) && insns.Length == c &&
                Owns(insns, c, block, before) &&
                PlainAll(insns[..]) == Iterate(setup, Whole(input), old(state), input, start, count)
      ensures errnum == Memory ==> Refused(old(calls), calls)
    {
      hide Iterate, StepOf, Setup.Sound, Ids, Distinct, PlainAll, Owned, Forward, NoDetails;
      c, insns, block := 0, null, first;
      var f, at, total := 0, 0, empty;
      var code, address, cacheSize := input, start, empty.Length;
      ghost var want := Iterate(setup, Whole(input), state, input, start, count);
      while code != []
        invariant Valid() && errnum == Ok && old(calls) <= calls && block < calls && (total == empty || fresh(total))
        invariant at == c && f < cacheSize && total.Length == c + cacheSize - f
        invariant |code| <= |input|
        invariant count > 0 ==> c < count
        invariant Owns(total, c, block, before)
        invariant !setup.detail ==> NoDetails(total[..c])
        invariant PlainAll(total[..c]) + Iterate(setup, Whole(input), state, code, address, Left(count, c)) == want
        decreases |code|
      {
        Turn(setup, Whole(input), state, code, address, Left(count, c), total[..c], want);
        var found, n := Next(input, total, at, code, address, block, before);
        if !found {
          assert PlainAll(total[..c]) == want;
          break;
        }
        f, c := f + 1, c + 1;
        if count > 0 && c == count {
          assert PlainAll(total[..c]) == want;
          break;
        }
        if f == cacheSize {
          cacheSize := cacheSize * 8 / 5;
          total, block := Grow(total, c, block, cacheSize, before);
          if errnum == Memory {
            c := 0;
            return;
          }
          at, f := c, 0;
        } else {
          at := at + 1;
        }
        code, address := code[n..], Forward(address, n);
      }
      IterateEmpty(setup, Whole(input), state, address, Left(count, c));
      assert PlainAll(total[..c]) == want;
      PlainLength(total[..c]);
      c, insns, block := Trim(total, c, f, cacheSize, block, before);
    }

    /** `cs_disasm`.  On success the array holds exactly the instructions that stepping from
        the same decoder state finds, with the callback shown the whole buffer (`SameInsnsIff`
        says when that is what `cs_disasm_iter` finds); when memory runs out everything allocated meanwhile
        is freed again. */
    method Disasm(input: seq<Byte>, start: Address, count: nat) returns (c: nat, insns: array?<Insn>, block: nat)
      requires Valid()
      modifies this`state, this`errnum, this`calls, this`live
      ensures Valid()
      ensures errnum == Ok ==> c == |Iterate(setup, Whole(input), setup.reset(old(state)), input, start, count)|
      ensures (insns == null) == (c == 0) && (c == 0 ==> live == old(live))
      ensures insns != null ==>
                errnum == Ok && fresh(insns) && insns.Length == c && Owns(insns, c, block, old(live)) &&
                PlainAll(insns[..]) == Iterate(setup, Whole(input), setup.reset(old(state)), input, start, count)
      ensures errnum == Memory ==> Refused(old(calls), calls)
    {
      hide Iterate, StepOf, Setup.Sound, Ids, Distinct, PlainAll, Owned, NoDetails;
      errnum, state := Ok, setup.reset(state);
      c, insns, block := 0, null, 0;
      var cacheSize := if setup.exact && 0 < count <= setup.cache then count else setup.cache;
      CacheIsPositive(setup);
      var granted := Malloc();
      if granted.None? {
        errnum := Memory;
        return;
      }
      var total := new Insn[cacheSize]((k: nat) => Insn(0, [], Data, None));
      OwnedNone(granted.value, old(live));
      assert total[..0] == [];
      c, insns, block := Collect(input, start, count, total, granted.value, old(live));
    }

    /** Disassembling and then freeing the result leaves no block behind. */
    method DisasmAndFree(input: seq<Byte>, start: Address, count: nat)
      requires Valid()
      modifies this`state, this`errnum, this`calls, this`live
      ensures Valid() && live == old(live)
    {
      var c, insns, block := Disasm(input, start, count);
      if insns != null {
        assert insns[..c] == insns[..];
        FreeAll(insns, block);
      }
    }
  }

  /** How many more instructions may come; zero still stands for no limit. */
  function Left(count: nat, done: nat): nat
    requires count > 0 ==> done <= count
  {
    if count == 0 then 0 else count - done
  }
}
