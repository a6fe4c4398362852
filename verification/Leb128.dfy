/**
  The LEB128 readers, the size function and the writer of the DEX dumper, against the
  definition of LEB128 (section 7.6 of DWARF 4, and the Dalvik Executable format, which
  allows one to five bytes): seven bits a byte, least significant group first, bit 7 set
  on every byte but the last.
 */
module Leb128 {
  import opened Words

  // ---------------------------------------------------------------- the format

  /** The low seven bits. */
  function Seven(b: Byte): (v: nat)
    ensures v < 0x80
  {
    b % 0x80
  }

  /** The number written by the seven-bit groups of `bs`. */
  function Groups(bs: seq<Byte>): (v: nat)
  {
    if bs == [] then 0 else Seven(bs[0]) + 0x80 * Groups(bs[1..])
  }

  /** Two to the number of bits that `n` groups hold. */
  function Span(n: nat): (m: nat)
    ensures m > 0
  {
    if n == 0 then 1 else 0x80 * Span(n - 1)
  }

  /** A LEB128 number: one to five bytes, exactly the last without bit 7. */
  predicate IsLeb(bs: seq<Byte>) {
    1 <= |bs| <= 5 && bs[|bs| - 1] < 0x80 && forall i :: 0 <= i < |bs| - 1 ==> bs[i] >= 0x80
  }

  /** A LEB128 number that fits uint32_t. */
  predicate IsUleb(bs: seq<Byte>) {
    IsLeb(bs) && Groups(bs) < 0x1_0000_0000
  }

  /** The value of `bs` as a two's complement number of 7 * |bs| bits. */
  function SignedGroups(bs: seq<Byte>): int {
    Signed(Groups(bs), Span(|bs|))
  }

  /** A LEB128 number that, read as signed, fits int32_t. */
  predicate IsSleb(bs: seq<Byte>) {
    IsLeb(bs) && -0x8000_0000 <= SignedGroups(bs) < 0x8000_0000
  }

  // ---------------------------------------------------------------- readers

  /** Length of the number at `pos` as the readers find it: they stop after a byte
      without bit 7, or after five bytes. */
  function LengthAt(data: seq<Byte>, pos: nat): Option<nat> {
    if pos >= |data| then None
    else if data[pos] < 0x80 then Some(1)
    else if pos + 1 >= |data| then None
    else if data[pos + 1] < 0x80 then Some(2)
    else if pos + 2 >= |data| then None
    else if data[pos + 2] < 0x80 then Some(3)
    else if pos + 3 >= |data| then None
    else if data[pos + 3] < 0x80 then Some(4)
    else if pos + 4 >= |data| then None
    else Some(5)
  }

  /** A number can be read at `pos` without leaving `data`. */
  predicate Readable(data: seq<Byte>, pos: nat) {
    LengthAt(data, pos).Some?
  }

  function EndAt(data: seq<Byte>, pos: nat): (e: nat)
    requires Readable(data, pos)
    ensures pos < e <= |data|
  {
    pos + LengthAt(data, pos).value
  }

  /** The word that the unsigned reader returns: the low 32 bits of the groups. */
  function UnsignedAt(data: seq<Byte>, pos: nat): Word
    requires Readable(data, pos)
  {
    Wrap(Groups(data[pos..EndAt(data, pos)]))
  }

  /** The int that the signed reader returns. */
  function SignedAt(data: seq<Byte>, pos: nat): int
    requires Readable(data, pos)
  {
    var n := LengthAt(data, pos).value;
    var g := Groups(data[pos..pos + n]);
    if n < 5 then Signed(g, Span(n)) else Signed(Wrap(g), 0x1_0000_0000)
  }

  /** The first `n` groups, written out. */
  lemma GroupsOf(bs: seq<Byte>, n: nat)
    requires 1 <= n <= |bs| && n <= 5
    ensures Groups(bs[..n]) == Partial(bs, n)
    ensures Span(1) == 0x80 && Span(2) == 0x4000 && Span(3) == 0x20_0000 && Span(4) == 0x1000_0000
    decreases n
  {
    GroupsStep(bs, n);
    assert Span(0) == 1 && Span(1) == 0x80 && Span(2) == 0x4000 && Span(3) == 0x20_0000 && Span(4) == 0x1000_0000;
    if n == 1 {
      assert bs[..0] == [];
    } else {
      GroupsOf(bs, n - 1);
    }
  }

  function Partial(bs: seq<Byte>, n: nat): int
    requires n <= |bs|
  {
    (if n > 0 then Seven(bs[0]) else 0) + (if n > 1 then 0x80 * Seven(bs[1]) else 0)
    + (if n > 2 then 0x4000 * Seven(bs[2]) else 0) + (if n > 3 then 0x20_0000 * Seven(bs[3]) else 0)
    + (if n > 4 then 0x1000_0000 * Seven(bs[4]) else 0)
  }

  lemma GroupsStep(bs: seq<Byte>, n: nat)
    requires 1 <= n <= |bs|
    ensures Groups(bs[..n]) == Groups(bs[..n - 1]) + Span(n - 1) * Seven(bs[n - 1])
  {
    GroupsSnoc(bs[..n - 1], bs[n - 1]);
    assert bs[..n - 1] + [bs[n - 1]] == bs[..n];
  }

  lemma {:induction false} GroupsSnoc(bs: seq<Byte>, b: Byte)
    ensures Groups(bs + [b]) == Groups(bs) + Span(|bs|) * Seven(b)
  {
    if bs == [] {
      assert [] + [b] == [b];
      assert Groups([b][1..]) == 0;
    } else {
      GroupsSnoc(bs[1..], b);
      assert (bs + [b])[1..] == bs[1..] + [b];
      assert 0x80 * (Span(|bs| - 1) * Seven(b)) == Span(|bs|) * Seven(b);
    }
  }

  lemma SliceOf(data: seq<Byte>, pos: nat, n: nat)
    requires Readable(data, pos) && LengthAt(data, pos).value == n
    ensures Groups(data[pos..pos + n]) == Partial(data[pos..], n)
  {
    GroupsOf(data[pos..], n);
    assert data[pos..pos + n] == data[pos..][..n];
  }

  /** readUnsignedLeb128. */
  method ReadUnsignedLeb128(data: seq<Byte>, pos: nat) returns (result: Word, next: nat)
    requires Readable(data, pos)
    ensures result == UnsignedAt(data, pos) && next == EndAt(data, pos)
  {
    SliceOf(data, pos, LengthAt(data, pos).value);
    hide Groups;
    result := data[pos];
    next := pos + 1;
    if result > 0x7f {
      var cur: int := data[next];
      next := next + 1;
      result := result % 0x80 + 0x80 * Seven(cur);
      if cur > 0x7f {
        cur := data[next];
        next := next + 1;
        result := result + 0x4000 * Seven(cur);
        if cur > 0x7f {
          cur := data[next];
          next := next + 1;
          result := result + 0x20_0000 * Seven(cur);
          if cur > 0x7f {
            cur := data[next];
            next := next + 1;
            HighBits(result, cur);
            result := Plus(result, 0x1000_0000 * cur);
          }
        }
      }
    }
  }

  /** The four high bits of the fifth byte fall off the word. */
  lemma HighBits(low: nat, cur: Byte)
    requires low < 0x1000_0000
    ensures Plus(low, 0x1000_0000 * cur) == Wrap(low + 0x1000_0000 * Seven(cur)) == low + 0x1000_0000 * (cur % 16)
  {
    var c: int := cur;
    var r: int := c % 16;
    WrapUnique(low + 0x1000_0000 * c, c / 16, low + 0x1000_0000 * r);
    var v: int := Seven(cur);
    assert v % 16 == r;
    WrapUnique(low + 0x1000_0000 * v, v / 16, low + 0x1000_0000 * r);
  }

  /** readSignedLeb128: each shift pair sign-extends the bits read so far. */
  method ReadSignedLeb128(data: seq<Byte>, pos: nat) returns (result: int, next: nat)
    requires Readable(data, pos)
    ensures result == SignedAt(data, pos) && next == EndAt(data, pos)
  {
    SliceOf(data, pos, LengthAt(data, pos).value);
    Spans();
    hide Groups, Span, Signed;
    result := data[pos];
    next := pos + 1;
    if result <= 0x7f {
      result := Signed(result, 0x80);
    } else {
      var cur: int := data[next];
      next := next + 1;
      result := result % 0x80 + 0x80 * Seven(cur);
      if cur <= 0x7f {
        result := Signed(result, 0x4000);
      } else {
        cur := data[next];
        next := next + 1;
        result := result + 0x4000 * Seven(cur);
        if cur <= 0x7f {
          result := Signed(result, 0x20_0000);
        } else {
          cur := data[next];
          next := next + 1;
          result := result + 0x20_0000 * Seven(cur);
          if cur <= 0x7f {
            result := Signed(result, 0x1000_0000);
          } else {
            cur := data[next];
            next := next + 1;
            HighBits(result, cur);
            result := Signed(Plus(result, 0x1000_0000 * cur), 0x1_0000_0000);
          }
        }
      }
    }
  }

  lemma Spans()
    ensures Span(1) == 0x80 && Span(2) == 0x4000 && Span(3) == 0x20_0000 && Span(4) == 0x1000_0000
    ensures Span(5) == 0x8_0000_0000
  {
    assert Span(0) == 1;
    assert Span(1) == 0x80;
    assert Span(2) == 0x4000;
    assert Span(3) == 0x20_0000;
    assert Span(4) == 0x1000_0000;
  }

  // ---------------------------------------------------------------- the readers meet the format

  lemma LengthOfLeb(pre: seq<Byte>, bs: seq<Byte>, post: seq<Byte>)
    requires IsLeb(bs)
    ensures LengthAt(pre + bs + post, |pre|) == Some(|bs|)
    ensures (pre + bs + post)[|pre|..|pre| + |bs|] == bs
  {
    var data := pre + bs + post;
    assert forall i :: 0 <= i < |bs| ==> data[|pre| + i] == bs[i];
  }

  /** Every unsigned number of the format, canonical or not, is read back as its value,
      and the reader stops right after it. */
  lemma UnsignedReads(pre: seq<Byte>, bs: seq<Byte>, post: seq<Byte>)
    requires IsUleb(bs)
    ensures var data := pre + bs + post;
            Readable(data, |pre|) && UnsignedAt(data, |pre|) == Groups(bs) && EndAt(data, |pre|) == |pre| + |bs|
  {
    LengthOfLeb(pre, bs, post);
    WrapUnique(Groups(bs), 0, Groups(bs));
  }

  /** Every signed number of the format that fits an int is read back as its value. */
  lemma SignedReads(pre: seq<Byte>, bs: seq<Byte>, post: seq<Byte>)
    requires IsSleb(bs)
    ensures var data := pre + bs + post;
            Readable(data, |pre|) && SignedAt(data, |pre|) == SignedGroups(bs) && EndAt(data, |pre|) == |pre| + |bs|
  {
    LengthOfLeb(pre, bs, post);
    if |bs| == 5 {
      Spans();
      GroupsOf(bs, 5);
      assert bs[..5] == bs;
      var g := Groups(bs);
      FiveBytes(g, bs);
    }
  }

  lemma FiveBytes(g: nat, bs: seq<Byte>)
    requires |bs| == 5 && g == Partial(bs, 5)
    requires -0x8000_0000 <= Signed(g, 0x8_0000_0000) < 0x8000_0000
    ensures Signed(Wrap(g), 0x1_0000_0000) == Signed(g, 0x8_0000_0000)
  {
    if 2 * g < 0x8_0000_0000 {
      WrapUnique(g, 0, g);
    } else {
      WrapUnique(g, 7, g - 0x7_0000_0000);
    }
  }

  // ---------------------------------------------------------------- the writer

  /** The canonical encoding. */
  function Encode(data: nat): (bs: seq<Byte>)
    ensures |bs| >= 1
    decreases data
  {
    if data < 0x80 then [data] else [data % 0x80 + 0x80] + Encode(data / 0x80)
  }

  /** unsignedLeb128Size. */
  method UnsignedLeb128Size(data: Word) returns (count: nat)
    ensures count == |Encode(data)|
  {
    var rest: nat := data / 0x80;
    count := 1;
    while rest != 0
      invariant count + (if rest == 0 then 0 else |Encode(rest)|) == |Encode(data)|
    {
      rest := rest / 0x80;
      count := count + 1;
    }
  }

  lemma EncodeStep(data: nat)
    ensures data < 0x80 ==> Encode(data) == [data]
    ensures data >= 0x80 ==>
              Encode(data) == [data % 0x80 + 0x80] + Encode(data / 0x80) && |Encode(data)| == 1 + |Encode(data / 0x80)|
  {
  }

  /** writeLeb128: the bytes go to `store` from `pos` on. */
  method WriteLeb128(store: array<Byte>, pos: nat, data: Word) returns (next: nat)
    requires pos + |Encode(data)| <= store.Length
    modifies store
    ensures next == pos + |Encode(data)|
    ensures store[..next] == old(store[..pos]) + Encode(data)
    ensures store[next..] == old(store[next..])
  {
    hide Encode;
    var rest: nat := data;
    next := pos;
    while rest >= 0x80
      invariant pos <= next && next + |Encode(rest)| == pos + |Encode(data)|
      invariant store[..next] + Encode(rest) == old(store[..pos]) + Encode(data)
      invariant forall i :: next <= i < store.Length ==> store[i] == old(store[i])
      decreases rest
    {
      ghost var before, left := store[..next], Encode(rest / 0x80);
      EncodeStep(rest);
      store[next] := rest % 0x80 + 0x80;
      next := next + 1;
      assert store[..next] == before + [rest % 0x80 + 0x80];
      assert before + ([rest % 0x80 + 0x80] + left) == (before + [rest % 0x80 + 0x80]) + left;
      rest := rest / 0x80;
    }
    ghost var before := store[..next];
    EncodeStep(rest);
    store[next] := rest;
    next := next + 1;
    assert store[..next] == before + [rest];
    assert store[next..] == old(store[next..]);
  }

  lemma {:induction false} EncodeGroups(data: nat)
    ensures Groups(Encode(data)) == data
    ensures Encode(data)[|Encode(data)| - 1] < 0x80
    ensures forall i :: 0 <= i < |Encode(data)| - 1 ==> Encode(data)[i] >= 0x80
  {
    if data >= 0x80 {
      EncodeGroups(data / 0x80);
      var bs := Encode(data);
      assert bs[1..] == Encode(data / 0x80);
      assert bs[0] % 0x80 == data % 0x80;
    } else {
      assert Groups(Encode(data)[1..]) == 0;
    }
  }

  lemma {:induction false} EncodeLength(data: nat, n: nat)
    requires n > 0
    ensures |Encode(data)| <= n <==> data < Span(n)
    decreases n
  {
    if data >= 0x80 && n > 1 {
      EncodeLength(data / 0x80, n - 1);
    }
  }

  /** What the writer writes is a number of the format with the value written, in the
      fewest bytes. */
  lemma EncodeIsUleb(data: Word)
    ensures IsUleb(Encode(data)) && Groups(Encode(data)) == data
    ensures forall n: nat :: n > 0 && data < Span(n) ==> |Encode(data)| <= n
  {
    EncodeGroups(data);
    EncodeLength(data, 5);
    Spans();
    forall n: nat | n > 0 && data < Span(n) ensures |Encode(data)| <= n {
      EncodeLength(data, n);
    }
  }
}
