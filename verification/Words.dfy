/**
  Fixed-width integers of the 32-bit ARM targets: words, halfwords and bytes are
  ranges of int, so every wrap-around is written out with `Wrap`.
 */
module Words {

  datatype Option<T> = None | Some(value: T)

  function Pow2(n: nat): nat { if n == 0 then 1 else 2 * Pow2(n - 1) }

  lemma {:induction false} Pow2Positive(n: nat)
    ensures Pow2(n) > 0
  {
    if n > 0 {
      Pow2Positive(n - 1);
    }
  }

  type Word = x: int | 0 <= x < 0x1_0000_0000
  type Half = x: int | 0 <= x < 0x1_0000
  type Byte = x: int | 0 <= x < 0x100

  /** Value modulo 2^32, as every uint32_t expression of the source computes it. */
  function Wrap(x: int): Word {
    x % 0x1_0000_0000
  }

  /** Addition of 32-bit quantities. */
  function Plus(x: int, y: int): Word {
    Wrap(x + y)
  }

  /** The multiple of four at or below `x`: Align(x, 4). */
  function Align4(x: int): int {
    x - x % 4
  }

  /** Reads the low bits of `x`, a field of modulus `m`, as a two's complement number. */
  function Signed(x: int, m: int): int
    requires 0 < m
  {
    if 2 * x < m then x else x - m
  }

  function LowHalf(w: Word): Half { w % 0x1_0000 }

  function HighHalf(w: Word): Half { w / 0x1_0000 }

  function WordOf(low: Half, high: Half): Word { low + 0x1_0000 * high }

  function ByteAt(w: Word, i: int): Byte
    requires 0 <= i < 4
  {
    if i == 0 then w % 0x100
    else if i == 1 then w / 0x100 % 0x100
    else if i == 2 then w / 0x100 / 0x100 % 0x100
    else w / 0x100 / 0x100 / 0x100
  }

  function WordOfBytes(b0: Byte, b1: Byte, b2: Byte, b3: Byte): Word {
    b0 + 0x100 * b1 + 0x1_0000 * b2 + 0x100_0000 * b3
  }

  lemma WordBytesRoundTrip(w: Word)
    ensures WordOfBytes(ByteAt(w, 0), ByteAt(w, 1), ByteAt(w, 2), ByteAt(w, 3)) == w
  {
  }

  lemma WrapUnique(x: int, q: int, r: int)
    requires x == 0x1_0000_0000 * q + r && 0 <= r < 0x1_0000_0000
    ensures Wrap(x) == r
  {
  }

  lemma WrapAgain(x: int, y: int)
    ensures Plus(Wrap(x), y) == Wrap(x + y)
  {
    var z := Wrap(x) + y;
    assert z == 0x1_0000_0000 * (z / 0x1_0000_0000) + Wrap(z);
    assert x == 0x1_0000_0000 * (x / 0x1_0000_0000) + Wrap(x);
    WrapUnique(x + y, x / 0x1_0000_0000 + z / 0x1_0000_0000, Wrap(z));
  }

  lemma TwiceIsEven(x: int, k: int)
    requires x == 2 * k
    ensures x % 2 == 0
  {
  }

  lemma WrapEven(k: int)
    ensures Wrap(2 * k) % 2 == 0 && Wrap(2 * k + 1) == Wrap(2 * k) + 1
  {
    var q, w := 2 * k / 0x1_0000_0000, Wrap(2 * k);
    assert w == 2 * k - 0x1_0000_0000 * q;
    TwiceIsEven(w, k - 0x8000_0000 * q);
    WrapUnique(2 * k + 1, q, w + 1);
  }

  lemma WrapWord(k: int)
    ensures Wrap(4 * k) % 4 == 0
  {
    var q, w := 4 * k / 0x1_0000_0000, Wrap(4 * k);
    assert w == 4 * k - 0x1_0000_0000 * q == 4 * (k - 0x4000_0000 * q);
    FourTimes(w, k - 0x4000_0000 * q);
  }

  lemma FourTimes(x: int, k: int)
    requires x == 4 * k
    ensures x % 4 == 0 && Align4(x) == x
  {
    ModFour(x, k, 0);
  }

  lemma ModFour(x: int, q: int, r: int)
    requires x == 4 * q + r && 0 <= r < 4
    ensures x % 4 == r
  {
  }

  lemma OddIs(x: int, k: int)
    requires x == 2 * k + 1
    ensures x % 2 == 1
  {
  }

  lemma LowBits(v: int)
    ensures v % 4 == 2 ==> v % 2 == 0
    ensures v % 4 == 0 ==> v % 2 == 0
    ensures v % 4 == 1 || v % 4 == 3 ==> v % 2 == 1
  {
    var k := v / 4;
    if v % 4 == 0 { TwiceIsEven(v, 2 * k); }
    else if v % 4 == 2 { TwiceIsEven(v, 2 * k + 1); }
    else if v % 4 == 1 { OddIs(v, 2 * k); }
    else { OddIs(v, 2 * k + 1); }
  }

  lemma WordHalves(w: int, low: int, high: int)
    requires w == 0x1_0000 * high + low && 0 <= low < 0x1_0000
    ensures w % 0x1_0000 == low && w / 0x1_0000 == high
  {
  }

  /** Quotient and remainder are unique. */
  lemma ModIs(x: int, m: int, q: int, r: int)
    requires m > 0 && x == m * q + r && 0 <= r < m
    ensures x / m == q && x % m == r
  {
    var e := q - x / m;
    assert x == m * (x / m) + x % m;
    assert m * e == x % m - r;
    assert e >= 1 ==> m * e >= m;
    assert e <= -1 ==> m * e <= -m;
  }
}
