/**
 Fixed-width unsigned integers as their bits, most significant first, with the operators the
 CRC code applies to them. A `uint16_t` is a word of 16 bits, and so on.
 */
module Bits {
  type Word = seq<bool>

  function Zeros(n: nat): (z: Word)
    ensures |z| == n
  {
    seq(n, _ => false)
  }

  function Xor(a: Word, b: Word): (r: Word)
    requires |a| == |b|
    ensures |r| == |a|
  {
    seq(|a|, i requires 0 <= i < |a| => a[i] != b[i])
  }

  function And(a: Word, b: Word): (r: Word)
    requires |a| == |b|
    ensures |r| == |a|
  {
    seq(|a|, i requires 0 <= i < |a| => a[i] && b[i])
  }

  function Or(a: Word, b: Word): (r: Word)
    requires |a| == |b|
    ensures |r| == |a|
  {
    seq(|a|, i requires 0 <= i < |a| => a[i] || b[i])
  }

  function Shl(a: Word, k: nat): (r: Word)
    requires k <= |a|
    ensures |r| == |a|
  {
    a[k..] + Zeros(k)
  }

  function Shr(a: Word, k: nat): (r: Word)
    requires k <= |a|
    ensures |r| == |a|
  {
    Zeros(k) + a[..|a| - k]
  }

  /** Value of a word. */
  function Value(w: Word): nat {
    if w == [] then 0 else 2 * Value(w[..|w| - 1]) + if w[|w| - 1] then 1 else 0
  }

  /** The low `n` bits of a number. */
  function Low(i: nat, n: nat): (w: Word)
    ensures |w| == n
  {
    if n == 0 then [] else Low(i / 2, n - 1) + [i % 2 == 1]
  }

  lemma {:induction false} LowOfValue(w: Word)
    ensures Low(Value(w), |w|) == w
  {
    if w != [] {
      LowOfValue(w[..|w| - 1]);
    }
  }

  lemma {:induction false} ByteValue(w: Word, bound: nat)
    requires bound == Power(|w|)
    ensures Value(w) < bound
  {
    if w != [] {
      ByteValue(w[..|w| - 1], Power(|w| - 1));
    }
  }

  function Power(n: nat): (p: nat)
    ensures p > 0
  {
    if n == 0 then 1 else 2 * Power(n - 1)
  }

  lemma {:induction false} IndexOfByte(w: Word)
    requires |w| == 8
    ensures Value(w) < 256
  {
    assert Power(4) == 16;
    assert Power(8) == 256;
    ByteValue(w, 256);
  }

  // ----- bit reversal

  function Reverse(a: Word): (r: Word)
    ensures |r| == |a|
  {
    seq(|a|, i requires 0 <= i < |a| => a[|a| - 1 - i])
  }

  const MASK_F0: Word := [true, true, true, true, false, false, false, false]
  const MASK_0F: Word := [false, false, false, false, true, true, true, true]
  const MASK_CC: Word := [true, true, false, false, true, true, false, false]
  const MASK_33: Word := [false, false, true, true, false, false, true, true]
  const MASK_AA: Word := [true, false, true, false, true, false, true, false]
  const MASK_55: Word := [false, true, false, true, false, true, false, true]

  /** Swaps nibbles, then pairs, then neighbours. */
  function Reverse8Bits(data: Word): (r: Word)
    requires |data| == 8
    ensures r == Reverse(data)
  {
    var a := Or(And(Shl(data, 4), MASK_F0), And(Shr(data, 4), MASK_0F));
    var b := Or(And(Shl(a, 2), MASK_CC), And(Shr(a, 2), MASK_33));
    var c := Or(And(Shl(b, 1), MASK_AA), And(Shr(b, 1), MASK_55));
    assert a == data[4..] + data[..4];
    assert b == [data[6], data[7], data[4], data[5], data[2], data[3], data[0], data[1]];
    c
  }

  lemma {:induction false} SwapHalves(data: Word, h: nat)
    requires |data| == 2 * h
    ensures Or(Shl(Zeros(h) + Reverse(data[h..]), h), Zeros(h) + Reverse(data[..h])) == Reverse(data)
  {
  }

  /** Reverses a 16-, 32- or 64-bit word by reversing its halves and swapping them. */
  function ReverseBits(data: Word): (r: Word)
    requires |data| == 8 || |data| == 16 || |data| == 32 || |data| == 64
    ensures r == Reverse(data)
    decreases |data|
  {
    if |data| == 8 then Reverse8Bits(data)
    else
      var h := |data| / 2;
      var low := Zeros(h) + ReverseBits(data[h..]);
      var high := Zeros(h) + ReverseBits(data[..h]);
      SwapHalves(data, h);
      Or(Shl(low, h), high)
  }

  // ----- algebra

  lemma {:induction false} XorCommutes(a: Word, b: Word)
    requires |a| == |b|
    ensures Xor(a, b) == Xor(b, a)
  {
  }

  lemma {:induction false} XorSame(a: Word)
    ensures Xor(a, a) == Zeros(|a|)
  {
  }

  lemma {:induction false} XorCancel(a: Word, b: Word, c: Word)
    requires |a| == |b| == |c| && Xor(a, c) == Xor(b, c)
    ensures a == b
  {
    forall i | 0 <= i < |a| ensures a[i] == b[i] {
      assert Xor(a, c)[i] == Xor(b, c)[i];
    }
  }

  lemma {:induction false} ReverseXor(a: Word, b: Word)
    requires |a| == |b|
    ensures Reverse(Xor(a, b)) == Xor(Reverse(a), Reverse(b))
  {
  }

  lemma {:induction false} ReverseTwice(a: Word)
    ensures Reverse(Reverse(a)) == a
  {
  }
}
