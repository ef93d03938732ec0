/** Bit arithmetic on unbounded integers, with the meaning Python gives to
    `x & (1 << i)`, `x & (2**n - 1)` and shifting bits into an accumulator. */
module Bits {

  function Pow2(n: nat): (r: nat)
    ensures r >= 1
  {
    if n == 0 then 1 else 2 * Pow2(n - 1)
  }

  lemma {:induction false} Pow2Add(m: nat, n: nat)
    ensures Pow2(m + n) == Pow2(m) * Pow2(n)
  {
    if m > 0 {
      Pow2Add(m - 1, n);
      calc {
        Pow2(m + n);
        2 * Pow2(m - 1 + n);
        2 * (Pow2(m - 1) * Pow2(n));
        (2 * Pow2(m - 1)) * Pow2(n);
      }
    }
  }

  /** Bit i of x in two's complement, for either sign of x: halving is floor
      division, as it is for Python's `>>` and `&`. */
  predicate Bit(x: int, i: nat)
    decreases i
  {
    if i == 0 then x % 2 == 1 else Bit(x / 2, i - 1)
  }

  /** The n low bits of x, most significant first: what a bus master clocks
      out for an n-bit field. */
  function WordBits(x: int, n: nat): (bits: seq<bool>)
  {
    seq(n, k requires 0 <= k < n => Bit(x, n - 1 - k))
  }

  /** The value of a field received most significant bit first. */
  function FromBitsMsb(bits: seq<bool>): (r: nat)
    ensures r < Pow2(|bits|)
  {
    if bits == [] then 0
    else 2 * FromBitsMsb(bits[..|bits| - 1]) + (if bits[|bits| - 1] then 1 else 0)
  }

  lemma DivModUnique(x: int, d: int, q: int, r: int)
    requires d > 0 && 0 <= r < d && x == d * q + r
    ensures x / d == q && x % d == r
  {
    var q', r' := x / d, x % d;
    assert x == d * q' + r';
    if q' > q {
      MulAtLeast(d, q' - q);
    } else if q' < q {
      MulAtLeast(d, q - q');
    }
  }

  lemma MulAtLeast(d: int, k: int)
    requires d > 0 && k >= 1
    ensures d * k >= d
    ensures forall z :: d * (z + k) == d * z + d * k
  {
    assert d * k == d + d * (k - 1);
  }

  /** Halving then taking n more bits is taking n + 1 bits. */
  lemma HalveDiv(x: int, n: nat)
    ensures (x / 2) / Pow2(n) == x / Pow2(n + 1)
    ensures x % Pow2(n + 1) == 2 * ((x / 2) % Pow2(n)) + x % 2
  {
    var p := Pow2(n);
    var h := x / 2;
    var q, r := h / p, h % p;
    assert x == 2 * h + x % 2;
    assert h == p * q + r;
    assert x == (2 * p) * q + (2 * r + x % 2);
    DivModUnique(x, 2 * p, q, 2 * r + x % 2);
  }

  /** The recursive Bit agrees with `(x // 2**i) % 2`. */
  lemma {:induction false} BitIsDivMod(x: int, i: nat)
    ensures Bit(x, i) <==> (x / Pow2(i)) % 2 == 1
    decreases i
  {
    if i > 0 {
      BitIsDivMod(x / 2, i - 1);
      HalveDiv(x, i - 1);
    }
  }

  /** Receiving the bits of x % 2^n, most significant first, gives x % 2^n. */
  lemma {:induction false} FromWordBits(x: int, n: nat)
    ensures FromBitsMsb(WordBits(x, n)) == x % Pow2(n)
    decreases n
  {
    if n > 0 {
      var bits := WordBits(x, n);
      forall k | 0 <= k < n - 1
        ensures bits[k] == WordBits(x / 2, n - 1)[k]
      {
        assert Bit(x, n - 1 - k) == Bit(x / 2, n - 2 - k);
      }
      assert bits[..n - 1] == WordBits(x / 2, n - 1);
      assert bits[n - 1] == Bit(x, 0);
      FromWordBits(x / 2, n - 1);
      HalveDiv(x, n - 1);
    }
  }

  /** Below position m, the sum hi * 2^m + lo has the bits of lo; from m on,
      those of hi. */
  lemma {:induction false} BitOfSum(hi: int, lo: int, m: nat, i: nat)
    requires 0 <= lo < Pow2(m)
    ensures Bit(hi * Pow2(m) + lo, i) == if i < m then Bit(lo, i) else Bit(hi, i - m)
  {
    if m > 0 {
      var q := Pow2(m - 1);
      var x := hi * Pow2(m) + lo;
      Twice(hi, q);
      assert x == 2 * (hi * q + lo / 2) + lo % 2;
      DivModUnique(x, 2, hi * q + lo / 2, lo % 2);
      if i > 0 {
        BitOfSum(hi, lo / 2, m - 1, i - 1);
      }
    }
  }

  /** Clocking out hi * 2^m + lo over n + m bits sends hi's n bits, then lo's m bits. */
  lemma WordBitsConcat(hi: int, lo: int, n: nat, m: nat)
    requires 0 <= lo < Pow2(m)
    ensures WordBits(hi * Pow2(m) + lo, n + m) == WordBits(hi, n) + WordBits(lo, m)
  {
    var x := hi * Pow2(m) + lo;
    forall k | 0 <= k < n + m
      ensures WordBits(x, n + m)[k] == (WordBits(hi, n) + WordBits(lo, m))[k]
    {
      BitOfSum(hi, lo, m, n + m - 1 - k);
    }
  }

  /** The accumulator of the loop `acc |= b << (n - 1 - j)` over the n bits of
      `bits`, after its first k iterations; each bit lands on a position that
      is still zero, so `|` is `+`. */
  function ShiftedIn(bits: seq<bool>, k: nat): (acc: nat)
    requires k <= |bits|
  {
    if k == 0 then 0 else ShiftedIn(bits, k - 1) + (if bits[k - 1] then Pow2(|bits| - k) else 0)
  }

  /** After k iterations the accumulator holds the first k bits, shifted to the top. */
  lemma {:induction false} ShiftedInPrefix(bits: seq<bool>, k: nat)
    requires k <= |bits|
    ensures ShiftedIn(bits, k) == FromBitsMsb(bits[..k]) * Pow2(|bits| - k)
  {
    if k > 0 {
      ShiftedInPrefix(bits, k - 1);
      assert bits[..k][..k - 1] == bits[..k - 1];
      var f, q, d := FromBitsMsb(bits[..k - 1]), Pow2(|bits| - k), if bits[k - 1] then 1 else 0;
      assert FromBitsMsb(bits[..k]) == 2 * f + d;
      calc {
        ShiftedIn(bits, k);
        f * Pow2(|bits| - (k - 1)) + d * q;
        { assert Pow2(|bits| - (k - 1)) == 2 * q; Twice(f, q); }
        (2 * f) * q + d * q;
        (2 * f + d) * q;
      }
    }
  }

  /** Once every bit is in, the accumulator holds the field's value. */
  lemma ShiftedInComplete(bits: seq<bool>)
    ensures ShiftedIn(bits, |bits|) == FromBitsMsb(bits)
  {
    ShiftedInPrefix(bits, |bits|);
    assert bits[..|bits|] == bits;
  }

  /** Regrouping a product by 2, kept as its own lemma so that the nonlinear
      step is proved apart from the context that needs it. */
  lemma Twice(f: int, q: int)
    ensures 2 * (f * q) == f * (2 * q) == (2 * f) * q
  {
  }

}
