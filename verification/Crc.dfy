/** CRC steps of the B extension over any number of bits. */
module Crc {
  import W64 = Words64

  /** n-fold application. */
  function Iterate<W>(f: W -> W, x: W, n: nat): (r: W) {
    if n == 0 then x else f(Iterate(f, x, n - 1))
  }

  ghost predicate Linear<W(!new)>(f: W -> W, plus: (W, W) -> W) {
    forall x, y :: f(plus(x, y)) == plus(f(x), f(y))
  }

  lemma {:induction false} IterateLinear<W(!new)>(f: W -> W, plus: (W, W) -> W, x: W, y: W, n: nat)
    requires Linear(f, plus)
    ensures Iterate(f, plus(x, y), n) == plus(Iterate(f, x, n), Iterate(f, y, n))
  {
    if n > 0 { IterateLinear(f, plus, x, y, n - 1); }
  }

  lemma {:induction false} IterateCompose<W>(f: W -> W, x: W, m: nat, n: nat)
    ensures Iterate(f, Iterate(f, x, m), n) == Iterate(f, x, m + n)
  {
    if n > 0 { IterateCompose(f, x, m, n - 1); }
  }

  function Xor(x: bv64, y: bv64): (r: bv64) { x ^ y }

  /** One bit: shift right, and fold the constant in when a one falls out. */
  function Step(c: bv64, x: bv64): (r: bv64) {
    (x >> 1) ^ (c & !((x & 1) - 1))
  }

  function StepWith(c: bv64): (f: bv64 -> bv64) { x => Step(c, x) }

  /** CRC on 64-bit registers; the constant is a 32-bit value. */
  method Crc32Of64(rs1: bv64, constant: bv32, nbits: nat) returns (x: bv64)
    ensures x == Iterate(StepWith(constant as bv64), rs1, nbits)
  {
    x := rs1;
    for i := 0 to nbits
      invariant x == Iterate(StepWith(constant as bv64), rs1, i)
    {
      x := (x >> 1) ^ ((constant as bv64) & !((x & 1) - 1));
    }
  }

  lemma StepLinearEvenEven(c: bv64, x: bv64, y: bv64)
    requires x & 1 == 0 && y & 1 == 0
    ensures Step(c, x ^ y) == Step(c, x) ^ Step(c, y)
  {
  }

  lemma StepLinearEvenOdd(c: bv64, x: bv64, y: bv64)
    requires x & 1 == 0 && y & 1 == 1
    ensures Step(c, x ^ y) == Step(c, x) ^ Step(c, y)
  {
  }

  lemma StepLinearOddEven(c: bv64, x: bv64, y: bv64)
    requires x & 1 == 1 && y & 1 == 0
    ensures Step(c, x ^ y) == Step(c, x) ^ Step(c, y)
  {
  }

  lemma StepLinearOddOdd(c: bv64, x: bv64, y: bv64)
    requires x & 1 == 1 && y & 1 == 1
    ensures Step(c, x ^ y) == Step(c, x) ^ Step(c, y)
  {
  }

  lemma LowBit(x: bv64)
    ensures x & 1 == 0 || x & 1 == 1
  {
  }

  lemma StepLinear(c: bv64, x: bv64, y: bv64)
    ensures Step(c, Xor(x, y)) == Xor(Step(c, x), Step(c, y))
  {
    LowBit(x);
    LowBit(y);
    if x & 1 == 0 {
      if y & 1 == 0 { StepLinearEvenEven(c, x, y); } else { StepLinearEvenOdd(c, x, y); }
    } else {
      if y & 1 == 0 { StepLinearOddEven(c, x, y); } else { StepLinearOddOdd(c, x, y); }
    }
  }

  /** CRC over any number of bits is linear over exclusive or, and m bits then n bits are m + n bits. */
  lemma CrcLaws(c: bv64, x: bv64, y: bv64, m: nat, n: nat)
    ensures Iterate(StepWith(c), Xor(x, y), n) == Xor(Iterate(StepWith(c), x, n), Iterate(StepWith(c), y, n))
    ensures Iterate(StepWith(c), Iterate(StepWith(c), x, m), n) == Iterate(StepWith(c), x, m + n)
  {
    forall a, b ensures StepWith(c)(Xor(a, b)) == Xor(StepWith(c)(a), StepWith(c)(b)) { StepLinear(c, a, b); }
    IterateLinear(StepWith(c), Xor, x, y, n);
    IterateCompose(StepWith(c), x, m, n);
  }

  // ----- one bit of one step -----

  predicate Odd(x: bv64) { x & 1 == 1 }

  lemma StepEven(c: bv64, x: bv64)
    requires x & 1 == 0
    ensures Step(c, x) == x >> 1
  {
  }

  lemma StepOdd(c: bv64, x: bv64)
    requires x & 1 == 1
    ensures Step(c, x) == (x >> 1) ^ c
  {
  }

  lemma StepIs(c: bv64, x: bv64)
    ensures Step(c, x) == (x >> 1) ^ (if Odd(x) then c else 0)
  {
    LowBit(x);
    if Odd(x) { StepOdd(c, x); } else { StepEven(c, x); }
  }

  lemma FoldedBit(c: bv64, x: bv64, i: bv6, odd: bool, y: bv64)
    requires y == (x >> 1) ^ (if odd then c else 0)
    ensures W64.Bit(y, i) == ((i < 63 && W64.Bit(x, i + 1)) != (odd && W64.Bit(c, i)))
  {
  }

  /** One step divides by the polynomial variable: the next bit up, plus the constant where the lowest bit was one. */
  lemma StepBit(c: bv64, x: bv64, i: bv6)
    ensures W64.Bit(Step(c, x), i) == ((i < 63 && W64.Bit(x, i + 1)) != (Odd(x) && W64.Bit(c, i)))
  {
    StepIs(c, x);
    FoldedBit(c, x, i, Odd(x), Step(c, x));
  }
}
