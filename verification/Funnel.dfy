/** Funnel shifts of the B extension. Registers are sequences of bits, least significant first, of any width. */
module Funnel {

  type Register = seq<bool>

  function Shl(x: Register, s: nat): (r: Register)
    ensures |r| == |x|
  {
    seq(|x|, i requires 0 <= i < |x| => s <= i && x[i - s])
  }

  function Shr(x: Register, s: nat): (r: Register)
    ensures |r| == |x|
  {
    seq(|x|, i requires 0 <= i < |x| => i + s < |x| && x[i + s])
  }

  function Or(x: Register, y: Register): (r: Register)
    requires |x| == |y|
    ensures |r| == |x|
  {
    seq(|x|, i requires 0 <= i < |x| => x[i] || y[i])
  }

  /** Shift left, by less than the width; bits of b come in from the right. */
  function Left(a: Register, b: Register, s: nat): (r: Register)
    requires |a| == |b| && s < |a|
  {
    if s != 0 then Or(Shl(a, s), Shr(b, |a| - s)) else a
  }

  function Right(a: Register, b: Register, s: nat): (r: Register)
    requires |a| == |b| && s < |a|
  {
    if s != 0 then Or(Shr(a, s), Shl(b, |a| - s)) else a
  }

  /** The operands change places when the amount reaches the width. */
  function FslBy(rs1: Register, amount: nat, rs3: Register): (r: Register)
    requires |rs1| == |rs3| && amount < 2 * |rs1|
  {
    if amount >= |rs1| then Left(rs3, rs1, amount - |rs1|) else Left(rs1, rs3, amount)
  }

  function FsrBy(rs1: Register, amount: nat, rs3: Register): (r: Register)
    requires |rs1| == |rs3| && amount < 2 * |rs1|
  {
    if amount >= |rs1| then Right(rs3, rs1, amount - |rs1|) else Right(rs1, rs3, amount)
  }

  /** The amount is taken modulo twice the width. */
  function Fsl(rs1: Register, rs2: nat, rs3: Register): (r: Register)
    requires |rs1| == |rs3| > 0
  {
    FslBy(rs1, rs2 % (2 * |rs1|), rs3)
  }

  function Fsr(rs1: Register, rs2: nat, rs3: Register): (r: Register)
    requires |rs1| == |rs3| > 0
  {
    FsrBy(rs1, rs2 % (2 * |rs1|), rs3)
  }

  lemma ShlAt(x: Register, s: nat, i: nat)
    requires i < |x|
    ensures Shl(x, s)[i] == (s <= i && x[i - s])
  {
  }

  lemma ShrAt(x: Register, s: nat, i: nat)
    requires i < |x|
    ensures Shr(x, s)[i] == (i + s < |x| && x[i + s])
  {
  }

  lemma OrAt(x: Register, y: Register, i: nat)
    requires i < |x| == |y|
    ensures Or(x, y)[i] == (x[i] || y[i])
  {
  }

  lemma LeftBit(a: Register, b: Register, s: nat, i: nat)
    requires |a| == |b| && s < |a| && i < |a|
    ensures |Left(a, b, s)| == |a| && Left(a, b, s)[i] == if s <= i then a[i - s] else b[i + |a| - s]
  {
    if s != 0 {
      ShlAt(a, s, i);
      ShrAt(b, |a| - s, i);
      OrAt(Shl(a, s), Shr(b, |a| - s), i);
    }
  }

  lemma RightBit(a: Register, b: Register, s: nat, i: nat)
    requires |a| == |b| && s < |a| && i < |a|
    ensures |Right(a, b, s)| == |a| && Right(a, b, s)[i] == if i + s < |a| then a[i + s] else b[i + s - |a|]
  {
    if s != 0 {
      ShrAt(a, s, i);
      ShlAt(b, |a| - s, i);
      OrAt(Shr(a, s), Shl(b, |a| - s), i);
    }
  }

  /** An index of a ring of n places. */
  function Around(k: int, n: nat): (r: nat)
    requires -(n as int) <= k < 2 * n
  {
    if k < 0 then k + n else if k < n then k else k - n
  }

  /** Bit k of rs1 and, above it, rs3. */
  predicate Ring(rs1: Register, rs3: Register, k: nat)
    requires |rs1| == |rs3| && k < 2 * |rs1|
  {
    if k < |rs1| then rs1[k] else rs3[k - |rs1|]
  }

  /** With rs3 above rs1 as a ring of bits, result bit i of a left shift is the bit of the ring that far below i. */
  lemma FslByBit(rs1: Register, amount: nat, rs3: Register, i: nat)
    requires |rs1| == |rs3| && amount < 2 * |rs1| && i < |rs1|
    ensures |FslBy(rs1, amount, rs3)| == |rs1|
    ensures FslBy(rs1, amount, rs3)[i] == Ring(rs1, rs3, Around(i - amount, 2 * |rs1|))
  {
    if amount >= |rs1| { LeftBit(rs3, rs1, amount - |rs1|, i); } else { LeftBit(rs1, rs3, amount, i); }
  }

  /** For a right shift it is that far above i. */
  lemma FsrByBit(rs1: Register, amount: nat, rs3: Register, i: nat)
    requires |rs1| == |rs3| && amount < 2 * |rs1| && i < |rs1|
    ensures |FsrBy(rs1, amount, rs3)| == |rs1|
    ensures FsrBy(rs1, amount, rs3)[i] == Ring(rs1, rs3, Around(i + amount, 2 * |rs1|))
  {
    if amount >= |rs1| { RightBit(rs3, rs1, amount - |rs1|, i); } else { RightBit(rs1, rs3, amount, i); }
  }

  /** Result bits of both shifts. */
  lemma FunnelBits(rs1: Register, rs2: nat, rs3: Register, i: nat)
    requires |rs1| == |rs3| && i < |rs1|
    ensures var n := 2 * |rs1|;
            |Fsl(rs1, rs2, rs3)| == |Fsr(rs1, rs2, rs3)| == |rs1| &&
            Fsl(rs1, rs2, rs3)[i] == Ring(rs1, rs3, Around(i - rs2 % n, n)) &&
            Fsr(rs1, rs2, rs3)[i] == Ring(rs1, rs3, Around(i + rs2 % n, n))
  {
    FslByBit(rs1, rs2 % (2 * |rs1|), rs3, i);
    FsrByBit(rs1, rs2 % (2 * |rs1|), rs3, i);
  }

  /** Minus s, in 32 bits. */
  function Negated(s: nat): (r: nat)
    requires s < 0x1_0000_0000
  {
    if s == 0 then 0 else 0x1_0000_0000 - s
  }

  lemma NegatedAmount(s: nat, n: nat)
    requires s < 0x1_0000_0000 && (n == 64 || n == 128)
    ensures Negated(s) % n == if s % n == 0 then 0 else n - s % n
  {
  }

  /** A left funnel shift is a right funnel shift by the negated amount, at both widths. */
  lemma FslIsFsrNegated(a: Register, s: nat, b: Register)
    requires |a| == |b| && (|a| == 32 || |a| == 64) && s < 0x1_0000_0000
    ensures Fsl(a, s, b) == Fsr(a, Negated(s), b)
  {
    var n := 2 * |a|;
    NegatedAmount(s, n);
    FunnelBits(a, s, b, 0);
    FunnelBits(a, Negated(s), b, 0);
    forall i | 0 <= i < |a| ensures Fsl(a, s, b)[i] == Fsr(a, Negated(s), b)[i] {
      FunnelBits(a, s, b, i);
      FunnelBits(a, Negated(s), b, i);
    }
  }
}
