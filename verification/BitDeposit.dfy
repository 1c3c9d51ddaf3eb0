/** Bit extract and deposit. Registers are sequences of bits, least significant first, of any width. */
module BitDeposit {

  type Register = seq<bool>

  /** Number of mask bits set below position i. */
  function Rank(m: Register, i: nat): (n: nat)
    requires i <= |m|
    ensures n <= i
  {
    if i == 0 then 0 else Rank(m, i - 1) + (if m[i - 1] then 1 else 0)
  }

  lemma {:induction false} RankMonotone(m: Register, i: nat, j: nat)
    requires i <= j <= |m|
    ensures Rank(m, i) <= Rank(m, j)
    ensures i < j && m[i] ==> Rank(m, i) < Rank(m, j)
    decreases j
  {
    if i < j { RankMonotone(m, i, j - 1); }
  }

  /** The mask position that holds set bit number k. */
  lemma {:induction false} Select(m: Register, n: nat, k: nat) returns (i: nat)
    requires n <= |m| && k < Rank(m, n)
    ensures i < n && m[i] && Rank(m, i) == k
    decreases n
  {
    if k < Rank(m, n - 1) { i := Select(m, n - 1, k); } else { i := n - 1; }
  }

  function Zeros(n: nat): (r: Register)
    ensures |r| == n
  {
    seq(n, i => false)
  }

  /** r packs the bits of x at the set positions of m, in order, into its low bits. */
  ghost predicate IsExtract(x: Register, m: Register, r: Register) {
    |x| == |m| == |r| &&
    (forall i :: 0 <= i < |m| && m[i] ==> r[Rank(m, i)] == x[i]) &&
    (forall k :: Rank(m, |m|) <= k < |r| ==> !r[k])
  }

  /** r spreads the low bits of x, in order, over the set positions of m. */
  ghost predicate IsDeposit(x: Register, m: Register, r: Register) {
    |x| == |m| == |r| && forall i :: 0 <= i < |m| ==> r[i] == (m[i] && x[Rank(m, i)])
  }

  method Bext(rs1: Register, rs2: Register) returns (r: Register)
    requires |rs1| == |rs2|
    ensures IsExtract(rs1, rs2, r)
  {
    r := Zeros(|rs2|);
    var j := 0;
    for i := 0 to |rs2|
      invariant |r| == |rs2| && j == Rank(rs2, i)
      invariant forall p :: 0 <= p < i && rs2[p] ==> Rank(rs2, p) < j && r[Rank(rs2, p)] == rs1[p]
      invariant forall k :: j <= k < |r| ==> !r[k]
    {
      if rs2[i] {
        if rs1[i] { r := r[j := true]; }
        j := j + 1;
      }
    }
  }

  method Bdep(rs1: Register, rs2: Register) returns (r: Register)
    requires |rs1| == |rs2|
    ensures IsDeposit(rs1, rs2, r)
  {
    r := Zeros(|rs2|);
    var j := 0;
    for i := 0 to |rs2|
      invariant |r| == |rs2| && j == Rank(rs2, i)
      invariant forall p :: 0 <= p < i ==> r[p] == (rs2[p] && rs1[Rank(rs2, p)])
      invariant forall p :: i <= p < |r| ==> !r[p]
    {
      if rs2[i] {
        if rs1[j] { r := r[i := true]; }
        j := j + 1;
      }
    }
  }

  /** Extract is a function of its operands: every bit of the result is determined. */
  lemma ExtractUnique(x: Register, m: Register, r: Register, r': Register)
    requires IsExtract(x, m, r) && IsExtract(x, m, r')
    ensures r == r'
  {
    forall k | 0 <= k < |r| ensures r[k] == r'[k] {
      if k < Rank(m, |m|) { var i := Select(m, |m|, k); }
    }
  }

  /** bdep(bext(x, m), m) == x & m. */
  lemma DepositOfExtract(x: Register, m: Register, e: Register, d: Register)
    requires IsExtract(x, m, e) && IsDeposit(e, m, d)
    ensures |d| == |x| && forall i :: 0 <= i < |x| ==> d[i] == (x[i] && m[i])
  {
    forall i | 0 <= i < |x| ensures d[i] == (x[i] && m[i]) {
      RankMonotone(m, i, |m|);
    }
  }

  /** bext(bdep(x, m), m) == x & (2^popcount(m) - 1). */
  lemma ExtractOfDeposit(x: Register, m: Register, d: Register, e: Register)
    requires IsDeposit(x, m, d) && IsExtract(d, m, e)
    ensures |e| == |x| && forall k :: 0 <= k < |x| ==> e[k] == (x[k] && k < Rank(m, |m|))
  {
    forall k | 0 <= k < |x| ensures e[k] == (x[k] && k < Rank(m, |m|)) {
      if k < Rank(m, |m|) { var i := Select(m, |m|, k); }
    }
  }
}
