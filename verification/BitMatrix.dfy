/** 8x8 bit matrices in 64-bit registers: row r is byte r, column c is bit c of each byte. */
module BitMatrix {
  import opened Staged
  import opened BitManip
  import opened BoolMatrix
  import W64 = Words64

  function Place(r: bv3, c: bv3): (i: bv6) { ((r as bv6) << 3) | (c as bv6) }

  function RowOf(p: bv6): (r: bv3) { (p >> 3) as bv3 }
  function ColOf(p: bv6): (c: bv3) { (p & 7) as bv3 }

  lemma PlaceParts(r: bv3, c: bv3, p: bv6)
    ensures RowOf(Place(r, c)) == r && ColOf(Place(r, c)) == c && Place(RowOf(p), ColOf(p)) == p
  {
  }

  predicate At(x: bv64, r: bv3, c: bv3) { W64.Bit(x, Place(r, c)) }

  // ----- transpose -----

  function Bmatflip(rs1: bv64): (r: bv64) { Shfl64(Shfl64(Shfl64(rs1, 31), 31), 31) }

  /** A full shuffle rotates the six index bits. */
  function Rotate(i: bv6): (r: bv6) { (i >> 1) | (i << 5) }

  lemma FullSwap(i: bv6)
    ensures W64.Swap16(W64.Swap8(W64.Swap4(W64.Swap2(W64.Swap1(i))))) == Rotate(i)
  {
  }

  lemma FullShuffleSource(i: bv6)
    ensures DownSource(W64.SwapIndex, i, Switches(31), 5) == Rotate(i)
  {
    var on := Switches(31);
    assert on(0) && on(1) && on(2) && on(3) && on(4);
    assert DownSource(W64.SwapIndex, i, on, 1) == W64.Swap1(i);
    assert DownSource(W64.SwapIndex, i, on, 2) == W64.Swap2(W64.Swap1(i));
    assert DownSource(W64.SwapIndex, i, on, 3) == W64.Swap4(W64.Swap2(W64.Swap1(i)));
    assert DownSource(W64.SwapIndex, i, on, 4) == W64.Swap8(W64.Swap4(W64.Swap2(W64.Swap1(i))));
    FullSwap(i);
  }

  lemma RotateThrice(r: bv3, c: bv3)
    ensures Rotate(Rotate(Rotate(Place(r, c)))) == Place(c, r)
  {
  }

  lemma FullShuffleBit(x: bv64, i: bv6)
    ensures W64.Bit(Shfl64(x, 31), i) == W64.Bit(x, Rotate(i))
  {
    Shfl64Bit(x, 31, i);
    FullShuffleSource(i);
  }

  /** Three full shuffles transpose the matrix. */
  lemma FlipTransposes(x: bv64, r: bv3, c: bv3)
    ensures At(Bmatflip(x), r, c) == At(x, c, r)
  {
    var i := Place(r, c);
    FullShuffleBit(Shfl64(Shfl64(x, 31), 31), i);
    FullShuffleBit(Shfl64(x, 31), Rotate(i));
    FullShuffleBit(x, Rotate(Rotate(i)));
    RotateThrice(r, c);
  }

  /** Transposing twice is the identity. */
  lemma FlipTwice(x: bv64)
    ensures Bmatflip(Bmatflip(x)) == x
  {
    var y := Bmatflip(Bmatflip(x));
    forall i: bv6 ensures W64.Bit(y, i) == W64.Bit(x, i) {
      PlaceParts(0, 0, i);
      FlipTransposes(Bmatflip(x), RowOf(i), ColOf(i));
      FlipTransposes(x, ColOf(i), RowOf(i));
    }
    Bits64Determine();
    assert SameBits(W64.Bit, y, x);
  }

  // ----- products -----

  function Row(x: bv64, r: bv3): (u: bv8) { ((x >> ((r as bv6) << 3)) & 0xff) as bv8 }

  predicate Bit8(u: bv8, k: bv3) { (u >> k) & 1 == 1 }

  lemma RowBit(x: bv64, r: bv3, k: bv3)
    ensures Bit8(Row(x, r), k) == At(x, r, k)
  {
  }

  /** Population count of a byte. */
  function Popcount(u: bv8): (n: bv8) {
    (u & 1) + ((u >> 1) & 1) + ((u >> 2) & 1) + ((u >> 3) & 1) + ((u >> 4) & 1) + ((u >> 5) & 1) + ((u >> 6) & 1) +
      ((u >> 7) & 1)
  }

  /** The test on the bits w that a row and a column share: any at all for "or", an odd number for "exclusive or". */
  predicate Meets(xor: bool, w: bv8) {
    if xor then Popcount(w) & 1 == 1 else w != 0
  }

  /** Entry (r, c) of the matrix held in x. */
  predicate Entry(x: bv64, r: nat, c: nat) { r < 8 && c < 8 && At(x, r as bv3, c as bv3) }

  function Entries(x: bv64): (m: Matrix) { (r: nat, c: nat) => Entry(x, r, c) }

  /** x holds the product of the matrices held in a and b. */
  ghost predicate IsProduct(xor: bool, a: bv64, b: bv64, x: bv64) {
    forall r: nat, c: nat :: r < 8 && c < 8 ==> Entry(x, r, c) == Product(xor, Entries(a), Entries(b), 8)(r, c)
  }

  lemma PopcountParity(w: bv8)
    ensures Popcount(w) & 1 == 1 <==>
      ((((((Bit8(w, 0) != Bit8(w, 1)) != Bit8(w, 2)) != Bit8(w, 3)) != Bit8(w, 4)) != Bit8(w, 5)) != Bit8(w, 6)) !=
      Bit8(w, 7)
    ensures w != 0 <==>
      Bit8(w, 0) || Bit8(w, 1) || Bit8(w, 2) || Bit8(w, 3) || Bit8(w, 4) || Bit8(w, 5) || Bit8(w, 6) || Bit8(w, 7)
  {
  }

  lemma AndBit8(u: bv8, v: bv8, k: bv3)
    ensures Bit8(u & v, k) == (Bit8(u, k) && Bit8(v, k))
  {
  }

  predicate LowTerms(f: nat -> bool, w: bv8) {
    f(0) == Bit8(w, 0) && f(1) == Bit8(w, 1) && f(2) == Bit8(w, 2) && f(3) == Bit8(w, 3)
  }

  predicate HighTerms(f: nat -> bool, w: bv8) {
    f(4) == Bit8(w, 4) && f(5) == Bit8(w, 5) && f(6) == Bit8(w, 6) && f(7) == Bit8(w, 7)
  }

  lemma MeetsIsSum(xor: bool, w: bv8, f: nat -> bool)
    requires LowTerms(f, w) && HighTerms(f, w)
    ensures Meets(xor, w) == Sum(xor, f, 8)
  {
    SumOfEight(xor, f);
    PopcountParity(w);
  }

  /** t holds the transpose of the matrix in b. */
  ghost predicate Transposed(b: bv64, t: bv64) {
    forall r: bv3, c: bv3 :: At(t, r, c) == At(b, c, r)
  }

  lemma EntryAt(x: bv64, r: bv3, c: bv3, i: nat, j: nat)
    requires i == r as nat && j == c as nat
    ensures Entry(x, i, j) == At(x, r, c)
  {
    assert i as bv3 == r && j as bv3 == c;
  }

  lemma TermBit(a: bv64, b: bv64, t: bv64, r: bv3, c: bv3, k: bv3)
    requires Transposed(b, t)
    ensures (At(a, r, k) && At(b, k, c)) == Bit8(Row(a, r) & Row(t, c), k)
  {
    RowBit(a, r, k);
    RowBit(t, c, k);
    assert At(t, c, k) == At(b, k, c);
    AndBit8(Row(a, r), Row(t, c), k);
  }

  lemma TermIs(a: bv64, b: bv64, t: bv64, r: bv3, c: bv3, k: bv3, i: nat, j: nat, n: nat)
    requires Transposed(b, t) && i == r as nat && j == c as nat && n == k as nat
    ensures Terms(Entries(a), Entries(b), i, j)(n) == Bit8(Row(a, r) & Row(t, c), k)
  {
    EntryAt(a, r, k, i, n);
    EntryAt(b, k, c, n, j);
    TermBit(a, b, t, r, c, k);
  }

  lemma LowTermsMatch(a: bv64, b: bv64, t: bv64, r: bv3, c: bv3, i: nat, j: nat)
    requires Transposed(b, t) && i == r as nat && j == c as nat
    ensures LowTerms(Terms(Entries(a), Entries(b), i, j), Row(a, r) & Row(t, c))
  {
    TermIs(a, b, t, r, c, 0, i, j, 0); TermIs(a, b, t, r, c, 1, i, j, 1);
    TermIs(a, b, t, r, c, 2, i, j, 2); TermIs(a, b, t, r, c, 3, i, j, 3);
  }

  lemma HighTermsMatch(a: bv64, b: bv64, t: bv64, r: bv3, c: bv3, i: nat, j: nat)
    requires Transposed(b, t) && i == r as nat && j == c as nat
    ensures HighTerms(Terms(Entries(a), Entries(b), i, j), Row(a, r) & Row(t, c))
  {
    TermIs(a, b, t, r, c, 4, i, j, 4); TermIs(a, b, t, r, c, 5, i, j, 5);
    TermIs(a, b, t, r, c, 6, i, j, 6); TermIs(a, b, t, r, c, 7, i, j, 7);
  }

  lemma MeetsIsProduct(xor: bool, a: bv64, b: bv64, t: bv64, r: bv3, c: bv3, i: nat, j: nat)
    requires Transposed(b, t) && i == r as nat && j == c as nat
    ensures Meets(xor, Row(a, r) & Row(t, c)) == Product(xor, Entries(a), Entries(b), 8)(i, j)
  {
    var w, f := Row(a, r) & Row(t, c), Terms(Entries(a), Entries(b), i, j);
    assert LowTerms(f, w) by { LowTermsMatch(a, b, t, r, c, i, j); }
    assert HighTerms(f, w) by { HighTermsMatch(a, b, t, r, c, i, j); }
    MeetsIsSum(xor, w, f);
  }

  // ----- the product loops -----

  function One(p: bv6): (x: bv64) { 1 << p }

  lemma SetBit(x: bv64, p: bv6, q: bv6)
    ensures W64.Bit(x | One(p), q) == (W64.Bit(x, q) || p == q)
  {
  }

  lemma ZeroBit(q: bv6)
    ensures !W64.Bit(0, q)
  {
  }

  lemma NextIndex(i: bv7, q: bv6)
    requires i < 64
    ensures (q as bv7) < i + 1 <==> (q as bv7) < i || q == i as bv6
  {
  }

  lemma FillStep(x: bv64, i: bv7, q: bv6, hit: bv6 -> bool)
    requires i < 64 && W64.Bit(x, q) == ((q as bv7) < i && hit(q))
    ensures W64.Bit(if hit(i as bv6) then x | One(i as bv6) else x, q) == ((q as bv7) < i + 1 && hit(q))
  {
    NextIndex(i, q);
    if hit(i as bv6) { SetBit(x, i as bv6, q); }
  }

  /** Set exactly the bits that satisfy hit, from bit 0 to bit 63. */
  method Fill(hit: bv6 -> bool) returns (x: bv64)
    ensures forall q: bv6 :: W64.Bit(x, q) == hit(q)
  {
    x := 0;
    forall q: bv6 ensures !W64.Bit(x, q) { ZeroBit(q); }
    var i: bv7 := 0;
    while i < 64
      invariant i <= 64
      invariant forall q: bv6 :: W64.Bit(x, q) == ((q as bv7) < i && hit(q))
      decreases 64 - i
    {
      ghost var was := x;
      if hit(i as bv6) { x := x | One(i as bv6); }
      forall q: bv6 ensures W64.Bit(x, q) == ((q as bv7) < i + 1 && hit(q)) { FillStep(was, i, q, hit); }
      i := i + 1;
    }
  }

  /** The bits that row RowOf(q) of a and row ColOf(q) of t share. */
  function Shared(a: bv64, t: bv64, q: bv6): (w: bv8) { Row(a, RowOf(q)) & Row(t, ColOf(q)) }

  lemma SharedAt(a: bv64, t: bv64, r: bv3, c: bv3)
    ensures Shared(a, t, Place(r, c)) == Row(a, r) & Row(t, c)
  {
    PlaceParts(r, c, 0);
  }

  lemma RoundTrip3(i: nat)
    requires i < 8
    ensures (i as bv3) as nat == i
  {
  }

  lemma FilledEntryAt(xor: bool, a: bv64, b: bv64, t: bv64, x: bv64, r: bv3, c: bv3, i: nat, j: nat)
    requires Transposed(b, t) && i == r as nat && j == c as nat
    requires W64.Bit(x, Place(r, c)) == Meets(xor, Shared(a, t, Place(r, c)))
    ensures Entry(x, i, j) == Product(xor, Entries(a), Entries(b), 8)(i, j)
  {
    SharedAt(a, t, r, c);
    EntryAt(x, r, c, i, j);
    MeetsIsProduct(xor, a, b, t, r, c, i, j);
  }

  lemma FilledEntry(xor: bool, a: bv64, b: bv64, t: bv64, x: bv64, i: nat, j: nat)
    requires i < 8 && j < 8 && Transposed(b, t)
    requires forall q: bv6 :: W64.Bit(x, q) == Meets(xor, Shared(a, t, q))
    ensures Entry(x, i, j) == Product(xor, Entries(a), Entries(b), 8)(i, j)
  {
    RoundTrip3(i);
    RoundTrip3(j);
    FilledEntryAt(xor, a, b, t, x, i as bv3, j as bv3, i, j);
  }

  /** Product with inclusive or: a row of rs1 against a row of the transpose of rs2. */
  method BmatOr(rs1: bv64, rs2: bv64) returns (x: bv64)
    ensures IsProduct(false, rs1, rs2, x)
  {
    var t := Bmatflip(rs2);
    x := Fill(q => Shared(rs1, t, q) != 0);
    forall r: bv3, c: bv3 ensures At(t, r, c) == At(rs2, c, r) { FlipTransposes(rs2, r, c); }
    forall i: nat, j: nat | i < 8 && j < 8
      ensures Entry(x, i, j) == Product(false, Entries(rs1), Entries(rs2), 8)(i, j)
    {
      FilledEntry(false, rs1, rs2, t, x, i, j);
    }
  }

  /** Product with exclusive or. */
  method BmatXor(rs1: bv64, rs2: bv64) returns (x: bv64)
    ensures IsProduct(true, rs1, rs2, x)
  {
    var t := Bmatflip(rs2);
    x := Fill(q => Popcount(Shared(rs1, t, q)) & 1 == 1);
    forall r: bv3, c: bv3 ensures At(t, r, c) == At(rs2, c, r) { FlipTransposes(rs2, r, c); }
    forall i: nat, j: nat | i < 8 && j < 8
      ensures Entry(x, i, j) == Product(true, Entries(rs1), Entries(rs2), 8)(i, j)
    {
      FilledEntry(true, rs1, rs2, t, x, i, j);
    }
  }

  // ----- laws -----

  lemma EntriesDetermine(x: bv64, y: bv64)
    requires forall i: nat, j: nat :: i < 8 && j < 8 ==> Entry(x, i, j) == Entry(y, i, j)
    ensures x == y
  {
    forall q: bv6 ensures W64.Bit(x, q) == W64.Bit(y, q) {
      PlaceParts(0, 0, q);
      var r, c := RowOf(q), ColOf(q);
      EntryAt(x, r, c, r as nat, c as nat);
      EntryAt(y, r, c, r as nat, c as nat);
    }
    Bits64Determine();
    assert SameBits(W64.Bit, x, y);
  }

  /** The matrix products are associative. */
  lemma BmatAssociates(xor: bool, a: bv64, b: bv64, c: bv64, ab: bv64, bc: bv64, left: bv64, right: bv64)
    requires IsProduct(xor, a, b, ab) && IsProduct(xor, ab, c, left)
    requires IsProduct(xor, b, c, bc) && IsProduct(xor, a, bc, right)
    ensures left == right
  {
    var a', b', c' := Entries(a), Entries(b), Entries(c);
    forall i: nat, j: nat | i < 8 && j < 8 ensures Entry(left, i, j) == Entry(right, i, j) {
      ProductSame(xor, Entries(ab), c', Product(xor, a', b', 8), c', 8, i, j);
      ProductSame(xor, a', Entries(bc), a', Product(xor, b', c', 8), 8, i, j);
      ProductAssociates(xor, a', b', c', 8, i, j);
    }
    EntriesDetermine(left, right);
  }

  /** Transposing a product swaps and transposes its factors. */
  lemma BmatFlipsProduct(xor: bool, a: bv64, b: bv64, x: bv64, y: bv64)
    requires IsProduct(xor, a, b, x) && IsProduct(xor, Bmatflip(b), Bmatflip(a), y)
    ensures y == Bmatflip(x)
  {
    forall i: nat, j: nat | i < 8 && j < 8 ensures Entry(y, i, j) == Entry(Bmatflip(x), i, j) {
      FlippedProduct(xor, a, b, i, j);
      FlipTransposes(x, i as bv3, j as bv3);
    }
    EntriesDetermine(y, Bmatflip(x));
  }

  lemma FlippedProduct(xor: bool, a: bv64, b: bv64, i: nat, j: nat)
    requires i < 8 && j < 8
    ensures Product(xor, Entries(Bmatflip(b)), Entries(Bmatflip(a)), 8)(i, j) ==
            Product(xor, Entries(a), Entries(b), 8)(j, i)
  {
    var f, g := Terms(Entries(Bmatflip(b)), Entries(Bmatflip(a)), i, j), Terms(Entries(a), Entries(b), j, i);
    forall k | 0 <= k < 8 ensures f(k) == g(k) {
      FlipTransposes(b, i as bv3, k as bv3);
      FlipTransposes(a, k as bv3, j as bv3);
    }
    SumSame(xor, f, g, 8);
  }
}
