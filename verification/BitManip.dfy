/** Generalised reverse, or-combine and shuffle of the B extension. */
module BitManip {
  import opened Staged
  import W64 = Words64
  import W32 = Words32

  // ----- shift amounts -----

  predicate Has(s: bv32, m: bv32) { s & m != 0 }

  function Mask(k: nat): (m: bv32) {
    if k == 0 then 1 else if k == 1 then 2 else if k == 2 then 4 else if k == 3 then 8 else if k == 4 then 16 else 32
  }

  /** Which stages a shift amount switches on. */
  function Switches(s: bv32): (r: nat -> bool) { (k: nat) => Has(s, Mask(k)) }

  predicate IsMask(m: bv32) { m == 1 || m == 2 || m == 4 || m == 8 || m == 16 || m == 32 }

  lemma MaskIsMask(k: nat)
    ensures IsMask(Mask(k))
  {
  }

  lemma HasCombined(a: bv32, b: bv32, m: bv32)
    requires IsMask(m)
    ensures Has(a ^ b, m) == (Has(a, m) != Has(b, m)) && Has(a | b, m) == (Has(a, m) || Has(b, m))
  {
  }

  lemma HasAt(s: bv32, k: nat, b: bool)
    requires Has(s, Mask(k)) == b
    ensures Switches(s)(k) == b
  {
  }

  lemma SwitchAt(a: bv32, b: bv32, k: nat)
    ensures Switches(a ^ b)(k) == (Switches(a)(k) != Switches(b)(k))
    ensures Switches(a | b)(k) == (Switches(a)(k) || Switches(b)(k))
  {
    MaskIsMask(k);
    HasCombined(a, b, Mask(k));
    HasAt(a ^ b, k, Has(a ^ b, Mask(k)));
    HasAt(a | b, k, Has(a | b, Mask(k)));
  }

  lemma SwitchesXor(a: bv32, b: bv32)
    ensures XorOf(Switches(a), Switches(b), Switches(a ^ b))
  {
    var x, y, z := Switches(a), Switches(b), Switches(a ^ b);
    if !XorOf(x, y, z) {
      var k: nat :| z(k) != (x(k) != y(k));
      SwitchAt(a, b, k);
    }
  }

  lemma SwitchesOr(a: bv32, b: bv32)
    ensures OrOf(Switches(a), Switches(b), Switches(a | b))
  {
    var x, y, z := Switches(a), Switches(b), Switches(a | b);
    if !OrOf(x, y, z) {
      var k: nat :| z(k) != (x(k) || y(k));
      SwitchAt(a, b, k);
    }
  }

  /** Reducing a shift amount to the register width does not change its stages. */
  lemma SwitchesMask(s: bv32, k: nat)
    ensures Switches(s & 63)(k) == Switches(s)(k)
    ensures k < 5 ==> Switches(s & 31)(k) == Switches(s)(k)
  {
  }

  // ----- 64-bit operations -----

  function Grev64(rs1: bv64, rs2: bv32): (r: bv64) { Up(W64.RevStage, rs1, Switches(rs2 & 63), 6) }

  function Gorc64(rs1: bv64, rs2: bv32): (r: bv64) { Up(W64.OrStage, rs1, Switches(rs2 & 63), 6) }

  /** Shuffle runs its stages from the widest to the narrowest, unshuffle the other way. */
  function Shfl64(rs1: bv64, rs2: bv32): (r: bv64) { Down(W64.ShuffleStage, rs1, Switches(rs2 & 31), 5) }

  function Unshfl64(rs1: bv64, rs2: bv32): (r: bv64) { Up(W64.ShuffleStage, rs1, Switches(rs2 & 31), 5) }

  lemma Bits64Determine()
    ensures Extensional(W64.Bit)
  {
    forall x, y | SameBits(W64.Bit, x, y) ensures x == y {
      var i := W64.FindBit(x ^ y);
      W64.XorBit(x, y, i);
      assert W64.Bit(x, i) == W64.Bit(y, i);
    }
  }

  lemma Across64Swaps()
    ensures Swaps(W64.Across, 6) && SwapsCommute(W64.Across, 6)
  {
    forall j: nat, k: nat, i
      ensures W64.Across(j, W64.Across(k, i)) == W64.Across(k, W64.Across(j, i)) && W64.Across(k, W64.Across(k, i)) == i
    {
      W64.AcrossLaws(j, k, i);
    }
  }

  lemma Rev64Laws()
    ensures Permutes(W64.RevStage, W64.Bit, W64.Across, 6) && Commute(W64.RevStage, 6) && Involutions(W64.RevStage, 6)
  {
    forall k: nat, x, i | k < 6 ensures W64.Bit(W64.RevStage(k, x), i) == W64.Bit(x, W64.Across(k, i)) {
      W64.RevStageBit(k, x, i);
    }
    Bits64Determine();
    Across64Swaps();
    SwapStagesInvolve(W64.RevStage, W64.Bit, W64.Across, 6);
    SwapStagesCommute(W64.RevStage, W64.Bit, W64.Across, 6);
  }

  lemma Or64Laws()
    ensures Commute(W64.OrStage, 6) && Idempotents(W64.OrStage, 6)
  {
    forall k: nat, x, i | k < 6
      ensures W64.Bit(W64.OrStage(k, x), i) == (W64.Bit(x, i) || W64.Bit(x, W64.Across(k, i)))
    {
      W64.OrStageBit(k, x, i);
    }
    Bits64Determine();
    Across64Swaps();
    CombineStages(W64.OrStage, W64.Bit, W64.Across, 6);
  }

  lemma Shuffle64Laws()
    ensures Permutes(W64.ShuffleStage, W64.Bit, W64.SwapIndex, 5) && Involutions(W64.ShuffleStage, 5)
  {
    forall k: nat, x, i | k < 5 ensures W64.Bit(W64.ShuffleStage(k, x), i) == W64.Bit(x, W64.SwapIndex(k, i)) {
      W64.ShuffleStageBit(k, x, i);
    }
    forall k: nat, i ensures W64.SwapIndex(k, W64.SwapIndex(k, i)) == i { W64.SwapIndexTwice(k, i); }
    Bits64Determine();
    SwapStagesInvolve(W64.ShuffleStage, W64.Bit, W64.SwapIndex, 5);
  }

  lemma InvertIndex64(s: bv32, i: bv6)
    requires s < 64
    ensures var on := Switches(s);
            var i6 := i;
            var i5 := if on(5) then i6 ^ 32 else i6;
            var i4 := if on(4) then i5 ^ 16 else i5;
            var i3 := if on(3) then i4 ^ 8 else i4;
            var i2 := if on(2) then i3 ^ 4 else i3;
            var i1 := if on(1) then i2 ^ 2 else i2;
            var i0 := if on(0) then i1 ^ 1 else i1;
            i0 == i ^ (s as bv6)
  {
  }

  /** All active swaps together invert the index bits named by the shift amount. */
  lemma AcrossAll64(s: bv32, i: bv6)
    requires s < 64
    ensures UpSource(W64.Across, i, Switches(s), 6) == i ^ (s as bv6)
  {
    var on := Switches(s);
    var i6 := i;
    var i5 := if on(5) then W64.Across(5, i6) else i6;
    var i4 := if on(4) then W64.Across(4, i5) else i5;
    var i3 := if on(3) then W64.Across(3, i4) else i4;
    var i2 := if on(2) then W64.Across(2, i3) else i3;
    var i1 := if on(1) then W64.Across(1, i2) else i2;
    var i0 := if on(0) then W64.Across(0, i1) else i1;
    assert UpSource(W64.Across, i6, on, 6) == UpSource(W64.Across, i5, on, 5);
    assert UpSource(W64.Across, i5, on, 5) == UpSource(W64.Across, i4, on, 4);
    assert UpSource(W64.Across, i4, on, 4) == UpSource(W64.Across, i3, on, 3);
    assert UpSource(W64.Across, i3, on, 3) == UpSource(W64.Across, i2, on, 2);
    assert UpSource(W64.Across, i2, on, 2) == UpSource(W64.Across, i1, on, 1);
    assert UpSource(W64.Across, i1, on, 1) == UpSource(W64.Across, i0, on, 0);
    InvertIndex64(s, i);
  }

  /** Result bit i of a reversal is source bit i xor the shift amount. */
  lemma Grev64Bit(x: bv64, s: bv32, i: bv6)
    ensures W64.Bit(Grev64(x, s), i) == W64.Bit(x, i ^ ((s & 63) as bv6))
  {
    Rev64Laws();
    UpBit(W64.RevStage, W64.Bit, W64.Across, x, Switches(s & 63), 6, i);
    AcrossAll64(s & 63, i);
  }

  lemma Amount64Unmasked(x: bv64, s: bv32)
    ensures Grev64(x, s) == Up(W64.RevStage, x, Switches(s), 6)
    ensures Gorc64(x, s) == Up(W64.OrStage, x, Switches(s), 6)
  {
    forall k: nat | k < 6 ensures Switches(s & 63)(k) == Switches(s)(k) { SwitchesMask(s, k); }
    UpSame(W64.RevStage, x, Switches(s & 63), Switches(s), 6);
    UpSame(W64.OrStage, x, Switches(s & 63), Switches(s), 6);
  }

  /** Reversals compose by exclusive or of their amounts; in particular each is its own inverse. */
  lemma Grev64Compose(x: bv64, a: bv32, b: bv32)
    ensures Grev64(Grev64(x, a), b) == Grev64(x, a ^ b)
  {
    Rev64Laws();
    SwitchesXor(a, b);
    Amount64Unmasked(x, a); Amount64Unmasked(Grev64(x, a), b); Amount64Unmasked(x, a ^ b);
    UpXor(W64.RevStage, x, Switches(a), Switches(b), Switches(a ^ b), 6);
  }

  /** Or-combines compose by inclusive or of their amounts. */
  lemma Gorc64Compose(x: bv64, a: bv32, b: bv32)
    ensures Gorc64(Gorc64(x, a), b) == Gorc64(x, a | b)
  {
    Or64Laws();
    SwitchesOr(a, b);
    Amount64Unmasked(x, a); Amount64Unmasked(Gorc64(x, a), b); Amount64Unmasked(x, a | b);
    UpOr(W64.OrStage, x, Switches(a), Switches(b), Switches(a | b), 6);
  }

  /** A shuffle permutes bits by exchanging adjacent bits of their indices, one exchange per active stage. */
  lemma Shfl64Bit(x: bv64, s: bv32, i: bv6)
    ensures W64.Bit(Shfl64(x, s), i) == W64.Bit(x, DownSource(W64.SwapIndex, i, Switches(s & 31), 5))
  {
    Shuffle64Laws();
    DownBit(W64.ShuffleStage, W64.Bit, W64.SwapIndex, x, Switches(s & 31), 5, i);
  }

  /** Unshuffle undoes shuffle, and the other way round. */
  lemma Unshfl64Inverts(x: bv64, s: bv32)
    ensures Unshfl64(Shfl64(x, s), s) == x && Shfl64(Unshfl64(x, s), s) == x
  {
    Shuffle64Laws();
    DownInvertsUp(W64.ShuffleStage, x, Switches(s & 31), 5);
  }

  // ----- 32-bit operations -----

  function Grev32(rs1: bv32, rs2: bv32): (r: bv32) { Up(W32.RevStage, rs1, Switches(rs2 & 31), 5) }

  function Gorc32(rs1: bv32, rs2: bv32): (r: bv32) { Up(W32.OrStage, rs1, Switches(rs2 & 31), 5) }

  /** Shuffle runs its stages from the widest to the narrowest, unshuffle the other way. */
  function Shfl32(rs1: bv32, rs2: bv32): (r: bv32) { Down(W32.ShuffleStage, rs1, Switches(rs2 & 15), 4) }

  function Unshfl32(rs1: bv32, rs2: bv32): (r: bv32) { Up(W32.ShuffleStage, rs1, Switches(rs2 & 15), 4) }

  lemma Bits32Determine()
    ensures Extensional(W32.Bit)
  {
    forall x, y | SameBits(W32.Bit, x, y) ensures x == y {
      var i := W32.FindBit(x ^ y);
      W32.XorBit(x, y, i);
      assert W32.Bit(x, i) == W32.Bit(y, i);
    }
  }

  lemma Across32Swaps()
    ensures Swaps(W32.Across, 5) && SwapsCommute(W32.Across, 5)
  {
    forall j: nat, k: nat, i
      ensures W32.Across(j, W32.Across(k, i)) == W32.Across(k, W32.Across(j, i)) && W32.Across(k, W32.Across(k, i)) == i
    {
      W32.AcrossLaws(j, k, i);
    }
  }

  lemma Rev32Laws()
    ensures Permutes(W32.RevStage, W32.Bit, W32.Across, 5) && Commute(W32.RevStage, 5) && Involutions(W32.RevStage, 5)
  {
    forall k: nat, x, i | k < 5 ensures W32.Bit(W32.RevStage(k, x), i) == W32.Bit(x, W32.Across(k, i)) {
      W32.RevStageBit(k, x, i);
    }
    Bits32Determine();
    Across32Swaps();
    SwapStagesInvolve(W32.RevStage, W32.Bit, W32.Across, 5);
    SwapStagesCommute(W32.RevStage, W32.Bit, W32.Across, 5);
  }

  lemma Or32Laws()
    ensures Commute(W32.OrStage, 5) && Idempotents(W32.OrStage, 5)
  {
    forall k: nat, x, i | k < 5
      ensures W32.Bit(W32.OrStage(k, x), i) == (W32.Bit(x, i) || W32.Bit(x, W32.Across(k, i)))
    {
      W32.OrStageBit(k, x, i);
    }
    Bits32Determine();
    Across32Swaps();
    CombineStages(W32.OrStage, W32.Bit, W32.Across, 5);
  }

  lemma Shuffle32Laws()
    ensures Permutes(W32.ShuffleStage, W32.Bit, W32.SwapIndex, 4) && Involutions(W32.ShuffleStage, 4)
  {
    forall k: nat, x, i | k < 4 ensures W32.Bit(W32.ShuffleStage(k, x), i) == W32.Bit(x, W32.SwapIndex(k, i)) {
      W32.ShuffleStageBit(k, x, i);
    }
    forall k: nat, i ensures W32.SwapIndex(k, W32.SwapIndex(k, i)) == i { W32.SwapIndexTwice(k, i); }
    Bits32Determine();
    SwapStagesInvolve(W32.ShuffleStage, W32.Bit, W32.SwapIndex, 4);
  }

  lemma InvertIndex32(s: bv32, i: bv5)
    requires s < 32
    ensures var on := Switches(s);
            var i5 := i;
            var i4 := if on(4) then i5 ^ 16 else i5;
            var i3 := if on(3) then i4 ^ 8 else i4;
            var i2 := if on(2) then i3 ^ 4 else i3;
            var i1 := if on(1) then i2 ^ 2 else i2;
            var i0 := if on(0) then i1 ^ 1 else i1;
            i0 == i ^ (s as bv5)
  {
  }

  /** All active swaps together invert the index bits named by the shift amount. */
  lemma AcrossAll32(s: bv32, i: bv5)
    requires s < 32
    ensures UpSource(W32.Across, i, Switches(s), 5) == i ^ (s as bv5)
  {
    var on := Switches(s);
    var i5 := i;
    var i4 := if on(4) then W32.Across(4, i5) else i5;
    var i3 := if on(3) then W32.Across(3, i4) else i4;
    var i2 := if on(2) then W32.Across(2, i3) else i3;
    var i1 := if on(1) then W32.Across(1, i2) else i2;
    var i0 := if on(0) then W32.Across(0, i1) else i1;
    assert UpSource(W32.Across, i5, on, 5) == UpSource(W32.Across, i4, on, 4);
    assert UpSource(W32.Across, i4, on, 4) == UpSource(W32.Across, i3, on, 3);
    assert UpSource(W32.Across, i3, on, 3) == UpSource(W32.Across, i2, on, 2);
    assert UpSource(W32.Across, i2, on, 2) == UpSource(W32.Across, i1, on, 1);
    assert UpSource(W32.Across, i1, on, 1) == UpSource(W32.Across, i0, on, 0);
    InvertIndex32(s, i);
  }

  /** Result bit i of a reversal is source bit i xor the shift amount. */
  lemma Grev32Bit(x: bv32, s: bv32, i: bv5)
    ensures W32.Bit(Grev32(x, s), i) == W32.Bit(x, i ^ ((s & 31) as bv5))
  {
    Rev32Laws();
    UpBit(W32.RevStage, W32.Bit, W32.Across, x, Switches(s & 31), 5, i);
    AcrossAll32(s & 31, i);
  }

  lemma Amount32Unmasked(x: bv32, s: bv32)
    ensures Grev32(x, s) == Up(W32.RevStage, x, Switches(s), 5)
    ensures Gorc32(x, s) == Up(W32.OrStage, x, Switches(s), 5)
  {
    forall k: nat | k < 5 ensures Switches(s & 31)(k) == Switches(s)(k) { SwitchesMask(s, k); }
    UpSame(W32.RevStage, x, Switches(s & 31), Switches(s), 5);
    UpSame(W32.OrStage, x, Switches(s & 31), Switches(s), 5);
  }

  /** Reversals compose by exclusive or of their amounts; in particular each is its own inverse. */
  lemma Grev32Compose(x: bv32, a: bv32, b: bv32)
    ensures Grev32(Grev32(x, a), b) == Grev32(x, a ^ b)
  {
    Rev32Laws();
    SwitchesXor(a, b);
    Amount32Unmasked(x, a); Amount32Unmasked(Grev32(x, a), b); Amount32Unmasked(x, a ^ b);
    UpXor(W32.RevStage, x, Switches(a), Switches(b), Switches(a ^ b), 5);
  }

  /** Or-combines compose by inclusive or of their amounts. */
  lemma Gorc32Compose(x: bv32, a: bv32, b: bv32)
    ensures Gorc32(Gorc32(x, a), b) == Gorc32(x, a | b)
  {
    Or32Laws();
    SwitchesOr(a, b);
    Amount32Unmasked(x, a); Amount32Unmasked(Gorc32(x, a), b); Amount32Unmasked(x, a | b);
    UpOr(W32.OrStage, x, Switches(a), Switches(b), Switches(a | b), 5);
  }

  /** A shuffle permutes bits by exchanging adjacent bits of their indices, one exchange per active stage. */
  lemma Shfl32Bit(x: bv32, s: bv32, i: bv5)
    ensures W32.Bit(Shfl32(x, s), i) == W32.Bit(x, DownSource(W32.SwapIndex, i, Switches(s & 15), 4))
  {
    Shuffle32Laws();
    DownBit(W32.ShuffleStage, W32.Bit, W32.SwapIndex, x, Switches(s & 15), 4, i);
  }

  /** Unshuffle undoes shuffle, and the other way round. */
  lemma Unshfl32Inverts(x: bv32, s: bv32)
    ensures Unshfl32(Shfl32(x, s), s) == x && Shfl32(Unshfl32(x, s), s) == x
  {
    Shuffle32Laws();
    DownInvertsUp(W32.ShuffleStage, x, Switches(s & 15), 4);
  }
}
