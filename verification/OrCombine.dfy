/** Or-combine bit by bit. */
module OrCombine {
  import opened Staged
  import opened BitManip
  import W64 = Words64
  import W32 = Words32

  function Flag(b: bool, m: bv32): (r: bv32) { if b then m else 0 }

  /** The shift amount that switches on the given stages. */
  function Amount(b0: bool, b1: bool, b2: bool, b3: bool, b4: bool, b5: bool): (s: bv32) {
    Flag(b0, 1) | Flag(b1, 2) | Flag(b2, 4) | Flag(b3, 8) | Flag(b4, 16) | Flag(b5, 32)
  }

  lemma AmountHas(b0: bool, b1: bool, b2: bool, b3: bool, b4: bool, b5: bool)
    ensures var s := Amount(b0, b1, b2, b3, b4, b5);
            s < 64 && Has(s, 1) == b0 && Has(s, 2) == b1 && Has(s, 4) == b2 && Has(s, 8) == b3 && Has(s, 16) == b4 &&
            Has(s, 32) == b5 && (!b5 ==> s < 32)
  {
  }

  /** Every stage that b switches on, s does too. */
  lemma ContainedStages(b: bv32, s: bv32)
    requires b < 64
    ensures b & s == b <==> (Has(b, 1) ==> Has(s, 1)) && (Has(b, 2) ==> Has(s, 2)) && (Has(b, 4) ==> Has(s, 4)) &&
                            (Has(b, 8) ==> Has(s, 8)) && (Has(b, 16) ==> Has(s, 16)) && (Has(b, 32) ==> Has(s, 32))
  {
  }

  lemma SwitchesAre(s: bv32)
    ensures var on := Switches(s);
            on(0) == Has(s, 1) && on(1) == Has(s, 2) && on(2) == Has(s, 4) && on(3) == Has(s, 8) &&
            on(4) == Has(s, 16) && on(5) == Has(s, 32)
  {
  }

  lemma ContainedSwitches(b: bv32, s: bv32)
    requires b < 64
    ensures b & s == b <==> Within(Switches(b), Switches(s), 6)
  {
    ContainedStages(b, s);
    SwitchesAre(b);
    SwitchesAre(s);
    WithinSix(Switches(b), Switches(s));
  }

  lemma WithinSix(a: nat -> bool, b: nat -> bool)
    ensures Within(a, b, 6) <==> (a(0) ==> b(0)) && (a(1) ==> b(1)) && (a(2) ==> b(2)) && (a(3) ==> b(3)) &&
                                 (a(4) ==> b(4)) && (a(5) ==> b(5))
  {
    if !Within(a, b, 6) { var k: nat :| k < 6 && a(k) && !b(k); }
  }

  /** Any choice of stages is that of some amount. */
  lemma AmountFor(sub: nat -> bool) returns (b: bv32)
    ensures b < 64 && forall k: nat :: k < 6 ==> Switches(b)(k) == sub(k)
    ensures !sub(5) ==> b < 32
  {
    b := Amount(sub(0), sub(1), sub(2), sub(3), sub(4), sub(5));
    AmountHas(sub(0), sub(1), sub(2), sub(3), sub(4), sub(5));
    SwitchesAre(b);
    SameSix(Switches(b), sub);
  }

  lemma SameSix(a: nat -> bool, b: nat -> bool)
    requires a(0) == b(0) && a(1) == b(1) && a(2) == b(2) && a(3) == b(3) && a(4) == b(4) && a(5) == b(5)
    ensures forall k: nat :: k < 6 ==> a(k) == b(k)
  {
  }

  lemma WithinSame(sub: nat -> bool, b: nat -> bool, on: nat -> bool, n: nat)
    requires Within(sub, on, n) && forall k: nat :: k < n ==> b(k) == sub(k)
    ensures Within(b, on, n)
  {
  }

  // ----- 64-bit registers -----

  /** Bit i is set in the reversal of x by amount b. */
  predicate Brings64(x: bv64, i: bv6, b: bv32) { b < 64 && W64.Bit(x, i ^ (b as bv6)) }

  lemma Or64Combines()
    ensures Combines(W64.OrStage, W64.Bit, W64.Across, 6)
  {
    forall k: nat, x, i | k < 6
      ensures W64.Bit(W64.OrStage(k, x), i) == (W64.Bit(x, i) || W64.Bit(x, W64.Across(k, i)))
    {
      W64.OrStageBit(k, x, i);
    }
  }

  lemma Source64(i: bv6, b: bv32, sub: nat -> bool)
    requires b < 64 && forall k: nat :: k < 6 ==> Switches(b)(k) == sub(k)
    ensures UpSource(W64.Across, i, sub, 6) == i ^ (b as bv6)
  {
    UpSourceSame(W64.Across, i, Switches(b), sub, 6);
    AcrossAll64(b, i);
  }

  lemma Gorc64Finds(x: bv64, s: bv32, i: bv6) returns (b: bv32)
    requires W64.Bit(Up(W64.OrStage, x, Switches(s), 6), i)
    ensures b & s == b && Brings64(x, i, b)
  {
    Or64Combines();
    var sub := OrUpFinds(W64.OrStage, W64.Bit, W64.Across, x, Switches(s), 6, i);
    b := AmountFor(sub);
    WithinSame(sub, Switches(b), Switches(s), 6);
    ContainedSwitches(b, s);
    Source64(i, b, sub);
  }

  lemma Gorc64Holds(x: bv64, s: bv32, i: bv6, b: bv32)
    requires b & s == b && Brings64(x, i, b)
    ensures W64.Bit(Up(W64.OrStage, x, Switches(s), 6), i)
  {
    Or64Combines();
    ContainedSwitches(b, s);
    Source64(i, b, Switches(b));
    OrUpHolds(W64.OrStage, W64.Bit, W64.Across, x, Switches(s), 6, i, Switches(b));
  }

  /** Result bit i is the inclusive or of the source bits i xor b over all amounts b contained in the shift amount. */
  lemma Gorc64Bit(x: bv64, s: bv32, i: bv6)
    ensures W64.Bit(Gorc64(x, s), i) <==> exists b: bv32 :: b & s == b && Brings64(x, i, b)
  {
    Amount64Unmasked(x, s);
    if W64.Bit(Gorc64(x, s), i) { var b := Gorc64Finds(x, s, i); }
    if b: bv32 :| b & s == b && Brings64(x, i, b) { Gorc64Holds(x, s, i, b); }
  }

  // ----- 32-bit registers -----

  /** Bit i is set in the reversal of x by amount b. */
  predicate Brings32(x: bv32, i: bv5, b: bv32) { b < 32 && W32.Bit(x, i ^ (b as bv5)) }

  lemma Or32Combines()
    ensures Combines(W32.OrStage, W32.Bit, W32.Across, 5)
  {
    forall k: nat, x, i | k < 5
      ensures W32.Bit(W32.OrStage(k, x), i) == (W32.Bit(x, i) || W32.Bit(x, W32.Across(k, i)))
    {
      W32.OrStageBit(k, x, i);
    }
  }

  lemma Source32(i: bv5, b: bv32, sub: nat -> bool)
    requires b < 32 && forall k: nat :: k < 5 ==> Switches(b)(k) == sub(k)
    ensures UpSource(W32.Across, i, sub, 5) == i ^ (b as bv5)
  {
    UpSourceSame(W32.Across, i, Switches(b), sub, 5);
    AcrossAll32(b, i);
  }

  lemma ContainedFive(b: bv32, s: bv32)
    requires b < 32
    ensures b & s == b <==> Within(Switches(b), Switches(s), 5)
  {
    ContainedSwitches(b, s);
    NotSixth(b);
    WithinSix(Switches(b), Switches(s));
  }

  lemma NotSixth(b: bv32)
    requires b < 32
    ensures !Switches(b)(5)
  {
  }

  lemma Gorc32Finds(x: bv32, s: bv32, i: bv5) returns (b: bv32)
    requires W32.Bit(Up(W32.OrStage, x, Switches(s), 5), i)
    ensures b & s == b && Brings32(x, i, b)
  {
    Or32Combines();
    var sub := OrUpFinds(W32.OrStage, W32.Bit, W32.Across, x, Switches(s), 5, i);
    var five := (k: nat) => k < 5 && sub(k);
    b := AmountFor(five);
    WithinSame(sub, Switches(b), Switches(s), 5);
    ContainedFive(b, s);
    Source32(i, b, sub);
  }

  lemma Gorc32Holds(x: bv32, s: bv32, i: bv5, b: bv32)
    requires b & s == b && Brings32(x, i, b)
    ensures W32.Bit(Up(W32.OrStage, x, Switches(s), 5), i)
  {
    Or32Combines();
    ContainedFive(b, s);
    Source32(i, b, Switches(b));
    OrUpHolds(W32.OrStage, W32.Bit, W32.Across, x, Switches(s), 5, i, Switches(b));
  }

  /** Result bit i is the inclusive or of the source bits i xor b over all amounts b contained in the shift amount. */
  lemma Gorc32Bit(x: bv32, s: bv32, i: bv5)
    ensures W32.Bit(Gorc32(x, s), i) <==> exists b: bv32 :: b & s == b && Brings32(x, i, b)
  {
    Amount32Unmasked(x, s);
    if W32.Bit(Gorc32(x, s), i) { var b := Gorc32Finds(x, s, i); }
    if b: bv32 :| b & s == b && Brings32(x, i, b) { Gorc32Holds(x, s, i, b); }
  }
}
