/** Registers divided into bit fields, least significant field first. */
module BitFields {
  import opened Bits

  // ----- splitting and joining at a bit position -----

  /** The low n bits of v. */
  function Low(v: nat, n: nat): (r: nat) {
    if n == 0 then 0 else v % 2 + 2 * Low(v / 2, n - 1)
  }

  /** The low n bits of a, with b above them. */
  function Join(a: nat, n: nat, b: nat): (r: nat) {
    if n == 0 then b else a % 2 + 2 * Join(a / 2, n - 1, b)
  }

  lemma {:induction false} SplitJoin(a: nat, n: nat, b: nat)
    requires a < Pow2(n)
    ensures Low(Join(a, n, b), n) == a && Shr(Join(a, n, b), n) == b
  {
    if n > 0 { SplitJoin(a / 2, n - 1, b); }
  }

  lemma {:induction false} LowBound(v: nat, n: nat)
    ensures Low(v, n) < Pow2(n)
  {
    if n > 0 { LowBound(v / 2, n - 1); }
  }

  lemma {:induction false} JoinBound(a: nat, n: nat, b: nat, m: nat)
    requires b < Pow2(m)
    ensures Join(a, n, b) < Pow2(n + m)
  {
    if n > 0 { JoinBound(a / 2, n - 1, b, m); }
  }

  /** Bitwise (a & mask) | (b & ~mask) on registers of n bits. */
  function Blend(a: nat, b: nat, mask: nat, n: nat): (r: nat) {
    if n == 0 then 0 else (if mask % 2 == 1 then a % 2 else b % 2) + 2 * Blend(a / 2, b / 2, mask / 2, n - 1)
  }

  lemma {:induction false} BlendSame(a: nat, mask: nat, n: nat)
    requires a < Pow2(n)
    ensures Blend(a, a, mask, n) == a
  {
    if n > 0 { BlendSame(a / 2, mask / 2, n - 1); }
  }

  // ----- layouts -----

  /** Widths of consecutive fields. */
  type Layout = seq<nat>

  /** Total width of the fields from number k on. */
  function Width(l: Layout, k: nat): (n: nat)
    requires k <= |l|
    decreases |l| - k
  {
    if k == |l| then 0 else l[k] + Width(l, k + 1)
  }

  /** The fields from number k on, read from a register that starts with field k. */
  function Decode(l: Layout, k: nat, v: nat): (fs: seq<nat>)
    requires k <= |l|
    ensures |fs| == |l| - k
    decreases |l| - k
  {
    if k == |l| then [] else [Low(v, l[k])] + Decode(l, k + 1, Shr(v, l[k]))
  }

  /** The register that holds the fields from number k on. */
  function Encode(l: Layout, k: nat, fs: seq<nat>): (v: nat)
    requires k <= |l| == |fs|
    decreases |l| - k
  {
    if k == |l| then 0 else Join(fs[k], l[k], Encode(l, k + 1, fs))
  }

  /** Every value fits its field. */
  ghost predicate Fits(l: Layout, fs: seq<nat>) {
    |fs| == |l| && forall i :: 0 <= i < |fs| ==> fs[i] < Pow2(l[i])
  }

  lemma FitsConcat(l: Layout, fs: seq<nat>, l': Layout, fs': seq<nat>)
    requires Fits(l, fs) && Fits(l', fs')
    ensures Fits(l + l', fs + fs')
  {
  }

  /** Fields read back as they were written. */
  lemma {:induction false} DecodeEncode(l: Layout, k: nat, fs: seq<nat>)
    requires Fits(l, fs) && k <= |l|
    ensures Decode(l, k, Encode(l, k, fs)) == fs[k..]
    decreases |l| - k
  {
    if k < |l| {
      DecodeEncode(l, k + 1, fs);
      SplitJoin(fs[k], l[k], Encode(l, k + 1, fs));
    }
  }

  /** Decoded fields fit, whatever the register holds. */
  lemma {:induction false} DecodeFits(l: Layout, k: nat, v: nat, i: nat)
    requires k <= i < |l|
    ensures Decode(l, k, v)[i - k] < Pow2(l[i])
    decreases |l| - k
  {
    if k < i { DecodeFits(l, k + 1, Shr(v, l[k]), i); } else { LowBound(v, l[k]); }
  }

  lemma {:induction false} EncodeBound(l: Layout, k: nat, fs: seq<nat>)
    requires k <= |l| == |fs|
    ensures Encode(l, k, fs) < Pow2(Width(l, k))
    decreases |l| - k
  {
    if k < |l| {
      EncodeBound(l, k + 1, fs);
      JoinBound(fs[k], l[k], Encode(l, k + 1, fs), Width(l, k + 1));
    }
  }

  // ----- where fields lie -----

  /** Bit position at which field number k starts. */
  function Start(l: Layout, k: nat): (n: nat)
    requires k <= |l|
  {
    if k == 0 then 0 else Start(l, k - 1) + l[k - 1]
  }

  lemma {:induction false} ShrShr(v: nat, a: nat, b: nat)
    ensures Shr(Shr(v, a), b) == Shr(v, a + b)
  {
    if a > 0 { ShrShr(v / 2, a - 1, b); }
  }

  lemma {:induction false} StartGrows(l: Layout, j: nat, k: nat)
    requires j <= k <= |l|
    ensures Start(l, j) <= Start(l, k)
  {
    if j < k { StartGrows(l, j, k - 1); }
  }

  /** Field i is the bits at its position: v >> start, cut to the width of the field. */
  lemma {:induction false} DecodeAt(l: Layout, k: nat, v: nat, i: nat)
    requires k <= i < |l|
    ensures Start(l, k) <= Start(l, i) && Decode(l, k, v)[i - k] == Low(Shr(v, Start(l, i) - Start(l, k)), l[i])
    decreases |l| - k
  {
    StartGrows(l, k, i);
    if k < i {
      DecodeAt(l, k + 1, Shr(v, l[k]), i);
      ShrShr(v, l[k], Start(l, i) - Start(l, k + 1));
    }
  }

  lemma StartNext(l: Layout, k: nat)
    requires k < |l|
    ensures Start(l, k + 1) == Start(l, k) + l[k]
  {
  }

  /** The fields up to number k and those from it on make up the whole width. */
  lemma {:induction false} StartAndWidth(l: Layout, k: nat)
    requires k <= |l|
    ensures Start(l, k) + Width(l, k) == Width(l, 0)
  {
    if k > 0 { StartAndWidth(l, k - 1); }
  }

  /** Cutting a register does not change fields that lie below the cut. */
  lemma {:induction false} LowShrLow(v: nat, n: nat, s: nat, w: nat)
    requires s + w <= n
    ensures Low(Shr(Low(v, n), s), w) == Low(Shr(v, s), w)
    decreases n
  {
    if s > 0 {
      assert Low(v, n) / 2 == Low(v / 2, n - 1);
      LowShrLow(v / 2, n - 1, s - 1, w);
    } else if w > 0 {
      assert Low(v, n) / 2 == Low(v / 2, n - 1);
      LowShrLow(v / 2, n - 1, 0, w - 1);
    }
  }

  /** The field of a given width at a given position of v has the given value. */
  predicate FieldIs(v: nat, position: nat, width: nat, value: nat) { Low(Shr(v, position), width) == value }

  /** A field read from the cut register is the field of the register. */
  lemma FieldBelow(l: Layout, v: nat, n: nat, i: nat)
    requires i < |l| && Width(l, 0) <= n
    ensures FieldIs(v, Start(l, i), l[i], Decode(l, 0, Low(v, n))[i])
  {
    DecodeAt(l, 0, Low(v, n), i);
    StartNext(l, i);
    StartAndWidth(l, i + 1);
    LowShrLow(v, n, Start(l, i), l[i]);
  }
}
