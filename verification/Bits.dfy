/** Unsigned words as natural numbers, one bit at a time. */
module Bits {

  function Pow2(n: nat): (p: nat)
    ensures p > 0
  {
    if n == 0 then 1 else 2 * Pow2(n - 1)
  }

  /** Bit k of w. */
  predicate Bit(w: nat, k: nat) {
    if k == 0 then w % 2 == 1 else Bit(w / 2, k - 1)
  }

  /** w | (1 << k) when b, and w & ~(1 << k) otherwise. */
  function PutBit(w: nat, k: nat, b: bool): (r: nat) {
    if k == 0 then w / 2 * 2 + (if b then 1 else 0)
    else 2 * PutBit(w / 2, k - 1, b) + w % 2
  }

  lemma {:induction false} BitOfPut(w: nat, k: nat, b: bool, j: nat)
    ensures Bit(PutBit(w, k, b), j) == if j == k then b else Bit(w, j)
    decreases k
  {
    if k > 0 && j > 0 {
      BitOfPut(w / 2, k - 1, b, j - 1);
      assert PutBit(w, k, b) / 2 == PutBit(w / 2, k - 1, b);
    } else if k == 0 && j > 0 {
      assert PutBit(w, k, b) / 2 == w / 2;
    }
  }

  lemma {:induction false} ZeroHasNoBit(k: nat)
    ensures !Bit(0, k)
  {
    if k > 0 { ZeroHasNoBit(k - 1); }
  }

  /** w >> i. */
  function Shr(w: nat, i: nat): (r: nat) {
    if i == 0 then w else Shr(w / 2, i - 1)
  }

  lemma {:induction false} ShrStep(w: nat, i: nat)
    ensures Shr(w, i) / 2 == Shr(w, i + 1) && (Shr(w, i) % 2 == 1 <==> Bit(w, i))
  {
    if i > 0 { ShrStep(w / 2, i - 1); }
  }

  lemma {:induction false} ShrZero(w: nat, i: nat, j: nat)
    requires Shr(w, i) == 0 && i <= j
    ensures !Bit(w, j)
    decreases j
  {
    if i > 0 { ShrZero(w / 2, i - 1, j - 1); } else { ZeroHasNoBit(j); }
  }

  lemma {:induction false} ShrOfZero(n: nat)
    ensures Shr(0, n) == 0
  {
    if n > 0 { ShrOfZero(n - 1); }
  }

  /** w has no bits from n on: w < 2^n. */
  lemma {:induction false} PutKeepsWidth(w: nat, n: nat, k: nat, b: bool)
    requires Shr(w, n) == 0 && k < n
    ensures Shr(PutBit(w, k, b), n) == 0
    decreases n
  {
    if k > 0 {
      PutKeepsWidth(w / 2, n - 1, k - 1, b);
      assert PutBit(w, k, b) / 2 == PutBit(w / 2, k - 1, b);
    } else {
      assert PutBit(w, k, b) / 2 == w / 2;
    }
  }

  /** Words of 64 bits that together hold the mask: bit i is bit i % 64 of word i / 64. */
  predicate InMask(words: seq<nat>, i: nat) {
    i / 64 < |words| && Bit(words[i / 64], i % 64)
  }

  ghost predicate Words64(words: seq<nat>) {
    forall k :: 0 <= k < |words| ==> Shr(words[k], 64) == 0
  }

  function PutMask(words: seq<nat>, i: nat, b: bool): (r: seq<nat>)
    requires i / 64 < |words|
  {
    words[i / 64 := PutBit(words[i / 64], i % 64, b)]
  }

  lemma InPutMask(words: seq<nat>, i: nat, b: bool, j: nat)
    requires i / 64 < |words|
    ensures InMask(PutMask(words, i, b), j) == if i == j then b else InMask(words, j)
  {
    if i / 64 == j / 64 {
      BitOfPut(words[i / 64], i % 64, b, j % 64);
      assert i == 64 * (i / 64) + i % 64 && j == 64 * (j / 64) + j % 64;
    }
  }

  lemma PutMaskKeepsWidth(words: seq<nat>, i: nat, b: bool)
    requires i / 64 < |words| && Words64(words)
    ensures Words64(PutMask(words, i, b))
  {
    PutKeepsWidth(words[i / 64], 64, i % 64, b);
  }
}
