/** Word operations made of stages, each switched on by one bit of a shift amount.
    Words have type W, their bits are numbered by I, and stage k combines bit i with bit p(k, i). */
module Staged {

  /** Stages 0, 1, ..., n - 1, in this order. */
  function Up<W>(f: (nat, W) -> W, x: W, on: nat -> bool, n: nat): (r: W)
  {
    if n == 0 then x else
    var y := Up(f, x, on, n - 1);
    if on(n - 1) then f(n - 1, y) else y
  }

  /** Stages n - 1, ..., 1, 0, in this order. */
  function Down<W>(f: (nat, W) -> W, x: W, on: nat -> bool, n: nat): (r: W)
    decreases n, x
  {
    if n == 0 then x else Down(f, if on(n - 1) then f(n - 1, x) else x, on, n - 1)
  }

  lemma {:induction false} UpSame<W>(f: (nat, W) -> W, x: W, on: nat -> bool, on': nat -> bool, n: nat)
    requires forall k :: 0 <= k < n ==> on(k) == on'(k)
    ensures Up(f, x, on, n) == Up(f, x, on', n)
  {
    if n > 0 { UpSame(f, x, on, on', n - 1); }
  }

  /** Switch by switch, c is the exclusive or of a and b. */
  ghost predicate XorOf(a: nat -> bool, b: nat -> bool, c: nat -> bool) {
    forall k :: c(k) == (a(k) != b(k))
  }

  /** Switch by switch, c is the inclusive or of a and b. */
  ghost predicate OrOf(a: nat -> bool, b: nat -> bool, c: nat -> bool) {
    forall k :: c(k) == (a(k) || b(k))
  }

  // ----- what stages do to words -----

  ghost predicate Commute<W(!new)>(f: (nat, W) -> W, n: nat) {
    forall j: nat, k: nat, x :: j < n && k < n ==> f(j, f(k, x)) == f(k, f(j, x))
  }

  ghost predicate Involutions<W(!new)>(f: (nat, W) -> W, n: nat) {
    forall k: nat, x :: k < n ==> f(k, f(k, x)) == x
  }

  ghost predicate Idempotents<W(!new)>(f: (nat, W) -> W, n: nat) {
    forall k: nat, x :: k < n ==> f(k, f(k, x)) == f(k, x)
  }

  lemma {:induction false} StagePastUp<W(!new)>(f: (nat, W) -> W, x: W, on: nat -> bool, n: nat, k: nat)
    requires n <= k && Commute(f, k + 1)
    ensures Up(f, f(k, x), on, n) == f(k, Up(f, x, on, n))
  {
    if n > 0 { StagePastUp(f, x, on, n - 1, k); }
  }

  /** Commuting involutions: running with a and then with b is running with the exclusive or. */
  lemma {:induction false} UpXor<W(!new)>(f: (nat, W) -> W, x: W, a: nat -> bool, b: nat -> bool, c: nat -> bool,
      n: nat)
    requires XorOf(a, b, c) && Commute(f, n) && Involutions(f, n)
    ensures Up(f, Up(f, x, a, n), b, n) == Up(f, x, c, n)
  {
    if n > 0 {
      UpXor(f, x, a, b, c, n - 1);
      StagePastUp(f, Up(f, x, a, n - 1), b, n - 1, n - 1);
    }
  }

  /** Commuting idempotents: running with a and then with b is running with the inclusive or. */
  lemma {:induction false} UpOr<W(!new)>(f: (nat, W) -> W, x: W, a: nat -> bool, b: nat -> bool, c: nat -> bool, n: nat)
    requires OrOf(a, b, c) && Commute(f, n) && Idempotents(f, n)
    ensures Up(f, Up(f, x, a, n), b, n) == Up(f, x, c, n)
  {
    if n > 0 {
      UpOr(f, x, a, b, c, n - 1);
      StagePastUp(f, Up(f, x, a, n - 1), b, n - 1, n - 1);
    }
  }

  /** Involutions: the stages run one way undo the stages run the other way. */
  lemma {:induction false} DownInvertsUp<W(!new)>(f: (nat, W) -> W, x: W, on: nat -> bool, n: nat)
    requires Involutions(f, n)
    ensures Down(f, Up(f, x, on, n), on, n) == x
    ensures Up(f, Down(f, x, on, n), on, n) == x
    decreases n
  {
    if n > 0 {
      DownInvertsUp(f, x, on, n - 1);
      DownInvertsUp(f, if on(n - 1) then f(n - 1, x) else x, on, n - 1);
    }
  }

  // ----- what stages do to bits -----

  ghost predicate SameBits<W, I(!new)>(bit: (W, I) -> bool, x: W, y: W) {
    forall i :: bit(x, i) == bit(y, i)
  }

  /** A word is determined by its bits. */
  ghost predicate Extensional<W(!new), I(!new)>(bit: (W, I) -> bool) {
    forall x, y :: SameBits(bit, x, y) ==> x == y
  }

  /** Stage k moves bit p(k, i) to i. */
  ghost predicate Permutes<W(!new), I(!new)>(f: (nat, W) -> W, bit: (W, I) -> bool, p: (nat, I) -> I, n: nat) {
    forall k: nat, x, i :: k < n ==> bit(f(k, x), i) == bit(x, p(k, i))
  }

  /** Stage k adds bit p(k, i) to bit i. */
  ghost predicate Combines<W(!new), I(!new)>(f: (nat, W) -> W, bit: (W, I) -> bool, p: (nat, I) -> I, n: nat) {
    forall k: nat, x, i :: k < n ==> bit(f(k, x), i) == (bit(x, i) || bit(x, p(k, i)))
  }

  ghost predicate Swaps<I(!new)>(p: (nat, I) -> I, n: nat) {
    forall k: nat, i :: k < n ==> p(k, p(k, i)) == i
  }

  ghost predicate SwapsCommute<I(!new)>(p: (nat, I) -> I, n: nat) {
    forall j: nat, k: nat, i :: j < n && k < n ==> p(j, p(k, i)) == p(k, p(j, i))
  }

  lemma SwapStagesInvolve<W(!new), I(!new)>(f: (nat, W) -> W, bit: (W, I) -> bool, p: (nat, I) -> I, n: nat)
    requires Extensional(bit) && Permutes(f, bit, p, n) && Swaps(p, n)
    ensures Involutions(f, n)
  {
    forall k: nat, x | k < n ensures f(k, f(k, x)) == x {
      forall i ensures bit(f(k, f(k, x)), i) == bit(x, i) {
        assert bit(f(k, f(k, x)), i) == bit(f(k, x), p(k, i)) == bit(x, p(k, p(k, i)));
      }
      assert SameBits(bit, f(k, f(k, x)), x);
    }
  }

  lemma SwapStagesCommute<W(!new), I(!new)>(f: (nat, W) -> W, bit: (W, I) -> bool, p: (nat, I) -> I, n: nat)
    requires Extensional(bit) && Permutes(f, bit, p, n) && SwapsCommute(p, n)
    ensures Commute(f, n)
  {
    forall j: nat, k: nat, x | j < n && k < n ensures f(j, f(k, x)) == f(k, f(j, x)) {
      forall i ensures bit(f(j, f(k, x)), i) == bit(f(k, f(j, x)), i) {
        assert bit(f(j, f(k, x)), i) == bit(f(k, x), p(j, i)) == bit(x, p(k, p(j, i)));
        assert bit(f(k, f(j, x)), i) == bit(f(j, x), p(k, i)) == bit(x, p(j, p(k, i)));
      }
      assert SameBits(bit, f(j, f(k, x)), f(k, f(j, x)));
    }
  }

  lemma CombineStages<W(!new), I(!new)>(f: (nat, W) -> W, bit: (W, I) -> bool, p: (nat, I) -> I, n: nat)
    requires Extensional(bit) && Combines(f, bit, p, n) && Swaps(p, n) && SwapsCommute(p, n)
    ensures Commute(f, n) && Idempotents(f, n)
  {
    forall j: nat, k: nat, x | j < n && k < n ensures f(j, f(k, x)) == f(k, f(j, x)) {
      forall i ensures bit(f(j, f(k, x)), i) == bit(f(k, f(j, x)), i) {
        assert bit(f(j, f(k, x)), i) == (bit(f(k, x), i) || bit(f(k, x), p(j, i)));
        assert bit(f(k, f(j, x)), i) == (bit(f(j, x), i) || bit(f(j, x), p(k, i)));
      }
      assert SameBits(bit, f(j, f(k, x)), f(k, f(j, x)));
    }
    forall k: nat, x | k < n ensures f(k, f(k, x)) == f(k, x) {
      forall i ensures bit(f(k, f(k, x)), i) == bit(f(k, x), i) {
        assert bit(f(k, f(k, x)), i) == (bit(f(k, x), i) || bit(f(k, x), p(k, i)));
      }
      assert SameBits(bit, f(k, f(k, x)), f(k, x));
    }
  }

  /** Bit i of the outcome of Up comes from the bit reached by the swaps of the active stages, last stage first. */
  function UpSource<I>(p: (nat, I) -> I, i: I, on: nat -> bool, n: nat): (r: I)
    decreases n, i
  {
    if n == 0 then i else UpSource(p, if on(n - 1) then p(n - 1, i) else i, on, n - 1)
  }

  lemma {:induction false} UpBit<W(!new), I(!new)>(
      f: (nat, W) -> W, bit: (W, I) -> bool, p: (nat, I) -> I, x: W, on: nat -> bool, n: nat, i: I)
    requires Permutes(f, bit, p, n)
    ensures bit(Up(f, x, on, n), i) == bit(x, UpSource(p, i, on, n))
    decreases n
  {
    if n > 0 { UpBit(f, bit, p, x, on, n - 1, if on(n - 1) then p(n - 1, i) else i); }
  }

  /** For Down the swaps apply first stage first. */
  function DownSource<I>(p: (nat, I) -> I, i: I, on: nat -> bool, n: nat): (r: I)
  {
    if n == 0 then i else
    var j := DownSource(p, i, on, n - 1);
    if on(n - 1) then p(n - 1, j) else j
  }

  lemma {:induction false} DownBit<W(!new), I(!new)>(
      f: (nat, W) -> W, bit: (W, I) -> bool, p: (nat, I) -> I, x: W, on: nat -> bool, n: nat, i: I)
    requires Permutes(f, bit, p, n)
    ensures bit(Down(f, x, on, n), i) == bit(x, DownSource(p, i, on, n))
    decreases n
  {
    if n > 0 { DownBit(f, bit, p, if on(n - 1) then f(n - 1, x) else x, on, n - 1, i); }
  }

  lemma {:induction false} UpSourceSame<I>(p: (nat, I) -> I, i: I, on: nat -> bool, on': nat -> bool, n: nat)
    requires forall k: nat :: k < n ==> on(k) == on'(k)
    ensures UpSource(p, i, on, n) == UpSource(p, i, on', n)
  {
    if n > 0 { UpSourceSame(p, if on(n - 1) then p(n - 1, i) else i, on, on', n - 1); }
  }

  // ----- combining stages collect the bits that the reversals by contained amounts would bring -----

  ghost predicate Within(sub: nat -> bool, on: nat -> bool, n: nat) {
    forall k: nat :: k < n && sub(k) ==> on(k)
  }

  lemma {:induction false} OrUpFinds<W(!new), I(!new)>(
      f: (nat, W) -> W, bit: (W, I) -> bool, p: (nat, I) -> I, x: W, on: nat -> bool, n: nat, i: I)
    returns (sub: nat -> bool)
    requires Combines(f, bit, p, n) && bit(Up(f, x, on, n), i)
    ensures Within(sub, on, n) && bit(x, UpSource(p, i, sub, n))
    decreases n
  {
    if n == 0 {
      sub := (k: nat) => false;
    } else {
      var across := on(n - 1) && !bit(Up(f, x, on, n - 1), i);
      var lower := OrUpFinds(f, bit, p, x, on, n - 1, if across then p(n - 1, i) else i);
      sub := (k: nat) => if k < n - 1 then lower(k) else across;
      UpSourceSame(p, if across then p(n - 1, i) else i, sub, lower, n - 1);
    }
  }

  lemma {:induction false} OrUpHolds<W(!new), I(!new)>(
      f: (nat, W) -> W, bit: (W, I) -> bool, p: (nat, I) -> I, x: W, on: nat -> bool, n: nat, i: I, sub: nat -> bool)
    requires Combines(f, bit, p, n) && Within(sub, on, n) && bit(x, UpSource(p, i, sub, n))
    ensures bit(Up(f, x, on, n), i)
    decreases n
  {
    if n > 0 { OrUpHolds(f, bit, p, x, on, n - 1, if sub(n - 1) then p(n - 1, i) else i, sub); }
  }
}
