/** Matrices of bits as functions of row and column, with addition either "or" or "exclusive or". */
module BoolMatrix {

  type Matrix = (nat, nat) -> bool

  /** The addition in use: exclusive or (the field GF(2)) or inclusive or (the Boolean semiring). */
  function Plus(xor: bool, a: bool, b: bool): (r: bool) { if xor then a != b else a || b }

  function Sum(xor: bool, f: nat -> bool, n: nat): (r: bool) {
    if n == 0 then false else Plus(xor, Sum(xor, f, n - 1), f(n - 1))
  }

  /** The terms of entry (i, j) of a product. */
  function Terms(a: Matrix, b: Matrix, i: nat, j: nat): (f: nat -> bool) {
    (k: nat) => a(i, k) && b(k, j)
  }

  function Product(xor: bool, a: Matrix, b: Matrix, n: nat): (r: Matrix) {
    (i: nat, j: nat) => Sum(xor, Terms(a, b, i, j), n)
  }

  lemma {:induction false} SumSame(xor: bool, f: nat -> bool, g: nat -> bool, n: nat)
    requires forall k :: 0 <= k < n ==> f(k) == g(k)
    ensures Sum(xor, f, n) == Sum(xor, g, n)
  {
    if n > 0 { SumSame(xor, f, g, n - 1); }
  }

  lemma {:induction false} SumPlus(xor: bool, f: nat -> bool, g: nat -> bool, h: nat -> bool, n: nat)
    requires forall k :: 0 <= k < n ==> h(k) == Plus(xor, f(k), g(k))
    ensures Sum(xor, h, n) == Plus(xor, Sum(xor, f, n), Sum(xor, g, n))
  {
    if n > 0 { SumPlus(xor, f, g, h, n - 1); }
  }

  lemma {:induction false} SumScale(xor: bool, c: bool, f: nat -> bool, h: nat -> bool, n: nat)
    requires forall k :: 0 <= k < n ==> h(k) == (c && f(k))
    ensures Sum(xor, h, n) == (c && Sum(xor, f, n))
  {
    if n > 0 { SumScale(xor, c, f, h, n - 1); }
  }

  lemma {:induction false} SumOfNothing(xor: bool, f: nat -> bool, n: nat)
    requires forall k :: 0 <= k < n ==> !f(k)
    ensures !Sum(xor, f, n)
  {
    if n > 0 { SumOfNothing(xor, f, n - 1); }
  }

  /** Summing by rows and by columns is the same. */
  lemma {:induction false} SumSwap(xor: bool, f: Matrix, m: nat, n: nat)
    ensures Sum(xor, (i: nat) => Sum(xor, (j: nat) => f(i, j), n), m)
         == Sum(xor, (j: nat) => Sum(xor, (i: nat) => f(i, j), m), n)
  {
    var byRow := (i: nat) => Sum(xor, (j: nat) => f(i, j), n);
    var byCol := (j: nat) => Sum(xor, (i: nat) => f(i, j), m);
    if m == 0 {
      SumOfNothing(xor, byCol, n);
    } else {
      SumSwap(xor, f, m - 1, n);
      var last := (j: nat) => f(m - 1, j);
      SumPlus(xor, (j: nat) => Sum(xor, (i: nat) => f(i, j), m - 1), last, byCol, n);
      assert byRow(m - 1) == Sum(xor, last, n);
    }
  }

  /** (A B) C == A (B C), over either addition. */
  lemma ProductAssociates(xor: bool, a: Matrix, b: Matrix, c: Matrix, n: nat, i: nat, j: nat)
    ensures Product(xor, Product(xor, a, b, n), c, n)(i, j) == Product(xor, a, Product(xor, b, c, n), n)(i, j)
  {
    var f := (k: nat, l: nat) => a(i, l) && b(l, k) && c(k, j);
    var left := Terms(Product(xor, a, b, n), c, i, j);
    var right := Terms(a, Product(xor, b, c, n), i, j);
    forall k: nat ensures left(k) == Sum(xor, (l: nat) => f(k, l), n) {
      SumScale(xor, c(k, j), Terms(a, b, i, k), (l: nat) => f(k, l), n);
    }
    forall l: nat ensures right(l) == Sum(xor, (k: nat) => f(k, l), n) {
      SumScale(xor, a(i, l), Terms(b, c, l, j), (k: nat) => f(k, l), n);
    }
    SumSame(xor, left, (k: nat) => Sum(xor, (l: nat) => f(k, l), n), n);
    SumSame(xor, right, (l: nat) => Sum(xor, (k: nat) => f(k, l), n), n);
    SumSwap(xor, f, n, n);
  }

  /** The product only looks at entries below n. */
  lemma ProductSame(xor: bool, a: Matrix, b: Matrix, a': Matrix, b': Matrix, n: nat, i: nat, j: nat)
    requires forall k :: 0 <= k < n ==> a(i, k) == a'(i, k) && b(k, j) == b'(k, j)
    ensures Product(xor, a, b, n)(i, j) == Product(xor, a', b', n)(i, j)
  {
    SumSame(xor, Terms(a, b, i, j), Terms(a', b', i, j), n);
  }

  /** Eight terms written out. */
  lemma SumOfEight(xor: bool, f: nat -> bool)
    ensures Sum(xor, f, 8) ==
      if xor then ((((((f(0) != f(1)) != f(2)) != f(3)) != f(4)) != f(5)) != f(6)) != f(7)
      else f(0) || f(1) || f(2) || f(3) || f(4) || f(5) || f(6) || f(7)
  {
    assert Sum(xor, f, 1) == f(0);
    assert Sum(xor, f, 2) == Plus(xor, Sum(xor, f, 1), f(1));
    assert Sum(xor, f, 3) == Plus(xor, Sum(xor, f, 2), f(2));
    assert Sum(xor, f, 4) == Plus(xor, Sum(xor, f, 3), f(3));
    assert Sum(xor, f, 5) == Plus(xor, Sum(xor, f, 4), f(4));
    assert Sum(xor, f, 6) == Plus(xor, Sum(xor, f, 5), f(5));
    assert Sum(xor, f, 7) == Plus(xor, Sum(xor, f, 6), f(6));
    assert Sum(xor, f, 8) == Plus(xor, Sum(xor, f, 7), f(7));
  }
}
