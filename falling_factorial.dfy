/**
 * `f(n, k)` of notebooks/chess-gender-gap/utils.py: the falling factorial,
 * computed by a loop that multiplies r by n and decrements n, k times.
 * Python integers are unbounded, and so are Dafny's.
 */
module ChessUtils {

  /** The product of a sequence of integers, 1 for the empty one. */
  function Product(s: seq<int>): int {
    if s == [] then 1 else Product(s[..|s| - 1]) * s[|s| - 1]
  }

  /** The factors n, n - 1, ..., n - k + 1; none when k <= 0 (`range(k)` is empty). */
  function Factors(n: int, k: int): (r: seq<int>)
    ensures |r| == if k <= 0 then 0 else k
  {
    if k <= 0 then [] else seq(k, i requires 0 <= i < k => n - i)
  }

  function Factorial(n: nat): nat {
    if n == 0 then 1 else n * Factorial(n - 1)
  }

  /** `f(n, k)`. */
  method FallingFactorial(n: int, k: int) returns (r: int)
    ensures r == Product(Factors(n, k))
  {
    r := 1;
    var m := n;
    var steps := if k <= 0 then 0 else k;
    for i := 0 to steps
      invariant m == n - i
      invariant r == Product(Factors(n, i))
    {
      assert Factors(n, i + 1)[..i] == Factors(n, i);
      r := r * m;
      m := m - 1;
    }
  }

  lemma {:induction false} ProductCons(x: int, s: seq<int>)
    ensures Product([x] + s) == x * Product(s)
    decreases |s|
  {
    if s != [] {
      var t := [x] + s;
      assert t[..|t| - 1] == [x] + s[..|s| - 1];
      ProductCons(x, s[..|s| - 1]);
      calc {
        Product(t);
        Product([x] + s[..|s| - 1]) * s[|s| - 1];
        (x * Product(s[..|s| - 1])) * s[|s| - 1];
        { assert (x * Product(s[..|s| - 1])) * s[|s| - 1] == x * (Product(s[..|s| - 1]) * s[|s| - 1]); }
        x * Product(s);
      }
    } else {
      assert [x] + s == [x];
      assert [x][..0] == [];
    }
  }

  /** For k >= 1, f(n, k) == n * f(n - 1, k - 1). */
  lemma FallingRecurrence(n: int, k: int)
    requires k >= 1
    ensures Product(Factors(n, k)) == n * Product(Factors(n - 1, k - 1))
  {
    assert Factors(n, k) == [n] + Factors(n - 1, k - 1);
    ProductCons(n, Factors(n - 1, k - 1));
  }

  /** f(n, k) == 1 whenever k <= 0, and f(n, 1) == n. */
  lemma FallingSmallK(n: int, k: int)
    ensures k <= 0 ==> Product(Factors(n, k)) == 1
    ensures Product(Factors(n, 1)) == n
  {
    FallingRecurrence(n, 1);
  }

  /** f(n, n) == n! for n >= 0. */
  lemma {:induction false} FallingFull(n: nat)
    ensures Product(Factors(n, n)) == Factorial(n)
  {
    if n > 0 {
      FallingRecurrence(n, n);
      FallingFull(n - 1);
    }
  }

  lemma {:induction false} ProductWithZero(s: seq<int>, i: nat)
    requires i < |s| && s[i] == 0
    ensures Product(s) == 0
  {
    if i < |s| - 1 {
      ProductWithZero(s[..|s| - 1], i);
    }
  }

  /** For natural n < k one of the factors is n - n == 0. */
  lemma FallingVanishes(n: nat, k: int)
    requires n < k
    ensures Product(Factors(n, k)) == 0
  {
    ProductWithZero(Factors(n, k), n);
  }
}
