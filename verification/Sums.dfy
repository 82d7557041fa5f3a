/** Finite sums of integers and reals, dot products, and the Cauchy-Schwarz
    inequality with its case of equality. */
module Sums {
  import opened Sequences

  function Sum(s: seq<int>): int {
    if s == [] then 0 else Sum(s[..|s| - 1]) + s[|s| - 1]
  }

  lemma SumAppend(s: seq<int>, x: int)
    ensures Sum(s + [x]) == Sum(s) + x
  {
    assert (s + [x])[..|s|] == s;
  }

  lemma SumMapLast<T>(f: T -> int, s: seq<T>)
    requires s != []
    ensures Sum(Map(f, s)) == Sum(Map(f, s[..|s| - 1])) + f(s[|s| - 1])
  {
    assert Map(f, s)[..|s| - 1] == Map(f, s[..|s| - 1]);
  }

  lemma {:induction false} SumConcat(s: seq<int>, t: seq<int>)
    ensures Sum(s + t) == Sum(s) + Sum(t)
  {
    if t == [] {
      assert s + t == s;
    } else {
      var n := |t| - 1;
      SumConcat(s, t[..n]);
      SumAppend(s + t[..n], t[n]);
      assert s + t == s + t[..n] + [t[n]];
    }
  }

  lemma SumWithout(s: seq<int>, k: nat)
    requires k < |s|
    ensures Sum(s) == Sum(Without(s, k)) + s[k]
  {
    SumConcat(s[..k], s[k + 1..]);
    SumOfSplit(s, k);
  }

  lemma SumOfSplit(s: seq<int>, k: nat)
    requires k < |s|
    ensures Sum(s) == Sum(s[..k]) + s[k] + Sum(s[k + 1..])
  {
    var front := s[..k] + [s[k]];
    SumAppend(s[..k], s[k]);
    SumConcat(front, s[k + 1..]);
    assert s == front + s[k + 1..];
  }

  /** A sum does not depend on the order of its terms. */
  lemma {:induction false} SumPermutation(s: seq<int>, t: seq<int>)
    requires multiset(s) == multiset(t)
    ensures Sum(s) == Sum(t)
    decreases |s|
  {
    if s == [] {
      assert |multiset(t)| == 0;
    } else {
      var k := DropHead(s, t);
      SumPermutation(s[1..], Without(t, k));
      SumWithout(t, k);
      SumWithout(s, 0);
      assert Without(s, 0) == s[1..];
    }
  }

  // ------------------------------------------------------------ descending order

  function Descending(d: seq<int>): seq<int> {
    StableSort((x: int) => -x as real, d)
  }

  lemma DescendingFacts(d: seq<int>)
    ensures multiset(Descending(d)) == multiset(d)
    ensures |Descending(d)| == |d|
    ensures NonIncreasing(Descending(d))
  {
    var key := (x: int) => -x as real;
    StableSortSorts(key, d);
    SameLength(Descending(d), d);
    forall i, j | 0 <= i < j < |d| ensures Descending(d)[i] >= Descending(d)[j] {
      assert key(Descending(d)[i]) <= key(Descending(d)[j]);
    }
  }

  predicate NonIncreasing(s: seq<int>) {
    forall i, j :: 0 <= i < j < |s| ==> s[i] >= s[j]
  }

  /** A descending arrangement of whole numbers is unique. */
  lemma DescendingUnique(s: seq<int>, t: seq<int>)
    requires NonIncreasing(s) && NonIncreasing(t) && multiset(s) == multiset(t)
    ensures s == t
  {
    var negate := (x: int) => -x as real;
    MapPermutation(negate, s, t);
    SortedUnique(Map(negate, s), Map(negate, t));
    forall i | 0 <= i < |s| ensures |t| == |s| && s[i] == t[i] {
      SameLength(s, t);
      assert Map(negate, s)[i] == Map(negate, t)[i];
    }
    SameLength(s, t);
  }

  // ------------------------------------------------------------------ real sums

  function RealSum(s: seq<real>): real {
    if s == [] then 0.0 else RealSum(s[..|s| - 1]) + s[|s| - 1]
  }

  function Dot(x: seq<real>, y: seq<real>): real
    requires |x| == |y|
  {
    if x == [] then 0.0
    else Dot(x[..|x| - 1], y[..|y| - 1]) + x[|x| - 1] * y[|y| - 1]
  }

  lemma {:induction false} DotCommutes(x: seq<real>, y: seq<real>)
    requires |x| == |y|
    ensures Dot(x, y) == Dot(y, x)
  {
    if x != [] {
      DotCommutes(x[..|x| - 1], y[..|y| - 1]);
    }
  }

  lemma SquareNonNegative(a: real)
    ensures a * a >= 0.0
  {}

  lemma {:induction false} SquaresNonNegative(x: seq<real>)
    ensures Dot(x, x) >= 0.0
    ensures forall i :: 0 <= i < |x| ==> x[i] * x[i] <= Dot(x, x)
    ensures Dot(x, x) == 0.0 ==> forall i :: 0 <= i < |x| ==> x[i] == 0.0
  {
    if x != [] {
      var n := |x| - 1;
      SquaresNonNegative(x[..n]);
      SquareNonNegative(x[n]);
      forall i | 0 <= i < |x| ensures x[i] * x[i] <= Dot(x, x) {
        assert i < n ==> x[..n][i] == x[i];
      }
      forall i | 0 <= i < |x| && Dot(x, x) == 0.0 ensures x[i] == 0.0 {
        assert i < n ==> x[..n][i] == x[i];
        ZeroSquare(x[i]);
      }
    }
  }

  function Determinant(p: real, q: real, a: real, b: real): real {
    p * b - a * q
  }

  /** Term by term, the determinants of (x[i], y[i]) against (a, b). */
  function Cross(x: seq<real>, y: seq<real>, a: real, b: real): seq<real>
    requires |x| == |y|
  {
    seq(|x|, i requires 0 <= i < |x| => Determinant(x[i], y[i], a, b))
  }

  /** d is b times D less a times E. Such facts about sums are passed along as predicates, so that
      proofs about sums need not multiply them out. */
  ghost predicate Combines(d: real, D: real, E: real, a: real, b: real) {
    d == b * D - a * E
  }

  lemma CombinesStep(d: real, D: real, E: real, p: real, q: real, r: real, a: real, b: real,
                     d': real, D': real, E': real)
    requires Combines(d, D, E, a, b)
    requires d' == d + Determinant(p, q, a, b) * r && D' == D + p * r && E' == E + q * r
    ensures Combines(d', D', E', a, b)
  {}

  lemma DotLast(x: seq<real>, y: seq<real>, n: nat)
    requires |x| == |y| == n + 1
    ensures Dot(x, y) == Dot(x[..n], y[..n]) + x[n] * y[n]
  {}

  lemma CrossLast(x: seq<real>, y: seq<real>, z: seq<real>, a: real, b: real, n: nat)
    requires |x| == |y| == |z| == n + 1
    ensures Dot(Cross(x, y, a, b), z)
         == Dot(Cross(x[..n], y[..n], a, b), z[..n]) + Determinant(x[n], y[n], a, b) * z[n]
  {
    DotLast(Cross(x, y, a, b), z, n);
    assert Cross(x, y, a, b)[..n] == Cross(x[..n], y[..n], a, b);
  }

  lemma {:induction false} DotLinear(x: seq<real>, y: seq<real>, z: seq<real>, a: real, b: real)
    requires |x| == |y| == |z|
    ensures Combines(Dot(Cross(x, y, a, b), z), Dot(x, z), Dot(y, z), a, b)
  {
    if x != [] {
      var n := |x| - 1;
      var x', y', z' := x[..n], y[..n], z[..n];
      DotLinear(x', y', z', a, b);
      CrossLast(x, y, z, a, b, n);
      DotLast(x, z, n);
      DotLast(y, z, n);
      CombinesStep(Dot(Cross(x', y', a, b), z'), Dot(x', z'), Dot(y', z'), x[n], y[n], z[n], a, b,
                   Dot(Cross(x, y, a, b), z), Dot(x, z), Dot(y, z));
    }
  }

  /** The squared length of a cross list, from the three sums it depends on. */
  function Quadratic(A: real, B: real, P: real, a: real, b: real): real {
    b * b * A + a * a * B - 2.0 * a * b * P
  }

  lemma CombinesTwice(d: real, X: real, Y: real, A: real, B: real, P: real, a: real, b: real)
    requires Combines(d, X, Y, a, b) && Combines(X, A, P, a, b) && Combines(Y, P, B, a, b)
    ensures d == Quadratic(A, B, P, a, b)
  {}

  lemma CrossSquares(x: seq<real>, y: seq<real>, a: real, b: real)
    requires |x| == |y|
    ensures Dot(Cross(x, y, a, b), Cross(x, y, a, b)) == Quadratic(Dot(x, x), Dot(y, y), Dot(x, y), a, b)
  {
    var z := Cross(x, y, a, b);
    DotLinear(x, y, z, a, b);
    DotLinear(x, y, x, a, b);
    DotLinear(x, y, y, a, b);
    DotCommutes(x, z);
    DotCommutes(y, z);
    DotCommutes(x, y);
    CombinesTwice(Dot(z, z), Dot(x, z), Dot(y, z), Dot(x, x), Dot(y, y), Dot(x, y), a, b);
  }

  lemma ZeroProduct(a: real, b: real)
    requires a * b == 0.0
    ensures a == 0.0 || b == 0.0
  {
    if a > 0.0 && b > 0.0 { ProductPositive(a, b); }
    if a > 0.0 && b < 0.0 { ProductPositive(a, -b); }
    if a < 0.0 && b > 0.0 { ProductPositive(-a, b); }
    if a < 0.0 && b < 0.0 { ProductPositive(-a, -b); }
  }

  lemma NonZeroProduct(a: real, b: real)
    requires a != 0.0 && b != 0.0
    ensures a * b != 0.0
  {
    if a * b == 0.0 {
      ZeroProduct(a, b);
    }
  }

  lemma ZeroSquare(a: real)
    ensures a * a == 0.0 ==> a == 0.0
  {
    if a * a == 0.0 {
      ZeroProduct(a, a);
    }
  }

  /** A sum of products against the two sums of squares. Kept as predicates so that
      proofs about sums pass the products along without multiplying them out. */
  ghost predicate CauchyBound(p: real, a: real, b: real) {
    p * p <= a * b
  }

  ghost predicate CauchyTight(p: real, a: real, b: real) {
    p * p == a * b
  }

  lemma Discriminant(A: real, B: real, P: real)
    requires A > 0.0 && Quadratic(A, B, P, A, P) >= 0.0
    ensures CauchyBound(P, A, B)
    ensures CauchyTight(P, A, B) ==> Quadratic(A, B, P, A, P) == 0.0
  {
    var d := A * B - P * P;
    assert Quadratic(A, B, P, A, P) == A * d;
    if d < 0.0 {
      ProductPositive(A, -d);
    }
  }

  lemma {:induction false} DotWithZeros(x: seq<real>, y: seq<real>)
    requires |x| == |y| && forall i :: 0 <= i < |x| ==> x[i] == 0.0
    ensures Dot(x, y) == 0.0
  {
    if x != [] {
      DotWithZeros(x[..|x| - 1], y[..|y| - 1]);
    }
  }

  /** Cauchy-Schwarz: the squared determinants against (x.x, x.y) cannot be negative. */
  lemma CauchySchwarz(x: seq<real>, y: seq<real>)
    requires |x| == |y|
    ensures CauchyBound(Dot(x, y), Dot(x, x), Dot(y, y))
  {
    var A, P := Dot(x, x), Dot(x, y);
    SquaresNonNegative(x);
    if A == 0.0 {
      DotWithZeros(x, y);
    } else {
      CrossSquares(x, y, A, P);
      SquaresNonNegative(Cross(x, y, A, P));
      Discriminant(A, Dot(y, y), P);
    }
  }

  ghost predicate Proportional(x: seq<real>, y: seq<real>, p: real, q: real)
    requires |x| == |y|
  {
    forall i :: 0 <= i < |x| ==> x[i] * p == q * y[i]
  }

  lemma VanishingCross(x: seq<real>, y: seq<real>, p: real, q: real)
    requires |x| == |y| && forall i :: 0 <= i < |x| ==> Cross(x, y, q, p)[i] == 0.0
    ensures Proportional(x, y, p, q)
  {
    forall i | 0 <= i < |x| ensures x[i] * p == q * y[i] {
      assert Cross(x, y, q, p)[i] == 0.0;
    }
  }

  /** Equality in Cauchy-Schwarz forces the two lists to be proportional. */
  lemma CauchySchwarzEquality(x: seq<real>, y: seq<real>)
    requires |x| == |y| && Dot(x, x) > 0.0
    requires CauchyTight(Dot(x, y), Dot(x, x), Dot(y, y))
    ensures Proportional(x, y, Dot(x, y), Dot(x, x))
  {
    var A, P := Dot(x, x), Dot(x, y);
    CrossSquares(x, y, A, P);
    SquaresNonNegative(Cross(x, y, A, P));
    Discriminant(A, Dot(y, y), P);
    VanishingCross(x, y, P, A);
  }

  // ------------------------------------------------------------- square roots

  /** The mathematical square root, of which the library routine is one rounding. */
  ghost predicate IsSqrt(sqrt: real -> real) {
    forall x: real :: x >= 0.0 ==> sqrt(x) >= 0.0 && sqrt(x) * sqrt(x) == x
  }

  lemma SqrtOf(sqrt: real -> real, x: real)
    requires IsSqrt(sqrt) && x >= 0.0
    ensures sqrt(x) >= 0.0 && sqrt(x) * sqrt(x) == x
    ensures sqrt(x) == 0.0 <==> x == 0.0
  {
    ZeroSquare(sqrt(x));
  }

  lemma SquareOrder(a: real, b: real)
    requires b >= 0.0 && a * a <= b * b
    ensures -b <= a <= b
  {
    if a > b {
      SquareGrows(b, a);
    }
    if -a > b {
      SquareGrows(b, -a);
    }
  }

  lemma SquareGrows(b: real, a: real)
    requires 0.0 <= b < a
    ensures b * b < a * a
  {
    assert a * a - b * b == (a - b) * (a + b);
    ProductPositive(a - b, a + b);
  }

  lemma ProductPositive(a: real, b: real)
    requires a > 0.0 && b > 0.0
    ensures a * b > 0.0
  {}

  /** Square roots are unique. */
  lemma SqrtUnique(a: real, b: real)
    requires a >= 0.0 && b >= 0.0 && a * a == b * b
    ensures a == b
  {
    SquareOrder(a, b);
    SquareOrder(b, a);
  }

  lemma ProductNonNegative(a: real, b: real)
    requires a >= 0.0 && b >= 0.0
    ensures a * b >= 0.0
  {}

  lemma QuotientTimes(a: real, b: real)
    requires b != 0.0
    ensures a / b * b == a
  {}

  lemma QuotientOf(q: real, b: real, a: real)
    requires b > 0.0 && q * b == a
    ensures a / b == q
  {}

  lemma SignOfProduct(q: real, b: real)
    requires b > 0.0
    ensures q >= 0.0 <==> q * b >= 0.0
    ensures q == 0.0 <==> q * b == 0.0
  {
    if q > 0.0 {
      ProductPositive(q, b);
    } else if q < 0.0 {
      ProductPositive(-q, b);
    }
  }

  /** Comparing a quotient with zero, one or minus one compares its terms. */
  lemma QuotientBounds(a: real, b: real)
    requires b > 0.0
    ensures a <= b <==> a / b <= 1.0
    ensures -b <= a <==> -1.0 <= a / b
    ensures a >= 0.0 <==> a / b >= 0.0
    ensures a == 0.0 <==> a / b == 0.0
    ensures a == b <==> a / b == 1.0
  {
    var q := a / b;
    QuotientTimes(a, b);
    SignOfProduct(q, b);
    SignOfProduct(1.0 - q, b);
    assert (1.0 - q) * b == b - a;
    SignOfProduct(q + 1.0, b);
    assert (q + 1.0) * b == b + a;
  }
}
