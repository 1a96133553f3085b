/** `memory/embedding.py`: TF-IDF vectors and cosine similarity, over the reals. */
module Embeddings {
  import opened Collections
  import opened Sorting

  type Vector = seq<real>

  // ---- sums ----------------------------------------------------------------------------------

  function Square(x: real): real { x * x }

  function SumOfSquares(v: Vector): real {
    if v == [] then 0.0 else SumOfSquares(v[..|v| - 1]) + Square(v[|v| - 1])
  }

  /** The sum over `zip(a, b)`, which stops at the shorter vector. */
  function Dot(a: Vector, b: Vector): real {
    if |a| > |b| then DotSame(a[..|b|], b) else DotSame(a, b[..|a|])
  }

  function DotSame(a: Vector, b: Vector): real
    requires |a| == |b|
  {
    if a == [] then 0.0 else DotSame(a[..|a| - 1], b[..|b| - 1]) + a[|a| - 1] * b[|b| - 1]
  }

  /** r is the square root of x. */
  predicate IsRoot(r: real, x: real) {
    r >= 0.0 && Square(r) == x
  }

  /** `similarity`, with the norms of the two vectors. */
  function Similarity(a: Vector, b: Vector, normA: real, normB: real): real {
    if a == [] || b == [] || normA == 0.0 || normB == 0.0 then 0.0 else Dot(a, b) / (normA * normB)
  }

  // ---- arithmetic ----------------------------------------------------------------------------

  function Times(x: real, y: real): real { x * y }

  lemma {:induction false} PositiveProduct(x: real, y: real, z: real)
    requires x > 0.0 && y > 0.0 && z == x * y
    ensures z > 0.0
  {
  }

  lemma {:induction false} PositiveSquare(x: real)
    requires x != 0.0
    ensures Square(x) > 0.0
  {
    if x < 0.0 {
      assert Square(x) == (-x) * (-x);
      PositiveProduct(-x, -x, Square(x));
    } else {
      PositiveProduct(x, x, Square(x));
    }
  }

  lemma {:induction false} SquareNonNegative(x: real)
    ensures Square(x) >= 0.0
  {
    if x != 0.0 { PositiveSquare(x); }
  }

  lemma {:induction false} ZeroSquare(x: real)
    ensures Square(x) == 0.0 <==> x == 0.0
  {
    if x != 0.0 { PositiveSquare(x); }
  }

  lemma {:induction false} Larger(k: real, x: real, y: real)
    requires k > 0.0 && x < y
    ensures k * x < k * y
  {
  }

  lemma {:induction false} Scaled(m: real, s: real, t: real)
    requires m >= 0.0 && s <= t
    ensures m * s <= m * t
  {
  }

  lemma {:induction false} QuotientBounds(d: real, k: real)
    requires k > 0.0 && -k <= d <= k
    ensures -1.0 <= d / k <= 1.0
  {
    var q := d / k;
    assert q * k == d;
    if q > 1.0 {
      Larger(k, 1.0, q);
    }
    if q < -1.0 {
      Larger(k, 1.0, -q);
    }
  }

  lemma {:induction false} SelfQuotient(x: real)
    requires x != 0.0
    ensures x / x == 1.0
  {
  }

  lemma {:induction false} DivideBack(s: real, k: real)
    requires k != 0.0
    ensures Times(s, k) / k == s
  {
  }

  lemma {:induction false} UnitQuotient(s: real, k: real)
    requires k != 0.0 && Times(s, k) == k
    ensures s == 1.0
  {
    DivideBack(s, k);
    SelfQuotient(k);
  }

  lemma {:induction false} Distribute(x: real, y: real, k: real)
    ensures (x + y) * k == x * k + y * k
  {
  }

  lemma {:induction false} SquareOfQuotient(x: real, n: real)
    requires n != 0.0
    ensures Times(Square(x / n), Square(n)) == Square(x)
  {
    var q := x / n;
    assert q * n == x;
    assert q * q * (n * n) == (q * n) * (q * n);
  }

  // ---- Cauchy-Schwarz ----------------------------------------------------------------------

  lemma {:induction false} SumOfSquaresNonNegative(v: Vector)
    ensures SumOfSquares(v) >= 0.0
  {
    if v != [] {
      SumOfSquaresNonNegative(v[..|v| - 1]);
      SquareNonNegative(v[|v| - 1]);
    }
  }

  lemma {:induction false} SumSnoc(v: Vector, x: real)
    ensures SumOfSquares(v + [x]) == SumOfSquares(v) + Square(x)
  {
    assert (v + [x])[..|v|] == v;
  }

  lemma {:induction false} PrefixSum(v: Vector, k: nat)
    requires k <= |v|
    ensures SumOfSquares(v[..k]) <= SumOfSquares(v)
  {
    if k < |v| {
      assert v[..|v| - 1][..k] == v[..k];
      PrefixSum(v[..|v| - 1], k);
      SquareNonNegative(v[|v| - 1]);
    } else {
      TakeAll(v);
    }
  }

  /** The quadratic form p^2 s + 2 p q d + q^2 t. */
  function Form(p: real, q: real, s: real, d: real, t: real): real {
    Square(p) * s + 2.0 * (p * q) * d + Square(q) * t
  }

  lemma {:induction false} FormStep(p: real, q: real, s: real, d: real, t: real, x: real, y: real)
    ensures Form(p, q, s + Square(x), d + x * y, t + Square(y)) == Form(p, q, s, d, t) + Square(p * x + q * y)
  {
    var a, b, c := x * x, x * y, y * y;
    assert (p * x + q * y) * (p * x + q * y) == p * p * a + 2.0 * (p * q) * b + q * q * c;
    Distribute(s, a, p * p);
    Distribute(d, b, 2.0 * (p * q));
    Distribute(t, c, q * q);
  }

  /** It is the sum of the squares of p a[i] + q b[i], so not negative. */
  lemma {:induction false} FormNonNegative(a: Vector, b: Vector, p: real, q: real)
    requires |a| == |b|
    ensures Form(p, q, SumOfSquares(a), DotSame(a, b), SumOfSquares(b)) >= 0.0
  {
    if a != [] {
      var x, y := a[|a| - 1], b[|b| - 1];
      var a', b' := a[..|a| - 1], b[..|b| - 1];
      FormNonNegative(a', b', p, q);
      FormStep(p, q, SumOfSquares(a'), DotSame(a', b'), SumOfSquares(b'), x, y);
      SquareNonNegative(p * x + q * y);
    }
  }

  /** With the norms for p and q the form is at most twice their product times (their product + d). */
  lemma {:induction false} FormAtNorms(n: real, m: real, s: real, d: real, t: real)
    requires s <= Square(n) && t <= Square(m)
    ensures Form(m, n, s, d, t) <= 2.0 * (n * m) * (n * m + d)
  {
    SquareNonNegative(m);
    SquareNonNegative(n);
    Scaled(Square(m), s, Square(n));
    Scaled(Square(n), t, Square(m));
    assert Square(m) * Square(n) == (n * m) * (n * m);
  }

  lemma {:induction false} NonNegativeFactor(k: real, x: real)
    requires k > 0.0 && k * x >= 0.0
    ensures x >= 0.0
  {
    if x < 0.0 { PositiveProduct(k, -x, -(k * x)); }
  }

  lemma {:induction false} LowerBound(a: Vector, b: Vector, n: real, m: real)
    requires |a| == |b| && n > 0.0 && m > 0.0
    requires SumOfSquares(a) <= Square(n) && SumOfSquares(b) <= Square(m)
    ensures n * m + DotSame(a, b) >= 0.0
  {
    FormNonNegative(a, b, m, n);
    FormAtNorms(n, m, SumOfSquares(a), DotSame(a, b), SumOfSquares(b));
    PositiveProduct(n, m, n * m);
    NonNegativeFactor(2.0 * (n * m), n * m + DotSame(a, b));
  }

  function Negated(v: Vector): (u: Vector)
    ensures |u| == |v| && forall i :: 0 <= i < |v| ==> u[i] == -v[i]
  {
    if v == [] then [] else Negated(v[..|v| - 1]) + [-v[|v| - 1]]
  }

  lemma {:induction false} NegatedSquares(v: Vector)
    ensures SumOfSquares(Negated(v)) == SumOfSquares(v)
  {
    if v != [] {
      NegatedSquares(v[..|v| - 1]);
      SumSnoc(Negated(v[..|v| - 1]), -v[|v| - 1]);
      NegatedProducts(0.0, v[|v| - 1]);
    }
  }

  lemma {:induction false} DotSnoc(a: Vector, b: Vector, x: real, y: real)
    requires |a| == |b|
    ensures DotSame(a + [x], b + [y]) == DotSame(a, b) + x * y
  {
    assert (a + [x])[..|a|] == a && (b + [y])[..|b|] == b;
  }

  lemma {:induction false} NegatedDot(a: Vector, b: Vector)
    requires |a| == |b|
    ensures DotSame(a, Negated(b)) == -DotSame(a, b)
  {
    if a != [] {
      var a', b', x, y := a[..|a| - 1], b[..|b| - 1], a[|a| - 1], b[|b| - 1];
      NegatedDot(a', b');
      DotSnoc(a', Negated(b'), x, -y);
      DotSnoc(a', b', x, y);
      Snoc(a);
      Snoc(b);
      NegatedProducts(x, y);
    }
  }

  lemma {:induction false} NegatedProducts(x: real, y: real)
    ensures Square(-y) == Square(y) && x * -y == -(x * y)
  {
  }

  /** The dot product lies between minus and plus the product of the norms. */
  lemma {:induction false} CauchySchwarzSame(a: Vector, b: Vector, n: real, m: real)
    requires |a| == |b| && n > 0.0 && m > 0.0
    requires SumOfSquares(a) <= Square(n) && SumOfSquares(b) <= Square(m)
    ensures -(n * m) <= DotSame(a, b) <= n * m
  {
    LowerBound(a, b, n, m);
    NegatedSquares(b);
    NegatedDot(a, b);
    LowerBound(a, Negated(b), n, m);
  }

  lemma {:induction false} CauchySchwarz(a: Vector, b: Vector, n: real, m: real)
    requires n > 0.0 && m > 0.0 && SumOfSquares(a) == Square(n) && SumOfSquares(b) == Square(m)
    ensures -(n * m) <= Dot(a, b) <= n * m
  {
    if |a| > |b| {
      PrefixSum(a, |b|);
      CauchySchwarzSame(a[..|b|], b, n, m);
    } else {
      PrefixSum(b, |a|);
      CauchySchwarzSame(a, b[..|a|], n, m);
    }
  }

  /** Similarity lies between -1 and 1, also for vectors of different lengths. */
  lemma {:induction false} SimilarityBounded(a: Vector, b: Vector, n: real, m: real)
    requires IsRoot(n, SumOfSquares(a)) && IsRoot(m, SumOfSquares(b))
    ensures -1.0 <= Similarity(a, b, n, m) <= 1.0
  {
    if n > 0.0 && m > 0.0 {
      CauchySchwarz(a, b, n, m);
      PositiveProduct(n, m, n * m);
      QuotientBounds(Dot(a, b), n * m);
    }
  }

  lemma {:induction false} DotSelf(a: Vector)
    ensures DotSame(a, a) == SumOfSquares(a)
  {
    if a != [] { DotSelf(a[..|a| - 1]); }
  }

  lemma {:induction false} DotSymmetric(a: Vector, b: Vector)
    requires |a| == |b|
    ensures DotSame(a, b) == DotSame(b, a)
  {
    if a != [] { DotSymmetric(a[..|a| - 1], b[..|b| - 1]); }
  }

  lemma {:induction false} SimilaritySymmetric(a: Vector, b: Vector, n: real, m: real)
    ensures Similarity(a, b, n, m) == Similarity(b, a, m, n)
  {
    if |a| > |b| {
      DotSymmetric(a[..|b|], b);
    } else {
      DotSymmetric(a, b[..|a|]);
      TakeAll(a);
      TakeAll(b);
    }
    assert n * m == m * n;
  }

  /** A vector's similarity to itself is 1, unless it is zero: then it is 0. */
  lemma {:induction false} SimilarityToSelf(a: Vector, n: real)
    requires IsRoot(n, SumOfSquares(a))
    ensures Similarity(a, a, n, n) == if SumOfSquares(a) == 0.0 then 0.0 else 1.0
  {
    TakeAll(a);
    DotSelf(a);
    if SumOfSquares(a) != 0.0 {
      assert Square(n) == n * n;
      SelfQuotient(Square(n));
    } else {
      ZeroSquare(n);
    }
  }

  /** The dot product read from the front: the product of the first components and that of the rest. */
  lemma {:induction false} DotFirst(a: Vector, b: Vector)
    ensures Dot(a, b) == if a == [] || b == [] then 0.0 else Times(a[0], b[0]) + Dot(a[1..], b[1..])
  {
    if a != [] && b != [] {
      if |a| > |b| {
        DotSameFirst(a[..|b|], b);
        assert a[1..][..|b[1..]|] == a[..|b|][1..];
      } else {
        DotSameFirst(a, b[..|a|]);
        assert b[1..][..|a[1..]|] == b[..|a|][1..];
      }
    }
  }

  lemma {:induction false} DotSameFirst(a: Vector, b: Vector)
    requires |a| == |b| && a != []
    ensures DotSame(a, b) == Times(a[0], b[0]) + DotSame(a[1..], b[1..])
  {
    var n := |a| - 1;
    if n > 0 {
      DotSameFirst(a[..n], b[..n]);
      assert a[..n][1..] == a[1..][..n - 1] && b[..n][1..] == b[1..][..n - 1];
    } else {
      assert a[..0] == [] && a[1..] == [];
    }
  }

  /** The similarity times both norms is the dot product; without a vector or a norm it is zero. */
  lemma {:induction false} SimilarityExactly(a: Vector, b: Vector, n: real, m: real)
    ensures a == [] || b == [] || n == 0.0 || m == 0.0 ==> Similarity(a, b, n, m) == 0.0
    ensures n > 0.0 && m > 0.0 ==> Times(Similarity(a, b, n, m), Times(n, m)) == Dot(a, b)
  {
    DotFirst(a, b);
    if a != [] && b != [] && n > 0.0 && m > 0.0 {
      PositiveProduct(n, m, Times(n, m));
      QuotientTimes(Dot(a, b), Times(n, m));
    } else if n > 0.0 && m > 0.0 {
      assert Dot(a, b) == 0.0;
    }
  }

  lemma {:induction false} QuotientTimes(d: real, k: real)
    requires k != 0.0
    ensures Times(d / k, k) == d
  {
  }

  lemma {:induction false} PositiveQuotient(d: real, k: real)
    requires d > 0.0 && k > 0.0
    ensures d / k > 0.0
  {
  }

  lemma {:induction false} LargerOrSame(y: real, m: real, n: real)
    requires y > 0.0 && m <= n
    ensures Times(y, m) <= Times(y, n)
  {
    if m < n {
      Larger(y, m, n);
    }
  }

  lemma {:induction false} SmallerQuotient(d: real, m: real, n: real)
    requires d > 0.0 && 0.0 < m <= n
    ensures d / n <= d / m
  {
    var x, y := d / m, d / n;
    QuotientTimes(d, m);
    QuotientTimes(d, n);
    if x < y {
      Larger(m, x, y);
      PositiveQuotient(d, n);
      LargerOrSame(y, m, n);
    }
  }

  // ---- the vocabulary ------------------------------------------------------------------------

  /** Distinct tokens in the order they first occur, as a Counter keeps them. */
  function FirstSeen(tokens: seq<Id>): seq<Id> {
    if tokens == [] then []
    else
      var earlier := FirstSeen(tokens[..|tokens| - 1]);
      var last := tokens[|tokens| - 1];
      if last in earlier then earlier else earlier + [last]
  }

  lemma {:induction false} FirstSeenExact(tokens: seq<Id>)
    ensures Distinct(FirstSeen(tokens)) && forall t :: t in FirstSeen(tokens) <==> t in tokens
  {
    if tokens != [] {
      FirstSeenExact(tokens[..|tokens| - 1]);
      Snoc(tokens);
    }
  }

  /** x occurs before any y. */
  ghost predicate SeenBefore(tokens: seq<Id>, x: Id, y: Id) {
    exists m :: 0 <= m < |tokens| && tokens[m] == x && y !in tokens[..m + 1]
  }

  /** They come in the order of their first occurrences. */
  lemma {:induction false} FirstSeenInOrder(tokens: seq<Id>, i: nat, j: nat)
    requires i < j < |FirstSeen(tokens)|
    ensures SeenBefore(tokens, FirstSeen(tokens)[i], FirstSeen(tokens)[j])
  {
    var n := |tokens| - 1;
    var init, all := tokens[..n], FirstSeen(tokens);
    var earlier := FirstSeen(init);
    FirstSeenExact(init);
    if j < |earlier| {
      FirstSeenInOrder(init, i, j);
      var m :| 0 <= m < n && init[m] == all[i] && all[j] !in init[..m + 1];
      assert init[..m + 1] == tokens[..m + 1] && tokens[m] == all[i];
    } else {
      assert earlier[i] in init;
      var m :| 0 <= m < n && init[m] == earlier[i];
      assert all[j] == tokens[n] && tokens[m] == all[i];
      assert forall k :: 0 <= k < m + 1 ==> tokens[..m + 1][k] == init[k];
    }
  }

  function ByCount(tokens: seq<Id>): Id -> Key {
    (t: Id) => Key(-(Count(tokens, t) as real), 0.0)
  }

  /** `Counter(tokens).most_common(n)`: by falling count, first occurrence first. */
  function MostCommon(tokens: seq<Id>, n: nat): seq<Id> {
    var ranked := StableSort(FirstSeen(tokens), ByCount(tokens));
    ranked[..Cut(|ranked|, n)]
  }

  lemma {:induction false} NotInPrefix<T>(s: seq<T>, k: nat, j: nat)
    requires k <= |s| && j < |s| && s[j] !in s[..k]
    ensures k <= j
  {
    assert forall i :: 0 <= i < k ==> s[..k][i] == s[i];
  }

  /** In a ranked list what stands behind is not more frequent. */
  lemma {:induction false} RankedByCount(tokens: seq<Id>, ranked: seq<Id>, i: nat, j: nat)
    requires Sorted(ranked, ByCount(tokens)) && i < j < |ranked|
    ensures Count(tokens, ranked[i]) >= Count(tokens, ranked[j])
  {
    assert !Less(ByCount(tokens)(ranked[j]), ByCount(tokens)(ranked[i]));
  }

  /** The n most common tokens are distinct tokens: n of them, or all there are. */
  lemma {:induction false} MostCommonDistinct(tokens: seq<Id>, n: nat)
    ensures var common := MostCommon(tokens, n);
      && Distinct(common) && |common| <= n && (forall t :: t in common ==> t in tokens)
      && |common| == if n < |Elements(tokens)| then n else |Elements(tokens)|
  {
    var seen := FirstSeen(tokens);
    var ranked := StableSort(seen, ByCount(tokens));
    FirstSeenExact(tokens);
    SortMembers(seen, ByCount(tokens));
    StillDistinct(seen, ranked);
    DistinctCardinality(seen);
    assert Elements(seen) == Elements(tokens);
  }

  /** None of them is less frequent than a token left out. */
  lemma {:induction false} MostCommonFirst(tokens: seq<Id>, n: nat, t: Id, u: Id)
    requires t in MostCommon(tokens, n) && u in tokens && u !in MostCommon(tokens, n)
    ensures Count(tokens, t) >= Count(tokens, u)
  {
    var seen := FirstSeen(tokens);
    var ranked := StableSort(seen, ByCount(tokens));
    var k := Cut(|ranked|, n);
    FirstSeenExact(tokens);
    SortMembers(seen, ByCount(tokens));
    SortIsStable(seen, ByCount(tokens), Key(0.0, 0.0));
    var i :| 0 <= i < k && ranked[i] == t;
    var j :| 0 <= j < |ranked| && ranked[j] == u;
    NotInPrefix(ranked, k, j);
    RankedByCount(tokens, ranked, i, j);
  }

  /** A rearrangement of distinct elements is distinct. */
  lemma {:induction false} StillDistinct<T(!new)>(s: seq<T>, t: seq<T>)
    requires Distinct(s) && |s| == |t| && forall x :: x in t <==> x in s
    ensures Distinct(t)
  {
    if !Distinct(t) {
      var i, j :| 0 <= i < j < |t| && t[i] == t[j];
      var rest := t[..j] + t[j + 1..];
      assert Elements(rest) == Elements(s) by {
        forall x | x in s ensures x in rest {
          var k :| 0 <= k < |t| && t[k] == x;
          assert x == rest[if k < j then k else if k == j then i else k - 1];
        }
      }
      DistinctCardinality(s);
      FewerElements(rest);
    }
  }

  lemma {:induction false} FewerElements<T(!new)>(s: seq<T>)
    ensures |Elements(s)| <= |s|
  {
    if s != [] {
      FewerElements(s[..|s| - 1]);
      assert Elements(s) == Elements(s[..|s| - 1]) + {s[|s| - 1]};
    }
  }

  // ---- embedding -----------------------------------------------------------------------------

  /** The weight in each slot: the count of the slot's token times its inverse document frequency. */
  function Weights(order: seq<Id>, idf: map<Id, real>, tokens: seq<Id>, size: nat): (v: Vector)
    ensures |v| == size
    ensures forall i :: 0 <= i < size ==> v[i] == SlotWeight(order, idf, tokens, i)
  {
    seq(size, i requires 0 <= i < size => SlotWeight(order, idf, tokens, i))
  }

  /** The vector when only the given part of the tokens has been written. */
  function PartWeights(order: seq<Id>, idf: map<Id, real>, tokens: seq<Id>, part: seq<Id>, size: nat): (v: Vector)
    ensures |v| == size
  {
    seq(size, i requires 0 <= i < size =>
      if i < |order| && order[i] in part then SlotWeight(order, idf, tokens, i) else 0.0)
  }

  lemma {:induction false} AllPartsWritten(order: seq<Id>, idf: map<Id, real>, tokens: seq<Id>, part: seq<Id>,
                                           size: nat)
    requires forall t :: t in part <==> t in tokens
    ensures PartWeights(order, idf, tokens, part, size) == Weights(order, idf, tokens, size)
  {
  }

  /** The vector after one token has written its slot, if it has one. */
  function WithToken(v: Vector, vocabulary: map<Id, nat>, idf: map<Id, real>, tokens: seq<Id>, t: Id): Vector
    requires t in vocabulary ==> vocabulary[t] < |v| && t in idf
  {
    if t in vocabulary then v[vocabulary[t] := TokenWeight(idf, tokens, t)] else v
  }

  lemma {:induction false} PartNext(order: seq<Id>, vocabulary: map<Id, nat>, idf: map<Id, real>, tokens: seq<Id>,
                                    part: seq<Id>, size: nat, t: Id)
    requires Distinct(order) && |order| <= size && t in tokens
    requires if t in vocabulary then vocabulary[t] < |order| && order[vocabulary[t]] == t && t in idf else t !in order
    ensures PartWeights(order, idf, tokens, part + [t], size)
         == WithToken(PartWeights(order, idf, tokens, part, size), vocabulary, idf, tokens, t)
  {
    var v, w := PartWeights(order, idf, tokens, part, size), PartWeights(order, idf, tokens, part + [t], size);
    forall i | 0 <= i < size && !(t in vocabulary && vocabulary[t] == i) ensures w[i] == v[i] {
      assert i < |order| ==> order[i] != t;
    }
    if t in vocabulary {
      assert w[vocabulary[t]] == TokenWeight(idf, tokens, t);
    }
  }

  function SlotWeight(order: seq<Id>, idf: map<Id, real>, tokens: seq<Id>, i: nat): real {
    if i < |order| && order[i] in tokens && order[i] in idf then TokenWeight(idf, tokens, order[i]) else 0.0
  }

  function TokenWeight(idf: map<Id, real>, tokens: seq<Id>, t: Id): real
    requires t in idf
  {
    (Count(tokens, t) as real) * idf[t]
  }

  /** Every component divided by the norm. */
  function Divided(v: Vector, norm: real): (u: Vector)
    requires norm != 0.0
    ensures |u| == |v| && forall i :: 0 <= i < |v| ==> u[i] == v[i] / norm
  {
    if v == [] then [] else Divided(v[..|v| - 1], norm) + [v[|v| - 1] / norm]
  }

  function Normalised(v: Vector, norm: real): (u: Vector)
    ensures |u| == |v|
  {
    if norm > 0.0 then Divided(v, norm) else v
  }

  lemma {:induction false} SumStep(s: real, k: real, t: real, q: real, x: real)
    requires Times(s, k) == t && Times(q, k) == x
    ensures Times(s + q, k) == t + x
  {
    Distribute(s, q, k);
  }

  lemma {:induction false} DividedSum(v: Vector, n: real, k: real)
    requires n != 0.0 && k == Square(n)
    ensures Times(SumOfSquares(Divided(v, n)), k) == SumOfSquares(v)
  {
    if v != [] {
      var init, last := v[..|v| - 1], v[|v| - 1];
      var u := Divided(init, n);
      DividedSum(init, n, k);
      SumSnoc(u, last / n);
      SquareOfQuotient(last, n);
      SumStep(SumOfSquares(u), k, SumOfSquares(init), Square(last / n), Square(last));
    }
  }

  /** Normalising gives a unit vector, except for a zero vector, which it leaves alone. */
  lemma {:induction false} UnitOrZero(v: Vector, norm: real)
    requires IsRoot(norm, SumOfSquares(v))
    ensures if SumOfSquares(v) == 0.0 then Normalised(v, norm) == v && forall x :: x in v ==> x == 0.0
            else SumOfSquares(Normalised(v, norm)) == 1.0
  {
    if SumOfSquares(v) == 0.0 {
      ZeroSquare(norm);
      ZeroVector(v);
    } else {
      ZeroSquare(norm);
      DividedSum(v, norm, SumOfSquares(v));
      UnitQuotient(SumOfSquares(Divided(v, norm)), SumOfSquares(v));
    }
  }

  lemma {:induction false} ZeroVector(v: Vector)
    requires SumOfSquares(v) == 0.0
    ensures forall x :: x in v ==> x == 0.0
  {
    if v != [] {
      var last := v[|v| - 1];
      SumOfSquaresNonNegative(v[..|v| - 1]);
      SquareNonNegative(last);
      ZeroSquare(last);
      ZeroVector(v[..|v| - 1]);
      Snoc(v);
    }
  }

  class TfidfEmbedder {
    const maxFeatures: nat
    const tokenize: string -> seq<Id>
    const sqrt: real -> real
    const log: real -> real
    var vocabulary: map<Id, nat>
    var idf: map<Id, real>
    var fitted: bool
    ghost var order: seq<Id>

    /** The vocabulary numbers the tokens of `order` from 0 on. */
    ghost predicate Valid()
      reads this
    {
      && |order| <= maxFeatures && Distinct(order)
      && (forall t :: t in vocabulary <==> t in order)
      && (forall t :: t in vocabulary <==> t in idf)
      && (forall i :: 0 <= i < |order| ==> order[i] in vocabulary && vocabulary[order[i]] == i)
      && (!fitted ==> order == [])
    }

    constructor (maxFeatures: nat, tokenize: string -> seq<Id>, sqrt: real -> real, log: real -> real)
      ensures this.maxFeatures == maxFeatures && this.tokenize == tokenize && this.sqrt == sqrt && this.log == log
      ensures Valid() && !fitted
    {
      this.maxFeatures, this.tokenize, this.sqrt, this.log := maxFeatures, tokenize, sqrt, log;
      vocabulary, idf, fitted, order := map[], map[], false, [];
    }

    /** `log(doc_count / (1 + count))` for a token of the first text. */
    function Idf(tokens: seq<Id>, t: Id): real {
      var docs := if |tokens| == 0 then 1 else |tokens|;
      log((docs as real) / (1 + Count(tokens, t)) as real)
    }

    /** The weight is the logarithm of the number of tokens, or one, over one more than the token's count;
        with a logarithm that never falls, a rarer token weighs no less. */
    lemma {:induction false} IdfExactly(tokens: seq<Id>, t: Id, u: Id)
      ensures exists x :: Idf(tokens, t) == log(x) &&
                          Times(x, (1 + Count(tokens, t)) as real) == (if tokens == [] then 1 else |tokens|) as real
      ensures (forall x, y :: x <= y ==> log(x) <= log(y)) && Count(tokens, t) <= Count(tokens, u) ==>
        Idf(tokens, u) <= Idf(tokens, t)
    {
      var docs := (if |tokens| == 0 then 1 else |tokens|) as real;
      var m, n := (1 + Count(tokens, t)) as real, (1 + Count(tokens, u)) as real;
      QuotientTimes(docs, m);
      assert Idf(tokens, t) == log(docs / m);
      if Count(tokens, t) <= Count(tokens, u) {
        SmallerQuotient(docs, m, n);
      }
    }

    /** `_fit_basic` */
    method FitBasic(text: string)
      requires Valid() && !fitted
      modifies this
      ensures Valid() && fitted && order == MostCommon(tokenize(text), maxFeatures)
      ensures forall t :: t in order ==> idf[t] == Idf(tokenize(text), t)
    {
      var tokens := tokenize(text);
      var common := MostCommon(tokens, maxFeatures);
      MostCommonDistinct(tokens, maxFeatures);
      for i := 0 to |common|
        invariant forall t :: t in vocabulary <==> t in common[..i]
        invariant forall t :: t in vocabulary <==> t in idf
        invariant forall j :: 0 <= j < i ==> common[j] in vocabulary && vocabulary[common[j]] == j
        invariant forall t :: t in idf ==> idf[t] == Idf(tokens, t)
      {
        TakeNext(common, i);
        assert common[i] !in common[..i];
        vocabulary := vocabulary[common[i] := i];
        idf := idf[common[i] := Idf(tokens, common[i])];
      }
      TakeAll(common);
      order := common;
      fitted := true;
    }

    /** A token's slot is in range and its own. */
    lemma {:induction false} SlotOf(t: Id)
      requires Valid()
      ensures t in vocabulary ==> vocabulary[t] < |order| && order[vocabulary[t]] == t && t in idf
      ensures t !in vocabulary ==> t !in order
    {
      if t in vocabulary {
        var j :| 0 <= j < |order| && order[j] == t;
      }
    }

    /** One round of the loop of embed. */
    method WriteSlot(vector: array<real>, tokens: seq<Id>, t: Id)
      requires t in vocabulary ==> vocabulary[t] < vector.Length && t in idf
      modifies vector
      ensures vector[..] == WithToken(old(vector[..]), vocabulary, idf, tokens, t)
    {
      if t in vocabulary {
        vector[vocabulary[t]] := TokenWeight(idf, tokens, t);
      }
    }

    /** The loop of embed over the counted tokens: each writes its own slot, in range. */
    method Fill(tokens: seq<Id>) returns (vector: array<real>)
      requires Valid()
      ensures fresh(vector) && vector[..] == Weights(order, idf, tokens, maxFeatures)
    {
      vector := new real[maxFeatures](_ => 0.0);
      var seen := FirstSeen(tokens);
      FirstSeenExact(tokens);
      for i := 0 to |seen|
        invariant vector[..] == PartWeights(order, idf, tokens, seen[..i], maxFeatures)
      {
        TakeNext(seen, i);
        SlotOf(seen[i]);
        PartNext(order, vocabulary, idf, tokens, seen[..i], maxFeatures, seen[i]);
        WriteSlot(vector, tokens, seen[i]);
      }
      TakeAll(seen);
      AllPartsWritten(order, idf, tokens, seen, maxFeatures);
    }

    /** `embed`: fits on the first text, then weighs and normalises. */
    method Embed(text: string) returns (v: Vector)
      requires Valid()
      modifies this
      ensures Valid() && fitted
      ensures order == if old(fitted) then old(order) else MostCommon(tokenize(text), maxFeatures)
      ensures old(fitted) ==> idf == old(idf)
      ensures var weights := Weights(order, idf, tokenize(text), maxFeatures);
        v == Normalised(weights, sqrt(SumOfSquares(weights)))
    {
      if !fitted {
        FitBasic(text);
      }
      var vector := Fill(tokenize(text));
      var weights := vector[..];
      var norm := sqrt(SumOfSquares(weights));
      v := Normalised(weights, norm);
    }
  }

  /** Every slot holds how often its token occurs times the token's weight; the slots behind the
      vocabulary hold zero. */
  lemma {:induction false} WeightsExactly(order: seq<Id>, idf: map<Id, real>, tokens: seq<Id>, size: nat, i: nat)
    requires i < size
    ensures i < |order| && order[i] in idf ==>
        Weights(order, idf, tokens, size)[i] == Times(Count(tokens, order[i]) as real, idf[order[i]])
    ensures i >= |order| ==> Weights(order, idf, tokens, size)[i] == 0.0
  {
    if i < |order| && order[i] in idf && order[i] !in tokens {
      CountPositive(tokens, order[i]);
    }
  }

  /** Normalising keeps the direction: times the norm every component is what it was. */
  lemma {:induction false} NormalisedExactly(v: Vector, norm: real, i: nat)
    requires i < |v|
    ensures norm > 0.0 ==> Times(Normalised(v, norm)[i], norm) == v[i]
    ensures norm <= 0.0 ==> Normalised(v, norm)[i] == v[i]
  {
    if norm > 0.0 {
      QuotientTimes(v[i], norm);
    }
  }

  // ---- searching -----------------------------------------------------------------------------

  datatype Memory = Memory(id: Id, embedding: Vector)

  function BestScore(): ((Memory, real)) -> Key {
    (scored: (Memory, real)) => Key(-scored.1, 0.0)
  }

  /** The entries with an embedding at least as similar as the threshold, with their similarity. */
  function Scored(query: Vector, entries: seq<Memory>, threshold: real, sqrt: real -> real): seq<(Memory, real)> {
    if entries == [] then []
    else
      var earlier := Scored(query, entries[..|entries| - 1], threshold, sqrt);
      var e := entries[|entries| - 1];
      var s := Similarity(query, e.embedding, sqrt(SumOfSquares(query)), sqrt(SumOfSquares(e.embedding)));
      if e.embedding != [] && s >= threshold then earlier + [(e, s)] else earlier
  }

  /** `search_by_similarity`, given the query's vector. */
  method SearchBySimilarity(query: Vector, entries: seq<Memory>, topK: int, threshold: real, sqrt: real -> real)
      returns (found: seq<(Memory, real)>)
    ensures query == [] ==> found == []
    ensures query != [] ==>
      var ranked := StableSort(Scored(query, entries, threshold, sqrt), BestScore());
      found == ranked[..Cut(|ranked|, topK)]
  {
    if query == [] {
      return [];
    }
    var scored: seq<(Memory, real)> := [];
    for i := 0 to |entries|
      invariant scored == Scored(query, entries[..i], threshold, sqrt)
    {
      assert entries[..i + 1][..i] == entries[..i];
      var e := entries[i];
      if e.embedding != [] {
        var s := Similarity(query, e.embedding, sqrt(SumOfSquares(query)), sqrt(SumOfSquares(e.embedding)));
        if s >= threshold {
          scored := scored + [(e, s)];
        }
      }
    }
    TakeAll(entries);
    scored := StableSort(scored, BestScore());
    found := scored[..Cut(|scored|, topK)];
  }

  /** What is found is scored and at least the threshold; nothing left out of the scored entries is
      more similar than something found. */
  lemma {:induction false} FindsMostSimilar(scored: seq<(Memory, real)>, topK: int, x: (Memory, real), y: (Memory,
                                            real))
    requires var ranked := StableSort(scored, BestScore());
      x in ranked[..Cut(|ranked|, topK)] && y in scored && y !in ranked[..Cut(|ranked|, topK)]
    ensures x in scored && x.1 >= y.1
  {
    var ranked := StableSort(scored, BestScore());
    var k := Cut(|ranked|, topK);
    SortIsStable(scored, BestScore(), Key(0.0, 0.0));
    SortMembers(scored, BestScore());
    var i :| 0 <= i < k && ranked[i] == x;
    var j :| 0 <= j < |ranked| && ranked[j] == y;
    NotInPrefix(ranked, k, j);
    assert !Less(BestScore()(ranked[j]), BestScore()(ranked[i]));
  }

  lemma {:induction false} ScoredMeaning(query: Vector, entries: seq<Memory>, threshold: real, sqrt: real -> real,
                                         e: Memory, s: real)
    ensures (e, s) in Scored(query, entries, threshold, sqrt) <==>
      && e in entries && e.embedding != [] && s >= threshold
      && s == Similarity(query, e.embedding, sqrt(SumOfSquares(query)), sqrt(SumOfSquares(e.embedding)))
  {
    if entries != [] {
      ScoredMeaning(query, entries[..|entries| - 1], threshold, sqrt, e, s);
      Snoc(entries);
    }
  }

  /** Each entry is scored as often as it is listed, in the order of the list. */
  lemma {:induction false} ScoredCounts(query: Vector, entries: seq<Memory>, threshold: real, sqrt: real -> real,
                                        e: Memory)
    ensures var s := Similarity(query, e.embedding, sqrt(SumOfSquares(query)), sqrt(SumOfSquares(e.embedding)));
      Count(Scored(query, entries, threshold, sqrt), (e, s))
      == if e.embedding != [] && s >= threshold then Count(entries, e) else 0
    ensures ScoredInOrder(Scored(query, entries, threshold, sqrt), entries)
  {
    if entries != [] {
      var init, last := entries[..|entries| - 1], entries[|entries| - 1];
      ScoredCounts(query, init, threshold, sqrt, e);
      Snoc(entries);
      CountAppend(init, [last], e);
      var s := Similarity(query, last.embedding, sqrt(SumOfSquares(query)), sqrt(SumOfSquares(last.embedding)));
      var earlier := Scored(query, init, threshold, sqrt);
      var keeps := last.embedding != [] && s >= threshold;
      var own := Similarity(query, e.embedding, sqrt(SumOfSquares(query)), sqrt(SumOfSquares(e.embedding)));
      CountAppend(earlier, if keeps then [(last, s)] else [], (e, own));
      assert Scored(query, entries, threshold, sqrt) == earlier + if keeps then [(last, s)] else [];
      ScoredOrderNext(earlier, init, last, s, keeps);
    }
  }

  ghost predicate ScoredInOrder(scored: seq<(Memory, real)>, entries: seq<Memory>) {
    InOrderOf(Scorees(scored), entries) && forall e :: e in Scorees(scored) ==> e in entries
  }

  function Scorees(scored: seq<(Memory, real)>): (es: seq<Memory>)
    ensures |es| == |scored| && forall i :: 0 <= i < |es| ==> es[i] == scored[i].0
  {
    seq(|scored|, i requires 0 <= i < |scored| => scored[i].0)
  }

  lemma {:induction false} ScoredOrderNext(scored: seq<(Memory, real)>, entries: seq<Memory>, e: Memory, s: real,
                                           keeps: bool)
    requires ScoredInOrder(scored, entries)
    ensures ScoredInOrder(scored + if keeps then [(e, s)] else [], entries + [e])
  {
    var more := if keeps then [(e, s)] else [];
    InOrderSnoc(Scorees(scored), entries, e, keeps);
    assert Scorees(scored + more) == Scorees(scored) + if keeps then [e] else [];
  }

  /** What is found is as many of the scored entries as asked for, by falling similarity. */
  lemma {:induction false} FoundInOrder(scored: seq<(Memory, real)>, topK: int)
    ensures var ranked := StableSort(scored, BestScore());
      var found := ranked[..Cut(|ranked|, topK)];
      && (topK >= 0 ==> |found| == if topK < |scored| then topK else |scored|)
      && forall i, j :: 0 <= i < j < |found| ==> found[i].1 >= found[j].1
  {
    var ranked := StableSort(scored, BestScore());
    SortIsStable(scored, BestScore(), Key(0.0, 0.0));
    SortMembers(scored, BestScore());
    forall i, j | 0 <= i < j < |ranked| ensures ranked[i].1 >= ranked[j].1 {
      assert !Less(BestScore()(ranked[j]), BestScore()(ranked[i]));
    }
  }
}
