/** The classifier statistics of the masking pilot over the reals: pairwise AUC and the Wilson interval. */
module Statistics {
  import opened Permutations

  // ---- AUC ----

  /** A positive above a negative counts one, a tie half. */
  function Win(a: real, b: real): real
  {
    if a > b then 1.0 else if a == b then 0.5 else 0.0
  }

  function WinsOf(a: real, negative: seq<real>): real
  {
    if negative == [] then 0.0 else Win(a, negative[0]) + WinsOf(a, negative[1..])
  }

  function Wins(positive: seq<real>, negative: seq<real>): real
  {
    if positive == [] then 0.0 else WinsOf(positive[0], negative) + Wins(positive[1..], negative)
  }

  function Auc(positive: seq<real>, negative: seq<real>): real
    requires positive != [] && negative != []
  {
    Wins(positive, negative) / (|positive| * |negative|) as real
  }

  lemma {:induction false} WinsOfBounds(a: real, negative: seq<real>)
    ensures 0.0 <= WinsOf(a, negative) <= |negative| as real
  {
    if negative != [] {
      WinsOfBounds(a, negative[1..]);
    }
  }

  lemma {:induction false} WinsBounds(positive: seq<real>, negative: seq<real>)
    ensures 0.0 <= Wins(positive, negative) <= (|positive| * |negative|) as real
  {
    if positive != [] {
      WinsOfBounds(positive[0], negative);
      WinsBounds(positive[1..], negative);
      assert |positive| * |negative| == |positive[1..]| * |negative| + |negative|;
    }
  }

  lemma {:induction false} FirstNegative(positive: seq<real>, b: real, negative: seq<real>)
    ensures Wins(positive, [b] + negative) == Wins(positive, [b]) + Wins(positive, negative)
  {
    if positive != [] {
      FirstNegative(positive[1..], b, negative);
      assert ([b] + negative)[1..] == negative;
      assert WinsOf(positive[0], [b]) == Win(positive[0], b) + WinsOf(positive[0], []);
    }
  }

  lemma {:induction false} OneAgainstAll(positive: seq<real>, b: real)
    ensures Wins(positive, [b]) + WinsOf(b, positive) == |positive| as real
  {
    if positive != [] {
      OneAgainstAll(positive[1..], b);
      assert WinsOf(positive[0], [b]) == Win(positive[0], b) + WinsOf(positive[0], []);
    }
  }

  lemma {:induction false} NoNegatives(positive: seq<real>)
    ensures Wins(positive, []) == 0.0
  {
    if positive != [] {
      NoNegatives(positive[1..]);
    }
  }

  /** Every pair is won by one side or shared. */
  lemma {:induction false} WinsConserved(positive: seq<real>, negative: seq<real>)
    ensures Wins(positive, negative) + Wins(negative, positive) == (|positive| * |negative|) as real
    decreases |negative|
  {
    if negative == [] {
      NoNegatives(positive);
    } else {
      assert negative == [negative[0]] + negative[1..];
      FirstNegative(positive, negative[0], negative[1..]);
      OneAgainstAll(positive, negative[0]);
      WinsConserved(positive, negative[1..]);
      assert |positive| * |negative| == |positive| * |negative[1..]| + |positive|;
    }
  }

  lemma DivideWithin(a: real, n: real)
    requires n > 0.0 && 0.0 <= a <= n
    ensures 0.0 <= a / n <= 1.0
  {
  }

  lemma PairsPositive(m: nat, n: nat)
    requires m > 0 && n > 0
    ensures m * n > 0
  {
  }

  /** AUC lies in [0, 1], and exchanging the classes takes it to its complement, ties included. */
  lemma AucComplement(positive: seq<real>, negative: seq<real>)
    requires positive != [] && negative != []
    ensures 0.0 <= Auc(positive, negative) <= 1.0
    ensures Auc(positive, negative) + Auc(negative, positive) == 1.0
  {
    PairsPositive(|positive|, |negative|);
    WinsBounds(positive, negative);
    WinsConserved(positive, negative);
    var n := (|positive| * |negative|) as real;
    assert |negative| * |positive| == |positive| * |negative|;
    DivideWithin(Wins(positive, negative), n);
    assert (Wins(positive, negative) + Wins(negative, positive)) / n == 1.0;
  }

  // ---- AUC does not depend on order or scale ----

  lemma {:induction false} WinsConcat(a: seq<real>, b: seq<real>, negative: seq<real>)
    ensures Wins(a + b, negative) == Wins(a, negative) + Wins(b, negative)
  {
    if a == [] {
      assert a + b == b;
    } else {
      WinsConcat(a[1..], b, negative);
      assert (a + b)[1..] == a[1..] + b;
    }
  }

  lemma WinsTakeOut(positive: seq<real>, i: nat, negative: seq<real>)
    requires i < |positive|
    ensures Wins(positive, negative) == WinsOf(positive[i], negative) + Wins(positive[..i] + positive[i + 1..], negative)
  {
    var front, back := positive[..i], positive[i + 1..];
    assert positive == front + ([positive[i]] + back);
    WinsConcat(front, [positive[i]] + back, negative);
    WinsConcat(front, back, negative);
    assert ([positive[i]] + back)[1..] == back;
  }

  lemma {:induction false} WinsPermuted(a: seq<real>, b: seq<real>, negative: seq<real>)
    requires multiset(a) == multiset(b)
    ensures Wins(a, negative) == Wins(b, negative)
    decreases |a|
  {
    SameSize(a, b);
    if a != [] {
      var i := FindFirst(a, b);
      WinsTakeOut(b, i, negative);
      WinsPermuted(a[1..], b[..i] + b[i + 1..], negative);
    }
  }

  /** Neither list's order matters. */
  lemma AucPermuted(p: seq<real>, q: seq<real>, m: seq<real>, n: seq<real>)
    requires p != [] && m != [] && multiset(p) == multiset(q) && multiset(m) == multiset(n)
    ensures q != [] && n != [] && Auc(p, m) == Auc(q, n)
  {
    SameSize(p, q);
    SameSize(m, n);
    WinsPermuted(p, q, m);
    WinsConserved(q, m);
    WinsConserved(q, n);
    WinsPermuted(m, n, q);
  }

  function Mapped(s: seq<real>, f: real -> real): (t: seq<real>)
    ensures |t| == |s|
  {
    if s == [] then [] else [f(s[0])] + Mapped(s[1..], f)
  }

  ghost predicate Increasing(f: real -> real)
  {
    forall a, b :: a < b ==> f(a) < f(b)
  }

  lemma WinMapped(a: real, b: real, f: real -> real)
    requires Increasing(f)
    ensures Win(f(a), f(b)) == Win(a, b)
  {
  }

  lemma {:induction false} WinsOfMapped(a: real, negative: seq<real>, f: real -> real)
    requires Increasing(f)
    ensures WinsOf(f(a), Mapped(negative, f)) == WinsOf(a, negative)
  {
    if negative != [] {
      WinMapped(a, negative[0], f);
      WinsOfMapped(a, negative[1..], f);
    }
  }

  lemma {:induction false} WinsMapped(positive: seq<real>, negative: seq<real>, f: real -> real)
    requires Increasing(f)
    ensures Wins(Mapped(positive, f), Mapped(negative, f)) == Wins(positive, negative)
  {
    if positive != [] {
      WinsOfMapped(positive[0], negative, f);
      WinsMapped(positive[1..], negative, f);
    }
  }

  /** Only the ranking of the scores matters. */
  lemma AucMapped(positive: seq<real>, negative: seq<real>, f: real -> real)
    requires positive != [] && negative != [] && Increasing(f)
    ensures Auc(Mapped(positive, f), Mapped(negative, f)) == Auc(positive, negative)
  {
    WinsMapped(positive, negative, f);
  }

  // ---- the Wilson interval ----

  const Z: real := 1.95996398454

  datatype Interval = Interval(low: real, high: real)

  /** Under the square root, for the proportion `p` of `n` trials. */
  function Variance(p: real, n: real): real
    requires n > 0.0
  {
    p * (1.0 - p) / n + Z * Z / (4.0 * n * n)
  }

  ghost predicate IsRoot(root: real, x: real)
  {
    root >= 0.0 && root * root == x
  }

  function Mid(p: real, n: real): real
    requires n > 0.0
  {
    (p + Z * Z / (2.0 * n)) / (1.0 + Z * Z / n)
  }

  function Half(root: real, n: real): real
    requires n > 0.0
  {
    Z * root / (1.0 + Z * Z / n)
  }

  /** The interval, `root` being the square root of the variance term. */
  function Wilson(hits: nat, n: nat, root: real): Interval
    requires hits <= n && n > 0
  {
    var p := hits as real / n as real;
    var low, high := Mid(p, n as real) - Half(root, n as real), Mid(p, n as real) + Half(root, n as real);
    Interval(if low < 0.0 then 0.0 else low, if high > 1.0 then 1.0 else high)
  }

  lemma ProductPositive(a: real, b: real)
    requires a > 0.0 && b > 0.0
    ensures a * b > 0.0
  {
  }

  lemma SquareGrows(a: real, b: real)
    requires a > b >= 0.0
    ensures a * a > b * b
  {
    ProductPositive(a - b, a + b);
    assert (a - b) * (a + b) == a * a - b * b;
  }

  lemma SquaresOrder(a: real, b: real)
    requires b >= 0.0 && a * a <= b * b
    ensures a <= b
  {
    if a > b {
      SquareGrows(a, b);
    }
  }

  lemma SquareNonnegative(a: real)
    ensures a * a >= 0.0
  {
  }

  lemma Share(x: real, n: real)
    requires n > 0.0
    ensures x / n == x * (1.0 / n) && 1.0 / n > 0.0
  {
  }

  /** With `t` for z*z/n and `h` for z*root, the variance term in polynomial form. */
  lemma RootTerm(z: real, p: real, n: real, root: real)
    requires n > 0.0 && root * root == p * (1.0 - p) / n + z * z / (4.0 * n * n)
    ensures (z * root) * (z * root) == (z * z / n) * (p * (1.0 - p)) + (z * z / n) * (z * z / n) / 4.0
  {
    var u, w := 1.0 / n, z * z;
    Share(p * (1.0 - p), n);
    Share(w, n);
    assert u * n == 1.0;
    Quarter(w, n, u);
    assert (z * root) * (z * root) == w * (root * root);
    Expand(w, p * (1.0 - p), u);
  }

  lemma Quarter(w: real, n: real, u: real)
    requires n > 0.0 && u * n == 1.0
    ensures w / (4.0 * n * n) == w * u * u / 4.0
  {
    var d := 4.0 * n * n;
    ProductPositive(n, n);
    assert (w * u * u / 4.0) * d == w * (u * n) * (u * n);
    assert d > 0.0;
  }

  lemma Expand(w: real, v: real, u: real)
    ensures w * (v * u + w * u * u / 4.0) == w * u * v + (w * u) * (w * u) / 4.0
  {
  }

  lemma ZeroIdentity(p: real, t: real)
    ensures (p + t / 2.0) * (p + t / 2.0) - (t * (p * (1.0 - p)) + t * t / 4.0) == p * p + t * (p * p)
  {
  }

  lemma PointIdentity(p: real, t: real)
    ensures t * t / 4.0 - (t * (0.5 - p)) * (t * (0.5 - p)) == t * t * (p * (1.0 - p))
  {
  }

  /** `h` is at most the distance of the centre to zero. */
  lemma ToZero(p: real, t: real, h: real)
    requires p >= 0.0 && t > 0.0 && h * h == t * (p * (1.0 - p)) + t * t / 4.0
    ensures h <= p + t / 2.0
  {
    ZeroIdentity(p, t);
    SquareNonnegative(p);
    ProductNonnegative(t, p * p);
    SquaresOrder(h, p + t / 2.0);
  }

  /** `h` is at least the distance of the centre to the proportion. */
  lemma ToPoint(p: real, t: real, h: real)
    requires 0.0 <= p <= 1.0 && t > 0.0 && h >= 0.0 && h * h == t * (p * (1.0 - p)) + t * t / 4.0
    ensures t * (0.5 - p) <= h
  {
    PointIdentity(p, t);
    ProductNonnegative(p, 1.0 - p);
    ProductNonnegative(t, p * (1.0 - p));
    ProductNonnegative(t, t);
    ProductNonnegative(t * t, p * (1.0 - p));
    SquaresOrder(t * (0.5 - p), h);
  }

  lemma ProductNonnegative(a: real, b: real)
    requires a >= 0.0 && b >= 0.0
    ensures a * b >= 0.0
  {
  }

  lemma Divided(a: real, b: real, den: real)
    requires den > 0.0 && a <= b * den
    ensures a / den <= b
  {
  }

  lemma DividedBelow(a: real, b: real, den: real)
    requires den > 0.0 && a >= b * den
    ensures a / den >= b
  {
  }

  lemma Mirrored(p: real, t: real)
    ensures (1.0 - p) * (1.0 - (1.0 - p)) == p * (1.0 - p)
    ensures t * (0.5 - (1.0 - p)) == -(t * (0.5 - p))
    ensures p * (1.0 + t) == p + t / 2.0 - t * (0.5 - p)
  {
  }

  lemma LowEnd(p: real, t: real, h: real)
    requires 0.0 <= p <= 1.0 && t > 0.0 && h >= 0.0 && h * h == t * (p * (1.0 - p)) + t * t / 4.0
    ensures 0.0 <= (p + t / 2.0 - h) / (1.0 + t) <= p
  {
    ToZero(p, t, h);
    ToPoint(p, t, h);
    Mirrored(p, t);
    DividedBelow(p + t / 2.0 - h, 0.0, 1.0 + t);
    Divided(p + t / 2.0 - h, p, 1.0 + t);
  }

  lemma HighEnd(p: real, t: real, h: real)
    requires 0.0 <= p <= 1.0 && t > 0.0 && h >= 0.0 && h * h == t * (p * (1.0 - p)) + t * t / 4.0
    ensures p <= (p + t / 2.0 + h) / (1.0 + t) <= 1.0
  {
    Mirrored(p, t);
    ToZero(1.0 - p, t, h);
    ToPoint(1.0 - p, t, h);
    DividedBelow(p + t / 2.0 + h, p, 1.0 + t);
    Divided(p + t / 2.0 + h, 1.0, 1.0 + t);
  }

  lemma SumOver(a: real, b: real, den: real)
    requires den > 0.0
    ensures a / den - b / den == (a - b) / den && a / den + b / den == (a + b) / den
  {
    Share(a, den);
    Share(b, den);
    Share(a - b, den);
    Share(a + b, den);
  }

  lemma HalfOf(x: real, n: real)
    requires n > 0.0
    ensures x / (2.0 * n) == x / n / 2.0
  {
  }

  /** Before any clamping, the interval lies in [0, 1] and holds the observed proportion. */
  lemma Unclamped(p: real, n: real, root: real)
    requires 0.0 <= p <= 1.0 && n > 0.0 && IsRoot(root, Variance(p, n))
    ensures 0.0 <= Mid(p, n) - Half(root, n) <= p <= Mid(p, n) + Half(root, n) <= 1.0
  {
    var t, h := Z * Z / n, Z * root;
    ProductNonnegative(Z, root);
    Share(Z * Z, n);
    ProductPositive(Z * Z, 1.0 / n);
    RootTerm(Z, p, n, root);
    HalfOf(Z * Z, n);
    SumOver(p + t / 2.0, h, 1.0 + t);
    LowEnd(p, t, h);
    HighEnd(p, t, h);
  }

  /** The clamps never act: the interval lies in [0, 1] and holds the observed proportion. */
  lemma WilsonContains(hits: nat, n: nat, root: real)
    requires hits <= n && n > 0 && IsRoot(root, Variance(hits as real / n as real, n as real))
    ensures Wilson(hits, n, root).low == Mid(hits as real / n as real, n as real) - Half(root, n as real)
    ensures Wilson(hits, n, root).high == Mid(hits as real / n as real, n as real) + Half(root, n as real)
    ensures 0.0 <= Wilson(hits, n, root).low <= hits as real / n as real <= Wilson(hits, n, root).high <= 1.0
  {
    var p := hits as real / n as real;
    DivideWithin(hits as real, n as real);
    Unclamped(p, n as real, root);
  }

  /** Counting misses instead of hits mirrors the interval. */
  lemma WilsonMirrors(hits: nat, n: nat, root: real)
    requires hits <= n && n > 0 && IsRoot(root, Variance(hits as real / n as real, n as real))
    ensures IsRoot(root, Variance((n - hits) as real / n as real, n as real))
    ensures Wilson(n - hits, n, root).low == 1.0 - Wilson(hits, n, root).high
    ensures Wilson(n - hits, n, root).high == 1.0 - Wilson(hits, n, root).low
  {
    var p, r := hits as real / n as real, n as real;
    Complement(hits as real, r);
    assert (n - hits) as real / r == 1.0 - p;
    VarianceMirrors(p, r);
    WilsonContains(hits, n, root);
    MidMirrors(p, r);
    WilsonContains(n - hits, n, root);
  }

  lemma VarianceMirrors(p: real, n: real)
    requires n > 0.0
    ensures Variance(1.0 - p, n) == Variance(p, n)
  {
    Mirrored(p, 0.0);
  }

  lemma MidMirrors(p: real, n: real)
    requires n > 0.0
    ensures Mid(1.0 - p, n) == 1.0 - Mid(p, n)
  {
    var t := Z * Z / n;
    HalfOf(Z * Z, n);
    Share(Z * Z, n);
    ProductPositive(Z * Z, 1.0 / n);
    Complement(p + t / 2.0, 1.0 + t);
  }

  lemma Complement(a: real, den: real)
    requires den > 0.0
    ensures (den - a) / den == 1.0 - a / den
  {
    SumOver(den, a, den);
    assert den / den == 1.0;
  }
}
