/** Lagrange interpolation at zero over the integers modulo a prime: the algebra behind recovering
    a commitment from shares. Residues are represented by integers up to congruence. */
module Interpolation {
  import opened Basics

  ghost predicate IsPrime(q: int) {
    q > 1 && forall d: nat, e: nat :: Splits(q, d, e) ==> d == 1 || d == q
  }

  ghost predicate Splits(q: int, d: nat, e: nat) {
    d * e == q
  }

  // ---------- congruence ----------

  ghost predicate Cong(q: int, a: int, b: int) {
    exists k: int :: a == b + q * k
  }

  lemma CongBy(q: int, a: int, b: int, k: int)
    requires a == b + q * k
    ensures Cong(q, a, b)
  {
  }

  lemma CongTrans(q: int, a: int, b: int, c: int)
    requires Cong(q, a, b) && Cong(q, b, c)
    ensures Cong(q, a, c)
  {
    var k: int :| a == b + q * k;
    var m: int :| b == c + q * m;
    assert q * k + q * m == q * (k + m);
    CongBy(q, a, c, k + m);
  }

  lemma CongAdd(q: int, a: int, b: int, c: int, d: int)
    requires Cong(q, a, b) && Cong(q, c, d)
    ensures Cong(q, a + c, b + d) && Cong(q, a - c, b - d)
  {
    var k: int :| a == b + q * k;
    var m: int :| c == d + q * m;
    assert q * k + q * m == q * (k + m) && q * k - q * m == q * (k - m);
    CongBy(q, a + c, b + d, k + m);
    CongBy(q, a - c, b - d, k - m);
  }

  lemma CongScale(q: int, a: int, b: int, c: int)
    requires Cong(q, a, b)
    ensures Cong(q, a * c, b * c) && Cong(q, c * a, c * b)
  {
    var k: int :| a == b + q * k;
    assert a * c == b * c + q * (k * c) by {
      assert (b + q * k) * c == b * c + (q * k) * c;
      assert (q * k) * c == q * (k * c);
    }
    CongBy(q, a * c, b * c, k * c);
  }

  lemma CongSym(q: int, a: int, b: int)
    requires Cong(q, a, b)
    ensures Cong(q, b, a)
  {
    var k: int :| a == b + q * k;
    assert q * k == -(q * -k);
    CongBy(q, b, a, -k);
  }

  lemma CongRefl(q: int, a: int)
    ensures Cong(q, a, a)
  {
    CongBy(q, a, a, 0);
  }

  // ---------- inverses ----------

  /** Bezout: the greatest common divisor as a combination, with both cofactors. */
  lemma Bezout(a: nat, b: nat) returns (g: nat, x: int, y: int, u: nat, w: nat)
    requires a > 0
    ensures g == x * a + y * b && a == g * u && b == g * w && g > 0
    decreases b
  {
    if b == 0 {
      g, x, y, u, w := a, 1, 0, 1, 0;
    } else {
      var d, r := a / b, a % b;
      var x', y', u', w';
      g, x', y', u', w' := Bezout(b, r);
      x, y, u, w := y', x' - d * y', u' * d + w', u';
      assert a == b * d + r;
      assert g == y' * a + (x' - d * y') * b by {
        assert y' * a == y' * (b * d) + y' * r;
        assert (x' - d * y') * b == x' * b - (d * y') * b;
        assert y' * (b * d) == (d * y') * b;
      }
      assert a == g * u by {
        assert g * (u' * d + w') == g * (u' * d) + g * w';
        assert g * (u' * d) == (g * u') * d;
      }
    }
  }

  /** A number that is not a multiple of the prime has an inverse. */
  lemma InverseExists(q: int, a: int)
    requires IsPrime(q) && -q < a < q && a != 0
    ensures exists b: int :: Cong(q, a * b, 1)
  {
    var m := if a > 0 then a else a + q;
    var g, x, y, u, w := Bezout(m, q);
    assert Splits(q, g, w);
    assert g <= m by { assert u > 0; assert g * u >= g * 1; }
    assert g == 1;
    assert m * x == 1 + q * -y by { assert x * m == m * x; assert y * q == -(q * -y); }
    if a > 0 {
      CongBy(q, a * x, 1, -y);
    } else {
      assert a * x == m * x - q * x;
      assert q * -y - q * x == q * (-y - x);
      CongBy(q, a * x, 1, -y - x);
    }
  }

  ghost function Inv(q: int, a: int): (b: int)
    requires IsPrime(q) && -q < a < q && a != 0
    ensures Cong(q, a * b, 1)
  {
    InverseExists(q, a);
    var b: int :| Cong(q, a * b, 1);
    b
  }

  // ---------- polynomials and interpolation weights ----------

  /** Horner evaluation, constant coefficient first. */
  function Eval(f: seq<int>, x: int): int {
    if f == [] then 0 else f[0] + x * Eval(f[1..], x)
  }

  /** Distinct non-zero residues. */
  ghost predicate Points(q: int, xs: seq<int>) {
    && (forall i :: 0 <= i < |xs| ==> 0 < xs[i] < q)
    && (forall i, j :: 0 <= i < j < |xs| ==> xs[i] != xs[j])
  }

  ghost predicate InRange(q: int, xs: seq<int>) {
    forall i :: 0 <= i < |xs| ==> 0 < xs[i] < q
  }

  ghost function Factor(q: int, y: int, x: int): int
    requires IsPrime(q) && 0 < x < q && 0 < y < q
  {
    if y == x then 1 else y * Inv(q, y - x)
  }

  /** The weight of point x: the product of y / (y - x) over the other points y. */
  ghost function Weight(q: int, xs: seq<int>, x: int): int
    requires IsPrime(q) && 0 < x < q && InRange(q, xs)
  {
    if xs == [] then 1 else Factor(q, xs[0], x) * Weight(q, xs[1..], x)
  }

  /** The weighted sum of f over the points ps, with weights taken relative to xs. */
  ghost function Sum(q: int, ps: seq<int>, xs: seq<int>, f: seq<int>): int
    requires IsPrime(q) && InRange(q, ps) && InRange(q, xs)
  {
    if ps == [] then 0 else Eval(f, ps[0]) * Weight(q, xs, ps[0]) + Sum(q, ps[1..], xs, f)
  }

  lemma Swap(p: int, s: int, w: int)
    ensures p * (s * w) == s * (p * w)
  {
  }

  lemma WeightHead(q: int, y: int, ys: seq<int>, x: int)
    requires IsPrime(q) && 0 < x < q && 0 < y < q && InRange(q, ys)
    ensures InRange(q, [y] + ys) && Weight(q, [y] + ys, x) == Factor(q, y, x) * Weight(q, ys, x)
  {
    hide IsPrime, Factor;
    assert ([y] + ys)[1..] == ys;
  }

  lemma {:induction false} WeightSplit(q: int, pre: seq<int>, a: int, post: seq<int>, x: int)
    requires IsPrime(q) && 0 < x < q && 0 < a < q && InRange(q, pre) && InRange(q, post)
    ensures InRange(q, pre + [a] + post) && InRange(q, pre + post)
    ensures Weight(q, pre + [a] + post, x) == Factor(q, a, x) * Weight(q, pre + post, x)
    decreases |pre|
  {
    hide IsPrime, Factor, Weight;
    if pre == [] {
      assert pre + [a] + post == [a] + post && pre + post == post;
      WeightHead(q, a, post, x);
    } else {
      var y, pre' := pre[0], pre[1..];
      WeightSplit(q, pre', a, post, x);
      assert pre + [a] + post == [y] + (pre' + [a] + post) && pre + post == [y] + (pre' + post);
      WeightHead(q, y, pre' + [a] + post, x);
      WeightHead(q, y, pre' + post, x);
      Swap(Factor(q, y, x), Factor(q, a, x), Weight(q, pre' + post, x));
    }
  }

  lemma {:induction false} SumSplit(q: int, pre: seq<int>, a: int, post: seq<int>, xs: seq<int>, f: seq<int>)
    requires IsPrime(q) && 0 < a < q && InRange(q, pre) && InRange(q, post) && InRange(q, xs)
    ensures InRange(q, pre + [a] + post) && InRange(q, pre + post)
    ensures Sum(q, pre + [a] + post, xs, f) == Eval(f, a) * Weight(q, xs, a) + Sum(q, pre + post, xs, f)
    decreases |pre|
  {
    if pre == [] {
      assert pre + [a] + post == [a] + post && pre + post == post;
      assert ([a] + post)[1..] == post;
    } else {
      SumSplit(q, pre[1..], a, post, xs, f);
      assert (pre + [a] + post)[1..] == pre[1..] + [a] + post && (pre + post)[1..] == pre[1..] + post;
    }
  }

  lemma Regroup(d: int, a: int, b: int, w: int)
    ensures d * ((a * b) * w) == (d * b) * (a * w) && 1 * (a * w) == a * w
  {
    assert d * ((a * b) * w) == (d * (a * b)) * w;
    assert d * (a * b) == (d * b) * a;
    assert ((d * b) * a) * w == (d * b) * (a * w);
  }

  /** Dropping the point a from the weights: (a - x) * weight equals a * weight without a. */
  lemma WeightDrop(q: int, pre: seq<int>, a: int, post: seq<int>, x: int)
    requires IsPrime(q) && 0 < x < q && 0 < a < q && x != a && InRange(q, pre) && InRange(q, post)
    ensures InRange(q, pre + [a] + post) && InRange(q, pre + post)
    ensures Cong(q, (a - x) * Weight(q, pre + [a] + post, x), a * Weight(q, pre + post, x))
  {
    hide IsPrime, Cong, Weight;
    WeightSplit(q, pre, a, post, x);
    var b, w := Inv(q, a - x), Weight(q, pre + post, x);
    CongScale(q, (a - x) * b, 1, a * w);
    Regroup(a - x, a, b, w);
  }

  lemma ShiftAlgebra(a: int, x: int, e: int, w: int)
    ensures e * ((a - x) * w) == a * (e * w) - (x * e) * w
  {
    assert (a - x) * w == a * w - x * w;
    assert e * (a * w - x * w) == e * (a * w) - e * (x * w);
    assert e * (a * w) == a * (e * w) && e * (x * w) == (x * e) * w;
  }

  lemma ShiftTerm(q: int, a: int, x: int, e: int, w: int, w': int)
    requires Cong(q, (a - x) * w, a * w')
    ensures Cong(q, a * (e * w) - (x * e) * w, a * (e * w'))
  {
    hide Cong;
    CongScale(q, (a - x) * w, a * w', e);
    ShiftAlgebra(a, x, e, w);
    Swap(e, a, w');
  }

  lemma MulAssoc(a: int, b: int, c: int)
    ensures a * (b * c) == (a * b) * c
  {
  }

  lemma {:induction false} SumDrop(q: int, ps: seq<int>, pre: seq<int>, a: int, post: seq<int>, f: seq<int>)
    requires IsPrime(q) && 0 < a < q && InRange(q, pre) && InRange(q, post) && InRange(q, ps)
    requires a !in ps
    ensures InRange(q, pre + [a] + post) && InRange(q, pre + post)
    ensures Cong(q, a * Sum(q, ps, pre + [a] + post, f) - Sum(q, ps, pre + [a] + post, [0] + f),
                 a * Sum(q, ps, pre + post, f))
    decreases |ps|
  {
    hide IsPrime, Cong, Weight;
    var xs, xs' := pre + [a] + post, pre + post;
    if ps == [] {
      CongRefl(q, 0);
    } else {
      var x, rest := ps[0], ps[1..];
      SumDrop(q, rest, pre, a, post, f);
      WeightDrop(q, pre, a, post, x);
      var e, w, w' := Eval(f, x), Weight(q, xs, x), Weight(q, xs', x);
      ShiftTerm(q, a, x, e, w, w');
      EvalShift(f, x);
      var s, t, s' := Sum(q, rest, xs, f), Sum(q, rest, xs, [0] + f), Sum(q, rest, xs', f);
      CongAdd(q, a * (e * w) - (x * e) * w, a * (e * w'), a * s - t, a * s');
      Distribute(a, e * w, s);
      Distribute(a, e * w', s');
    }
  }

  lemma EvalShift(f: seq<int>, x: int)
    ensures Eval([0] + f, x) == x * Eval(f, x)
  {
    assert ([0] + f)[1..] == f;
  }

  /** The recurrence of interpolation: removing one point turns multiplication by x into a
      difference of two sums. */
  lemma SumRecurrence(q: int, pre: seq<int>, a: int, post: seq<int>, f: seq<int>)
    requires IsPrime(q) && Points(q, pre + [a] + post)
    ensures Points(q, pre + post)
    ensures var xs, xs' := pre + [a] + post, pre + post;
            Cong(q, a * Sum(q, xs, xs, f) - Sum(q, xs, xs, [0] + f), a * Sum(q, xs', xs', f))
  {
    var xs, xs' := pre + [a] + post, pre + post;
    hide IsPrime, Cong, Weight, Sum;
    PointsDrop(q, pre, a, post);
    SumSplit(q, pre, a, post, xs, f);
    SumSplit(q, pre, a, post, xs, [0] + f);
    SumDrop(q, xs', pre, a, post, f);
    EvalShift(f, a);
    var e, w := Eval(f, a), Weight(q, xs, a);
    var s, t := Sum(q, xs', xs, f), Sum(q, xs', xs, [0] + f);
    Distribute(a, e * w, s);
    assert a * (e * w) == (a * e) * w by { MulAssoc(a, e, w); }
  }

  lemma PointsDrop(q: int, pre: seq<int>, a: int, post: seq<int>)
    requires Points(q, pre + [a] + post)
    ensures Points(q, pre + post) && a !in pre + post && 0 < a < q
    ensures InRange(q, pre) && InRange(q, post) && InRange(q, pre + post)
  {
    var xs, ys := pre + [a] + post, pre + post;
    assert xs[|pre|] == a;
    forall i | 0 <= i < |ys| ensures 0 < ys[i] < q && ys[i] != a {
      if i < |pre| { assert ys[i] == xs[i]; } else { assert ys[i] == xs[i + 1]; }
    }
    forall i, j | 0 <= i < j < |ys| ensures ys[i] != ys[j] {
      assert ys[i] == xs[if i < |pre| then i else i + 1];
      assert ys[j] == xs[if j < |pre| then j else j + 1];
    }
    forall i | 0 <= i < |pre| ensures 0 < pre[i] < q { assert pre[i] == xs[i]; }
    forall i | 0 <= i < |post| ensures 0 < post[i] < q { assert post[i] == xs[|pre| + 1 + i]; }
  }

  lemma DropHead(q: int, xs: seq<int>, f: seq<int>)
    requires IsPrime(q) && Points(q, xs) && xs != []
    ensures Points(q, xs[1..])
    ensures Cong(q, xs[0] * Sum(q, xs, xs, f) - Sum(q, xs, xs, [0] + f),
                 xs[0] * Sum(q, xs[1..], xs[1..], f))
  {
    hide IsPrime, Cong, Sum;
    assert xs == [] + [xs[0]] + xs[1..] && [] + xs[1..] == xs[1..];
    SumRecurrence(q, [], xs[0], xs[1..], f);
  }

  lemma DropLast(q: int, xs: seq<int>, f: seq<int>)
    requires IsPrime(q) && Points(q, xs) && xs != []
    ensures Points(q, xs[..|xs| - 1])
    ensures var n := |xs| - 1;
            Cong(q, xs[n] * Sum(q, xs, xs, f) - Sum(q, xs, xs, [0] + f),
                 xs[n] * Sum(q, xs[..n], xs[..n], f))
  {
    hide IsPrime, Cong, Sum;
    var n := |xs| - 1;
    assert xs == xs[..n] + [xs[n]] + [] && xs[..n] + [] == xs[..n];
    SumRecurrence(q, xs[..n], xs[n], [], f);
  }

  lemma EvalOne(x: int)
    ensures Eval([1], x) == 1
  {
    assert [1][1..] == [];
    assert Eval([], x) == 0;
    assert x * 0 == 0;
  }

  lemma OnePoint(q: int, x: int)
    requires IsPrime(q) && 0 < x < q
    ensures InRange(q, [x]) && Sum(q, [x], [x], [1]) == 1
  {
    hide IsPrime;
    EvalOne(x);
    var xs := [x];
    assert xs[1..] == [];
    assert Weight(q, xs, x) == Factor(q, x, x) * Weight(q, xs[1..], x);
    assert Sum(q, xs, xs, [1]) == Eval([1], x) * Weight(q, xs, x) + Sum(q, xs[1..], xs, [1]);
  }

  /** The weights sum to one. */
  lemma {:induction false} WeightsSumToOne(q: int, xs: seq<int>)
    requires IsPrime(q) && Points(q, xs) && xs != []
    ensures Cong(q, Sum(q, xs, xs, [1]), 1)
    decreases |xs|
  {
    hide IsPrime, Cong, Weight, Sum;
    if |xs| == 1 {
      OnePoint(q, xs[0]);
      assert xs == [xs[0]];
      CongRefl(q, 1);
    } else {
      var n := |xs| - 1;
      var a, b := xs[0], xs[n];
      var s, t := Sum(q, xs, xs, [1]), Sum(q, xs, xs, [0] + [1]);
      DropHead(q, xs, [1]);
      WeightsSumToOne(q, xs[1..]);
      DropLast(q, xs, [1]);
      WeightsSumToOne(q, xs[..n]);
      OnlyOne(q, a, b, s, t, Sum(q, xs[1..], xs[1..], [1]), Sum(q, xs[..n], xs[..n], [1]));
    }
  }

  lemma OnlyOne(q: int, a: int, b: int, s: int, t: int, sa: int, sb: int)
    requires IsPrime(q) && 0 < a < q && 0 < b < q && a != b
    requires Cong(q, sa, 1) && Cong(q, sb, 1)
    requires Cong(q, a * s - t, a * sa) && Cong(q, b * s - t, b * sb)
    ensures Cong(q, s, 1)
  {
    hide IsPrime, Cong;
    CongScale(q, sa, 1, a);
    CongScale(q, sb, 1, b);
    CongTrans(q, a * s - t, a * sa, a);
    CongTrans(q, b * s - t, b * sb, b);
    CongAdd(q, a * s - t, a, b * s - t, b);
    assert (a * s - t) - (b * s - t) == (a - b) * s by { Distribute(s, a, -b); }
    Cancel(q, a - b, s);
  }

  /** Division by a non-zero residue. */
  lemma Cancel(q: int, d: int, s: int)
    requires IsPrime(q) && -q < d < q && d != 0 && Cong(q, d * s, d)
    ensures Cong(q, s, 1)
  {
    hide IsPrime, Cong;
    var i := Inv(q, d);
    CongScale(q, d * s, d, i);
    CongScale(q, d * i, 1, s);
    assert i * (d * s) == (d * i) * s by { MulAssoc(i, d, s); }
    CongTrans(q, (d * i) * s, d * i, 1);
    CongSym(q, (d * i) * s, s);
    CongTrans(q, s, (d * i) * s, 1);
  }

  lemma {:induction false} SumLinear(q: int, ps: seq<int>, xs: seq<int>, f: seq<int>)
    requires IsPrime(q) && InRange(q, ps) && InRange(q, xs) && f != []
    ensures Sum(q, ps, xs, f) == f[0] * Sum(q, ps, xs, [1]) + Sum(q, ps, xs, [0] + f[1..])
    decreases |ps|
  {
    hide IsPrime, Weight;
    if ps != [] {
      var x := ps[0];
      SumLinear(q, ps[1..], xs, f);
      EvalShift(f[1..], x);
      EvalOne(x);
      LinearTerm(f[0], x * Eval(f[1..], x), Weight(q, xs, x), Sum(q, ps[1..], xs, [1]));
    }
  }

  lemma LinearTerm(c: int, r: int, w: int, s: int)
    ensures (c + r) * w == c * w + r * w
    ensures c * (1 * w + s) == c * w + c * s
  {
  }

  lemma {:induction false} SumZero(q: int, ps: seq<int>, xs: seq<int>, f: seq<int>)
    requires IsPrime(q) && InRange(q, ps) && InRange(q, xs) && (f == [] || f == [0])
    ensures Sum(q, ps, xs, f) == 0
    decreases |ps|
  {
    if ps != [] {
      SumZero(q, ps[1..], xs, f);
      hide IsPrime;
      assert Eval(f, ps[0]) == 0 by { if f == [0] { assert f[1..] == []; assert ps[0] * 0 == 0; } }
    }
  }

  /** Interpolation at zero: on any set of distinct non-zero points, at least as many as the
      polynomial has coefficients, the weighted sum of its values is its constant coefficient. */
  lemma {:induction false} InterpolatesAtZero(q: int, xs: seq<int>, f: seq<int>)
    requires IsPrime(q) && Points(q, xs) && xs != [] && |f| <= |xs|
    ensures Cong(q, Sum(q, xs, xs, f), Eval(f, 0))
    decreases |f|, 1
  {
    hide IsPrime, Cong, Sum;
    if f == [] {
      SumZero(q, xs, xs, f);
      CongRefl(q, 0);
    } else {
      var c, g := f[0], f[1..];
      var one, s := Sum(q, xs, xs, [1]), Sum(q, xs, xs, [0] + g);
      SumLinear(q, xs, xs, f);
      WeightsSumToOne(q, xs);
      CongScale(q, one, 1, c);
      assert Cong(q, s, 0) by {
        if g == [] {
          assert [0] + g == [0];
          SumZero(q, xs, xs, [0]);
          CongRefl(q, 0);
        } else {
          HigherTermsVanish(q, xs, g);
        }
      }
      CongAdd(q, c * one, c * 1, s, 0);
    }
  }

  lemma {:induction false} HigherTermsVanish(q: int, xs: seq<int>, g: seq<int>)
    requires IsPrime(q) && Points(q, xs) && g != [] && |g| < |xs|
    ensures Cong(q, Sum(q, xs, xs, [0] + g), 0)
    decreases |g|, 2
  {
    hide IsPrime, Cong, Sum;
    var a, xs' := xs[0], xs[1..];
    DropHead(q, xs, g);
    InterpolatesAtZero(q, xs, g);
    InterpolatesAtZero(q, xs', g);
    var u, u', v, e := Sum(q, xs, xs, g), Sum(q, xs', xs', g), Sum(q, xs, xs, [0] + g), Eval(g, 0);
    CongScale(q, u, e, a);
    CongScale(q, u', e, a);
    CongTrans(q, a * u - v, a * u', a * e);
    CongAdd(q, a * u, a * e, a * u - v, a * e);
  }
}
