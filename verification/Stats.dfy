/** The monitor's streaming statistics over exact reals: mean and squared deviation are updated one
    sample at a time, and collecting again runs over the whole store again. */
module Stats {
  import opened Basics

  function Sum(s: seq<real>): real {
    if s == [] then 0.0 else Sum(s[..|s| - 1]) + s[|s| - 1]
  }

  function Mean(s: seq<real>): real
    requires s != []
  {
    Sum(s) / |s| as real
  }

  function Square(x: real): real {
    x * x
  }

  /** The sum of squared distances from c. */
  function Spread(s: seq<real>, c: real): real {
    if s == [] then 0.0 else Spread(s[..|s| - 1], c) + Square(s[|s| - 1] - c)
  }

  /** The sum of squared deviations from the mean. */
  function Deviation(s: seq<real>): real {
    if s == [] then 0.0 else Spread(s, Mean(s))
  }

  function Squares(s: seq<real>): real {
    if s == [] then 0.0 else Squares(s[..|s| - 1]) + Square(s[|s| - 1])
  }

  predicate IsMin(s: seq<real>, m: real) {
    m in s && forall i :: 0 <= i < |s| ==> m <= s[i]
  }

  /** The largest sample, or zero if that is larger: the running maximum starts at zero. */
  predicate IsMaxFromZero(s: seq<real>, m: real) {
    (m == 0.0 || m in s) && m >= 0.0 && forall i :: 0 <= i < |s| ==> s[i] <= m
  }

  lemma {:induction false} SpreadExpands(s: seq<real>, c: real)
    ensures Spread(s, c) == Expanded(Squares(s), c, Sum(s), |s| as real)
    decreases |s|
  {
    hide Square;
    if s == [] {
      ExpandNothing(c);
    } else {
      var t, x := s[..|s| - 1], s[|s| - 1];
      SpreadExpands(t, c);
      ExpandTerm(Squares(t), c, Sum(t), |t| as real, x);
    }
  }

  /** The squared distances from c of n numbers with sum S and sum of squares Q. */
  function Expanded(Q: real, c: real, S: real, n: real): real {
    Q - 2.0 * c * S + n * c * c
  }

  lemma ExpandNothing(c: real)
    ensures Expanded(0.0, c, 0.0, 0.0) == 0.0
  {
  }

  lemma ExpandTerm(Q: real, c: real, S: real, n: real, x: real)
    ensures Expanded(Q + Square(x), c, S + x, n + 1.0) == Expanded(Q, c, S, n) + Square(x - c)
  {
    assert (x - c) * (x - c) == x * x - 2.0 * c * x + c * c;
    assert (n + 1.0) * c * c == n * c * c + c * c;
    assert 2.0 * c * (S + x) == 2.0 * c * S + 2.0 * c * x;
  }

  lemma Snoc(s: seq<real>, x: real)
    ensures (s + [x])[..|s|] == s
    ensures Sum(s + [x]) == Sum(s) + x && Squares(s + [x]) == Squares(s) + Square(x)
  {
    hide Square;
    assert (s + [x])[..|s|] == s;
  }

  /** Deviation in terms of the sums: with n m = S, it is Q - n m m. */
  lemma DeviationForm(s: seq<real>, n: real, m: real)
    requires s != [] && n == |s| as real && m == Mean(s)
    ensures n * m == Sum(s)
    ensures Deviation(s) == Squares(s) - n * m * m
  {
    hide Square, Spread, Squares;
    SpreadExpands(s, m);
    assert n * m == Sum(s);
    AtMean(Squares(s), m, Sum(s), n);
  }

  lemma AtMean(Q: real, m: real, S: real, n: real)
    requires n * m == S
    ensures Expanded(Q, m, S, n) == Q - n * m * m
  {
    assert m * S == n * m * m;
    assert 2.0 * m * S == 2.0 * (m * S);
  }

  lemma StepAlgebra(n: real, m: real, m': real, x: real)
    requires (n + 1.0) * m' == n * m + x
    ensures x * x - (n + 1.0) * m' * m' + n * m * m == (x - m) * (x - m')
  {
    assert (n + 1.0) * m' * m' == (n * m + x) * m';
    assert (n * m + x) * m' == n * m * m' + x * m';
    assert (x - m) * (x - m') == x * x - x * m' - m * x + m * m';
    assert m * ((n + 1.0) * m') == m * (n * m + x);
    assert m * ((n + 1.0) * m') == n * m * m' + m * m';
    assert m * (n * m + x) == n * m * m + m * x;
  }

  /** The update of the mean m by the n-th sample x. */
  function NextMean(m: real, x: real, n: nat): real
    requires n > 0
  {
    m + (x - m) / n as real
  }

  /** The update of the deviation d when the mean goes from m to m'. */
  function NextDeviation(d: real, x: real, m: real, m': real): real {
    d + (x - m) * (x - m')
  }

  lemma MeanAlgebra(m: real, x: real, n: nat)
    ensures (n as real + 1.0) * NextMean(m, x, n + 1) == n as real * m + x
  {
    var c := n as real + 1.0;
    var d := (x - m) / c;
    assert c * d == x - m;
    assert c * (m + d) == c * m + c * d;
  }

  /** One streaming step computes the mean and the deviation of the longer sequence. */
  lemma StreamingStep(s: seq<real>, x: real)
    requires s != []
    ensures Mean(s + [x]) == NextMean(Mean(s), x, |s| + 1)
    ensures Deviation(s + [x]) == NextDeviation(Deviation(s), x, Mean(s), Mean(s + [x]))
  {
    hide Deviation, Squares, Sum, Square, Mean, NextMean, NextDeviation;
    var n, m, m' := |s| as real, Mean(s), NextMean(Mean(s), x, |s| + 1);
    Snoc(s, x);
    DeviationForm(s, n, m);
    MeanAlgebra(m, x, |s|);
    MeanFrom(s + [x], m');
    DeviationForm(s + [x], n + 1.0, m');
    DeviationAlgebra(Squares(s), n, m, m', x);
  }

  lemma MeanFrom(s: seq<real>, m: real)
    requires s != [] && Sum(s) == |s| as real * m
    ensures Mean(s) == m
  {
    Divides(|s| as real, m);
  }

  lemma DeviationAlgebra(Q: real, n: real, m: real, m': real, x: real)
    requires (n + 1.0) * m' == n * m + x
    ensures Q + Square(x) - (n + 1.0) * m' * m' == NextDeviation(Q - n * m * m, x, m, m')
  {
    StepAlgebra(n, m, m', x);
  }

  lemma MinStep(s: seq<real>, m: real, x: real)
    requires s != [] ==> IsMin(s, m)
    ensures IsMin(s + [x], if m > x || s == [] then x else m)
  {
    assert (s + [x])[|s|] == x;
  }

  lemma MaxStep(s: seq<real>, m: real, x: real)
    requires IsMaxFromZero(s, m)
    ensures IsMaxFromZero(s + [x], if m < x then x else m)
  {
    assert (s + [x])[|s|] == x;
  }

  lemma Divides(n: real, m: real)
    requires n != 0.0
    ensures (n * m) / n == m
  {
  }

  class Value {
    var store: seq<real>
    var n: nat
    var min: real
    var max: real
    var sum: real
    var oldM: real
    var newM: real
    var oldS: real
    var newS: real

    constructor ()
      ensures store == [] && Tracks([])
    {
      store, n, min, max, sum := [], 0, 0.0, 0.0, 0.0;
      oldM, newM, oldS, newS := 0.0, 0.0, 0.0, 0.0;
    }

    /** The fields are the statistics of the samples s seen so far. */
    ghost predicate Tracks(s: seq<real>)
      reads this`n, this`min, this`max, this`oldM, this`newM, this`oldS, this`newS
    {
      && n == |s|
      && newS == Deviation(s) && oldS == newS
      && (s != [] ==> newM == Mean(s) && oldM == newM && IsMin(s, min))
      && IsMaxFromZero(s, max)
    }

    method Store(x: real)
      modifies this`store
      ensures store == old(store) + [x]
    {
      store := store + [x];
    }

    /** One sample of the loop in `Collect`. */
    method Take(x: real, ghost s: seq<real>)
      requires Tracks(s)
      modifies this`n, this`min, this`max, this`oldM, this`newM, this`oldS, this`newS
      ensures Tracks(s + [x])
    {
      hide Deviation, Mean, NextMean, NextDeviation, IsMin, IsMaxFromZero;
      MinStep(s, min, x);
      MaxStep(s, max, x);
      if min > x || n == 0 {
        min := x;
      }
      if max < x {
        max := x;
      }
      n := n + 1;
      if n == 1 {
        oldM, newM, oldS := x, x, 0.0;
        FirstSample(x);
        assert s + [x] == [x];
        NoSamples();
      } else {
        StreamingStep(s, x);
        newM := NextMean(oldM, x, n);
        newS := NextDeviation(oldS, x, oldM, newM);
        oldM := newM;
        oldS := newS;
      }
    }

    /** `Collect`: the statistics of what was seen before followed by the whole store; the sum is
        that of the store. */
    method Collect(ghost s: seq<real>)
      requires Tracks(s)
      modifies this`n, this`min, this`max, this`oldM, this`newM, this`oldS, this`newS, this`sum
      ensures Tracks(s + store) && sum == Sum(store)
    {
      hide Tracks, Sum;
      sum := 0.0;
      NoSums();
      assert s + store[..0] == s;
      for i := 0 to |store|
        invariant Tracks(s + store[..i]) && sum == Sum(store[..i])
      {
        Take(store[i], s + store[..i]);
        assert s + store[..i] + [store[i]] == s + store[..i + 1];
        Snoc(store[..i], store[i]);
        assert store[..i] + [store[i]] == store[..i + 1];
        sum := sum + store[i];
      }
      assert store[..|store|] == store;
    }
  }

  lemma NoSamples()
    ensures Deviation([]) == 0.0
  {
  }

  lemma FirstSample(x: real)
    ensures Mean([x]) == x && Deviation([x]) == 0.0
  {
    Snoc([], x);
    assert [] + [x] == [x];
    assert Spread([x], x) == Spread([x][..0], x) + Square(x - x);
  }

  // ---------- collecting k times ----------

  function Repeat(s: seq<real>, k: nat): seq<real> {
    if k == 0 then [] else Repeat(s, k - 1) + s
  }

  lemma {:induction false} SumsConcat(s: seq<real>, t: seq<real>)
    ensures Sum(s + t) == Sum(s) + Sum(t) && Squares(s + t) == Squares(s) + Squares(t)
    decreases |t|
  {
    if t == [] {
      assert s + t == s;
    } else {
      hide Square;
      SumsConcat(s, t[..|t| - 1]);
      assert (s + t)[..|s + t| - 1] == s + t[..|t| - 1];
    }
  }

  lemma NoSums()
    ensures Sum([]) == 0.0 && Squares([]) == 0.0
  {
  }

  lemma OneMore(k: nat, a: real)
    requires k > 0
    ensures (k - 1) as real * a + a == k as real * a
  {
    assert k as real == (k - 1) as real + 1.0;
  }

  lemma {:induction false} RepeatSums(s: seq<real>, k: nat)
    ensures |Repeat(s, k)| == k * |s|
    ensures Sum(Repeat(s, k)) == k as real * Sum(s)
    ensures Squares(Repeat(s, k)) == k as real * Squares(s)
    ensures forall x :: x in Repeat(s, k) ==> x in s
    decreases k
  {
    hide Sum, Squares;
    if k == 0 {
      NoSums();
    } else {
      RepeatSums(s, k - 1);
      SumsConcat(Repeat(s, k - 1), s);
      OneMore(k, Sum(s));
      OneMore(k, Squares(s));
      assert k * |s| == (k - 1) * |s| + |s|;
    }
  }

  /** Statistics of a store collected k times: the same mean, k times the deviation. */
  lemma RepeatStatistics(s: seq<real>, k: nat)
    requires s != [] && k > 0
    ensures var r := Repeat(s, k);
            && |r| == k * |s| && r != []
            && Mean(r) == Mean(s) && Deviation(r) == k as real * Deviation(s)
  {
    hide Deviation, Sum, Squares, Repeat;
    var r, kr, n, m := Repeat(s, k), k as real, |s| as real, Mean(s);
    RepeatSums(s, k);
    assert |r| > 0 by { Positive(k, |s|); }
    assert |r| as real == kr * n;
    DeviationForm(s, n, m);
    Scaled(kr, n, m, Sum(s), Squares(s));
    DeviationForm(r, kr * n, m);
  }

  lemma Scaled(k: real, n: real, m: real, S: real, Q: real)
    requires n * m == S && k != 0.0 && n != 0.0
    ensures k * n != 0.0 && (k * S) / (k * n) == m
    ensures k * Q - (k * n) * m * m == k * (Q - n * m * m)
  {
    assert k * S == (k * n) * m;
    Divides(k * n, m);
    assert (k * n) * m * m == k * (n * m * m);
  }

  lemma RepeatHas(s: seq<real>, k: nat, i: nat)
    requires k > 0 && i < |s|
    ensures s[i] in Repeat(s, k)
  {
    var r := Repeat(s, k - 1);
    assert (r + s)[|r| + i] == s[i];
  }

  lemma NoneYet(s: seq<real>)
    ensures Repeat(s, 0) == []
  {
  }

  lemma NextRepeat(s: seq<real>, k: nat)
    ensures Repeat(s, k + 1) == Repeat(s, k) + s
  {
  }

  /** `Collect` called k times on an unchanged store of at least one sample. */
  method CollectTimes(v: Value, k: nat)
    requires v.Tracks([]) && v.store != [] && k > 0
    modifies v
    ensures v.store == old(v.store)
    ensures v.n == k * |v.store| && v.newM == Mean(v.store) && v.newS == k as real * Deviation(v.store)
    ensures v.sum == Sum(v.store) && IsMin(v.store, v.min)
    ensures IsMaxFromZero(v.store, v.max)
  {
    hide Deviation, Mean, Sum, Repeat;
    NoneYet(v.store);
    for i := 0 to k
      invariant v.store == old(v.store) && v.Tracks(Repeat(v.store, i))
      invariant i > 0 ==> v.sum == Sum(v.store)
    {
      v.Collect(Repeat(v.store, i));
      NextRepeat(v.store, i);
    }
    RepeatStatistics(v.store, k);
    RepeatSums(v.store, k);
    ghost var r := Repeat(v.store, k);
    forall i | 0 <= i < |v.store| ensures v.min <= v.store[i] <= v.max {
      RepeatHas(v.store, k, i);
    }
  }

  /** The maximum reported is the largest sample exactly when some sample is not negative. */
  lemma MaxIsRightIff(s: seq<real>, m: real)
    requires s != [] && IsMaxFromZero(s, m)
    ensures (m in s && forall i :: 0 <= i < |s| ==> s[i] <= m) <==> exists i :: 0 <= i < |s| && s[i] >= 0.0
  {
    if i :| 0 <= i < |s| && s[i] >= 0.0 {
      assert s[i] <= m;
    }
  }

  /** A store of one negative sample, for which zero is reported. */
  lemma MaxExample()
    ensures IsMaxFromZero([-1.0], 0.0) && 0.0 !in [-1.0]
    ensures forall m :: IsMaxFromZero([-1.0], m) ==> m == 0.0
  {
    forall m | IsMaxFromZero([-1.0], m) ensures m == 0.0 {
      assert m in [-1.0] ==> m == -1.0;
    }
  }
}
