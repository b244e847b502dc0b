/** How long the Count protocol can go on: a measure that every step lowers, except the time-outs of
    nodes below the root, which change nothing. */
module CountRuns {
  import opened Basics
  import opened CountProtocol

  /** How far the NodeIsUp messages have to climb, by the numbers of the nodes they are at. */
  function Climb(m: multiset<Msg>, k: nat): nat {
    if k == 0 then 0 else Climb(m, k - 1) + (k - 1) * m[Up(k - 1)]
  }

  lemma {:induction false} ClimbAdd(m: multiset<Msg>, d: multiset<Msg>, k: nat)
    ensures Climb(m + d, k) == Climb(m, k) + Climb(d, k)
    decreases k
  {
    if k > 0 {
      ClimbAdd(m, d, k - 1);
      Distribute(k - 1, m[Up(k - 1)], d[Up(k - 1)]);
    }
  }

  lemma {:induction false} ClimbOne(x: Msg, k: nat)
    ensures Climb(multiset{x}, k) == if x.Up? && x.to < k then x.to else 0
    decreases k
  {
    if k > 0 {
      ClimbOne(x, k - 1);
      var c := multiset{x}[Up(k - 1)];
      assert c == if x == Up(k - 1) then 1 else 0;
      assert (k - 1) * c == if x == Up(k - 1) then k - 1 else 0;
    }
  }

  lemma {:induction false} NoClimb(m: multiset<Msg>, k: nat)
    requires forall x :: x in m ==> !x.Up?
    ensures Climb(m, k) == 0
    decreases k
  {
    if k > 0 {
      NoClimb(m, k - 1);
      assert Up(k - 1) !in m;
    }
  }

  /** What messages weigh: one each, and the way that a NodeIsUp has to climb. */
  function Load(m: multiset<Msg>, n: nat): nat {
    |m| + Climb(m, n)
  }

  lemma LoadAdd(m: multiset<Msg>, d: multiset<Msg>, n: nat)
    ensures Load(m + d, n) == Load(m, n) + Load(d, n)
  {
    ClimbAdd(m, d, n);
  }

  lemma LoadOne(x: Msg, n: nat)
    ensures Load(multiset{x}, n) == 1 + if x.Up? && x.to < n then x.to else 0
  {
    ClimbOne(x, n);
  }

  lemma LoadRemove(m: multiset<Msg>, x: Msg, n: nat)
    requires x in m
    ensures Load(m, n) == Load(m - multiset{x}, n) + 1 + if x.Up? && x.to < n then x.to else 0
  {
    assert m == (m - multiset{x}) + multiset{x};
    LoadAdd(m - multiset{x}, multiset{x}, n);
    LoadOne(x, n);
  }

  /** The measure: what is under way, and what nodes that are not prepared or still running may add. */
  function Measure(t: Topology, s: State): int {
    var n := |t.parent|;
    Load(s.inflight, n) + 2 * n * (n - CountTrue(s.prepared)) + 2 * CountTrue(s.running)
  }

  lemma {:induction false} PrepsSize(t: Topology, p: nat, k: nat)
    requires k <= |t.parent|
    ensures |Preps(t, p, k)| == KidCount(t, p, k) <= k
    decreases k
  {
    if k > 0 { PrepsSize(t, p, k - 1); }
  }

  /** What FuncPC sends weighs less than what the node may add. */
  lemma FuncPCLoad(t: Topology, s: State, p: nat)
    requires Sized(t, s) && t.Valid() && p < |t.parent|
    ensures Load(FuncPC(t, s, p).inflight, |t.parent|) < Load(s.inflight, |t.parent|) + 2 * |t.parent|
  {
    hide Load, KidCount, Preps;
    var n := |t.parent|;
    var up := if p > 0 then multiset{Up(t.parent[p])} else multiset{};
    var preps := if Kids(t, p) > 0 then Preps(t, p, n) else multiset{};
    assert FuncPC(t, s, p).inflight == s.inflight + up + preps;
    LoadAdd(s.inflight + up, preps, n);
    LoadAdd(s.inflight, up, n);
    if p > 0 { LoadOne(Up(t.parent[p]), n); } else { LoadNone(n); }
    PrepsLoad(t, p);
    if Kids(t, p) == 0 { LoadNone(n); }
  }

  lemma LoadNone(n: nat)
    ensures Load(multiset{}, n) == 0
  {
    NoClimb(multiset{}, n);
  }

  lemma PrepsLoad(t: Topology, p: nat)
    ensures Load(Preps(t, p, |t.parent|), |t.parent|) <= |t.parent|
  {
    PrepsSize(t, p, |t.parent|);
    PrepsAre(t, p, |t.parent|);
    NoClimb(Preps(t, p, |t.parent|), |t.parent|);
  }

  lemma FuncPCLowers(t: Topology, s: State, s0: State, p: nat)
    requires Sized(t, s) && t.Valid() && p < |t.parent| && !s.prepared[p]
    requires s == s0.(inflight := s.inflight) && Load(s.inflight, |t.parent|) <= Load(s0.inflight, |t.parent|)
    ensures Measure(t, FuncPC(t, s, p)) < Measure(t, s0)
  {
    hide Load;
    var n := |t.parent|;
    FuncPCLoad(t, s, p);
    CountTrueSet(s.prepared, p, true);
    OneLess(n, n - CountTrue(s.prepared));
  }

  lemma OneLess(n: int, a: int)
    ensures 2 * n * (a - 1) == 2 * n * a - 2 * n
  {
  }

  /** Time-outs of nodes below the root. */
  predicate Idle(a: Action) {
    a.OnTimeout? && a.i > 0
  }

  lemma OnCountLowers(t: Topology, s: State, p: nat)
    requires t.Valid() && Sized(t, s) && Enabled(t, s, OnCount(p))
    ensures Measure(t, Apply(t, s, OnCount(p))) < Measure(t, s)
  {
    hide Load, Total, Kids;
    var n := |t.parent|;
    var c := Count(Report(p, 1 + Total(s.chan[p][0])));
    CountTrueSet(s.running, p, false);
    LoadAdd(s.inflight, multiset{c}, n);
    LoadOne(c, n);
  }

  /** Every step, losses and the root's time-out included, lowers the measure, except the time-outs of
      other nodes, which change nothing at all. */
  lemma StepLowers(t: Topology, s: State, a: Action)
    requires Inv(t, s) && Enabled(t, s, a)
    ensures if Idle(a) then Apply(t, s, a) == s else Measure(t, Apply(t, s, a)) < Measure(t, s)
  {
    hide Load, Total, Kids, QueueInv, ReportInv, UpInv, PublishInv;
    var n := |t.parent|;
    match a {
      case Start => FuncPCLowers(t, s, s, 0);
      case OnPrepare(i) =>
        LoadRemove(s.inflight, Prepare(i), n);
        FuncPCLowers(t, s.(inflight := s.inflight - multiset{Prepare(i)}), s, i);
      case Deliver(r) => LoadRemove(s.inflight, Count(r), n);
      case OnCount(p) => OnCountLowers(t, s, p);
      case OnUp(i) =>
        LoadRemove(s.inflight, Up(i), n);
        if i > 0 {
          LoadAdd(s.inflight - multiset{Up(i)}, multiset{Up(t.parent[i])}, n);
          LoadOne(Up(t.parent[i]), n);
        }
      case OnTimeout(i) => if i == 0 { CountTrueSet(s.running, 0, false); }
      case Lose(m) => LoadRemove(s.inflight, m, n);
    }
  }

  /** The steps that change something. */
  function Moves(acts: seq<Action>): nat {
    if acts == [] then 0
    else Moves(acts[..|acts| - 1]) + if Idle(acts[|acts| - 1]) then 0 else 1
  }

  lemma {:induction false} MovesLower(t: Topology, ss: seq<State>, acts: seq<Action>, k: nat)
    requires Run(t, ss, acts) && k <= |acts|
    ensures Moves(acts[..k]) + Measure(t, ss[k]) <= Measure(t, Init(t))
    decreases k
  {
    hide Measure;
    if k > 0 {
      MovesLower(t, ss, acts, k - 1);
      RunInv(t, ss, acts, k - 1);
      StepLowers(t, ss[k - 1], acts[k - 1]);
      assert acts[..k][..k - 1] == acts[..k - 1];
    }
  }

  /** Every run on n nodes, with any losses and time-outs, has at most 2n(n + 1) steps that change
      anything. */
  lemma RunsAreBounded(t: Topology, ss: seq<State>, acts: seq<Action>)
    requires Run(t, ss, acts)
    ensures Moves(acts) <= 2 * |t.parent| * (|t.parent| + 1)
  {
    hide Measure, Inv;
    MovesLower(t, ss, acts, |acts|);
    assert acts[..|acts|] == acts;
    MeasureAtStart(t);
    RunInv(t, ss, acts, |acts|);
    MeasureNonnegative(t, ss[|acts|]);
  }

  lemma MeasureAtStart(t: Topology)
    ensures Measure(t, Init(t)) == 2 * |t.parent| * (|t.parent| + 1)
  {
    hide Load;
    var n := |t.parent|;
    LoadNone(n);
    CountTrueSame(Init(t).prepared, false);
    CountTrueSame(Init(t).running, true);
    OneLess(n, n + 1);
  }

  lemma MeasureNonnegative(t: Topology, s: State)
    requires Inv(t, s)
    ensures Measure(t, s) >= 0
  {
    hide Load, PrepareInv, QueueInv, ReportInv, UpInv, PublishInv;
    CountTrueBound(s.prepared);
    NonNegative(|t.parent|, |t.parent| - CountTrue(s.prepared));
  }

  lemma NonNegative(n: nat, a: nat)
    ensures 2 * n * a >= 0
  {
  }
}
