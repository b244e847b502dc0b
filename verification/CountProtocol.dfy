/** The Count protocol on a tree of nodes, as a step system: every interleaving of deliveries,
    handler turns, time-outs and lost messages. */
module CountProtocol {

  // ---------- the tree ----------

  /** Node 0 is the root; every other node comes after its parent. */
  datatype Topology = Topology(parent: seq<int>) {
    predicate Valid() {
      && |parent| >= 1
      && parent[0] == -1
      && forall i :: 1 <= i < |parent| ==> 0 <= parent[i] < i
    }

    predicate Kid(p: int, i: int) {
      0 <= i < |parent| && parent[i] == p
    }
  }

  /** The sizes of the subtrees of p's children below index k. */
  function KidSizes(t: Topology, p: nat, k: nat): nat
    requires t.Valid() && p < |t.parent| && k <= |t.parent|
    decreases |t.parent| - p, k
  {
    if k == 0 then 0
    else KidSizes(t, p, k - 1) + if t.Kid(p, k - 1) then Size(t, k - 1) else 0
  }

  /** The number of nodes in the subtree of p. */
  function Size(t: Topology, p: nat): (r: nat)
    requires t.Valid() && p < |t.parent|
    ensures r >= 1
    decreases |t.parent| - p, |t.parent| + 1
  {
    1 + KidSizes(t, p, |t.parent|)
  }

  function KidCount(t: Topology, p: int, k: nat): nat
    requires k <= |t.parent|
  {
    if k == 0 then 0 else KidCount(t, p, k - 1) + if t.Kid(p, k - 1) then 1 else 0
  }

  function Kids(t: Topology, p: int): nat {
    KidCount(t, p, |t.parent|)
  }

  lemma {:induction false} KidCountZero(t: Topology, p: int, k: nat)
    requires k <= |t.parent|
    ensures KidCount(t, p, k) == 0 <==> forall i :: 0 <= i < k ==> !t.Kid(p, i)
    decreases k
  {
    if k > 0 { KidCountZero(t, p, k - 1); }
  }

  /** The sizes of the subtrees that hang below the first k nodes, of roots below index m. */
  function Hanging(t: Topology, k: nat, m: nat): nat
    requires t.Valid() && k <= m <= |t.parent|
    decreases m
  {
    if m == k then 0
    else Hanging(t, k, m - 1) + if t.parent[m - 1] < k then Size(t, m - 1) else 0
  }

  lemma {:induction false} HangingStep(t: Topology, k: nat, m: nat)
    requires t.Valid() && k < m <= |t.parent|
    ensures Hanging(t, k, m) + KidSizes(t, k, m) == Size(t, k) + Hanging(t, k + 1, m)
    decreases m
  {
    if m == k + 1 {
      assert Hanging(t, k, k) == 0;
      EarlierNoKids(t, k, m);
    } else {
      HangingStep(t, k, m - 1);
    }
  }

  lemma {:induction false} EarlierNoKids(t: Topology, p: nat, k: nat)
    requires t.Valid() && p < |t.parent| && k <= p + 1
    ensures KidSizes(t, p, k) == 0
    decreases k
  {
    if k > 0 { EarlierNoKids(t, p, k - 1); }
  }

  lemma {:induction false} HangingAll(t: Topology, k: nat)
    requires t.Valid() && k <= |t.parent|
    ensures Hanging(t, k, |t.parent|) == |t.parent| - k
    decreases |t.parent| - k
  {
    if k < |t.parent| {
      HangingStep(t, k, |t.parent|);
      HangingAll(t, k + 1);
    }
  }

  lemma {:induction false} OnlyRootHangs(t: Topology, m: nat)
    requires t.Valid() && 1 <= m <= |t.parent|
    ensures Hanging(t, 0, m) == Size(t, 0)
    decreases m
  {
    if m > 1 { OnlyRootHangs(t, m - 1); } else { assert Hanging(t, 0, 0) == 0; }
  }

  /** The subtree of the root is the whole tree. */
  lemma RootSize(t: Topology)
    requires t.Valid()
    ensures Size(t, 0) == |t.parent|
  {
    HangingAll(t, 0);
    OnlyRootHangs(t, |t.parent|);
  }

  // ---------- the protocol ----------

  /** A Count message: the sender and the number of nodes it reports. */
  datatype Report = Report(from: nat, n: int)

  datatype Msg = Prepare(to: nat) | Up(to: nat) | Count(report: Report)

  datatype Outcome = Complete(n: int) | TimedOut(n: int)

  /** Per node: whether its Dispatch loop runs, whether FuncPC has run, the reports it is still
      aggregating, and the batches in its CountChan; and the messages under way, the root's reply
      counter and what the root has published. */
  datatype State = State(
    running: seq<bool>,
    prepared: seq<bool>,
    pending: seq<seq<Report>>,
    chan: seq<seq<seq<Report>>>,
    inflight: multiset<Msg>,
    replies: nat,
    published: seq<Outcome>)

  datatype Action =
    | Start
    | OnPrepare(i: nat)
    | Deliver(report: Report)
    | OnCount(p: nat)
    | OnUp(i: nat)
    | OnTimeout(i: nat)
    | Lose(m: Msg)

  function Init(t: Topology): State {
    var n := |t.parent|;
    State(seq(n, _ => true), seq(n, _ => false), seq(n, _ => []), seq(n, _ => []), multiset{}, 0, [])
  }

  ghost predicate Sized(t: Topology, s: State) {
    |s.running| == |s.prepared| == |s.pending| == |s.chan| == |t.parent|
  }

  ghost predicate Enabled(t: Topology, s: State, a: Action)
    requires Sized(t, s)
  {
    match a
    case Start => |t.parent| > 0 && !s.prepared[0]
    case OnPrepare(i) => 1 <= i < |t.parent| && s.running[i] && Prepare(i) in s.inflight
    case Deliver(r) => 1 <= r.from < |t.parent| && Count(r) in s.inflight
    case OnCount(p) => p < |t.parent| && s.running[p] && s.chan[p] != []
    case OnUp(i) => i < |t.parent| && s.running[i] && Up(i) in s.inflight
    case OnTimeout(i) => i < |t.parent| && s.running[i]
    case Lose(m) => m in s.inflight
  }

  /** PrepareCount messages to the children of p below index k. */
  function Preps(t: Topology, p: nat, k: nat): multiset<Msg>
    requires k <= |t.parent|
  {
    if k == 0 then multiset{}
    else Preps(t, p, k - 1) + if t.Kid(p, k - 1) then multiset{Prepare(k - 1)} else multiset{}
  }

  /** `FuncPC` at node p. */
  function FuncPC(t: Topology, s: State, p: nat): State
    requires Sized(t, s) && t.Valid() && p < |t.parent|
  {
    var up := if p > 0 then multiset{Up(t.parent[p])} else multiset{};
    var s1 := s.(prepared := s.prepared[p := true]);
    if Kids(t, p) > 0 then s1.(inflight := s.inflight + up + Preps(t, p, |t.parent|))
    else s1.(inflight := s.inflight + up, chan := s.chan[p := s.chan[p] + [[]]])
  }

  function Total(b: seq<Report>): int {
    if b == [] then 0 else b[0].n + Total(b[1..])
  }

  ghost function Apply(t: Topology, s: State, a: Action): State
    requires t.Valid() && Sized(t, s) && Enabled(t, s, a)
  {
    match a
    case Start => FuncPC(t, s, 0)
    case OnPrepare(i) => FuncPC(t, s.(inflight := s.inflight - multiset{Prepare(i)}), i)
    case Deliver(r) =>
      var p := t.parent[r.from];
      var got := s.pending[p] + [r];
      var s1 := s.(inflight := s.inflight - multiset{Count(r)});
      if |got| == Kids(t, p) then s1.(pending := s.pending[p := []], chan := s.chan[p := s.chan[p] + [got]])
      else s1.(pending := s.pending[p := got])
    case OnCount(p) =>
      var n := 1 + Total(s.chan[p][0]);
      var s1 := s.(running := s.running[p := false], chan := s.chan[p := s.chan[p][1..]]);
      if p > 0 then s1.(inflight := s.inflight + multiset{Count(Report(p, n))})
      else s1.(published := s.published + [Complete(n)])
    case OnUp(i) =>
      var rest := s.inflight - multiset{Up(i)};
      if i > 0 then s.(inflight := rest + multiset{Up(t.parent[i])})
      else s.(inflight := rest, replies := s.replies + 1)
    case OnTimeout(i) =>
      if i > 0 then s
      else s.(running := s.running[0 := false], published := s.published + [TimedOut(s.replies)])
    case Lose(m) => s.(inflight := s.inflight - multiset{m})
  }

  /** `FuncC`'s summation. */
  method FuncC(cc: seq<Report>) returns (count: int)
    ensures count == 1 + Total(cc)
  {
    count := 1;
    assert cc[0..] == cc;
    for i := 0 to |cc|
      invariant count + Total(cc[i..]) == 1 + Total(cc)
    {
      assert cc[i..][1..] == cc[i + 1..];
      count := count + cc[i].n;
    }
    assert cc[|cc|..] == [];
  }

  /** A run: states linked by enabled actions, from the initial state. */
  ghost predicate Run(t: Topology, ss: seq<State>, acts: seq<Action>) {
    && t.Valid()
    && |ss| == |acts| + 1
    && ss[0] == Init(t)
    && forall k :: 0 <= k < |acts| ==>
         Sized(t, ss[k]) && Enabled(t, ss[k], acts[k]) && ss[k + 1] == Apply(t, ss[k], acts[k])
  }

  // ---------- what every step keeps ----------

  /** Reports of distinct children of p, each with the size of its sender's subtree. */
  ghost predicate TrueReports(t: Topology, p: nat, b: seq<Report>)
    requires t.Valid()
  {
    && (forall i :: 0 <= i < |b| ==> t.Kid(p, b[i].from) && b[i].n == Size(t, b[i].from))
    && (forall i, j :: 0 <= i < j < |b| ==> b[i].from != b[j].from)
  }

  ghost predicate Reported(b: seq<Report>, from: nat) {
    exists i :: 0 <= i < |b| && b[i].from == from
  }

  /** PrepareCount reaches each node at most once. */
  ghost predicate PrepareInv(t: Topology, s: State)
    requires t.Valid() && Sized(t, s)
  {
    forall i :: 1 <= i < |t.parent| ==>
      s.inflight[Prepare(i)] + (if s.prepared[i] then 1 else 0) <= if s.prepared[t.parent[i]] then 1 else 0
  }

  /** Each node's Count message exists at most once, after it stopped, with its subtree's size. */
  ghost predicate ReportInv(t: Topology, s: State)
    requires t.Valid() && Sized(t, s)
  {
    forall r :: Count(r) in s.inflight ==>
      && 1 <= r.from < |t.parent| && r.n == Size(t, r.from)
      && !s.running[r.from] && s.inflight[Count(r)] == 1
      && !Reported(s.pending[t.parent[r.from]], r.from)
      && s.chan[t.parent[r.from]] == []
  }

  /** Aggregation at p: true reports of stopped children, and at most one batch, a complete one. */
  ghost predicate QueueInv(t: Topology, s: State, p: nat)
    requires t.Valid() && Sized(t, s) && p < |t.parent|
  {
    && TrueReports(t, p, s.pending[p])
    && (forall i :: 0 <= i < |s.pending[p]| ==> !s.running[s.pending[p][i].from])
    && |s.chan[p]| <= 1
    && (s.chan[p] != [] ==>
          && s.pending[p] == []
          && TrueReports(t, p, s.chan[p][0]) && |s.chan[p][0]| == Kids(t, p)
          && (forall i :: 0 <= i < |s.chan[p][0]| ==> !s.running[s.chan[p][0][i].from])
          && (Kids(t, p) == 0 ==> s.prepared[p]))
  }

  function Ups(m: multiset<Msg>, k: nat): nat {
    if k == 0 then 0 else Ups(m, k - 1) + m[Up(k - 1)]
  }

  function PreparedBelowRoot(prepared: seq<bool>, k: nat): nat
    requires k <= |prepared|
  {
    if k <= 1 then 0 else PreparedBelowRoot(prepared, k - 1) + if prepared[k - 1] then 1 else 0
  }

  /** NodeIsUp messages are never duplicated: one for each node below the root that is prepared. */
  ghost predicate UpInv(t: Topology, s: State)
    requires Sized(t, s)
  {
    Ups(s.inflight, |t.parent|) + s.replies <= PreparedBelowRoot(s.prepared, |t.parent|)
  }

  /** The root publishes when it stops, and only then. */
  ghost predicate PublishInv(t: Topology, s: State)
    requires t.Valid() && Sized(t, s)
  {
    && (s.running[0] <==> s.published == [])
    && |s.published| <= 1
    && (s.published != [] ==>
          match s.published[0]
          case Complete(n) => n == Size(t, 0)
          case TimedOut(n) => 0 <= n <= |t.parent| - 1)
  }

  ghost predicate Inv(t: Topology, s: State) {
    && t.Valid() && Sized(t, s)
    && PrepareInv(t, s)
    && ReportInv(t, s)
    && (forall p :: 0 <= p < |t.parent| ==> QueueInv(t, s, p))
    && UpInv(t, s)
    && PublishInv(t, s)
  }

  // ---------- a complete batch ----------

  ghost predicate BelowK(b: seq<Report>, k: nat) {
    forall i :: 0 <= i < |b| ==> b[i].from < k
  }

  function Without(b: seq<Report>, m: nat): seq<Report>
    requires m < |b|
  {
    b[..m] + b[m + 1..]
  }

  lemma WithoutTrue(t: Topology, p: nat, b: seq<Report>, m: nat)
    requires t.Valid() && TrueReports(t, p, b) && m < |b|
    ensures |Without(b, m)| == |b| - 1
    ensures TrueReports(t, p, Without(b, m)) && !Reported(Without(b, m), b[m].from)
    ensures forall f :: f != b[m].from ==> (Reported(b, f) <==> Reported(Without(b, m), f))
    ensures forall i :: 0 <= i < |Without(b, m)| ==> Without(b, m)[i] in b
  {
    hide Size;
    var c := Without(b, m);
    forall i | 0 <= i < |c| ensures c[i] == b[if i < m then i else i + 1] {
    }
    forall f | f != b[m].from && Reported(b, f) ensures Reported(c, f) {
      var i :| 0 <= i < |b| && b[i].from == f;
      assert c[if i < m then i else i - 1] == b[i];
    }
  }

  lemma {:induction false} TotalWithout(b: seq<Report>, m: nat)
    requires m < |b|
    ensures Total(b) == b[m].n + Total(Without(b, m))
    decreases m
  {
    if m == 0 {
      assert Without(b, 0) == b[1..];
    } else {
      TotalWithout(b[1..], m - 1);
      assert Without(b, m)[1..] == Without(b[1..], m - 1);
    }
  }

  lemma EmptyTotal(b: seq<Report>)
    requires BelowK(b, 0)
    ensures b == [] && Total(b) == 0
  {
    assert |b| > 0 ==> b[0].from < 0;
  }

  lemma ReportOf(b: seq<Report>, from: nat) returns (m: nat)
    requires Reported(b, from)
    ensures m < |b| && b[m].from == from
  {
    m :| 0 <= m < |b| && b[m].from == from;
  }

  lemma LastOut(b: seq<Report>, c: seq<Report>, k: nat)
    requires k > 0 && BelowK(b, k) && !Reported(c, k - 1)
    requires forall i :: 0 <= i < |c| ==> c[i] in b
    ensures BelowK(c, k - 1)
  {
    forall i | 0 <= i < |c| ensures c[i].from < k - 1 {
      assert Reported(c, c[i].from);
    }
  }

  /** Distinct children of p below index k: no more than there are; and if as many, then all of
      them, and their reports add up to the sizes of their subtrees. */
  lemma {:induction false} BatchCovers(t: Topology, p: nat, b: seq<Report>, k: nat)
    requires t.Valid() && p < |t.parent| && k <= |t.parent| && TrueReports(t, p, b) && BelowK(b, k)
    ensures |b| <= KidCount(t, p, k)
    ensures |b| == KidCount(t, p, k) ==>
              && Total(b) == KidSizes(t, p, k)
              && forall i :: 0 <= i < k && t.Kid(p, i) ==> Reported(b, i)
    decreases k
  {
    hide Size, Without, Reported, Total;
    if k == 0 {
      EmptyTotal(b);
    } else if Reported(b, k - 1) {
      var m := ReportOf(b, k - 1);
      var c := Without(b, m);
      WithoutTrue(t, p, b, m);
      LastOut(b, c, k);
      BatchCovers(t, p, c, k - 1);
      TotalWithout(b, m);
      assert t.Kid(p, k - 1);
    } else {
      LastOut(b, b, k);
      BatchCovers(t, p, b, k - 1);
    }
  }

  lemma LeafNoReports(t: Topology, p: nat, b: seq<Report>)
    requires t.Valid() && p < |t.parent| && TrueReports(t, p, b) && Kids(t, p) == 0
    ensures b == []
  {
    BatchCovers(t, p, b, |t.parent|);
  }

  lemma CompleteBatch(t: Topology, p: nat, b: seq<Report>)
    requires t.Valid() && p < |t.parent| && TrueReports(t, p, b) && |b| == Kids(t, p)
    ensures 1 + Total(b) == Size(t, p)
    ensures forall i :: 0 <= i < |t.parent| && t.Kid(p, i) ==> Reported(b, i)
  {
    BatchCovers(t, p, b, |t.parent|);
  }

  // ---------- counting NodeIsUp messages ----------

  lemma {:induction false} UpsAdd(m: multiset<Msg>, d: multiset<Msg>, k: nat)
    ensures Ups(m + d, k) == Ups(m, k) + Ups(d, k)
    decreases k
  {
    if k > 0 { UpsAdd(m, d, k - 1); }
  }

  lemma {:induction false} UpsOne(x: Msg, k: nat)
    ensures Ups(multiset{x}, k) == if x.Up? && x.to < k then 1 else 0
    decreases k
  {
    if k > 0 { UpsOne(x, k - 1); }
  }

  lemma {:induction false} UpsNone(k: nat)
    ensures Ups(multiset{}, k) == 0
    decreases k
  {
    if k > 0 { UpsNone(k - 1); }
  }

  lemma UpsRemove(m: multiset<Msg>, x: Msg, k: nat)
    requires x in m
    ensures Ups(m, k) == Ups(m - multiset{x}, k) + if x.Up? && x.to < k then 1 else 0
  {
    assert m == (m - multiset{x}) + multiset{x};
    UpsAdd(m - multiset{x}, multiset{x}, k);
    UpsOne(x, k);
  }

  lemma {:induction false} PrepsAre(t: Topology, p: nat, k: nat)
    requires k <= |t.parent|
    ensures forall i :: Preps(t, p, k)[Prepare(i)] == if i < k && t.Kid(p, i) then 1 else 0
    ensures forall m :: m in Preps(t, p, k) ==> m.Prepare?
    decreases k
  {
    if k > 0 { PrepsAre(t, p, k - 1); }
  }

  lemma {:induction false} NoUps(m: multiset<Msg>, k: nat)
    requires forall x :: x in m ==> !x.Up?
    ensures Ups(m, k) == 0
    decreases k
  {
    if k > 0 {
      NoUps(m, k - 1);
      assert Up(k - 1) !in m;
    }
  }

  lemma {:induction false} PreparedSet(prepared: seq<bool>, i: nat, k: nat)
    requires i < |prepared| && k <= |prepared| && !prepared[i]
    ensures PreparedBelowRoot(prepared[i := true], k) ==
            PreparedBelowRoot(prepared, k) + if 1 <= i < k then 1 else 0
    decreases k
  {
    if k > 1 { PreparedSet(prepared, i, k - 1); }
  }

  lemma {:induction false} PreparedBound(prepared: seq<bool>, k: nat)
    requires 1 <= k <= |prepared|
    ensures PreparedBelowRoot(prepared, k) <= k - 1
    decreases k
  {
    if k > 1 { PreparedBound(prepared, k - 1); }
  }

  // ---------- every step keeps the invariant ----------

  ghost predicate CanPrepare(t: Topology, s: State, p: nat) {
    && Inv(t, s) && p < |t.parent| && !s.prepared[p]
    && (p > 0 ==> s.inflight[Prepare(p)] == 0 && s.prepared[t.parent[p]])
  }

  lemma FuncPCSends(t: Topology, s: State, p: nat) returns (up: multiset<Msg>, preps: multiset<Msg>)
    requires CanPrepare(t, s, p)
    ensures FuncPC(t, s, p).inflight == s.inflight + up + preps
    ensures up == if p > 0 then multiset{Up(t.parent[p])} else multiset{}
    ensures forall i :: preps[Prepare(i)] == if i < |t.parent| && t.Kid(p, i) then 1 else 0
    ensures forall m :: m in preps ==> m.Prepare?
  {
    var n := |t.parent|;
    KidCountZero(t, p, n);
    PrepsAre(t, p, n);
    up := if p > 0 then multiset{Up(t.parent[p])} else multiset{};
    preps := if Kids(t, p) > 0 then Preps(t, p, n) else multiset{};
  }

  lemma FuncPCQueues(t: Topology, s: State, p: nat)
    requires CanPrepare(t, s, p)
    ensures forall q :: 0 <= q < |t.parent| ==> QueueInv(t, FuncPC(t, s, p), q)
    ensures forall q :: 0 <= q < |t.parent| && Kids(t, q) > 0 ==> FuncPC(t, s, p).chan[q] == s.chan[q]
    ensures FuncPC(t, s, p).pending == s.pending
  {
    hide Size, KidCount, UpInv, PrepareInv, ReportInv;
    var s' := FuncPC(t, s, p);
    forall q | 0 <= q < |t.parent| ensures QueueInv(t, s', q) {
      assert QueueInv(t, s, q);
      if q == p && Kids(t, p) == 0 {
        LeafNoReports(t, p, s.pending[p]);
        assert s'.chan[p] == [[]];
      }
    }
  }

  /** FuncPC runs on a node that is not yet prepared and whose PrepareCount is no longer under way. */
  lemma FuncPCKeeps(t: Topology, s: State, p: nat)
    requires CanPrepare(t, s, p)
    ensures Inv(t, FuncPC(t, s, p))
  {
    hide Size, Ups, PreparedBelowRoot, KidCount, QueueInv, ReportInv;
    var s' := FuncPC(t, s, p);
    var up, preps := FuncPCSends(t, s, p);
    FuncPCUps(t, s, p, up, preps);
    FuncPCQueues(t, s, p);
    assert ReportInv(t, s') by { FuncPCReports(t, s, p, up, preps); }
  }

  lemma FuncPCReports(t: Topology, s: State, p: nat, up: multiset<Msg>, preps: multiset<Msg>)
    requires CanPrepare(t, s, p) && FuncPC(t, s, p).inflight == s.inflight + up + preps
    requires forall r :: Count(r) !in up && Count(r) !in preps
    requires forall q :: 0 <= q < |t.parent| && Kids(t, q) > 0 ==> FuncPC(t, s, p).chan[q] == s.chan[q]
    ensures ReportInv(t, FuncPC(t, s, p))
  {
    hide Size, Kids, Reported, QueueInv, UpInv, PrepareInv, PublishInv;
    var s' := FuncPC(t, s, p);
    forall r | Count(r) in s'.inflight
      ensures Count(r) in s.inflight && s'.inflight[Count(r)] == s.inflight[Count(r)]
      ensures s'.chan[t.parent[r.from]] == []
    {
      assert Count(r) in s.inflight;
      SomeKid(t, r.from);
    }
  }

  lemma SomeKid(t: Topology, i: nat)
    requires t.Valid() && 1 <= i < |t.parent|
    ensures Kids(t, t.parent[i]) > 0
  {
    KidCountZero(t, t.parent[i], |t.parent|);
    assert t.Kid(t.parent[i], i);
  }

  lemma FuncPCUps(t: Topology, s: State, p: nat, up: multiset<Msg>, preps: multiset<Msg>)
    requires CanPrepare(t, s, p)
    requires up == if p > 0 then multiset{Up(t.parent[p])} else multiset{}
    requires forall m :: m in preps ==> m.Prepare?
    ensures Ups(s.inflight + up + preps, |t.parent|) + s.replies <=
            PreparedBelowRoot(s.prepared[p := true], |t.parent|)
  {
    var n := |t.parent|;
    UpsAdd(s.inflight + up, preps, n);
    UpsAdd(s.inflight, up, n);
    NoUps(preps, n);
    if p > 0 { UpsOne(Up(t.parent[p]), n); } else { UpsNone(n); }
    PreparedSet(s.prepared, p, n);
  }

  /** Losing any message keeps the invariant. */
  lemma LoseKeeps(t: Topology, s: State, m: Msg)
    requires Inv(t, s) && m in s.inflight
    ensures Inv(t, s.(inflight := s.inflight - multiset{m}))
  {
    var s' := s.(inflight := s.inflight - multiset{m});
    UpsRemove(s.inflight, m, |t.parent|);
    forall p | 0 <= p < |t.parent| ensures QueueInv(t, s', p) {
      assert QueueInv(t, s, p);
    }
    forall r | Count(r) in s'.inflight ensures s'.inflight[Count(r)] == 1 {
      assert Count(r) in s.inflight;
    }
  }

  lemma DeliverKeeps(t: Topology, s: State, r: Report)
    requires Inv(t, s) && Enabled(t, s, Deliver(r))
    ensures Inv(t, Apply(t, s, Deliver(r)))
  {
    hide Size, Ups, PreparedBelowRoot, KidCount, Total;
    var s' := Apply(t, s, Deliver(r));
    var p := t.parent[r.from];
    var got := s.pending[p] + [r];
    UpsRemove(s.inflight, Count(r), |t.parent|);
    assert QueueInv(t, s, p);
    assert TrueReports(t, p, got) by {
      assert t.Kid(p, r.from);
      forall i | 0 <= i < |s.pending[p]| ensures s.pending[p][i].from != r.from {
        assert !Reported(s.pending[p], r.from);
      }
    }
    forall q | 0 <= q < |t.parent| ensures QueueInv(t, s', q) {
      assert QueueInv(t, s, q);
      if q == p && |got| == Kids(t, p) {
        assert s'.chan[p] == [got];
      }
    }
    forall x | Count(x) in s'.inflight
      ensures s'.inflight[Count(x)] == 1
      ensures !Reported(s'.pending[t.parent[x.from]], x.from) && s'.chan[t.parent[x.from]] == []
    {
      assert Count(x) in s.inflight;
      assert x != r;
      assert x.from != r.from;
      if t.parent[x.from] == p {
        assert !Reported(got, x.from);
        assert t.Kid(p, x.from);
        if |got| == Kids(t, p) {
          CompleteBatch(t, p, got);
          assert false;
        }
      }
    }
  }

  lemma OnCountKeeps(t: Topology, s: State, p: nat)
    requires Inv(t, s) && Enabled(t, s, OnCount(p))
    ensures Inv(t, Apply(t, s, OnCount(p)))
  {
    hide Size, Ups, PreparedBelowRoot, KidCount, Total;
    var s' := Apply(t, s, OnCount(p));
    assert QueueInv(t, s, p);
    CompleteBatch(t, p, s.chan[p][0]);
    forall q | 0 <= q < |t.parent| ensures QueueInv(t, s', q) {
      assert QueueInv(t, s, q);
    }
    if p > 0 {
      var r, q := Report(p, Size(t, p)), t.parent[p];
      UpsAdd(s.inflight, multiset{Count(r)}, |t.parent|);
      UpsOne(Count(r), |t.parent|);
      assert QueueInv(t, s, q);
      assert Count(r) !in s.inflight;
      assert !Reported(s.pending[q], p);
      assert t.Kid(q, p);
      assert s.chan[q] == [] by {
        if s.chan[q] != [] {
          CompleteBatch(t, q, s.chan[q][0]);
          assert false;
        }
      }
    }
  }

  lemma OnUpKeeps(t: Topology, s: State, i: nat)
    requires Inv(t, s) && Enabled(t, s, OnUp(i))
    ensures Inv(t, Apply(t, s, OnUp(i)))
  {
    var s' := Apply(t, s, OnUp(i));
    var rest := s.inflight - multiset{Up(i)};
    UpsRemove(s.inflight, Up(i), |t.parent|);
    if i > 0 {
      UpsAdd(rest, multiset{Up(t.parent[i])}, |t.parent|);
      UpsOne(Up(t.parent[i]), |t.parent|);
    }
    forall p | 0 <= p < |t.parent| ensures QueueInv(t, s', p) {
      assert QueueInv(t, s, p);
    }
    forall r | Count(r) in s'.inflight ensures Count(r) in s.inflight && s'.inflight[Count(r)] == s.inflight[Count(r)] {
    }
  }

  lemma OnTimeoutKeeps(t: Topology, s: State, i: nat)
    requires Inv(t, s) && Enabled(t, s, OnTimeout(i))
    ensures Inv(t, Apply(t, s, OnTimeout(i)))
  {
    var s' := Apply(t, s, OnTimeout(i));
    if i == 0 {
      PreparedBound(s.prepared, |t.parent|);
      forall p | 0 <= p < |t.parent| ensures QueueInv(t, s', p) {
        assert QueueInv(t, s, p);
      }
    }
  }

  lemma StepKeeps(t: Topology, s: State, a: Action)
    requires Inv(t, s) && Enabled(t, s, a)
    ensures Inv(t, Apply(t, s, a))
  {
    match a {
      case Start => FuncPCKeeps(t, s, 0);
      case OnPrepare(i) =>
        LoseKeeps(t, s, Prepare(i));
        FuncPCKeeps(t, s.(inflight := s.inflight - multiset{Prepare(i)}), i);
      case Deliver(r) => DeliverKeeps(t, s, r);
      case OnCount(p) => OnCountKeeps(t, s, p);
      case OnUp(i) => OnUpKeeps(t, s, i);
      case OnTimeout(i) => OnTimeoutKeeps(t, s, i);
      case Lose(m) => LoseKeeps(t, s, m);
    }
  }

  lemma InitInv(t: Topology)
    requires t.Valid()
    ensures Inv(t, Init(t))
  {
    UpsNone(|t.parent|);
    forall p | 0 <= p < |t.parent| ensures QueueInv(t, Init(t), p) {
    }
  }

  lemma {:induction false} RunInv(t: Topology, ss: seq<State>, acts: seq<Action>, k: nat)
    requires Run(t, ss, acts) && k <= |acts|
    ensures Inv(t, ss[k])
    decreases k
  {
    if k == 0 {
      InitInv(t);
    } else {
      RunInv(t, ss, acts, k - 1);
      StepKeeps(t, ss[k - 1], acts[k - 1]);
    }
  }

  // ---------- the theorems ----------

  /** In every state of every run, each Count message under way or queued carries the size of its
      sender's subtree. */
  lemma CountsAreSubtreeSizes(t: Topology, ss: seq<State>, acts: seq<Action>, k: nat)
    requires Run(t, ss, acts) && k <= |acts|
    ensures forall r :: Count(r) in ss[k].inflight ==> r.from < |t.parent| && r.n == Size(t, r.from)
    ensures Sized(t, ss[k])
    ensures forall p, i :: 0 <= p < |t.parent| && 0 <= i < |ss[k].pending[p]| ==>
              t.Kid(p, ss[k].pending[p][i].from) &&
              ss[k].pending[p][i].n == Size(t, ss[k].pending[p][i].from)
  {
    RunInv(t, ss, acts, k);
    forall p, i | 0 <= p < |t.parent| && 0 <= i < |ss[k].pending[p]|
      ensures t.Kid(p, ss[k].pending[p][i].from)
      ensures ss[k].pending[p][i].n == Size(t, ss[k].pending[p][i].from)
    {
      assert QueueInv(t, ss[k], p);
    }
  }

  /** In every state of every run, the root has published nothing while it runs and exactly one
      number once it has stopped: the number of nodes of the tree on completion, and less than that
      on a time-out. */
  lemma RootPublishesOnce(t: Topology, ss: seq<State>, acts: seq<Action>, k: nat)
    requires Run(t, ss, acts) && k <= |acts|
    ensures Sized(t, ss[k])
    ensures |ss[k].published| == if ss[k].running[0] then 0 else 1
    ensures ss[k].published != [] ==>
              match ss[k].published[0]
              case Complete(n) => n == |t.parent|
              case TimedOut(n) => 0 <= n < |t.parent|
  {
    RunInv(t, ss, acts, k);
    RootSize(t);
  }

  // ---------- completion ----------

  /** No message is lost and the root does not time out. */
  ghost predicate Undisturbed(acts: seq<Action>) {
    forall k :: 0 <= k < |acts| ==> !acts[k].Lose? && acts[k] != OnTimeout(0)
  }

  /** Node i's report is on its way to its parent's batch, or in it. */
  ghost predicate OnItsWay(t: Topology, s: State, i: nat)
    requires t.Valid() && Sized(t, s) && 1 <= i < |t.parent|
  {
    || Count(Report(i, Size(t, i))) in s.inflight
    || Reported(s.pending[t.parent[i]], i)
    || s.chan[t.parent[i]] != []
  }

  /** What undisturbed steps keep: nothing that a node waits for has gone missing. */
  ghost predicate Progress(t: Topology, s: State)
    requires t.Valid() && Sized(t, s)
  {
    && (forall i :: 1 <= i < |t.parent| && s.prepared[t.parent[i]] && !s.prepared[i] ==> Prepare(i) in s.inflight)
    && (forall i :: 0 <= i < |t.parent| && !s.prepared[i] ==> s.running[i])
    && (forall p :: 0 <= p < |t.parent| && Kids(t, p) == 0 && s.prepared[p] && s.running[p] ==> s.chan[p] != [])
    && (forall i :: 1 <= i < |t.parent| && !s.running[i] && s.running[t.parent[i]] ==> OnItsWay(t, s, i))
    && (forall p :: 0 <= p < |t.parent| && Kids(t, p) > 0 ==> |s.pending[p]| < Kids(t, p))
    && (forall k :: 0 <= k < |s.published| ==> s.published[k].Complete?)
  }

  lemma FuncPCFields(t: Topology, s: State, p: nat)
    requires CanPrepare(t, s, p) && t.Valid() && Sized(t, s)
    ensures var s' := FuncPC(t, s, p);
            && Sized(t, s') && s'.prepared == s.prepared[p := true]
            && s'.running == s.running && s'.pending == s.pending && s'.published == s.published
            && (forall q :: 0 <= q < |t.parent| && s.chan[q] != [] ==> s'.chan[q] != [])
            && (Kids(t, p) == 0 ==> s'.chan[p] != [])
  {
  }

  lemma FuncPCProgress(t: Topology, s: State, s0: State, p: nat)
    requires CanPrepare(t, s, p) && t.Valid() && Sized(t, s0) && Progress(t, s0)
    requires s == s0.(inflight := s.inflight)
    requires forall m :: m in s0.inflight && m != Prepare(p) ==> m in s.inflight
    ensures Progress(t, FuncPC(t, s, p))
  {
    hide Size, KidCount, Kids, Reported, Inv, FuncPC, OnItsWay, Progress;
    var s' := FuncPC(t, s, p);
    FuncPCFields(t, s, p);
    var up, preps := FuncPCSends(t, s, p);
    assert forall m :: m in s.inflight ==> m in s'.inflight;
    ProgressAfter(t, s0, s', p, preps);
  }

  lemma ProgressAfter(t: Topology, s: State, s': State, p: nat, preps: multiset<Msg>)
    requires t.Valid() && Sized(t, s) && Sized(t, s') && Progress(t, s) && p < |t.parent|
    requires s'.prepared == s.prepared[p := true] && s'.running == s.running
    requires s'.pending == s.pending && s'.published == s.published
    requires forall q :: 0 <= q < |t.parent| && s.chan[q] != [] ==> s'.chan[q] != []
    requires Kids(t, p) == 0 ==> s'.chan[p] != []
    requires forall i :: preps[Prepare(i)] == if i < |t.parent| && t.Kid(p, i) then 1 else 0
    requires forall m :: m in s.inflight && m != Prepare(p) ==> m in s'.inflight
    requires forall m :: m in preps ==> m in s'.inflight
    ensures Progress(t, s')
  {
    hide Size, KidCount, Kids, Reported, OnItsWay;
    PreparesOut(t, s, s', p, preps);
    ReportsStay(t, s, s');
  }

  /** Once node p is prepared, its children's PrepareCount messages are out; the others stay out. */
  lemma PreparesOut(t: Topology, s: State, s': State, p: nat, preps: multiset<Msg>)
    requires t.Valid() && Sized(t, s) && Sized(t, s') && Progress(t, s) && p < |t.parent|
    requires s'.prepared == s.prepared[p := true]
    requires forall i :: preps[Prepare(i)] == if i < |t.parent| && t.Kid(p, i) then 1 else 0
    requires forall m :: m in s.inflight && m != Prepare(p) ==> m in s'.inflight
    requires forall m :: m in preps ==> m in s'.inflight
    ensures forall i :: 1 <= i < |t.parent| && s'.prepared[t.parent[i]] && !s'.prepared[i] ==> Prepare(i) in s'.inflight
  {
    hide Size, Kids, Reported, OnItsWay;
    forall i | 1 <= i < |t.parent| && s'.prepared[t.parent[i]] && !s'.prepared[i] ensures Prepare(i) in s'.inflight {
      if t.parent[i] == p { assert preps[Prepare(i)] == 1; }
    }
  }

  /** Reports on their way stay so when queues only grow and no Count message goes. */
  lemma ReportsStay(t: Topology, s: State, s': State)
    requires t.Valid() && Sized(t, s) && Sized(t, s') && Progress(t, s)
    requires s'.running == s.running && s'.pending == s.pending
    requires forall q :: 0 <= q < |t.parent| && s.chan[q] != [] ==> s'.chan[q] != []
    requires forall r :: Count(r) in s.inflight ==> Count(r) in s'.inflight
    ensures forall i :: 1 <= i < |t.parent| && !s'.running[i] && s'.running[t.parent[i]] ==> OnItsWay(t, s', i)
  {
    hide Size, Kids, Reported;
    forall i | 1 <= i < |t.parent| && !s'.running[i] && s'.running[t.parent[i]] ensures OnItsWay(t, s', i) {
      assert OnItsWay(t, s, i);
    }
  }

  lemma DeliverProgress(t: Topology, s: State, r: Report)
    requires Inv(t, s) && Enabled(t, s, Deliver(r)) && Progress(t, s)
    ensures Progress(t, Apply(t, s, Deliver(r)))
  {
    hide Size, KidCount, UpInv, Ups, PreparedBelowRoot;
    var s' := Apply(t, s, Deliver(r));
    var p := t.parent[r.from];
    var got := s.pending[p] + [r];
    DeliverKeeps(t, s, r);
    assert QueueInv(t, s', p) && QueueInv(t, s, p);
    SomeKid(t, r.from);
    if |got| != Kids(t, p) { ReportsWithin(t, p, got); }
    forall i | 1 <= i < |t.parent| && !s'.running[i] && s'.running[t.parent[i]] ensures OnItsWay(t, s', i) {
      assert OnItsWay(t, s, i);
      if i == r.from {
        assert got[|got| - 1].from == i;
      } else if t.parent[i] == p && Reported(s.pending[p], i) {
        var j :| 0 <= j < |s.pending[p]| && s.pending[p][j].from == i;
        assert got[j].from == i;
      }
    }
  }

  lemma ReportsWithin(t: Topology, p: nat, b: seq<Report>)
    requires t.Valid() && p < |t.parent| && TrueReports(t, p, b)
    ensures |b| <= Kids(t, p)
  {
    BatchCovers(t, p, b, |t.parent|);
  }

  lemma OnCountProgress(t: Topology, s: State, p: nat)
    requires Inv(t, s) && Enabled(t, s, OnCount(p)) && Progress(t, s)
    ensures Progress(t, Apply(t, s, OnCount(p)))
  {
    hide Size, KidCount, Kids, UpInv, Ups, PreparedBelowRoot, Total, PublishInv;
    var s' := Apply(t, s, OnCount(p));
    assert QueueInv(t, s, p);
    CompleteBatch(t, p, s.chan[p][0]);
    if Kids(t, p) > 0 {
      var c := s.chan[p][0][0].from;
      assert t.Kid(p, c) && !s.running[c];
      assert s.prepared[c] && s.prepared[p];
    }
    CountsStay(t, s, p);
  }

  /** The count that node p passes on is on its way to its parent, and no other is lost. */
  lemma CountsStay(t: Topology, s: State, p: nat)
    requires Inv(t, s) && Enabled(t, s, OnCount(p)) && Progress(t, s)
    ensures var s' := Apply(t, s, OnCount(p));
            forall i :: 1 <= i < |t.parent| && !s'.running[i] && s'.running[t.parent[i]] ==> OnItsWay(t, s', i)
  {
    hide Size, KidCount, Kids, UpInv, Ups, PreparedBelowRoot, Total, PublishInv, PrepareInv;
    var s' := Apply(t, s, OnCount(p));
    assert QueueInv(t, s, p);
    CompleteBatch(t, p, s.chan[p][0]);
    forall i | 1 <= i < |t.parent| && !s'.running[i] && s'.running[t.parent[i]] ensures OnItsWay(t, s', i) {
      if i != p { assert OnItsWay(t, s, i); }
    }
  }

  lemma OnUpProgress(t: Topology, s: State, i: nat)
    requires Inv(t, s) && Enabled(t, s, OnUp(i)) && Progress(t, s)
    ensures Progress(t, Apply(t, s, OnUp(i)))
  {
    var s' := Apply(t, s, OnUp(i));
    forall j | 1 <= j < |t.parent| && !s'.running[j] && s'.running[t.parent[j]] ensures OnItsWay(t, s', j) {
      assert OnItsWay(t, s, j);
    }
  }

  lemma {:induction false} RunProgress(t: Topology, ss: seq<State>, acts: seq<Action>, k: nat)
    requires Run(t, ss, acts) && k <= |acts| && Undisturbed(acts)
    ensures Inv(t, ss[k]) && Progress(t, ss[k])
    decreases k
  {
    RunInv(t, ss, acts, k);
    if k == 0 {
      forall p | 0 <= p < |t.parent| && Kids(t, p) > 0 ensures |Init(t).pending[p]| < Kids(t, p) {
      }
    } else {
      RunProgress(t, ss, acts, k - 1);
      var s := ss[k - 1];
      match acts[k - 1] {
        case Start => StartProgress(t, s);
        case OnPrepare(i) => OnPrepareProgress(t, s, i);
        case Deliver(r) => DeliverProgress(t, s, r);
        case OnCount(p) => OnCountProgress(t, s, p);
        case OnUp(i) => OnUpProgress(t, s, i);
        case OnTimeout(i) =>
      }
    }
  }

  lemma StartProgress(t: Topology, s: State)
    requires Inv(t, s) && Enabled(t, s, Start) && Progress(t, s)
    ensures Progress(t, FuncPC(t, s, 0))
  {
    FuncPCProgress(t, s, s, 0);
  }

  lemma OnPrepareProgress(t: Topology, s: State, i: nat)
    requires Inv(t, s) && Enabled(t, s, OnPrepare(i)) && Progress(t, s)
    ensures Progress(t, Apply(t, s, OnPrepare(i)))
  {
    var s1 := s.(inflight := s.inflight - multiset{Prepare(i)});
    LoseKeeps(t, s, Prepare(i));
    FuncPCProgress(t, s1, s, i);
  }

  // ---------- the quiet end of an undisturbed run ----------

  lemma {:induction false} AllReportedCount(t: Topology, p: nat, b: seq<Report>, k: nat)
    requires t.Valid() && p < |t.parent| && k <= |t.parent| && TrueReports(t, p, b)
    requires forall i :: 0 <= i < k && t.Kid(p, i) ==> Reported(b, i)
    ensures KidCount(t, p, k) <= |b|
    decreases k
  {
    hide Size;
    if k > 0 {
      if t.Kid(p, k - 1) {
        var m :| 0 <= m < |b| && b[m].from == k - 1;
        WithoutTrue(t, p, b, m);
        AllReportedCount(t, p, Without(b, m), k - 1);
      } else {
        AllReportedCount(t, p, b, k - 1);
      }
    }
  }

  /** Nothing is left to happen but time-outs. */
  ghost predicate Quiet(t: Topology, s: State)
    requires Sized(t, s)
  {
    forall a :: Enabled(t, s, a) ==> a.OnTimeout? || a.Lose?
  }

  lemma {:induction false} QuietPrepared(t: Topology, s: State, i: nat)
    requires Inv(t, s) && Progress(t, s) && Quiet(t, s) && i < |t.parent|
    ensures s.prepared[i]
    decreases i
  {
    if i == 0 {
      assert !Enabled(t, s, Start);
    } else {
      QuietPrepared(t, s, t.parent[i]);
      assert !Enabled(t, s, OnPrepare(i));
    }
  }

  /** A running node whose children have all stopped can take its batch. */
  lemma BatchReady(t: Topology, s: State, p: nat)
    requires Inv(t, s) && Progress(t, s) && p < |t.parent| && s.running[p] && s.prepared[p]
    requires forall i :: 0 <= i < |t.parent| && t.Kid(p, i) ==> !s.running[i]
    requires forall r :: Count(r) !in s.inflight
    ensures s.chan[p] != []
  {
    hide Size, KidCount;
    if Kids(t, p) > 0 && s.chan[p] == [] {
      assert QueueInv(t, s, p);
      forall i | 0 <= i < |t.parent| && t.Kid(p, i) ensures Reported(s.pending[p], i) {
        assert OnItsWay(t, s, i);
      }
      AllReportedCount(t, p, s.pending[p], |t.parent|);
    }
  }

  lemma {:induction false} QuietStopped(t: Topology, s: State, p: nat)
    requires Inv(t, s) && Progress(t, s) && Quiet(t, s) && p < |t.parent|
    ensures !s.running[p]
    decreases |t.parent| - p
  {
    forall i | 0 <= i < |t.parent| && t.Kid(p, i) ensures !s.running[i] {
      QuietStopped(t, s, i);
    }
    forall r ensures Count(r) !in s.inflight {
      assert !Enabled(t, s, Deliver(r));
    }
    QuietPrepared(t, s, p);
    if s.running[p] { BatchReady(t, s, p); }
    assert !Enabled(t, s, OnCount(p));
  }

  /** Without losses and time-outs the protocol completes: when nothing more can happen, every node
      has stopped and the root has published the number of nodes of the tree. */
  lemma UndisturbedRunCompletes(t: Topology, ss: seq<State>, acts: seq<Action>, k: nat)
    requires Run(t, ss, acts) && k <= |acts| && Undisturbed(acts)
    requires Sized(t, ss[k]) && Quiet(t, ss[k])
    ensures forall p :: 0 <= p < |t.parent| ==> !ss[k].running[p]
    ensures ss[k].published == [Complete(|t.parent|)]
  {
    RunProgress(t, ss, acts, k);
    forall p | 0 <= p < |t.parent| ensures !ss[k].running[p] {
      QuietStopped(t, ss[k], p);
    }
    RootSize(t);
  }
}
