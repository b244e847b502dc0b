/** What the root of the Count protocol counts while it waits: the NodeIsUp messages it has received,
    which is the number it publishes on a time-out. */
module CountReplies {
  import opened CountProtocol

  /** The NodeIsUp messages that the root has received. */
  function RootUps(acts: seq<Action>): nat {
    if acts == [] then 0
    else RootUps(acts[..|acts| - 1]) + if acts[|acts| - 1] == OnUp(0) then 1 else 0
  }

  /** What the root has published on a time-out is its counter, which then no longer moves. */
  ghost predicate TimeoutInv(s: State) {
    |s.published| > 0 && s.published[0].TimedOut? ==> s.published[0].n == s.replies
  }

  lemma StepCounts(t: Topology, s: State, a: Action)
    requires Inv(t, s) && Enabled(t, s, a) && TimeoutInv(s)
    ensures Apply(t, s, a).replies == s.replies + if a == OnUp(0) then 1 else 0
    ensures TimeoutInv(Apply(t, s, a))
  {
    hide Size, Kids, Total, QueueInv, ReportInv, UpInv, PrepareInv;
  }

  /** In every state of every run: the root's counter is the number of NodeIsUp messages it has received,
      and a time-out publishes exactly that number. */
  lemma {:induction false} TimeoutPublishesReplies(t: Topology, ss: seq<State>, acts: seq<Action>, k: nat)
    requires Run(t, ss, acts) && k <= |acts|
    ensures ss[k].replies == RootUps(acts[..k])
    ensures forall n :: ss[k].published == [TimedOut(n)] ==> n == RootUps(acts[..k])
    decreases k
  {
    TimeoutCounts(t, ss, acts, k);
  }

  lemma {:induction false} TimeoutCounts(t: Topology, ss: seq<State>, acts: seq<Action>, k: nat)
    requires Run(t, ss, acts) && k <= |acts|
    ensures ss[k].replies == RootUps(acts[..k]) && TimeoutInv(ss[k])
    decreases k
  {
    hide Inv, Apply, Enabled, TimeoutInv;
    if k == 0 {
      StartCounts(t);
    } else {
      TimeoutCounts(t, ss, acts, k - 1);
      RunInv(t, ss, acts, k - 1);
      StepCounts(t, ss[k - 1], acts[k - 1]);
      assert acts[..k][..k - 1] == acts[..k - 1];
    }
  }

  lemma StartCounts(t: Topology)
    ensures Init(t).replies == 0 && TimeoutInv(Init(t))
  {
  }

  // ---------- runs without losses ----------

  ghost predicate Lossless(acts: seq<Action>) {
    forall k :: 0 <= k < |acts| ==> !acts[k].Lose?
  }

  /** NodeIsUp messages under way and counted, against the nodes below the root that are prepared. */
  ghost predicate UpsExact(t: Topology, s: State)
    requires Sized(t, s)
  {
    Ups(s.inflight, |t.parent|) + s.replies == PreparedBelowRoot(s.prepared, |t.parent|)
  }

  lemma FuncPCExact(t: Topology, s: State, p: nat)
    requires CanPrepare(t, s, p) && UpsExact(t, s)
    ensures Sized(t, FuncPC(t, s, p)) && UpsExact(t, FuncPC(t, s, p))
  {
    hide Size, KidCount, Ups, PreparedBelowRoot, QueueInv, ReportInv;
    var n := |t.parent|;
    var up, preps := FuncPCSends(t, s, p);
    UpsAdd(s.inflight + up, preps, n);
    UpsAdd(s.inflight, up, n);
    NoUps(preps, n);
    if p > 0 { UpsOne(Up(t.parent[p]), n); } else { UpsNone(n); }
    PreparedSet(s.prepared, p, n);
    FuncPCFields(t, s, p);
    FuncPCReplies(t, s, p);
  }

  lemma FuncPCReplies(t: Topology, s: State, p: nat)
    requires CanPrepare(t, s, p)
    ensures FuncPC(t, s, p).replies == s.replies
  {
  }

  lemma DeliverExact(t: Topology, s: State, r: Report)
    requires t.Valid() && Sized(t, s) && Enabled(t, s, Deliver(r)) && UpsExact(t, s)
    ensures Sized(t, Apply(t, s, Deliver(r))) && UpsExact(t, Apply(t, s, Deliver(r)))
  {
    hide Kids, Ups, PreparedBelowRoot;
    UpsRemove(s.inflight, Count(r), |t.parent|);
  }

  lemma OnCountExact(t: Topology, s: State, p: nat)
    requires t.Valid() && Sized(t, s) && Enabled(t, s, OnCount(p)) && UpsExact(t, s)
    ensures Sized(t, Apply(t, s, OnCount(p))) && UpsExact(t, Apply(t, s, OnCount(p)))
  {
    hide Total, Ups, PreparedBelowRoot;
    var c := Count(Report(p, 1 + Total(s.chan[p][0])));
    UpsAdd(s.inflight, multiset{c}, |t.parent|);
    UpsOne(c, |t.parent|);
  }

  lemma OnUpExact(t: Topology, s: State, i: nat)
    requires t.Valid() && Sized(t, s) && Enabled(t, s, OnUp(i)) && UpsExact(t, s)
    ensures Sized(t, Apply(t, s, OnUp(i))) && UpsExact(t, Apply(t, s, OnUp(i)))
  {
    hide Ups, PreparedBelowRoot;
    UpsRemove(s.inflight, Up(i), |t.parent|);
    if i > 0 {
      UpsAdd(s.inflight - multiset{Up(i)}, multiset{Up(t.parent[i])}, |t.parent|);
      UpsOne(Up(t.parent[i]), |t.parent|);
    }
  }

  lemma OnTimeoutExact(t: Topology, s: State, i: nat)
    requires t.Valid() && Sized(t, s) && Enabled(t, s, OnTimeout(i)) && UpsExact(t, s)
    ensures Sized(t, Apply(t, s, OnTimeout(i))) && UpsExact(t, Apply(t, s, OnTimeout(i)))
  {
  }

  lemma StepExact(t: Topology, s: State, a: Action)
    requires Inv(t, s) && Enabled(t, s, a) && UpsExact(t, s) && !a.Lose?
    ensures Sized(t, Apply(t, s, a)) && UpsExact(t, Apply(t, s, a))
  {
    hide UpsExact;
    match a {
      case Start => FuncPCExact(t, s, 0);
      case OnPrepare(i) =>
        LoseKeeps(t, s, Prepare(i));
        PrepareTaken(t, s, i);
        FuncPCExact(t, s.(inflight := s.inflight - multiset{Prepare(i)}), i);
      case Deliver(r) => DeliverExact(t, s, r);
      case OnCount(p) => OnCountExact(t, s, p);
      case OnUp(i) => OnUpExact(t, s, i);
      case OnTimeout(i) => OnTimeoutExact(t, s, i);
    }
  }

  lemma PrepareTaken(t: Topology, s: State, i: nat)
    requires Inv(t, s) && Enabled(t, s, OnPrepare(i)) && UpsExact(t, s)
    ensures UpsExact(t, s.(inflight := s.inflight - multiset{Prepare(i)}))
  {
    UpsRemove(s.inflight, Prepare(i), |t.parent|);
  }

  lemma {:induction false} RunExact(t: Topology, ss: seq<State>, acts: seq<Action>, k: nat)
    requires Run(t, ss, acts) && Lossless(acts) && k <= |acts|
    ensures Inv(t, ss[k]) && UpsExact(t, ss[k])
    decreases k
  {
    hide Inv, UpsExact;
    RunInv(t, ss, acts, k);
    if k == 0 {
      StartExact(t);
    } else {
      RunExact(t, ss, acts, k - 1);
      StepExact(t, ss[k - 1], acts[k - 1]);
    }
  }

  lemma StartExact(t: Topology)
    requires t.Valid()
    ensures Sized(t, Init(t)) && UpsExact(t, Init(t))
  {
    UpsNone(|t.parent|);
    NonePrepared(Init(t).prepared, |t.parent|);
  }

  lemma {:induction false} NonePrepared(prepared: seq<bool>, k: nat)
    requires k <= |prepared| && forall i :: 0 <= i < |prepared| ==> !prepared[i]
    ensures PreparedBelowRoot(prepared, k) == 0
    decreases k
  {
    if k > 1 { NonePrepared(prepared, k - 1); }
  }

  lemma {:induction false} AllPrepared(prepared: seq<bool>, k: nat)
    requires 1 <= k <= |prepared| && forall i :: 0 <= i < |prepared| ==> prepared[i]
    ensures PreparedBelowRoot(prepared, k) == k - 1
    decreases k
  {
    if k > 1 { AllPrepared(prepared, k - 1); }
  }

  lemma {:induction false} SomeUp(m: multiset<Msg>, k: nat, i: nat)
    requires i < k
    ensures Ups(m, k) >= m[Up(i)]
    decreases k
  {
    if i < k - 1 { SomeUp(m, k - 1, i); }
  }

  lemma {:induction false} NoneUp(m: multiset<Msg>, k: nat)
    requires forall i: nat :: i < k ==> Up(i) !in m
    ensures Ups(m, k) == 0
    decreases k
  {
    if k > 0 { NoneUp(m, k - 1); }
  }

  /** Without losses, once all nodes are prepared: a root that has timed out has published the number of
      all other nodes if and only if no NodeIsUp message is still under way. */
  lemma TimeoutIsFullIff(t: Topology, ss: seq<State>, acts: seq<Action>, k: nat, n: int)
    requires Run(t, ss, acts) && Lossless(acts) && k <= |acts|
    requires Sized(t, ss[k]) && forall i :: 0 <= i < |t.parent| ==> ss[k].prepared[i]
    requires ss[k].published == [TimedOut(n)]
    ensures n == |t.parent| - 1 <==> forall i: nat :: i < |t.parent| ==> Up(i) !in ss[k].inflight
  {
    hide Inv;
    var s := ss[k];
    TimeoutCounts(t, ss, acts, k);
    RunExact(t, ss, acts, k);
    AllPrepared(s.prepared, |t.parent|);
    forall i: nat | i < |t.parent| ensures Ups(s.inflight, |t.parent|) >= s.inflight[Up(i)] {
      SomeUp(s.inflight, |t.parent|, i);
    }
    if forall i: nat :: i < |t.parent| ==> Up(i) !in s.inflight { NoneUp(s.inflight, |t.parent|); }
    if n == |t.parent| - 1 {
      forall i: nat | i < |t.parent| ensures Up(i) !in s.inflight {
        assert s.inflight[Up(i)] == 0;
      }
    }
  }
}
