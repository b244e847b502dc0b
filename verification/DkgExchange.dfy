/** The message exchange of the distributed key generation on l nodes, from the StartDeal broadcast
    on: every interleaving of deliveries into the counted receive loops of Dispatch. */
module DkgExchange {
  import opened Basics

  datatype Msg =
    | StartDeal(to: nat)
    | Deal(from: nat, to: nat)
    | Response(dealer: nat, verifier: nat, to: nat)
    | SecretCommit(from: nat, to: nat)

  /** Where a node's Dispatch stands: k messages of the current loop have been received. */
  datatype Phase = AwaitStart | InDeals(k: nat) | InResponses(k: nat) | InCommits(k: nat) | Finished

  /** Per node: its phase, whether it has broadcast its secret commit, and what its key generator
      has processed; and all messages ever sent and those not yet received. */
  datatype State = State(
    phase: seq<Phase>,
    committed: seq<bool>,
    deals: seq<set<nat>>,
    responses: seq<set<(nat, nat)>>,
    commits: seq<set<nat>>,
    sent: multiset<Msg>,
    inflight: multiset<Msg>)

  /** A receive; `ready` says whether `SecretCommits` succeeds after this response. */
  datatype Action =
    | OnStartDeal(i: nat)
    | OnDeal(i: nat, from: nat)
    | OnResponse(i: nat, dealer: nat, verifier: nat, ready: bool)
    | OnSecretCommit(i: nat, from: nat)

  // ---------- sets of nodes and pairs ----------

  function Nodes(l: nat): (r: set<nat>)
    ensures forall i: nat :: i in r <==> i < l
    ensures |r| == l
  {
    if l == 0 then {} else Nodes(l - 1) + {l - 1}
  }

  function Others(l: nat, i: nat): set<nat> {
    Nodes(l) - {i}
  }

  function Row(ds: set<nat>, v: nat): set<(nat, nat)> {
    set d | d in ds :: (d, v)
  }

  /** A response by each of the first `rows` nodes to the deal of every other node. */
  function Pairs(l: nat, rows: nat): (r: set<(nat, nat)>)
    ensures forall d: nat, v: nat :: (d, v) in r <==> d < l && v < rows && d != v
  {
    if rows == 0 then {} else Pairs(l, rows - 1) + Row(Others(l, rows - 1), rows - 1)
  }

  lemma {:induction false} RowCount(ds: set<nat>, v: nat)
    ensures |Row(ds, v)| == |ds|
    decreases |ds|
  {
    if ds == {} {
      assert Row(ds, v) == {};
    } else {
      var x :| x in ds;
      RowCount(ds - {x}, v);
      assert Row(ds, v) == Row(ds - {x}, v) + {(x, v)};
    }
  }

  lemma {:induction false} PairsCount(l: nat, rows: nat)
    requires 0 < l && rows <= l
    ensures |Pairs(l, rows)| == rows * (l - 1)
    decreases rows
  {
    hide Nodes, Row, Others;
    if rows > 0 {
      PairsCount(l, rows - 1);
      OthersCount(l, rows - 1);
      RowCount(Others(l, rows - 1), rows - 1);
      RowApart(l, rows - 1);
      UnionCount(Pairs(l, rows - 1), Row(Others(l, rows - 1), rows - 1));
      OneMoreTime(rows, l - 1);
    }
  }

  lemma OthersCount(l: nat, i: nat)
    requires i < l
    ensures |Others(l, i)| == l - 1
  {
    hide Nodes;
    assert Nodes(l) == Others(l, i) + {i};
  }

  lemma RowApart(l: nat, v: nat)
    ensures Pairs(l, v) !! Row(Others(l, v), v)
  {
  }

  lemma UnionCount(a: set<(nat, nat)>, b: set<(nat, nat)>)
    requires a !! b
    ensures |a + b| == |a| + |b|
  {
  }

  /** A subset with as many elements as the whole is the whole. */
  lemma SubsetFull<T>(a: set<T>, b: set<T>)
    requires a <= b
    ensures |a| <= |b| && (|a| == |b| ==> a == b)
  {
    assert b == a + (b - a);
    assert |b| == |a| + |b - a|;
  }

  lemma Missing<T>(a: set<T>, b: set<T>) returns (x: T)
    requires a <= b && |a| < |b|
    ensures x in b && x !in a
  {
    SubsetFull(a, b);
    assert b - a != {} by { assert b == a + (b - a); }
    x :| x in b - a;
  }

  // ---------- steps ----------

  /** A loop that has received all it counts on is left at once: l - 1 deals, l(l - 1) responses,
      l secret commits. */
  function Settle(l: nat, p: Phase): Phase
    requires l > 0
  {
    match p
    case InDeals(k) => if k < l - 1 then p else if l == 1 then InCommits(0) else InResponses(0)
    case InResponses(k) => if k == l * (l - 1) then InCommits(0) else p
    case InCommits(k) => if k == l then Finished else p
    case _ => p
  }

  function DealsFrom(l: nat, i: nat): multiset<Msg> {
    multiset(set j | j in Others(l, i) :: Deal(i, j))
  }

  function ResponsesFrom(l: nat, d: nat, v: nat): multiset<Msg> {
    multiset(set j | j in Nodes(l) :: Response(d, v, j))
  }

  function CommitsFrom(l: nat, i: nat): multiset<Msg> {
    multiset(set j | j in Nodes(l) :: SecretCommit(i, j))
  }

  function StartDeals(l: nat): multiset<Msg> {
    multiset(set j | j in Nodes(l) :: StartDeal(j))
  }

  /** What the root has broadcast: StartDeal to every node once its children have sent their public
      keys. A root without children gets no key, so it broadcasts nothing. */
  function Started(l: nat): multiset<Msg> {
    if l >= 2 then StartDeals(l) else multiset{}
  }

  function Init(l: nat): State {
    State(seq(l, _ => AwaitStart), seq(l, _ => false), seq(l, _ => {}), seq(l, _ => {}), seq(l, _ => {}),
          Started(l), Started(l))
  }

  ghost predicate Sized(l: nat, s: State) {
    |s.phase| == |s.committed| == |s.deals| == |s.responses| == |s.commits| == l
  }

  ghost predicate Enabled(l: nat, s: State, a: Action)
    requires Sized(l, s)
  {
    match a
    case OnStartDeal(i) => i < l && s.phase[i].AwaitStart? && StartDeal(i) in s.inflight
    case OnDeal(i, d) => i < l && s.phase[i].InDeals? && Deal(d, i) in s.inflight
    case OnResponse(i, d, v, _) => i < l && s.phase[i].InResponses? && Response(d, v, i) in s.inflight
    case OnSecretCommit(i, c) => i < l && s.phase[i].InCommits? && SecretCommit(c, i) in s.inflight
  }

  /** One message received and a batch sent. */
  function Exchange(s: State, got: Msg, out: multiset<Msg>): State {
    s.(sent := s.sent + out, inflight := s.inflight - multiset{got} + out)
  }

  ghost function Apply(l: nat, s: State, a: Action): State
    requires l > 0 && Sized(l, s) && Enabled(l, s, a)
  {
    match a
    case OnStartDeal(i) =>
      Exchange(s.(phase := s.phase[i := Settle(l, InDeals(0))]), StartDeal(i), DealsFrom(l, i))
    case OnDeal(i, d) =>
      Exchange(s.(phase := s.phase[i := Settle(l, InDeals(s.phase[i].k + 1))],
                  deals := s.deals[i := s.deals[i] + {d}]),
               Deal(d, i), ResponsesFrom(l, d, i))
    case OnResponse(i, d, v, ready) =>
      var s1 := s.(phase := s.phase[i := Settle(l, InResponses(s.phase[i].k + 1))],
                   responses := s.responses[i := s.responses[i] + {(d, v)}]);
      if ready && !s.committed[i] then
        Exchange(s1.(committed := s.committed[i := true]), Response(d, v, i), CommitsFrom(l, i))
      else
        Exchange(s1, Response(d, v, i), multiset{})
    case OnSecretCommit(i, c) =>
      Exchange(s.(phase := s.phase[i := Settle(l, InCommits(s.phase[i].k + 1))],
                  commits := s.commits[i := s.commits[i] + {c}]),
               SecretCommit(c, i), multiset{})
  }

  ghost predicate Run(l: nat, ss: seq<State>, acts: seq<Action>) {
    && l > 0
    && |ss| == |acts| + 1
    && ss[0] == Init(l)
    && forall k :: 0 <= k < |acts| ==>
         Sized(l, ss[k]) && Enabled(l, ss[k], acts[k]) && ss[k + 1] == Apply(l, ss[k], acts[k])
  }

  // ---------- what every step keeps ----------

  /** The messages that must have been sent, given what the nodes have done. */
  ghost predicate Due(l: nat, s: State, m: Msg)
    requires Sized(l, s)
  {
    match m
    case StartDeal(j) => l >= 2 && j < l
    case Deal(i, j) => i < l && j < l && i != j && !s.phase[i].AwaitStart?
    case Response(d, v, j) => v < l && j < l && d in s.deals[v]
    case SecretCommit(i, j) => i < l && j < l && s.committed[i]
  }

  ghost predicate Received(l: nat, s: State, m: Msg)
    requires Sized(l, s)
  {
    match m
    case StartDeal(j) => j < l && !s.phase[j].AwaitStart?
    case Deal(i, j) => j < l && i in s.deals[j]
    case Response(d, v, j) => j < l && (d, v) in s.responses[j]
    case SecretCommit(i, j) => j < l && i in s.commits[j]
  }

  /** Every message due has been sent exactly once, nothing else has been sent, and what is under
      way is what has not been received. */
  ghost predicate MessageInv(l: nat, s: State, m: Msg)
    requires Sized(l, s)
  {
    && (Received(l, s, m) ==> Due(l, s, m))
    && s.sent[m] == (if Due(l, s, m) then 1 else 0)
    && s.inflight[m] == (if Due(l, s, m) && !Received(l, s, m) then 1 else 0)
  }

  ghost predicate MessagesInv(l: nat, s: State)
    requires Sized(l, s)
  {
    forall m :: MessageInv(l, s, m)
  }

  /** A node's loop counter is the number of distinct messages it has processed. */
  ghost predicate PhaseInv(l: nat, s: State, i: nat)
    requires l > 0 && Sized(l, s) && i < l
  {
    match s.phase[i]
    case AwaitStart => s.deals[i] == {} && s.responses[i] == {} && s.commits[i] == {} && !s.committed[i]
    case InDeals(k) =>
      |s.deals[i]| == k < l - 1 && s.responses[i] == {} && s.commits[i] == {} && !s.committed[i]
    case InResponses(k) => |s.deals[i]| == l - 1 && |s.responses[i]| == k < l * (l - 1) && s.commits[i] == {}
    case InCommits(k) => |s.deals[i]| == l - 1 && |s.responses[i]| == l * (l - 1) && |s.commits[i]| == k < l
    case Finished => |s.deals[i]| == l - 1 && |s.responses[i]| == l * (l - 1) && |s.commits[i]| == l
  }

  ghost predicate Inv(l: nat, s: State) {
    && l > 0 && Sized(l, s)
    && MessagesInv(l, s)
    && forall i :: 0 <= i < l ==> PhaseInv(l, s, i)
  }

  /** Receiving one message and sending a batch of messages that were not due before. */
  lemma ExchangeKeeps(l: nat, s: State, s': State, got: Msg, out: multiset<Msg>)
    requires Sized(l, s) && Sized(l, s') && MessagesInv(l, s) && got in s.inflight
    requires s'.sent == s.sent + out && s'.inflight == s.inflight - multiset{got} + out
    requires forall m :: Received(l, s', m) <==> Received(l, s, m) || m == got
    requires forall m :: Due(l, s', m) <==> Due(l, s, m) || m in out
    requires forall m :: m in out ==> out[m] == 1 && !Due(l, s, m)
    ensures MessagesInv(l, s')
  {
    forall m ensures MessageInv(l, s', m) {
      assert MessageInv(l, s, m);
      assert MessageInv(l, s, got);
    }
  }

  lemma StartKeeps(l: nat, s: State, i: nat)
    requires Inv(l, s) && Enabled(l, s, OnStartDeal(i))
    ensures Inv(l, Apply(l, s, OnStartDeal(i)))
  {
    var s' := Apply(l, s, OnStartDeal(i));
    assert PhaseInv(l, s, i);
    ExchangeKeeps(l, s, s', StartDeal(i), DealsFrom(l, i));
    assert l == 1 ==> l * (l - 1) == 0;
    Counts(l);
    forall j | 0 <= j < l ensures PhaseInv(l, s', j) {
      assert PhaseInv(l, s, j);
    }
  }

  lemma Counts(l: nat)
    requires l > 0
    ensures l * (l - 1) >= 0
    ensures l > 1 ==> l * (l - 1) > 0
  {
  }

  lemma DealKeeps(l: nat, s: State, i: nat, d: nat)
    requires Inv(l, s) && Enabled(l, s, OnDeal(i, d))
    ensures Inv(l, Apply(l, s, OnDeal(i, d)))
  {
    var s' := Apply(l, s, OnDeal(i, d));
    assert PhaseInv(l, s, i);
    assert MessageInv(l, s, Deal(d, i));
    ExchangeKeeps(l, s, s', Deal(d, i), ResponsesFrom(l, d, i));
    Counts(l);
    forall j | 0 <= j < l ensures PhaseInv(l, s', j) {
      assert PhaseInv(l, s, j);
    }
  }

  lemma ResponseKeeps(l: nat, s: State, i: nat, d: nat, v: nat, ready: bool)
    requires Inv(l, s) && Enabled(l, s, OnResponse(i, d, v, ready))
    ensures Inv(l, Apply(l, s, OnResponse(i, d, v, ready)))
  {
    hide PhaseInv, MessagesInv, Settle;
    ResponseMessages(l, s, i, d, v, ready);
    ResponsePhases(l, s, i, d, v, ready);
  }

  lemma ResponseMessages(l: nat, s: State, i: nat, d: nat, v: nat, ready: bool)
    requires Inv(l, s) && Enabled(l, s, OnResponse(i, d, v, ready))
    ensures MessagesInv(l, Apply(l, s, OnResponse(i, d, v, ready)))
  {
    hide Settle, Pairs;
    var s' := Apply(l, s, OnResponse(i, d, v, ready));
    assert PhaseInv(l, s, i);
    assert MessageInv(l, s, Response(d, v, i));
    var out := if ready && !s.committed[i] then CommitsFrom(l, i) else multiset{};
    SettleStarted(l, InResponses(s.phase[i].k + 1));
    ExchangeKeeps(l, s, s', Response(d, v, i), out);
  }

  lemma SettleStarted(l: nat, p: Phase)
    requires l > 0 && !p.AwaitStart?
    ensures !Settle(l, p).AwaitStart?
  {
  }

  lemma ResponsePhases(l: nat, s: State, i: nat, d: nat, v: nat, ready: bool)
    requires Inv(l, s) && Enabled(l, s, OnResponse(i, d, v, ready))
    ensures forall j :: 0 <= j < l ==> PhaseInv(l, Apply(l, s, OnResponse(i, d, v, ready)), j)
  {
    assert MessageInv(l, s, Response(d, v, i));
    var s' := Apply(l, s, OnResponse(i, d, v, ready));
    forall j | 0 <= j < l ensures PhaseInv(l, s', j) {
      assert PhaseInv(l, s, j);
    }
  }

  lemma CommitKeeps(l: nat, s: State, i: nat, c: nat)
    requires Inv(l, s) && Enabled(l, s, OnSecretCommit(i, c))
    ensures Inv(l, Apply(l, s, OnSecretCommit(i, c)))
  {
    var s' := Apply(l, s, OnSecretCommit(i, c));
    assert PhaseInv(l, s, i);
    assert MessageInv(l, s, SecretCommit(c, i));
    ExchangeKeeps(l, s, s', SecretCommit(c, i), multiset{});
    forall j | 0 <= j < l ensures PhaseInv(l, s', j) {
      assert PhaseInv(l, s, j);
    }
  }

  lemma {:induction false} RunInv(l: nat, ss: seq<State>, acts: seq<Action>, k: nat)
    requires Run(l, ss, acts) && k <= |acts|
    ensures Inv(l, ss[k])
    decreases k
  {
    if k == 0 {
      forall m ensures MessageInv(l, Init(l), m) {
      }
    } else {
      RunInv(l, ss, acts, k - 1);
      match acts[k - 1] {
        case OnStartDeal(i) => StartKeeps(l, ss[k - 1], i);
        case OnDeal(i, d) => DealKeeps(l, ss[k - 1], i, d);
        case OnResponse(i, d, v, ready) => ResponseKeeps(l, ss[k - 1], i, d, v, ready);
        case OnSecretCommit(i, c) => CommitKeeps(l, ss[k - 1], i, c);
      }
    }
  }

  // ---------- the theorems ----------

  function DealsTo(s: State, l: nat, j: nat): set<nat> {
    set i | i in Nodes(l) && Deal(i, j) in s.sent
  }

  function ResponsesTo(s: State, l: nat, j: nat): set<(nat, nat)> {
    set p | p in Pairs(l, l) && Response(p.0, p.1, j) in s.sent
  }

  function CommitsTo(s: State, l: nat, j: nat): set<nat> {
    set i | i in Nodes(l) && SecretCommit(i, j) in s.sent
  }

  /** In every state of every run: nothing is sent twice, so no node broadcasts its secret commit
      twice; a node is sent at most l - 1 deals, l(l - 1) responses and l secret commits; deals go
      to other nodes only, and only pairs of distinct nodes have a response. */
  lemma SentWithinLoops(l: nat, ss: seq<State>, acts: seq<Action>, k: nat, j: nat)
    requires Run(l, ss, acts) && k <= |acts| && j < l
    ensures forall m :: ss[k].sent[m] <= 1
    ensures DealsTo(ss[k], l, j) <= Others(l, j) && |DealsTo(ss[k], l, j)| <= l - 1
    ensures |ResponsesTo(ss[k], l, j)| <= l * (l - 1)
    ensures |CommitsTo(ss[k], l, j)| <= l
    ensures forall d: nat, v: nat :: Response(d, v, j) in ss[k].sent ==> (d, v) in Pairs(l, l)
  {
    var s := ss[k];
    RunInv(l, ss, acts, k);
    forall m ensures s.sent[m] <= 1 { assert MessageInv(l, s, m); }
    forall i | i in DealsTo(s, l, j) ensures i in Others(l, j) { assert MessageInv(l, s, Deal(i, j)); }
    forall d: nat, v: nat | Response(d, v, j) in s.sent ensures (d, v) in Pairs(l, l) {
      assert MessageInv(l, s, Response(d, v, j));
      assert MessageInv(l, s, Deal(d, v));
    }
    PairsCount(l, l);
    SubsetFull(DealsTo(s, l, j), Others(l, j));
    SubsetFull(ResponsesTo(s, l, j), Pairs(l, l));
    SubsetFull(CommitsTo(s, l, j), Nodes(l));
  }

  ghost predicate Quiet(l: nat, s: State)
    requires Sized(l, s)
  {
    forall a :: !Enabled(l, s, a)
  }

  /** The receive loops match what is sent: when nothing more can be received, every node has
      started and has received the deals of all others and the response to every deal; and if every
      node then has its secret commit out, all have finished with the commits of all. */
  lemma LoopsComplete(l: nat, ss: seq<State>, acts: seq<Action>, k: nat)
    requires Run(l, ss, acts) && k <= |acts|
    requires Sized(l, ss[k]) && Quiet(l, ss[k])
    ensures forall i :: 0 <= i < l ==> ss[k].deals[i] == Others(l, i) && ss[k].responses[i] == Pairs(l, l)
    ensures forall j :: 0 <= j < l ==> DealsTo(ss[k], l, j) == Others(l, j)
    ensures (forall i :: 0 <= i < l ==> ss[k].committed[i]) ==>
              forall i :: 0 <= i < l ==> ss[k].phase[i] == Finished && ss[k].commits[i] == Nodes(l)
  {
    hide Inv, DealsTo;
    RunInv(l, ss, acts, k);
    if l == 1 { AloneWaits(ss[k]); } else { AllReceived(l, ss[k]); }
    DealsSent(l, ss[k]);
  }

  lemma DealsSent(l: nat, s: State)
    requires Inv(l, s)
    requires l >= 2 ==> forall i :: 0 <= i < l ==> !s.phase[i].AwaitStart?
    ensures forall j :: 0 <= j < l ==> DealsTo(s, l, j) == Others(l, j)
  {
    forall j | 0 <= j < l ensures DealsTo(s, l, j) == Others(l, j) {
      forall i | i in Nodes(l) ensures i in DealsTo(s, l, j) <==> i != j { assert MessageInv(l, s, Deal(i, j)); }
    }
  }

  lemma AllReceived(l: nat, s: State)
    requires Inv(l, s) && Quiet(l, s) && l >= 2
    ensures forall i :: 0 <= i < l ==> !s.phase[i].AwaitStart?
    ensures forall i :: 0 <= i < l ==> s.deals[i] == Others(l, i) && s.responses[i] == Pairs(l, l)
    ensures (forall i :: 0 <= i < l ==> s.committed[i]) ==>
              forall i :: 0 <= i < l ==> s.phase[i] == Finished && s.commits[i] == Nodes(l)
  {
    hide PhaseInv, MessagesInv;
    AllStarted(l, s);
    AllDealt(l, s);
    AllResponded(l, s);
    if forall i :: 0 <= i < l ==> s.committed[i] {
      forall i | 0 <= i < l ensures s.phase[i] == Finished && s.commits[i] == Nodes(l) {
        CommitsDone(l, s, i);
      }
    }
  }

  /** A single node has no child to send it a key: it waits for StartDeal and there is nothing it has
      to receive. */
  lemma AloneWaits(s: State)
    requires Inv(1, s)
    ensures s.phase[0].AwaitStart? && !s.committed[0]
    ensures s.deals[0] == Others(1, 0) && s.responses[0] == Pairs(1, 1)
  {
    assert MessageInv(1, s, StartDeal(0));
    assert PhaseInv(1, s, 0);
    assert Pairs(1, 1) == {} by { PairsCount(1, 1); }
    assert Others(1, 0) == {} by { OthersCount(1, 0); }
  }

  lemma AllStarted(l: nat, s: State)
    requires Inv(l, s) && Quiet(l, s) && l >= 2
    ensures forall i :: 0 <= i < l ==> !s.phase[i].AwaitStart?
  {
    forall i | 0 <= i < l ensures !s.phase[i].AwaitStart? {
      assert MessageInv(l, s, StartDeal(i));
      assert !Enabled(l, s, OnStartDeal(i));
    }
  }

  /** A node that still waits for deals has one under way. */
  lemma DealPending(l: nat, s: State, i: nat) returns (a: Action)
    requires Inv(l, s) && i < l && s.phase[i].InDeals?
    requires forall j :: 0 <= j < l ==> !s.phase[j].AwaitStart?
    ensures Enabled(l, s, a)
  {
    assert PhaseInv(l, s, i);
    forall d | d in s.deals[i] ensures d in Others(l, i) { assert MessageInv(l, s, Deal(d, i)); }
    var d := Missing(s.deals[i], Others(l, i));
    assert MessageInv(l, s, Deal(d, i));
    a := OnDeal(i, d);
  }

  lemma AllDealt(l: nat, s: State)
    requires Inv(l, s) && Quiet(l, s)
    requires forall i :: 0 <= i < l ==> !s.phase[i].AwaitStart?
    ensures forall i :: 0 <= i < l ==> s.deals[i] == Others(l, i) && !s.phase[i].InDeals?
  {
    forall i | 0 <= i < l ensures s.deals[i] == Others(l, i) && !s.phase[i].InDeals? {
      if s.phase[i].InDeals? { var a := DealPending(l, s, i); }
      assert PhaseInv(l, s, i);
      forall d | d in s.deals[i] ensures d in Others(l, i) { assert MessageInv(l, s, Deal(d, i)); }
      SubsetFull(s.deals[i], Others(l, i));
    }
  }

  ghost predicate Dealt(l: nat, s: State)
    requires Sized(l, s)
  {
    forall i :: 0 <= i < l ==> s.deals[i] == Others(l, i) && !s.phase[i].AwaitStart? && !s.phase[i].InDeals?
  }

  lemma ResponsesWithin(l: nat, s: State, i: nat)
    requires Inv(l, s) && Dealt(l, s) && i < l
    ensures s.responses[i] <= Pairs(l, l) && |Pairs(l, l)| == l * (l - 1)
  {
    PairsCount(l, l);
    forall p | p in s.responses[i] ensures p in Pairs(l, l) {
      assert MessageInv(l, s, Response(p.0, p.1, i));
    }
  }

  /** A node that still waits for responses has one under way. */
  lemma ResponsePending(l: nat, s: State, i: nat) returns (a: Action)
    requires Inv(l, s) && Dealt(l, s) && i < l && s.phase[i].InResponses?
    ensures Enabled(l, s, a)
  {
    hide MessagesInv, PhaseInv, Dealt, Pairs;
    FewerResponses(l, s, i);
    ResponsesWithin(l, s, i);
    var p := Missing(s.responses[i], Pairs(l, l));
    ResponseUnderWay(l, s, i, p);
    a := OnResponse(i, p.0, p.1, false);
  }

  lemma FewerResponses(l: nat, s: State, i: nat)
    requires Inv(l, s) && i < l && s.phase[i].InResponses?
    ensures |s.responses[i]| < l * (l - 1)
  {
    hide MessagesInv;
    assert PhaseInv(l, s, i);
  }

  lemma ResponseUnderWay(l: nat, s: State, i: nat, p: (nat, nat))
    requires Inv(l, s) && Dealt(l, s) && i < l && p in Pairs(l, l) && p !in s.responses[i]
    ensures Response(p.0, p.1, i) in s.inflight
  {
    hide PhaseInv;
    assert MessageInv(l, s, Response(p.0, p.1, i));
  }

  lemma AllResponded(l: nat, s: State)
    requires Inv(l, s) && Quiet(l, s) && Dealt(l, s)
    ensures forall i :: 0 <= i < l ==> s.responses[i] == Pairs(l, l) && !s.phase[i].InResponses?
  {
    forall i | 0 <= i < l ensures s.responses[i] == Pairs(l, l) && !s.phase[i].InResponses? {
      if s.phase[i].InResponses? { var a := ResponsePending(l, s, i); }
      assert PhaseInv(l, s, i);
      ResponsesWithin(l, s, i);
      SubsetFull(s.responses[i], Pairs(l, l));
    }
  }

  lemma CommitsWithin(l: nat, s: State, i: nat)
    requires Inv(l, s) && i < l
    ensures s.commits[i] <= Nodes(l)
  {
    forall c | c in s.commits[i] ensures c in Nodes(l) { assert MessageInv(l, s, SecretCommit(c, i)); }
  }

  /** A node that still waits for secret commits has one under way, if all are out. */
  lemma CommitPending(l: nat, s: State, i: nat) returns (a: Action)
    requires Inv(l, s) && i < l && s.phase[i].InCommits?
    requires forall j :: 0 <= j < l ==> s.committed[j]
    ensures Enabled(l, s, a)
  {
    assert PhaseInv(l, s, i);
    CommitsWithin(l, s, i);
    var c := Missing(s.commits[i], Nodes(l));
    assert MessageInv(l, s, SecretCommit(c, i));
    a := OnSecretCommit(i, c);
  }

  lemma CommitsDone(l: nat, s: State, i: nat)
    requires Inv(l, s) && Quiet(l, s) && i < l
    requires !s.phase[i].AwaitStart? && !s.phase[i].InDeals? && !s.phase[i].InResponses?
    requires forall j :: 0 <= j < l ==> s.committed[j]
    ensures s.phase[i] == Finished && s.commits[i] == Nodes(l)
  {
    if s.phase[i].InCommits? { var a := CommitPending(l, s, i); }
    assert PhaseInv(l, s, i);
    CommitsWithin(l, s, i);
    SubsetFull(s.commits[i], Nodes(l));
  }

  // ---------- completion ----------

  /** What the key generator promises: `SecretCommits` succeeds once all responses are in. */
  ghost predicate Willing(l: nat, ss: seq<State>, acts: seq<Action>)
    requires Run(l, ss, acts)
  {
    forall k :: 0 <= k < |acts| && acts[k].OnResponse? ==> WillingAt(l, ss[k], acts[k])
  }

  ghost predicate WillingAt(l: nat, s: State, a: Action)
    requires Sized(l, s) && Enabled(l, s, a) && a.OnResponse?
  {
    s.responses[a.i] + {(a.dealer, a.verifier)} == Pairs(l, l) ==> a.ready
  }

  /** A node past its responses has broadcast its secret commit. */
  ghost predicate CommittedInv(l: nat, s: State)
    requires Sized(l, s)
  {
    forall i :: 0 <= i < l && (s.phase[i].InCommits? || s.phase[i].Finished?) ==> s.committed[i]
  }

  /** The last response that the loop counts is the last of all responses. */
  lemma LastResponse(l: nat, s: State, a: Action)
    requires Inv(l, s) && Enabled(l, s, a) && a.OnResponse? && s.phase[a.i].k + 1 == l * (l - 1)
    ensures s.responses[a.i] + {(a.dealer, a.verifier)} == Pairs(l, l)
  {
    var i, p := a.i, (a.dealer, a.verifier);
    assert PhaseInv(l, s, i);
    assert MessageInv(l, s, Response(p.0, p.1, i));
    assert MessageInv(l, s, Deal(p.0, p.1));
    forall r | r in s.responses[i] ensures r in Pairs(l, l) {
      assert MessageInv(l, s, Response(r.0, r.1, i));
      assert MessageInv(l, s, Deal(r.0, r.1));
    }
    PairsCount(l, l);
    SubsetFull(s.responses[i] + {p}, Pairs(l, l));
  }

  lemma {:induction false} RunCommitted(l: nat, ss: seq<State>, acts: seq<Action>, k: nat)
    requires Run(l, ss, acts) && Willing(l, ss, acts) && k <= |acts| && l >= 2
    ensures Inv(l, ss[k]) && CommittedInv(l, ss[k])
    decreases k
  {
    hide Inv;
    RunInv(l, ss, acts, k);
    if k > 0 {
      RunCommitted(l, ss, acts, k - 1);
      CommittedStep(l, ss[k - 1], acts[k - 1]);
    }
  }

  lemma CommittedStep(l: nat, s: State, a: Action)
    requires Inv(l, s) && Enabled(l, s, a) && CommittedInv(l, s) && l >= 2
    requires a.OnResponse? ==> WillingAt(l, s, a)
    ensures CommittedInv(l, Apply(l, s, a))
  {
    hide MessagesInv, Pairs, CommitsFrom, ResponsesFrom, DealsFrom;
    if a.OnResponse? && s.phase[a.i].k + 1 == l * (l - 1) { LastResponse(l, s, a); }
  }

  /** A quiet end, with the key generator keeping its promise: all nodes have finished with the secret
      commits of all, if and only if there are at least two nodes. */
  lemma FinishedIff(l: nat, ss: seq<State>, acts: seq<Action>, k: nat)
    requires Run(l, ss, acts) && Willing(l, ss, acts) && k <= |acts|
    requires Sized(l, ss[k]) && Quiet(l, ss[k])
    ensures (forall i :: 0 <= i < l ==> ss[k].phase[i] == Finished && ss[k].commits[i] == Nodes(l)) <==> l >= 2
  {
    LoopsComplete(l, ss, acts, k);
    RunInv(l, ss, acts, k);
    if l >= 2 {
      RunCommitted(l, ss, acts, k);
      forall i | 0 <= i < l ensures ss[k].committed[i] {
        AllStarted(l, ss[k]);
        AllDealt(l, ss[k]);
        AllResponded(l, ss[k]);
      }
    } else {
      AloneWaits(ss[k]);
    }
  }

  /** With a single node nothing happens at all. */
  lemma AloneNeverStarts(ss: seq<State>, acts: seq<Action>)
    requires Run(1, ss, acts)
    ensures acts == [] && ss == [Init(1)]
  {
    forall a ensures !Enabled(1, Init(1), a) {
    }
    assert |acts| > 0 ==> Enabled(1, ss[0], acts[0]);
  }

  /** Among the first k actions, node i has received a response after which `SecretCommits` succeeded. */
  ghost predicate WasReady(acts: seq<Action>, k: nat, i: nat)
    requires k <= |acts|
  {
    exists m :: 0 <= m < k && acts[m].OnResponse? && acts[m].i == i && acts[m].ready
  }

  /** A node has broadcast its secret commit if and only if `SecretCommits` has succeeded for it. */
  lemma {:induction false} CommittedIff(l: nat, ss: seq<State>, acts: seq<Action>, k: nat, i: nat)
    requires Run(l, ss, acts) && k <= |acts| && i < l
    ensures Sized(l, ss[k]) && (ss[k].committed[i] <==> WasReady(acts, k, i))
    ensures forall j :: 0 <= j < l ==> (SecretCommit(i, j) in ss[k].sent <==> WasReady(acts, k, i))
    decreases k
  {
    CommittedWhenReady(l, ss, acts, k, i);
    RunInv(l, ss, acts, k);
    forall j | 0 <= j < l ensures SecretCommit(i, j) in ss[k].sent <==> ss[k].committed[i] {
      assert MessageInv(l, ss[k], SecretCommit(i, j));
    }
  }

  lemma {:induction false} CommittedWhenReady(l: nat, ss: seq<State>, acts: seq<Action>, k: nat, i: nat)
    requires Run(l, ss, acts) && k <= |acts| && i < l
    ensures Sized(l, ss[k]) && (ss[k].committed[i] <==> WasReady(acts, k, i))
    decreases k
  {
    if k > 0 {
      CommittedWhenReady(l, ss, acts, k - 1, i);
      CommitStep(l, ss[k - 1], acts[k - 1], i);
    }
  }

  lemma CommitStep(l: nat, s: State, a: Action, i: nat)
    requires l > 0 && Sized(l, s) && Enabled(l, s, a) && i < l
    ensures var s' := Apply(l, s, a);
            Sized(l, s') && (s'.committed[i] <==> s.committed[i] || (a.OnResponse? && a.i == i && a.ready))
  {
  }

  // ---------- the length of runs ----------

  /** The messages that a node in this phase still receives. */
  function Rest(l: nat, p: Phase): int
    requires l > 0
  {
    match p
    case AwaitStart => 1 + (l - 1) + l * (l - 1) + l
    case InDeals(k) => (l - 1 - k) + l * (l - 1) + l
    case InResponses(k) => l * (l - 1) - k + l
    case InCommits(k) => l - k
    case Finished => 0
  }

  lemma SettleRest(l: nat, p: Phase)
    requires l > 0 && (p.InDeals? ==> p.k <= l - 1)
    ensures Rest(l, Settle(l, p)) == Rest(l, p)
  {
    assert l == 1 ==> l * (l - 1) == 0;
  }

  function AllRest(l: nat, ps: seq<Phase>): int
    requires l > 0
  {
    if ps == [] then 0 else Rest(l, ps[0]) + AllRest(l, ps[1..])
  }

  lemma {:induction false} AllRestSet(l: nat, ps: seq<Phase>, i: nat, p: Phase)
    requires l > 0 && i < |ps|
    ensures AllRest(l, ps[i := p]) == AllRest(l, ps) - Rest(l, ps[i]) + Rest(l, p)
    decreases |ps|
  {
    hide Rest;
    if i == 0 {
      assert ps[i := p][1..] == ps[1..];
    } else {
      AllRestSet(l, ps[1..], i - 1, p);
      assert ps[i := p][1..] == ps[1..][i - 1 := p];
    }
  }

  lemma {:induction false} AllRestSame(l: nat, ps: seq<Phase>, p: Phase)
    requires l > 0 && forall i :: 0 <= i < |ps| ==> ps[i] == p
    ensures AllRest(l, ps) == |ps| * Rest(l, p)
    decreases |ps|
  {
    hide Rest;
    if ps != [] {
      AllRestSame(l, ps[1..], p);
      OneMoreTime(|ps|, Rest(l, p));
    }
  }

  lemma StepRest(l: nat, s: State, a: Action)
    requires Inv(l, s) && Enabled(l, s, a)
    ensures AllRest(l, Apply(l, s, a).phase) == AllRest(l, s.phase) - 1
  {
    hide MessagesInv, Pairs, CommitsFrom, ResponsesFrom, DealsFrom, Settle, AllRest;
    var i, s' := a.i, Apply(l, s, a);
    assert PhaseInv(l, s, i);
    var p := match a
             case OnStartDeal(_) => InDeals(0)
             case OnDeal(_, _) => InDeals(s.phase[i].k + 1)
             case OnResponse(_, _, _, _) => InResponses(s.phase[i].k + 1)
             case OnSecretCommit(_, _) => InCommits(s.phase[i].k + 1);
    assert s'.phase == s.phase[i := Settle(l, p)];
    SettleRest(l, p);
    AllRestSet(l, s.phase, i, Settle(l, p));
  }

  lemma {:induction false} StepsTaken(l: nat, ss: seq<State>, acts: seq<Action>, k: nat)
    requires Run(l, ss, acts) && k <= |acts|
    ensures Inv(l, ss[k]) && AllRest(l, ss[k].phase) == AllRest(l, Init(l).phase) - k
    decreases k
  {
    hide Inv, AllRest;
    RunInv(l, ss, acts, k);
    if k > 0 {
      StepsTaken(l, ss, acts, k - 1);
      StepRest(l, ss[k - 1], acts[k - 1]);
    }
  }

  lemma {:induction false} RestNonnegative(l: nat, s: State, ps: seq<Phase>)
    requires Inv(l, s) && forall i :: 0 <= i < |ps| ==> ps[i] in s.phase
    ensures AllRest(l, ps) >= 0
    decreases |ps|
  {
    hide MessagesInv, Pairs;
    if ps != [] {
      RestNonnegative(l, s, ps[1..]);
      var i :| 0 <= i < l && s.phase[i] == ps[0];
      assert PhaseInv(l, s, i);
      Counts(l);
    }
  }

  /** Every run is finite: each step lowers what is still to be received by one, so there are at most
      l * (l * l + l) steps, and exactly so many when all nodes have finished. */
  lemma RunsAreBounded(l: nat, ss: seq<State>, acts: seq<Action>)
    requires Run(l, ss, acts)
    ensures |acts| <= l * (l * l + l)
    ensures Sized(l, ss[|acts|])
    ensures (forall i :: 0 <= i < l ==> ss[|acts|].phase[i] == Finished) ==> |acts| == l * (l * l + l)
  {
    hide AllRest, Inv;
    var s := ss[|acts|];
    StepsTaken(l, ss, acts, |acts|);
    InvSized(l, s);
    RestNonnegative(l, s, s.phase);
    AllRestSame(l, Init(l).phase, AwaitStart);
    Total(l);
    if forall i :: 0 <= i < l ==> s.phase[i] == Finished {
      AllRestSame(l, s.phase, Finished);
      assert l * Rest(l, Finished) == 0;
    }
  }

  lemma InvSized(l: nat, s: State)
    requires Inv(l, s)
    ensures Sized(l, s)
  {
  }

  lemma Total(l: nat)
    requires l > 0
    ensures Rest(l, AwaitStart) == l * l + l
  {
    Distribute(l, l, -1);
  }

}
