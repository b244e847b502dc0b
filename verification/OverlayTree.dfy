/** Overlay trees: the marshalled form that carries only identifiers, the tree rebuilt from it over
    a roster, and the aggregate public keys of subtrees. */
module OverlayTree {
  import opened Basics
  import NaryTree

  /** Public keys add up in a group; only associativity and the neutral element matter here. */
  datatype Keys<!P> = Keys(zero: P, add: (P, P) -> P)

  ghost predicate Monoid<P(!new)>(g: Keys<P>) {
    && (forall a, b, c :: g.add(g.add(a, b), c) == g.add(a, g.add(b, c)))
    && (forall a :: g.add(a, g.zero) == a && g.add(g.zero, a) == a)
  }

  datatype Server<P> = Server(id: nat, pub: P)

  datatype Tree<P> = Node(id: nat, server: Server<P>, index: int, children: seq<Tree<P>>)

  datatype Marshalled = Marshalled(nodeId: nat, serverId: nat, children: seq<Marshalled>)

  // ---------- marshal and rebuild ----------

  /** `TreeMarshalCopyTree`. */
  function Copy<P>(t: Tree<P>): Marshalled {
    Marshalled(t.id, t.server.id, seq(|t.children|, i requires 0 <= i < |t.children| => Copy(t.children[i])))
  }

  /** `Roster.Search`: the first server with this identifier, or -1. */
  function Search<P>(list: seq<Server<P>>, id: nat): (r: int)
    ensures -1 <= r < |list|
    ensures r >= 0 ==> list[r].id == id && forall i :: 0 <= i < r ==> list[i].id != id
    ensures r == -1 ==> forall i :: 0 <= i < |list| ==> list[i].id != id
  {
    SearchFrom(list, id, 0)
  }

  function SearchFrom<P>(list: seq<Server<P>>, id: nat, k: nat): (r: int)
    requires k <= |list|
    ensures r == -1 || k <= r < |list|
    ensures r >= 0 ==> list[r].id == id && forall i :: k <= i < r ==> list[i].id != id
    ensures r == -1 ==> forall i :: k <= i < |list| ==> list[i].id != id
    decreases |list| - k
  {
    if k == |list| then -1 else if list[k].id == id then k else SearchFrom(list, id, k + 1)
  }

  /** Every server identifier of the marshalled tree is in the roster. */
  predicate Covered<P>(m: Marshalled, list: seq<Server<P>>) {
    Search(list, m.serverId) >= 0 && forall c :: c in m.children ==> Covered(c, list)
  }

  /** `MakeTreeFromList`, where all servers are found. */
  function Rebuild<P>(m: Marshalled, list: seq<Server<P>>): Tree<P>
    requires Covered(m, list)
  {
    var k := Search(list, m.serverId);
    Node(m.nodeId, list[k], k,
         seq(|m.children|, i requires 0 <= i < |m.children| => Rebuild(m.children[i], list)))
  }

  /** `TreeNode.Equal`. */
  predicate Equal<P>(a: Tree<P>, b: Tree<P>) {
    && a.id == b.id && a.server.id == b.server.id
    && |a.children| == |b.children|
    && forall i :: 0 <= i < |a.children| ==> Equal(a.children[i], b.children[i])
  }

  /** Two trees are Equal if and only if they marshal to the same thing: the same node identifiers and the
      same server identifiers in the same shape. */
  lemma {:induction false} EqualIffSameCopy<P>(a: Tree<P>, b: Tree<P>)
    ensures Equal(a, b) <==> Copy(a) == Copy(b)
    decreases a
  {
    var ca, cb := Copy(a).children, Copy(b).children;
    if |a.children| == |b.children| {
      forall i | 0 <= i < |a.children| ensures Equal(a.children[i], b.children[i]) <==> ca[i] == cb[i] {
        EqualIffSameCopy(a.children[i], b.children[i]);
      }
      SameElements(ca, cb);
    }
  }

  /** A tree with another server anywhere is not Equal. */
  lemma ServersDiffer<P>(a: Tree<P>, b: Tree<P>, i: nat)
    requires i < |a.children| && i < |b.children| && a.children[i].server.id != b.children[i].server.id
    ensures !Equal(a, b)
  {
    assert !Equal(a.children[i], b.children[i]);
  }

  /** Every node sits on the roster's server at its index. */
  predicate Placed<P(==)>(t: Tree<P>, list: seq<Server<P>>) {
    && 0 <= t.index < |list| && t.server == list[t.index]
    && forall c :: c in t.children ==> Placed(c, list)
  }

  predicate DistinctServers<P>(list: seq<Server<P>>) {
    forall i, j :: 0 <= i < j < |list| ==> list[i].id != list[j].id
  }

  lemma {:induction false} PlacedCovered<P>(t: Tree<P>, list: seq<Server<P>>)
    requires Placed(t, list)
    ensures Covered(Copy(t), list)
    decreases t
  {
    forall c | c in Copy(t).children ensures Covered(c, list) {
      var i :| 0 <= i < |t.children| && Copy(t.children[i]) == c;
      PlacedCovered(t.children[i], list);
    }
  }

  /** The tree rebuilt from its marshalled form over any roster that covers it is Equal to it. */
  lemma {:induction false} RebuildEqual<P>(t: Tree<P>, list: seq<Server<P>>)
    requires Covered(Copy(t), list)
    ensures Equal(t, Rebuild(Copy(t), list))
    decreases t
  {
    forall i | 0 <= i < |t.children| ensures Equal(t.children[i], Rebuild(Copy(t).children[i], list)) {
      assert Copy(t).children[i] in Copy(t).children;
      RebuildEqual(t.children[i], list);
    }
  }

  /** Over a roster of distinct servers it is the same tree, server records and indices included. */
  lemma {:induction false} RebuildSame<P>(t: Tree<P>, list: seq<Server<P>>)
    requires Placed(t, list) && DistinctServers(list)
    ensures Covered(Copy(t), list) && Rebuild(Copy(t), list) == t
    decreases t
  {
    PlacedCovered(t, list);
    var r := Rebuild(Copy(t), list);
    assert Search(list, t.server.id) == t.index;
    forall i | 0 <= i < |t.children| ensures r.children[i] == t.children[i] {
      assert Copy(t).children[i] in Copy(t).children && t.children[i] in t.children;
      RebuildSame(t.children[i], list);
    }
    assert r.children == t.children;
  }

  // ---------- aggregate keys ----------

  /** The public keys in depth-first order, as `Visit` meets them. */
  function Publics<P>(t: Tree<P>): seq<P>
    decreases t, 1
  {
    [t.server.pub] + AllPublics(t.children)
  }

  function AllPublics<P>(ts: seq<Tree<P>>): seq<P>
    decreases ts, 0
  {
    if ts == [] then [] else Publics(ts[0]) + AllPublics(ts[1..])
  }

  /** Adding up a list of keys one after the other. */
  function SumFrom<P>(g: Keys<P>, acc: P, ps: seq<P>): P
    decreases |ps|
  {
    if ps == [] then acc else SumFrom(g, g.add(acc, ps[0]), ps[1..])
  }

  /** `AggregatePublic`, and `NewRoster`'s aggregate of its list. */
  function Sum<P>(g: Keys<P>, ps: seq<P>): P {
    SumFrom(g, g.zero, ps)
  }

  /** `computeSubtreeAggregate`: the node's key plus its children's aggregates. */
  function Aggregate<P>(g: Keys<P>, t: Tree<P>): P
    decreases t, 1
  {
    AddAggregates(g, g.add(g.zero, t.server.pub), t.children)
  }

  function AddAggregates<P>(g: Keys<P>, acc: P, ts: seq<Tree<P>>): P
    decreases ts, 0
  {
    if ts == [] then acc else AddAggregates(g, g.add(acc, Aggregate(g, ts[0])), ts[1..])
  }

  lemma {:induction false} SumFromConcat<P>(g: Keys<P>, acc: P, ps: seq<P>, qs: seq<P>)
    ensures SumFrom(g, acc, ps + qs) == SumFrom(g, SumFrom(g, acc, ps), qs)
    decreases |ps|
  {
    if ps == [] {
      assert ps + qs == qs;
    } else {
      SumFromConcat(g, g.add(acc, ps[0]), ps[1..], qs);
      assert (ps + qs)[1..] == ps[1..] + qs;
    }
  }

  lemma {:induction false} SumFromAdds<P(!new)>(g: Keys<P>, acc: P, b: P, ps: seq<P>)
    requires Monoid(g)
    ensures SumFrom(g, g.add(acc, b), ps) == g.add(acc, SumFrom(g, b, ps))
    decreases |ps|
  {
    if ps != [] {
      assert g.add(g.add(acc, b), ps[0]) == g.add(acc, g.add(b, ps[0]));
      SumFromAdds(g, acc, g.add(b, ps[0]), ps[1..]);
    }
  }

  /** The stored subtree aggregate is the sum over a traversal of the subtree. */
  lemma {:induction false} AggregateIsSum<P(!new)>(g: Keys<P>, t: Tree<P>)
    requires Monoid(g)
    ensures Aggregate(g, t) == Sum(g, Publics(t))
    decreases t, 1
  {
    AddAggregatesAreSum(g, g.add(g.zero, t.server.pub), t.children);
    assert Publics(t)[1..] == AllPublics(t.children);
  }

  lemma {:induction false} AddAggregatesAreSum<P(!new)>(g: Keys<P>, acc: P, ts: seq<Tree<P>>)
    requires Monoid(g)
    ensures AddAggregates(g, acc, ts) == SumFrom(g, acc, AllPublics(ts))
    decreases ts, 0
  {
    if ts != [] {
      AggregateIsSum(g, ts[0]);
      AddAggregatesAreSum(g, g.add(acc, Aggregate(g, ts[0])), ts[1..]);
      SumFromConcat(g, acc, Publics(ts[0]), AllPublics(ts[1..]));
      SumFromAdds(g, acc, g.zero, Publics(ts[0]));
    }
  }

  // ---------- trees generated over a roster ----------

  /** The overlay tree of a generated N-ary tree of roster indices. */
  function OnRoster<P>(t: NaryTree.Tree, list: seq<Server<P>>): Tree<P>
    requires InRoster(t, |list|)
  {
    Node(t.index, list[t.index], t.index,
         seq(|t.children|, i requires 0 <= i < |t.children| => OnRoster(t.children[i], list)))
  }

  predicate InRoster(t: NaryTree.Tree, n: nat) {
    0 <= t.index < n && forall c :: c in t.children ==> InRoster(c, n)
  }

  predicate AllIn(ix: seq<int>, n: nat) {
    forall i :: 0 <= i < |ix| ==> 0 <= ix[i] < n
  }

  lemma AllInParts(a: seq<int>, b: seq<int>, n: nat)
    ensures AllIn(a + b, n) <==> AllIn(a, n) && AllIn(b, n)
  {
    assert forall i :: 0 <= i < |a| ==> (a + b)[i] == a[i];
    assert forall i :: 0 <= i < |b| ==> (a + b)[|a| + i] == b[i];
  }

  function PubsAt<P>(list: seq<Server<P>>, ix: seq<int>): seq<P>
    requires AllIn(ix, |list|)
  {
    seq(|ix|, i requires 0 <= i < |ix| => list[ix[i]].pub)
  }

  lemma {:induction false} ListInRoster(t: NaryTree.Tree, n: nat)
    requires AllIn(NaryTree.List(t), n)
    ensures InRoster(t, n)
    decreases t, 1
  {
    AllInParts([t.index], NaryTree.Lists(t.children), n);
    assert [t.index][0] == t.index;
    ListsInRoster(t.children, n);
  }

  lemma {:induction false} ListsInRoster(ts: seq<NaryTree.Tree>, n: nat)
    requires AllIn(NaryTree.Lists(ts), n)
    ensures forall c :: c in ts ==> InRoster(c, n)
    decreases ts, 0
  {
    if ts != [] {
      AllInParts(NaryTree.List(ts[0]), NaryTree.Lists(ts[1..]), n);
      ListInRoster(ts[0], n);
      ListsInRoster(ts[1..], n);
    }
  }

  lemma {:induction false} PublicsOnRoster<P>(t: NaryTree.Tree, list: seq<Server<P>>)
    requires InRoster(t, |list|)
    ensures AllIn(NaryTree.List(t), |list|)
    ensures Publics(OnRoster(t, list)) == PubsAt(list, NaryTree.List(t))
    decreases t, 1
  {
    var o := OnRoster(t, list);
    AllPublicsOnRoster(t.children, o.children, list);
    AllInParts([t.index], NaryTree.Lists(t.children), |list|);
    assert PubsAt(list, NaryTree.List(t)) == [list[t.index].pub] + PubsAt(list, NaryTree.Lists(t.children));
  }

  lemma {:induction false} AllPublicsOnRoster<P>(ts: seq<NaryTree.Tree>, os: seq<Tree<P>>, list: seq<Server<P>>)
    requires |ts| == |os| && forall i :: 0 <= i < |ts| ==> InRoster(ts[i], |list|) && os[i] == OnRoster(ts[i], list)
    ensures AllIn(NaryTree.Lists(ts), |list|)
    ensures AllPublics(os) == PubsAt(list, NaryTree.Lists(ts))
    decreases ts, 0
  {
    if ts != [] {
      PublicsOnRoster(ts[0], list);
      AllPublicsOnRoster(ts[1..], os[1..], list);
      AllInParts(NaryTree.List(ts[0]), NaryTree.Lists(ts[1..]), |list|);
      assert PubsAt(list, NaryTree.Lists(ts)) ==
             PubsAt(list, NaryTree.List(ts[0])) + PubsAt(list, NaryTree.Lists(ts[1..]));
    }
  }

  /** For `GenerateNaryTree` the root's subtree aggregate is the roster's aggregate key. */
  lemma RootAggregateIsRosters<P(!new)>(g: Keys<P>, list: seq<Server<P>>, N: nat)
    requires Monoid(g) && list != [] && N > 0
    ensures var t := NaryTree.Build(|list|, N, 0, |list| - 1).value;
            && InRoster(t, |list|)
            && Aggregate(g, OnRoster(t, list)) ==
               Sum(g, seq(|list|, i requires 0 <= i < |list| => list[i].pub))
  {
    hide NaryTree.Build, NaryTree.List, Monoid, Aggregate, Publics, InRoster, OnRoster, Sum;
    var n := |list|;
    var t := NaryTree.Build(n, N, 0, n - 1).value;
    NaryTree.ListIsRange(n, N, 0, n - 1);
    ListInRoster(t, n);
    PublicsOnRoster(t, list);
    AggregateIsSum(g, OnRoster(t, list));
    assert PubsAt(list, NaryTree.List(t)) == seq(n, i requires 0 <= i < n => list[i].pub);
  }
}
