/** The start of the distributed key generation: the root asks for public keys, its children answer
    it, it files the keys by the servers' places in the roster, and deals are later sent by place in
    the tree's list of nodes. */
module DkgSetup {
  import opened Basics
  import Overlay = OverlayTree
  import opened NaryTree
  import Aggregation
  import DkgExchange

  /** A node's reply to Init: its server and its fresh public key. */
  datatype Reply<P> = Reply(from: nat, public: P)

  /** The public key in the last reply of the i-th server. */
  function Latest<P>(list: seq<Overlay.Server<P>>, replies: seq<Reply<P>>, i: int): Option<P>
    decreases |replies|
  {
    if replies == [] then None
    else
      var r := replies[|replies| - 1];
      if Overlay.Search(list, r.from) == i then Some(r.public) else Latest(list, replies[..|replies| - 1], i)
  }

  /** Every reply comes from a server of the roster that has a slot among n. */
  predicate AllFiled<P>(list: seq<Overlay.Server<P>>, n: nat, replies: seq<Reply<P>>) {
    forall k :: 0 <= k < |replies| ==> 0 <= Overlay.Search(list, replies[k].from) < n
  }

  function Slot<P>(list: seq<Overlay.Server<P>>, own: P, replies: seq<Reply<P>>, i: nat): Option<P> {
    match Latest(list, replies, i)
    case Some(p) => Some(p)
    case None => if i == 0 then Some(own) else None
  }

  /** Of several replies of one server the last one counts, and a reply of the first server counts more than
      the root's own key. */
  lemma {:induction false} LastReplyCounts<P>(list: seq<Overlay.Server<P>>, own: P, replies: seq<Reply<P>>, k: nat)
    requires k < |replies| && Overlay.Search(list, replies[k].from) >= 0
    requires forall m :: k < m < |replies| ==> Overlay.Search(list, replies[m].from) != Overlay.Search(list, replies[k].from)
    ensures Slot(list, own, replies, Overlay.Search(list, replies[k].from)) == Some(replies[k].public)
    decreases |replies|
  {
    var n := |replies| - 1;
    if k < n { LastReplyCounts(list, own, replies[..n], k); }
  }

  /** Without a reply of its server a slot is empty, but for the root's own. */
  lemma {:induction false} NoReply<P>(list: seq<Overlay.Server<P>>, own: P, replies: seq<Reply<P>>, i: nat)
    requires forall m :: 0 <= m < |replies| ==> Overlay.Search(list, replies[m].from) != i
    ensures Slot(list, own, replies, i) == if i == 0 then Some(own) else None
    decreases |replies|
  {
    if replies != [] { NoReply(list, own, replies[..|replies| - 1], i); }
  }

  /** `rootStartDeal` on a tree of n nodes: the loop that files the keys. None as a result is the error
      for an unknown server or the panic for a place beyond the nodes; None in a slot is a key that is
      missing. */
  method RootStartDeal<P>(list: seq<Overlay.Server<P>>, n: nat, own: P, replies: seq<Reply<P>>)
    returns (r: Option<seq<Option<P>>>)
    requires n > 0
    ensures r.Some? <==> AllFiled(list, n, replies)
    ensures r.Some? ==> |r.value| == n && forall i :: 0 <= i < n ==> r.value[i] == Slot(list, own, replies, i)
  {
    hide Overlay.Search;
    var publics: seq<Option<P>> := seq(n, _ => None);
    publics := publics[0 := Some(own)];
    for k := 0 to |replies|
      invariant |publics| == n && AllFiled(list, n, replies[..k])
      invariant forall i :: 0 <= i < n ==> publics[i] == Slot(list, own, replies[..k], i)
    {
      assert replies[..k + 1][..k] == replies[..k];
      var index := Overlay.Search(list, replies[k].from);
      if index < 0 || index >= n { return None; }
      publics := publics[index := Some(replies[k].public)];
    }
    assert replies[..|replies|] == replies;
    r := Some(publics);
  }

  /** The replies to Init are aggregated, and `rootStartDeal` runs once for each batch. With a reply from
      each child it runs exactly once, with all of them; a root without children never runs it, whatever
      arrives. So StartDeal is broadcast as the exchange of a star assumes: once, or not at all. */
  lemma StartedOnceIff(c: Aggregation.Config, ms: seq<Aggregation.Message>, initReply: nat)
    requires c.children > 0 ==> |Aggregation.Held(c, ms, initReply)| == c.children
    ensures var batches := Aggregation.Batches(c, ms, initReply);
            && batches == (if c.children > 0 then [Aggregation.Held(c, ms, initReply)] else [])
            && DkgExchange.Init(1 + c.children).sent ==
               if batches != [] then DkgExchange.StartDeals(1 + c.children) else multiset{}
  {
    if c.children > 0 {
      Aggregation.OneRound(c, ms, initReply);
    } else {
      Aggregation.Conservation(c, ms, initReply);
    }
  }

  // ---------- where the children stand in the list of nodes ----------

  /** The place of the k-th child in the depth-first list of nodes. */
  function Place(ts: seq<Tree>, k: nat): nat
    requires k <= |ts|
  {
    1 + |Lists(ts[..k])|
  }

  lemma PlaceStep(ts: seq<Tree>, k: nat)
    requires k < |ts|
    ensures Place(ts, k + 1) == Place(ts, k) + |List(ts[k])|
    ensures Lists(ts[..k + 1]) == Lists(ts[..k]) + List(ts[k])
  {
    assert ts[..k + 1] == ts[..k] + [ts[k]];
    ListsAppend(ts[..k], ts[k]);
  }

  lemma {:induction false} ListsPrefix(ts: seq<Tree>, k: nat)
    requires k <= |ts|
    ensures |Lists(ts[..k])| <= |Lists(ts)| && Lists(ts)[..|Lists(ts[..k])|] == Lists(ts[..k])
    decreases |ts| - k
  {
    if k == |ts| {
      assert ts[..k] == ts;
    } else {
      PlaceStep(ts, k);
      ListsPrefix(ts, k + 1);
      assert Lists(ts[..k]) == Lists(ts[..k + 1])[..|Lists(ts[..k])|];
    }
  }

  /** The k-th child stands at its place, and the nodes below it come before the next child. */
  lemma ChildAt(t: Tree, k: nat)
    requires k < |t.children|
    ensures 1 <= Place(t.children, k) < Place(t.children, k + 1) <= |List(t)|
    ensures Place(t.children, k + 1) == Place(t.children, k) + |List(t.children[k])|
    ensures List(t)[Place(t.children, k)] == t.children[k].index
  {
    var ts := t.children;
    PlaceStep(ts, k);
    ListsPrefix(ts, k + 1);
    ListsPrefix(ts, k);
    assert Lists(ts)[|Lists(ts[..k])|] == Lists(ts[..k + 1])[|Lists(ts[..k])|] == List(ts[k])[0];
  }

  lemma {:induction false} PlacesRise(ts: seq<Tree>, j: nat, k: nat)
    requires j < k <= |ts|
    ensures Place(ts, j) < Place(ts, k) && Place(ts, j) + |List(ts[j])| <= Place(ts, k)
    decreases k
  {
    PlaceStep(ts, k - 1);
    if j < k - 1 { PlacesRise(ts, j, k - 1); }
  }

  /** All nodes but the root are its children. */
  predicate Star(t: Tree) {
    forall k :: 0 <= k < |t.children| ==> t.children[k].children == []
  }

  /** Every node but the root sits on the server with its place in the list of nodes. */
  predicate InOrder(t: Tree) {
    forall j :: 1 <= j < |List(t)| ==> List(t)[j] == j
  }

  lemma {:induction false} StarPlaces(t: Tree, k: nat)
    requires Star(t) && k <= |t.children|
    ensures Place(t.children, k) == 1 + k
    decreases k
  {
    if k == 0 {
      assert t.children[..0] == [];
    } else {
      StarPlaces(t, k - 1);
      PlaceStep(t.children, k - 1);
    }
  }

  lemma StarSize(t: Tree)
    requires Star(t)
    ensures |List(t)| == 1 + |t.children|
  {
    StarPlaces(t, |t.children|);
    assert t.children[..|t.children|] == t.children;
  }

  ghost predicate NoChildAt(t: Tree, j: nat) {
    forall k :: 0 <= k < |t.children| ==> Place(t.children, k) != j
  }

  /** In a tree that is not a star, some place after the root's is no child's. */
  lemma BelowAChild(t: Tree) returns (j: nat)
    requires !Star(t)
    ensures 1 <= j < |List(t)| && NoChildAt(t, j)
  {
    var ts := t.children;
    var c :| 0 <= c < |ts| && ts[c].children != [];
    ChildAt(t, c);
    assert |List(ts[c])| >= 2 by { assert List(ts[c]) == [ts[c].index] + (List(ts[c].children[0]) + Lists(ts[c].children[1..])); }
    j := Place(ts, c) + 1;
    forall k | 0 <= k < |ts| ensures Place(ts, k) != j {
      if k < c { PlacesRise(ts, k, c); }
      if c < k { PlacesRise(ts, c, k); }
    }
  }

  // ---------- the keys that reach the root ----------

  /** The tree's nodes sit on servers of the roster, and every node has its own key. */
  ghost predicate Setting<P>(list: seq<Overlay.Server<P>>, t: Tree, keys: seq<P>) {
    && Overlay.DistinctServers(list)
    && |keys| == |List(t)|
    && (forall i, j :: 0 <= i < j < |keys| ==> keys[i] != keys[j])
    && (forall j :: 0 <= j < |List(t)| ==> 0 <= List(t)[j] < |list|)
  }

  /** The reply of the root's k-th child: nodes answer their parents. */
  ghost function ChildReply<P>(list: seq<Overlay.Server<P>>, t: Tree, keys: seq<P>, k: nat): Reply<P>
    requires Setting(list, t, keys) && k < |t.children|
  {
    ChildAt(t, k);
    Reply(list[t.children[k].index].id, keys[Place(t.children, k)])
  }

  /** What the root gets: the replies of all its children, in any order. */
  ghost predicate FromChildren<P>(list: seq<Overlay.Server<P>>, t: Tree, keys: seq<P>, replies: seq<Reply<P>>)
    requires Setting(list, t, keys)
  {
    && (forall m :: 0 <= m < |replies| ==> SentByChild(list, t, keys, replies[m]))
    && (forall k :: 0 <= k < |t.children| ==> ChildReply(list, t, keys, k) in replies)
  }

  ghost predicate SentByChild<P>(list: seq<Overlay.Server<P>>, t: Tree, keys: seq<P>, r: Reply<P>)
    requires Setting(list, t, keys)
  {
    exists k :: 0 <= k < |t.children| && r == ChildReply(list, t, keys, k)
  }

  /** Every deal, which is encrypted to the key in its slot, goes to the node with that key. */
  ghost predicate DealsReachOwners<P>(list: seq<Overlay.Server<P>>, t: Tree, keys: seq<P>, replies: seq<Reply<P>>)
    requires Setting(list, t, keys)
  {
    && AllFiled(list, |List(t)|, replies)
    && forall j :: 0 <= j < |List(t)| ==> Slot(list, keys[0], replies, j) == Some(keys[j])
  }

  lemma SearchIs<P>(list: seq<Overlay.Server<P>>, i: nat)
    requires Overlay.DistinctServers(list) && i < |list|
    ensures Overlay.Search(list, list[i].id) == i
  {
    hide Overlay.SearchFrom;
    assert list[i].id == list[i].id;
  }

  lemma {:induction false} LatestFrom<P>(list: seq<Overlay.Server<P>>, replies: seq<Reply<P>>, i: int)
    ensures var p := Latest(list, replies, i);
            p.Some? ==> exists m :: 0 <= m < |replies| && Overlay.Search(list, replies[m].from) == i && replies[m].public == p.value
    ensures Latest(list, replies, i).None? <==> forall m :: 0 <= m < |replies| ==> Overlay.Search(list, replies[m].from) != i
    decreases |replies|
  {
    hide Overlay.Search;
    if replies != [] {
      var n := |replies| - 1;
      LatestFrom(list, replies[..n], i);
      if Overlay.Search(list, replies[n].from) != i && Latest(list, replies[..n], i).Some? {
        var m :| 0 <= m < n && Overlay.Search(list, replies[..n][m].from) == i &&
                 replies[..n][m].public == Latest(list, replies, i).value;
        assert replies[m] == replies[..n][m];
      }
    }
  }

  /** The j-th slot holds the j-th node's key: then that node is a child of the root, on server j. */
  lemma FilledByChild<P>(list: seq<Overlay.Server<P>>, t: Tree, keys: seq<P>, replies: seq<Reply<P>>, j: nat) returns (k: nat)
    requires Setting(list, t, keys) && FromChildren(list, t, keys, replies)
    requires 1 <= j < |List(t)| && Slot(list, keys[0], replies, j) == Some(keys[j])
    ensures k < |t.children| && Place(t.children, k) == j && List(t)[j] == j
  {
    hide Overlay.Search, List, Place, Latest, Overlay.DistinctServers;
    LatestFrom(list, replies, j);
    var m :| 0 <= m < |replies| && Overlay.Search(list, replies[m].from) == j && replies[m].public == keys[j];
    assert SentByChild(list, t, keys, replies[m]);
    k :| 0 <= k < |t.children| && replies[m] == ChildReply(list, t, keys, k);
    ChildAt(t, k);
    SearchIs(list, t.children[k].index);
  }

  /** On a star in roster order, slot j gets the key of node j. */
  lemma StarFilled<P>(list: seq<Overlay.Server<P>>, t: Tree, keys: seq<P>, replies: seq<Reply<P>>, j: nat)
    requires Setting(list, t, keys) && FromChildren(list, t, keys, replies) && Star(t)
    requires j < |List(t)| && forall i :: 1 <= i < |List(t)| ==> List(t)[i] == i
    ensures Slot(list, keys[0], replies, j) == Some(keys[j])
    ensures AllFiled(list, |List(t)|, replies)
  {
    hide Overlay.Search, List, Place, Latest, Overlay.DistinctServers;
    LatestFrom(list, replies, j);
    StarSize(t);
    forall m | 0 <= m < |replies|
      ensures var i := Overlay.Search(list, replies[m].from); 1 <= i < |List(t)| && replies[m].public == keys[i]
    {
      assert SentByChild(list, t, keys, replies[m]);
      var k :| 0 <= k < |t.children| && replies[m] == ChildReply(list, t, keys, k);
      StarPlaces(t, k);
      ChildAt(t, k);
      SearchIs(list, t.children[k].index);
    }
    if j > 0 {
      var k: nat := j - 1;
      StarPlaces(t, k);
      ChildAt(t, k);
      SearchIs(list, t.children[k].index);
      var m :| 0 <= m < |replies| && replies[m] == ChildReply(list, t, keys, k);
      assert Overlay.Search(list, replies[m].from) == j;
    }
  }

  /** For every tree on the roster, every roster and every order of the replies: all deals reach their
      owners if and only if all other nodes are children of the root and each of them sits on the server
      with its place in the list of nodes. */
  lemma DealsReachOwnersIff<P>(list: seq<Overlay.Server<P>>, t: Tree, keys: seq<P>, replies: seq<Reply<P>>)
    requires Setting(list, t, keys) && FromChildren(list, t, keys, replies)
    ensures DealsReachOwners(list, t, keys, replies) <==> Star(t) && InOrder(t)
  {
    hide DealsReachOwners, Star, InOrder, List, Setting, FromChildren;
    if DealsReachOwners(list, t, keys, replies) { OnlyStars(list, t, keys, replies); }
    if Star(t) && InOrder(t) { StarsReach(list, t, keys, replies); }
  }

  lemma OnlyStars<P>(list: seq<Overlay.Server<P>>, t: Tree, keys: seq<P>, replies: seq<Reply<P>>)
    requires Setting(list, t, keys) && FromChildren(list, t, keys, replies)
    requires DealsReachOwners(list, t, keys, replies)
    ensures Star(t) && InOrder(t)
  {
    hide List, Slot, AllFiled, Star, Place, FromChildren, NoChildAt;
    forall j | 1 <= j < |List(t)| ensures List(t)[j] == j && !NoChildAt(t, j) {
      var k := FilledByChild(list, t, keys, replies, j);
      ChildThere(t, j, k);
    }
    if !Star(t) { var j := BelowAChild(t); }
  }

  lemma ChildThere(t: Tree, j: nat, k: nat)
    requires k < |t.children| && Place(t.children, k) == j
    ensures !NoChildAt(t, j)
  {
  }

  lemma StarsReach<P>(list: seq<Overlay.Server<P>>, t: Tree, keys: seq<P>, replies: seq<Reply<P>>)
    requires Setting(list, t, keys) && FromChildren(list, t, keys, replies)
    requires Star(t) && InOrder(t)
    ensures DealsReachOwners(list, t, keys, replies)
  {
    hide List, Slot, AllFiled, Star, Place, FromChildren;
    StarSize(t);
    StarFilled(list, t, keys, replies, 0);
    forall j | 0 <= j < |List(t)| ensures Slot(list, keys[0], replies, j) == Some(keys[j]) {
      StarFilled(list, t, keys, replies, j);
    }
  }

  // ---------- the trees of GenerateNaryTree ----------

  /** The tree of GenerateNaryTree is a star if and only if N is at least the number of other servers. */
  lemma NaryStar(len: nat, N: nat)
    requires N > 0 && len > 0
    ensures Star(Build(len, N, 0, len - 1).value) <==> N >= len - 1
  {
    hide Build, Depth, MaxDepth, List, Lists, Branching, Full;
    var t := Build(len, N, 0, len - 1).value;
    ListIsRange(len, N, 0, len - 1);
    if Star(t) {
      StarSize(t);
      BuildBranching(len, N, 0, len - 1);
      RootBranching(t, N);
    }
    if N >= len - 1 {
      FullOne(N);
      DepthBound(len, N, 0, len - 1, 1);
      ShallowStar(t);
    }
  }

  lemma RootBranching(t: Tree, N: int)
    requires Branching(t, N)
    ensures |t.children| <= N
  {
  }

  lemma FullOne(N: nat)
    ensures Full(N, 1) == 1 + N
  {
    assert Full(N, 0) == 1;
  }

  lemma {:induction false} MaxDepthBounds(ts: seq<Tree>, k: nat)
    requires k < |ts|
    ensures Depth(ts[k]) <= MaxDepth(ts)
    decreases k
  {
    if k > 0 { MaxDepthBounds(ts[1..], k - 1); }
  }

  lemma ShallowStar(t: Tree)
    requires Depth(t) <= 1
    ensures Star(t)
  {
    forall k | 0 <= k < |t.children| ensures t.children[k].children == [] {
      MaxDepthBounds(t.children, k);
    }
  }

  /** Over a whole roster, deals reach their owners if and only if N is at least the number of other
      servers, as in the star that the service uses. */
  lemma NaryDealsReachOwners<P>(list: seq<Overlay.Server<P>>, N: nat, keys: seq<P>, replies: seq<Reply<P>>)
    requires N > 0 && list != [] && Setting(list, Build(|list|, N, 0, |list| - 1).value, keys)
    requires FromChildren(list, Build(|list|, N, 0, |list| - 1).value, keys, replies)
    ensures DealsReachOwners(list, Build(|list|, N, 0, |list| - 1).value, keys, replies) <==> N >= |list| - 1
  {
    hide List, Build, DealsReachOwners, Star;
    var t := Build(|list|, N, 0, |list| - 1).value;
    ListIsRange(|list|, N, 0, |list| - 1);
    NaryStar(|list|, N);
    DealsReachOwnersIff(list, t, keys, replies);
  }

  /** Four servers in a binary tree: in the order of the roster, but the last one's key is missing. */
  lemma BinaryTreeExample<P>(list: seq<Overlay.Server<P>>, keys: seq<P>, replies: seq<Reply<P>>)
    requires |list| == 4 && Setting(list, Build(4, 2, 0, 3).value, keys)
    requires FromChildren(list, Build(4, 2, 0, 3).value, keys, replies)
    ensures List(Build(4, 2, 0, 3).value) == Range(0, 4)
    ensures !DealsReachOwners(list, Build(4, 2, 0, 3).value, keys, replies)
  {
    hide List, Build, DealsReachOwners;
    ListIsRange(4, 2, 0, 3);
    NaryDealsReachOwners(list, 2, keys, replies);
  }
}
