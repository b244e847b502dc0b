/** Tree nodes on the heap, with parent links and stored aggregates: rebuilding a tree from its
    marshalled form and computing the subtree aggregates in place. */
module TreeNodes {
  import opened OverlayTree
  import opened Basics

  class TreeNode<P> {
    var id: nat
    var server: Server<P>
    var rosterIndex: int
    var parent: TreeNode?<P>
    var children: seq<TreeNode<P>>
    var aggregate: P
    ghost var repr: set<TreeNode<P>>

    constructor (id: nat, server: Server<P>, rosterIndex: int, parent: TreeNode?<P>)
      ensures this.id == id && this.server == server && this.rosterIndex == rosterIndex && this.parent == parent
      ensures children == [] && repr == {this}
    {
      this.id, this.server, this.rosterIndex, this.parent := id, server, rosterIndex, parent;
      children := [];
      aggregate := server.pub;
      repr := {this};
    }

    /** The node and what is below it form the tree t, every child pointing back to its parent. The
        stored aggregates are not looked at. */
    ghost predicate Models(t: Tree<P>, up: TreeNode?<P>)
      reads this`id, this`server, this`rosterIndex, this`parent, this`children, this`repr
      reads repr`id, repr`server, repr`rosterIndex, repr`parent, repr`children, repr`repr
      decreases t
    {
      && this in repr
      && id == t.id && server == t.server && rosterIndex == t.index && parent == up
      && |children| == |t.children|
      && (forall i :: 0 <= i < |children| ==>
            children[i] in repr && children[i].repr <= repr - {this})
      && (forall i, j :: 0 <= i < j < |children| ==> children[i].repr !! children[j].repr)
      && (forall i :: 0 <= i < |children| ==> children[i].Models(t.children[i], this))
    }

    lemma Parts(t: Tree<P>, up: TreeNode?<P>)
      requires Models(t, up)
      ensures this in repr && server == t.server && |children| == |t.children|
      ensures forall i :: 0 <= i < |children| ==>
                children[i] in children[i].repr && children[i].repr <= repr - {this}
      ensures forall i, j :: 0 <= i < j < |children| ==> children[i].repr !! children[j].repr
      ensures forall i :: 0 <= i < |children| ==> children[i].Models(t.children[i], this)
    {
    }

    /** The node has the trees ts below it, each in its own part of the heap. */
    ghost predicate HasKids(ts: seq<Tree<P>>)
      reads this`children, this`repr
      reads repr`id, repr`server, repr`rosterIndex, repr`parent, repr`children, repr`repr
    {
      && this in repr
      && |children| == |ts|
      && (forall i :: 0 <= i < |children| ==>
            children[i] in repr && children[i].repr <= repr - {this})
      && (forall i, j :: 0 <= i < j < |children| ==> children[i].repr !! children[j].repr)
      && (forall i :: 0 <= i < |children| ==> children[i].Models(ts[i], this))
    }

    /** Append a child that was built with this node as its parent. */
    method Adopt(c: TreeNode<P>, ghost ts: seq<Tree<P>>, ghost t: Tree<P>)
      requires HasKids(ts) && c.Models(t, this) && c.repr !! repr
      modifies this`children, this`repr
      ensures HasKids(ts + [t]) && repr == old(repr) + c.repr
    {
      children := children + [c];
      repr := repr + c.repr;
    }

    /** The node and everything below it hold the aggregate of their subtree. */
    ghost predicate Aggregated(g: Keys<P>, t: Tree<P>)
      reads this, repr
      decreases t
    {
      && aggregate == Aggregate(g, t)
      && |children| == |t.children|
      && (forall i :: 0 <= i < |children| ==> children[i] in repr && children[i].repr <= repr)
      && (forall i :: 0 <= i < |children| ==> children[i].Aggregated(g, t.children[i]))
    }
  }

  /** `MakeTreeFromList`: None where the source leaves a node without server, because the roster
      does not know it; `MakeTree` then panics. */
  method MakeTreeFromList<P>(m: Marshalled, parent: TreeNode?<P>, list: seq<Server<P>>)
    returns (r: Option<TreeNode<P>>)
    ensures r.Some? <==> Covered(m, list)
    ensures r.Some? ==> fresh(r.value.repr) && r.value.Models(Rebuild(m, list), parent)
    decreases m
  {
    hide Search;
    var k := Search(list, m.serverId);
    if k < 0 { return None; }
    var tn := new TreeNode(m.nodeId, list[k], k, parent);
    ghost var ts: seq<Tree<P>> := [];
    for i := 0 to |m.children|
      invariant fresh(tn.repr)
      invariant tn.id == m.nodeId && tn.server == list[k] && tn.rosterIndex == k && tn.parent == parent
      invariant |ts| == i && tn.HasKids(ts)
      invariant forall j :: 0 <= j < i ==> Covered(m.children[j], list) && ts[j] == Rebuild(m.children[j], list)
    {
      var c := MakeTreeFromList(m.children[i], tn, list);
      if c.None? {
        assert m.children[i] in m.children;
        return None;
      }
      ghost var t := Rebuild(m.children[i], list);
      tn.Adopt(c.value, ts, t);
      ts := ts + [t];
    }
    assert Rebuild(m, list).children == ts;
    r := Some(tn);
  }

  /** `computeSubtreeAggregate`: only aggregates change, and every one of them becomes right. */
  method ComputeSubtreeAggregate<P>(g: Keys<P>, root: TreeNode<P>, ghost t: Tree<P>, ghost up: TreeNode?<P>)
    returns (a: P)
    requires root.Models(t, up)
    modifies root.repr`aggregate
    ensures root.Models(t, up) && root.Aggregated(g, t)
    ensures a == Aggregate(g, t)
    decreases t
  {
    hide Aggregate, AddAggregates, TreeNode.Models;
    root.Parts(t, up);
    a := g.add(g.zero, root.server.pub);
    AggregateStart(g, t);
    for i := 0 to |root.children|
      invariant root.Models(t, up)
      invariant AddAggregates(g, a, t.children[i..]) == Aggregate(g, t)
      invariant forall j :: 0 <= j < i ==> root.children[j].Aggregated(g, t.children[j])
    {
      AggregateStep(g, a, t.children, i);
      root.Parts(t, up);
      var c := ComputeSubtreeAggregate(g, root.children[i], t.children[i], root);
      a := g.add(a, c);
    }
    AggregateEnd(g, a, t.children);
    root.aggregate := a;
  }

  lemma AggregateStart<P>(g: Keys<P>, t: Tree<P>)
    ensures AddAggregates(g, g.add(g.zero, t.server.pub), t.children[0..]) == Aggregate(g, t)
  {
    assert t.children[0..] == t.children;
  }

  lemma AggregateStep<P>(g: Keys<P>, a: P, ts: seq<Tree<P>>, i: nat)
    requires i < |ts|
    ensures AddAggregates(g, a, ts[i..]) == AddAggregates(g, g.add(a, Aggregate(g, ts[i])), ts[i + 1..])
  {
    assert ts[i..][1..] == ts[i + 1..];
  }

  lemma AggregateEnd<P>(g: Keys<P>, a: P, ts: seq<Tree<P>>)
    ensures AddAggregates(g, a, ts[|ts|..]) == a
  {
  }

  /** The top of a marshalled tree: the roster it belongs to, and the root as the only child. */
  datatype Top = Top(rosterId: nat, children: seq<Marshalled>)

  datatype Made<T> = Made(root: T) | WrongRoster | Panic

  /** `MakeTree`: an error for another roster, and a panic, in computing aggregates, for a tree that the
      roster does not cover or without a root. For a tree placed on a roster of distinct servers it gives
      that tree with correct parent links, and every node holds the aggregate key of its subtree. */
  method MakeTree<P>(g: Keys<P>, tm: Top, rosterId: nat, list: seq<Server<P>>) returns (r: Made<TreeNode<P>>)
    ensures r.WrongRoster? <==> rosterId != tm.rosterId
    ensures r.Made? <==> rosterId == tm.rosterId && tm.children != [] && Covered(tm.children[0], list)
    ensures r.Made? ==>
              var t := Rebuild(tm.children[0], list);
              r.root.Models(t, null) && r.root.Aggregated(g, t)
    ensures forall t: Tree<P> :: tm == Top(rosterId, [Copy(t)]) && Placed(t, list) && DistinctServers(list) ==>
              r.Made? && Rebuild(tm.children[0], list) == t
  {
    if rosterId != tm.rosterId { return WrongRoster; }
    if tm.children == [] { return Panic; }
    var root := MakeTreeFromList(tm.children[0], null, list);
    if root.Some? {
      var a := ComputeSubtreeAggregate(g, root.value, Rebuild(tm.children[0], list), null);
      r := Made(root.value);
    } else {
      r := Panic;
    }
    forall t: Tree<P> | tm == Top(rosterId, [Copy(t)]) && Placed(t, list) && DistinctServers(list)
      ensures Covered(tm.children[0], list) && Rebuild(tm.children[0], list) == t
    {
      RebuildSame(t, list);
    }
  }
}
