/** The balanced N-ary tree over a roster: each node takes the first index of its range and splits
    the rest into N consecutive ranges for its children. */
module NaryTree {
  import opened Basics

  datatype Tree = Node(index: int, children: seq<Tree>)

  // ---------- the split of a range ----------

  /** Where the n-th of N parts of `diff` elements begins. */
  function Cut(diff: nat, N: nat, n: nat): nat
    requires N > 0
  {
    diff * n / N
  }

  lemma CutForm(diff: nat, N: nat, n: nat)
    requires N > 0
    ensures Cut(diff, N, n) == (diff / N) * n + (diff % N) * n / N
  {
    var a, b := diff / N, diff % N;
    assert diff == a * N + b;
    assert diff * n == N * (a * n) + b * n by {
      assert (a * N + b) * n == (a * N) * n + b * n;
      assert (a * N) * n == N * (a * n);
    }
    DivSplit(N, a * n, b * n);
  }

  lemma DivSplit(N: int, k: int, r: int)
    requires N > 0
    ensures (N * k + r) / N == k + r / N
  {
    DivUnique(N, N * k + r, k + r / N, r % N);
  }

  lemma RemainderStep(b: nat, N: nat, n: nat)
    requires b < N
    ensures 0 <= b * (n + 1) / N - b * n / N <= 1
    ensures b == 0 ==> b * (n + 1) / N == b * n / N
  {
    var k, r := b * n / N, b * n % N;
    assert b * n == N * k + r;
    assert b * (n + 1) == N * k + (r + b);
    if r + b < N {
      DivUnique(N, b * (n + 1), k, r + b);
    } else {
      assert N * (k + 1) == N * k + N;
      DivUnique(N, b * (n + 1), k + 1, r + b - N);
    }
  }

  /** Consecutive parts differ in size by at most one, and they fill the range exactly. */
  lemma PartSize(diff: nat, N: nat, n: nat)
    requires N > 0
    ensures diff / N <= Cut(diff, N, n + 1) - Cut(diff, N, n) <= diff / N + (if diff % N == 0 then 0 else 1)
    ensures Cut(diff, N, 0) == 0 && Cut(diff, N, N) == diff
  {
    CutForm(diff, N, n);
    CutForm(diff, N, n + 1);
    RemainderStep(diff % N, N, n);
    assert (diff / N) * (n + 1) == (diff / N) * n + diff / N;
    assert diff * 0 == 0;
    DivUnique(N, diff * N, diff, 0);
  }

  lemma {:induction false} CutMonotone(diff: nat, N: nat, n: nat, m: nat)
    requires N > 0 && n <= m
    ensures Cut(diff, N, n) <= Cut(diff, N, m)
    decreases m - n
  {
    if n < m {
      PartSize(diff, N, n);
      assert diff / N >= 0;
      CutMonotone(diff, N, n + 1, m);
    }
  }

  lemma PartWithin(diff: nat, N: nat, n: nat)
    requires N > 0 && n < N
    ensures 0 <= Cut(diff, N, n) <= Cut(diff, N, n + 1) <= diff
  {
    PartSize(diff, N, n);
    CutMonotone(diff, N, n, n + 1);
    CutMonotone(diff, N, n + 1, N);
  }

  // ---------- the tree ----------

  /** `addNary` on the roster indices start..end: None is the nil of an empty or invalid range. */
  function Build(len: nat, N: int, start: nat, end: int): (t: Option<Tree>)
    ensures t.Some? <==> start <= end < len
    decreases end - start + 1, N + 1
  {
    if start <= end && end < len then
      Some(Node(start, if N <= 0 then [] else Parts(len, N, start, end, N)))
    else None
  }

  /** The children of the first n parts; parts that are empty give no child. */
  function Parts(len: nat, N: nat, start: nat, end: int, n: nat): seq<Tree>
    requires 0 < N && n <= N && start <= end < len
    decreases end - start + 1, n
  {
    if n == 0 then []
    else
      var diff := end - start;
      PartWithin(diff, N, n - 1);
      Parts(len, N, start, end, n - 1) +
      (match Build(len, N, start + Cut(diff, N, n - 1) + 1, start + Cut(diff, N, n))
       case None => []
       case Some(t) => [t])
  }

  /** `addNary` as the source runs it: a loop over the N parts that appends to the children. */
  method AddNary(len: nat, N: int, start: nat, end: int) returns (t: Option<Tree>)
    ensures t == Build(len, N, start, end)
    decreases end - start + 1
  {
    if !(start <= end && end < len) { return None; }
    var children := [];
    var diff := end - start;
    var n := 0;
    while n < N
      invariant 0 <= n && (N > 0 ==> n <= N && children == Parts(len, N, start, end, n))
      invariant N <= 0 ==> children == []
    {
      var s, e := diff * n / N, diff * (n + 1) / N;
      PartWithin(diff, N, n);
      var child := AddNary(len, N, start + s + 1, start + e);
      if child.Some? { children := children + [child.value]; }
      n := n + 1;
    }
    t := Some(Node(start, children));
  }

  // ---------- traversal ----------

  /** `List`: the nodes' roster indices in depth-first order. */
  function List(t: Tree): seq<int>
    decreases t, 1
  {
    [t.index] + Lists(t.children)
  }

  function Lists(ts: seq<Tree>): seq<int>
    decreases ts, 0
  {
    if ts == [] then [] else List(ts[0]) + Lists(ts[1..])
  }

  function Depth(t: Tree): nat
    decreases t, 1
  {
    if t.children == [] then 0 else 1 + MaxDepth(t.children)
  }

  function MaxDepth(ts: seq<Tree>): nat
    decreases ts, 0
  {
    if ts == [] then 0
    else
      var d, m := Depth(ts[0]), MaxDepth(ts[1..]);
      if d > m then d else m
  }

  lemma {:induction false} ListsAppend(ts: seq<Tree>, t: Tree)
    ensures Lists(ts + [t]) == Lists(ts) + List(t)
    decreases |ts|
  {
    if ts == [] {
      assert Lists([t]) == List(t) + Lists([t][1..]);
    } else {
      ListsAppend(ts[1..], t);
      assert (ts + [t])[1..] == ts[1..] + [t];
    }
  }

  lemma {:induction false} MaxDepthAppend(ts: seq<Tree>, t: Tree)
    ensures MaxDepth(ts + [t]) == if Depth(t) > MaxDepth(ts) then Depth(t) else MaxDepth(ts)
    decreases |ts|
  {
    if ts == [] {
      assert [t][1..] == [];
    } else {
      MaxDepthAppend(ts[1..], t);
      assert (ts + [t])[1..] == ts[1..] + [t];
    }
  }

  function Range(lo: int, hi: int): (r: seq<int>)
    requires lo <= hi
    ensures |r| == hi - lo && forall i :: 0 <= i < |r| ==> r[i] == lo + i
  {
    seq(hi - lo, i => lo + i)
  }

  lemma RangeJoin(lo: int, mid: int, hi: int)
    requires lo <= mid <= hi
    ensures Range(lo, mid) + Range(mid, hi) == Range(lo, hi)
  {
  }

  /** For N >= 1 the depth-first list of the tree is the range itself, in order: the i-th node of
      `List` is roster index i, which is how deals are addressed. */
  lemma {:induction false} ListIsRange(len: nat, N: nat, start: nat, end: nat)
    requires N > 0 && start <= end < len
    ensures List(Build(len, N, start, end).value) == Range(start, end + 1)
    decreases end - start + 1, N + 1
  {
    PartsAreRange(len, N, start, end, N);
    PartSize(end - start, N, 0);
    RangeJoin(start, start + 1, end + 1);
    assert Range(start, start + 1) == [start];
  }

  lemma PartsStep(len: nat, N: nat, start: nat, end: nat, n: nat)
    requires 0 < n <= N && start <= end < len
    ensures var lo, hi := start + Cut(end - start, N, n - 1) + 1, start + Cut(end - start, N, n);
            && start < lo <= hi + 1 <= end + 1
            && Parts(len, N, start, end, n) ==
               Parts(len, N, start, end, n - 1) + if lo <= hi then [Build(len, N, lo, hi).value] else []
  {
    PartWithin(end - start, N, n - 1);
  }

  lemma {:induction false} PartsAreRange(len: nat, N: nat, start: nat, end: nat, n: nat)
    requires N > 0 && n <= N && start <= end < len
    ensures Lists(Parts(len, N, start, end, n)) == Range(start + 1, start + 1 + Cut(end - start, N, n))
    decreases end - start + 1, n
  {
    hide Lists, List, Cut, Parts, Build, Range;
    var diff := end - start;
    if n == 0 {
      NoParts(len, N, start, end);
    } else {
      PartsStep(len, N, start, end, n);
      PartsAreRange(len, N, start, end, n - 1);
      var lo, hi := start + Cut(diff, N, n - 1) + 1, start + Cut(diff, N, n);
      var before := Parts(len, N, start, end, n - 1);
      if lo <= hi {
        ListIsRange(len, N, lo, hi);
        ListsAppend(before, Build(len, N, lo, hi).value);
        RangeJoin(start + 1, lo, hi + 1);
      } else {
        assert before + [] == before;
      }
    }
  }

  lemma NoParts(len: nat, N: nat, start: nat, end: nat)
    requires N > 0 && start <= end < len
    ensures Cut(end - start, N, 0) == 0 && Parts(len, N, start, end, 0) == []
    ensures Lists(Parts(len, N, start, end, 0)) == Range(start + 1, start + 1) && MaxDepth(Parts(len, N, start, end, 0)) == 0
  {
    PartSize(end - start, N, 0);
  }

  /** The first n parts of a node's range have together as many nodes as the rounded-down share n / N of
      the range without the node itself; so part n has the nodes from one such share to the next. */
  lemma PartNodesExactly(len: nat, N: nat, start: nat, end: nat, n: nat)
    requires N > 0 && n <= N && start <= end < len
    ensures |Lists(Parts(len, N, start, end, n))| == (end - start) * n / N
    ensures n < N ==>
              |Lists(Parts(len, N, start, end, n + 1))| - |Lists(Parts(len, N, start, end, n))| ==
              (end - start) * (n + 1) / N - (end - start) * n / N
  {
    PartsAreRange(len, N, start, end, n);
    if n < N { PartsAreRange(len, N, start, end, n + 1); }
  }

  /** With no children allowed, the tree is a single node. */
  lemma NoBranching(len: nat, N: int, start: nat, end: int)
    requires N <= 0 && start <= end < len
    ensures Build(len, N, start, end) == Some(Node(start, []))
  {
  }

  /** No node has more than N children. */
  predicate Branching(t: Tree, N: int) {
    |t.children| <= N && forall c :: c in t.children ==> Branching(c, N)
  }

  lemma {:induction false} BuildBranching(len: nat, N: nat, start: nat, end: nat)
    requires N > 0 && start <= end < len
    ensures Branching(Build(len, N, start, end).value, N)
    decreases end - start + 1, N + 1
  {
    PartsBranching(len, N, start, end, N);
  }

  lemma {:induction false} PartsBranching(len: nat, N: nat, start: nat, end: nat, n: nat)
    requires N > 0 && n <= N && start <= end < len
    ensures |Parts(len, N, start, end, n)| <= n
    ensures forall c :: c in Parts(len, N, start, end, n) ==> Branching(c, N)
    decreases end - start + 1, n
  {
    if n > 0 {
      var diff := end - start;
      PartWithin(diff, N, n - 1);
      PartsBranching(len, N, start, end, n - 1);
      var lo, hi := start + Cut(diff, N, n - 1) + 1, start + Cut(diff, N, n);
      if lo <= hi { BuildBranching(len, N, lo, hi); }
    }
  }

  /** 1 + N + ... + N^d, the nodes of a full N-ary tree of depth d. */
  function Full(N: nat, d: nat): (r: nat)
    ensures r >= 1
  {
    if d == 0 then 1 else 1 + N * Full(N, d - 1)
  }

  /** No more nodes than a full tree of depth d means depth at most d. */
  lemma {:induction false} DepthBound(len: nat, N: nat, start: nat, end: nat, d: nat)
    requires N > 0 && start <= end < len && end - start + 1 <= Full(N, d)
    ensures Depth(Build(len, N, start, end).value) <= d
    decreases end - start + 1, N + 1
  {
    PartsDepth(len, N, start, end, N, d);
  }

  lemma {:induction false} PartsDepth(len: nat, N: nat, start: nat, end: nat, n: nat, d: nat)
    requires N > 0 && n <= N && start <= end < len && end - start + 1 <= Full(N, d)
    ensures d == 0 ==> Parts(len, N, start, end, n) == []
    ensures d > 0 ==> MaxDepth(Parts(len, N, start, end, n)) <= d - 1
    decreases end - start + 1, n
  {
    hide Cut, Parts, Build, Depth, MaxDepth, Full;
    NoParts(len, N, start, end);
    if n > 0 {
      var diff := end - start;
      PartsStep(len, N, start, end, n);
      PartNodes(diff, N, n - 1, d);
      PartsDepth(len, N, start, end, n - 1, d);
      var lo, hi := start + Cut(diff, N, n - 1) + 1, start + Cut(diff, N, n);
      var before := Parts(len, N, start, end, n - 1);
      if lo <= hi {
        if d > 0 {
          DepthBound(len, N, lo, hi, d - 1);
          MaxDepthAppend(before, Build(len, N, lo, hi).value);
        }
      } else {
        assert before + [] == before;
      }
    }
  }

  /** A part of a tree no larger than a full one of depth d fits depth d - 1. */
  lemma PartNodes(diff: nat, N: nat, n: nat, d: nat)
    requires N > 0 && n < N && diff + 1 <= Full(N, d)
    ensures d == 0 ==> Cut(diff, N, n + 1) == Cut(diff, N, n)
    ensures d > 0 ==> Cut(diff, N, n + 1) - Cut(diff, N, n) <= Full(N, d - 1)
  {
    hide Cut;
    PartSize(diff, N, n);
    PartFits(diff, N, if d == 0 then 0 else Full(N, d - 1));
    if d == 0 { PartWithin(diff, N, n); }
  }

  lemma PartFits(diff: nat, N: nat, f: nat)
    requires N > 0 && diff <= N * f
    ensures diff / N + (if diff % N == 0 then 0 else 1) <= f
  {
    var k, r := diff / N, diff % N;
    assert diff == N * k + r;
    assert k > f ==> N * k >= N * (f + 1);
    assert k == f ==> N * k == N * f;
  }

  /** The root of `GenerateNaryTree` has all of the roster below it: everything at once. */
  lemma GenerateNaryTree(len: nat, N: nat, d: nat)
    requires N > 0 && len > 0
    ensures var t := Build(len, N, 0, len - 1);
            && t.Some?
            && List(t.value) == Range(0, len)
            && Branching(t.value, N)
            && (len <= Full(N, d) ==> Depth(t.value) <= d)
  {
    ListIsRange(len, N, 0, len - 1);
    BuildBranching(len, N, 0, len - 1);
    if len <= Full(N, d) { DepthBound(len, N, 0, len - 1, d); }
  }

  // ---------- a chosen root ----------

  /** `GenerateNaryTreeWithRoot`: the roster with the root moved to the front, or None if the root
      is not in it. */
  method RosterWithRoot<T(==)>(list: seq<T>, root: T) returns (r: Option<seq<T>>)
    ensures r.None? <==> root !in list
    ensures r.Some? ==> |r.value| == |list| && r.value[0] == root && multiset(r.value) == multiset(list)
    ensures r.Some? ==> exists i :: MovedToFront(list, root, i, r.value)
  {
    var i := 0;
    while i < |list| && list[i] != root
      invariant i <= |list| && root !in list[..i]
    {
      i := i + 1;
    }
    if i == |list| {
      assert list[..i] == list;
      return None;
    }
    assert list == list[..i] + [list[i]] + list[i + 1..];
    r := Some([list[i]] + list[..i] + list[i + 1..]);
    assert MovedToFront(list, root, i, r.value);
  }

  /** The first place of the root is i, and the others keep their order. */
  predicate MovedToFront<T(==)>(list: seq<T>, root: T, i: nat, r: seq<T>) {
    i < |list| && list[i] == root && root !in list[..i] && r == [root] + list[..i] + list[i + 1..]
  }
}
