/** `GenerateBigNaryTree`: a tree with a given number of nodes over a roster, level by level, each
    child placed on another host than its parent where possible. */
module BigNaryTree {
  import opened Basics
  import opened NaryTree

  // ---------- the search for a host ----------

  /** Steps from `first` to `j` going round a list of n. */
  function Steps(n: nat, first: nat, j: nat): nat
    requires first < n && j < n
  {
    if j >= first then j - first else n - first + j
  }

  function Next(n: nat, i: nat): (r: nat)
    requires i < n
    ensures r == if i + 1 == n then 0 else i + 1
  {
    DivUnique(n, i + 1, if i + 1 == n then 1 else 0, if i + 1 == n then 0 else i + 1);
    (i + 1) % n
  }

  predicate Eligible(useAll: bool, used: seq<bool>, j: nat)
    requires j < |used|
  {
    !useAll || !used[j]
  }

  /** An eligible server on another host than the parent's. */
  predicate Good<H(==)>(hosts: seq<H>, used: seq<bool>, useAll: bool, parentHost: H, j: nat)
    requires j < |hosts| == |used|
  {
    Eligible(useAll, used, j) && hosts[j] != parentHost
  }

  ghost predicate NoneGoodBefore<H>(hosts: seq<H>, used: seq<bool>, useAll: bool, parentHost: H,
                                        first: nat, s: nat)
    requires first < |hosts| == |used|
  {
    forall j :: 0 <= j < |hosts| && Steps(|hosts|, first, j) < s ==> !Good(hosts, used, useAll, parentHost, j)
  }

  ghost predicate NoneEligibleBefore(used: seq<bool>, useAll: bool, first: nat, s: nat)
    requires first < |used|
  {
    forall j :: 0 <= j < |used| && Steps(|used|, first, j) < s ==> !Eligible(useAll, used, j)
  }

  lemma StepsNext(n: nat, first: nat, i: nat)
    requires first < n && i < n
    ensures Next(n, i) < n
    ensures Steps(n, first, Next(n, i)) == if Steps(n, first, i) + 1 == n then 0 else Steps(n, first, i) + 1
    ensures Next(n, i) == first <==> Steps(n, first, i) + 1 == n
  {
  }

  lemma StepsStart(n: nat, first: nat, e: nat)
    requires first < n && e < n
    ensures Steps(n, first, first) == 0 && Steps(n, first, e) < n
  {
  }

  lemma NoneAtStart<H>(hosts: seq<H>, used: seq<bool>, useAll: bool, parentHost: H, first: nat)
    requires first < |hosts| == |used|
    ensures NoneGoodBefore(hosts, used, useAll, parentHost, first, 0) && NoneEligibleBefore(used, useAll, first, 0)
  {
  }

  lemma NoneGoodAtAll<H>(hosts: seq<H>, used: seq<bool>, useAll: bool, parentHost: H, first: nat, k: nat)
    requires first < |hosts| == |used| && k < |hosts|
    requires NoneGoodBefore(hosts, used, useAll, parentHost, first, |hosts|)
    ensures !Good(hosts, used, useAll, parentHost, k)
  {
    StepsStart(|hosts|, first, k);
  }

  lemma EligibleAhead(used: seq<bool>, useAll: bool, first: nat, s: nat, e: nat)
    requires first < |used| && e < |used| && Eligible(useAll, used, e)
    requires NoneEligibleBefore(used, useAll, first, s)
    ensures s < |used|
  {
    StepsStart(|used|, first, e);
  }

  lemma NoneGoodNext<H>(hosts: seq<H>, used: seq<bool>, useAll: bool, parentHost: H, first: nat, i: nat)
    requires first < |hosts| == |used| && i < |hosts| && !Good(hosts, used, useAll, parentHost, i)
    requires NoneGoodBefore(hosts, used, useAll, parentHost, first, Steps(|hosts|, first, i))
    ensures NoneGoodBefore(hosts, used, useAll, parentHost, first, Steps(|hosts|, first, i) + 1)
  {
  }

  lemma NoneEligibleNext(used: seq<bool>, useAll: bool, first: nat, i: nat)
    requires first < |used| && i < |used| && !Eligible(useAll, used, i)
    requires NoneEligibleBefore(used, useAll, first, Steps(|used|, first, i))
    ensures NoneEligibleBefore(used, useAll, first, Steps(|used|, first, i) + 1)
  {
  }

  /** Server k is the nearest good one from `first` on; or, if there is none, the nearest eligible one. */
  ghost predicate Nearest<H>(hosts: seq<H>, used: seq<bool>, useAll: bool, parentHost: H, first: nat, k: nat)
    requires first < |hosts| == |used|
  {
    && k < |hosts| && Eligible(useAll, used, k)
    && (hosts[k] != parentHost ==> NoneGoodBefore(hosts, used, useAll, parentHost, first, Steps(|hosts|, first, k)))
    && (hosts[k] == parentHost ==>
          && NoneGoodBefore(hosts, used, useAll, parentHost, first, |hosts|)
          && NoneEligibleBefore(used, useAll, first, Steps(|hosts|, first, k)))
  }

  /** There is only one such server. */
  lemma NearestUnique<H>(hosts: seq<H>, used: seq<bool>, useAll: bool, parentHost: H, first: nat, j: nat, k: nat)
    requires first < |hosts| == |used|
    requires Nearest(hosts, used, useAll, parentHost, first, j) && Nearest(hosts, used, useAll, parentHost, first, k)
    ensures j == k
  {
    StepsStart(|hosts|, first, j);
    StepsStart(|hosts|, first, k);
    assert Good(hosts, used, useAll, parentHost, j) <==> hosts[j] != parentHost;
    assert Good(hosts, used, useAll, parentHost, k) <==> hosts[k] != parentHost;
  }

  /** The circular search. It terminates on the nearest good server; if there is none, on the
      nearest eligible one. */
  method FindHost<H(==)>(hosts: seq<H>, used: seq<bool>, useAll: bool, parentHost: H, first: nat)
    returns (k: nat)
    requires first < |hosts| == |used|
    requires exists j :: 0 <= j < |used| && Eligible(useAll, used, j)
    ensures k < |hosts| && Nearest(hosts, used, useAll, parentHost, first, k)
  {
    var n := |hosts|;
    var elIndex := first;
    var childHost := hosts[elIndex];
    var notSameHost := true;
    ghost var s := 0;
    ghost var e :| 0 <= e < |used| && Eligible(useAll, used, e);
    StepsStart(n, first, e);
    NoneAtStart(hosts, used, useAll, parentHost, first);
    hide Steps, NoneGoodBefore, NoneEligibleBefore;
    while (notSameHost && childHost == parentHost && n > 1) || (useAll && used[elIndex])
      invariant 0 <= elIndex < n && s < 2 * n
      invariant Steps(n, first, elIndex) == if s < n then s else s - n
      invariant notSameHost <==> s < n
      invariant s < n ==> NoneGoodBefore(hosts, used, useAll, parentHost, first, s)
      invariant s == 0 || Eligible(useAll, used, elIndex) ==> childHost == hosts[elIndex]
      invariant s >= n ==> NoneGoodBefore(hosts, used, useAll, parentHost, first, n)
      invariant s >= n ==> useAll && used[first] && NoneEligibleBefore(used, useAll, first, s - n)
      decreases 2 * n - s
    {
      if s < n {
        NoneGoodNext(hosts, used, useAll, parentHost, first, elIndex);
      } else {
        NoneEligibleNext(used, useAll, first, elIndex);
        EligibleAhead(used, useAll, first, s + 1 - n, e);
      }
      StepsNext(n, first, elIndex);
      elIndex := Next(n, elIndex);
      s := s + 1;
      if useAll && used[elIndex] {
        if elIndex == first {
          notSameHost := false;
        }
        continue;
      }
      if elIndex == first {
        break;
      }
      childHost := hosts[elIndex];
    }
    k := elIndex;
    if s >= n {
      NoneGoodAtAll(hosts, used, useAll, parentHost, first, k);
    } else if hosts[k] == parentHost {
      NoneGoodNext(hosts, used, useAll, parentHost, first, k);
    }
  }

  // ---------- how many children each parent gets ----------

  /** The quota of the i-th of L parents when R nodes are still missing. */
  function Quota(R: nat, i: nat, L: nat, N: nat): (r: nat)
    requires i < L
    ensures r <= N
  {
    var c := R * (i + 1) / L;
    if c > N then N else c
  }

  /** The nodes that k parents with N children each have below them. */
  function Filled(N: nat, k: nat): nat {
    N * k
  }

  /** Enough nodes missing to fill the level: every parent gets N children. */
  lemma QuotaFull(R: nat, i: nat, L: nat, N: nat)
    requires i < L && R >= Filled(N, L - i)
    ensures Quota(R, i, L, N) == N
  {
    PlacesTimesTurns(L, i);
    Grows(N * (L - i), R, i + 1);
    Regroup(N, L - i, i + 1);
    Grows(L, (L - i) * (i + 1), N);
    Swap(N, (L - i) * (i + 1));
    QuotientAtLeast(R * (i + 1), L, N);
  }

  lemma PlacesTimesTurns(L: nat, i: nat)
    requires i < L
    ensures (L - i) * (i + 1) >= L
  {
    var m := L - 1 - i;
    Distribute(m + 1, i, 1);
    Swap(m + 1, i);
    Distribute(i, m, 1);
  }

  lemma Grows(a: nat, b: nat, c: nat)
    requires a <= b
    ensures a * c <= b * c
  {
  }

  lemma Swap(a: int, b: int)
    ensures a * b == b * a
  {
  }

  lemma Regroup(a: int, b: int, c: int)
    ensures (a * b) * c == a * (b * c)
  {
  }

  lemma QuotientAtLeast(x: nat, L: nat, N: nat)
    requires L > 0 && x >= L * N
    ensures x / L >= N
  {
    assert x == L * (x / L) + x % L;
    var c := x / L;
    assert c < N ==> L * (c + 1) <= L * N;
  }

  /** Too few nodes missing: what remains always fits the parents that are left, so that the last
      parent takes all of it. */
  lemma QuotaRest(R: nat, i: nat, L: nat, N: nat)
    requires i < L && R <= Filled(N, L - i)
    ensures Quota(R, i, L, N) <= R
    ensures R - Quota(R, i, L, N) <= Filled(N, L - i - 1)
  {
    hide Quota;
    var x, m := R * (i + 1), L - i - 1;
    var c, rem := QuotaValue(R, i, L, N);
    Distribute(N, m, 1);
    if c <= N { RestFits(R, L, N, m, i, c, rem); }
  }

  lemma QuotaValue(R: nat, i: nat, L: nat, N: nat) returns (c: nat, rem: nat)
    requires i < L
    ensures R * (i + 1) == L * c + rem && rem < L && c <= R
    ensures Quota(R, i, L, N) == if c > N then N else c
  {
    var x := R * (i + 1);
    c, rem := x / L, x % L;
    Grows(i + 1, L, R);
    Swap(i + 1, R);
    QuotientAtMost(x, L, R);
    DivRem(x, L);
  }

  lemma DivRem(x: nat, L: nat)
    requires L > 0
    ensures x == L * (x / L) + x % L && x % L < L
  {
  }

  lemma QuotientAtMost(x: nat, L: nat, R: nat)
    requires L > 0 && x <= L * R
    ensures x / L <= R
  {
    var c := x / L;
    assert x == L * c + x % L;
    assert c > R ==> L * c >= L * (R + 1);
  }

  lemma RestFits(R: nat, L: nat, N: nat, m: nat, i: nat, c: nat, rem: nat)
    requires i < L && m == L - i - 1 && c <= R && R <= N * (L - i)
    requires R * (i + 1) == L * c + rem && rem < L
    ensures R - c <= N * m
  {
    assert L * R == R * (i + 1) + R * m by {
      Distribute(R, i + 1, m);
      Swap(L, R);
    }
    assert L * (R - c) == R * m + rem by { Distribute(L, R - c, c); }
    assert R * m <= L * (N * m) by {
      Distribute(N, L - i, i);
      Grows(R, N * L, m);
      Swap(N, L);
      Regroup(L, N, m);
    }
    AtMost(L, R - c, N * m);
  }

  lemma AtMost(L: nat, a: nat, b: nat)
    requires L > 0 && L * a < L * b + L
    ensures a <= b
  {
    assert a > b ==> L * a >= L * (b + 1);
  }

  // ---------- the tree under construction ----------

  /** Nodes by order of creation: their server in the roster, their parent and their children. */
  datatype Arena = Arena(roster: seq<nat>, parent: seq<int>, kids: seq<seq<nat>>)

  predicate IsKid(a: Arena, p: nat, c: nat) {
    p < |a.kids| && c in a.kids[p]
  }

  /** Parents come first, and parent and child links agree. */
  ghost predicate Linked(a: Arena) {
    && |a.roster| == |a.parent| == |a.kids| && |a.roster| >= 1
    && a.parent[0] == -1
    && (forall c :: 1 <= c < |a.parent| ==> 0 <= a.parent[c] < c && IsKid(a, a.parent[c], c))
    && (forall p: nat, c: nat :: IsKid(a, p, c) ==> 1 <= c < |a.parent| && a.parent[c] == p)
  }

  /** A new node for server r under parent p. */
  function Attach(a: Arena, p: nat, r: nat): Arena
    requires p < |a.kids|
  {
    Arena(a.roster + [r], a.parent + [p], a.kids[p := a.kids[p] + [|a.roster|]] + [[]])
  }

  lemma AttachLinked(a: Arena, p: nat, r: nat)
    requires Linked(a) && p < |a.kids|
    ensures Linked(Attach(a, p, r))
  {
    var b := Attach(a, p, r);
    var n := |a.roster|;
    forall c | 1 <= c < |b.parent| ensures 0 <= b.parent[c] < c && IsKid(b, b.parent[c], c) {
      if c == n {
        assert b.kids[p] == a.kids[p] + [n];
      } else {
        var q := a.parent[c];
        assert b.kids[q] == if q == p then a.kids[q] + [n] else a.kids[q];
      }
    }
    forall q: nat, c: nat | IsKid(b, q, c) ensures 1 <= c < |b.parent| && b.parent[c] == q {
      assert b.kids[n] == [];
      if q < n {
        assert b.kids[q] == if q == p then a.kids[q] + [n] else a.kids[q];
        if c in a.kids[q] { assert IsKid(a, q, c); }
      }
    }
  }

  /** `used` marks the servers of the nodes; in use-all mode no server has two nodes. */
  ghost predicate Marked(a: Arena, used: seq<bool>, useAll: bool) {
    && (forall c :: 0 <= c < |a.roster| ==> a.roster[c] < |used| && used[a.roster[c]])
    && (forall j :: 0 <= j < |used| && used[j] ==> j in a.roster)
    && (useAll ==> CountTrue(used) == |a.roster|)
    && (useAll ==> forall c, d :: 0 <= c < d < |a.roster| ==> a.roster[c] != a.roster[d])
  }

  lemma AttachMarked(a: Arena, used: seq<bool>, useAll: bool, p: nat, r: nat)
    requires Marked(a, used, useAll) && p < |a.kids| && r < |used| && Eligible(useAll, used, r)
    ensures Marked(Attach(a, p, r), used[r := true], useAll)
  {
    var b, used' := Attach(a, p, r), used[r := true];
    if useAll { CountTrueSet(used, r, true); }
    forall j | 0 <= j < |used'| && used'[j] ensures j in b.roster {
      if j == r {
        assert b.roster[|a.roster|] == r;
      } else {
        var c :| 0 <= c < |a.roster| && a.roster[c] == j;
        assert b.roster[c] == j;
      }
    }
  }

  lemma UnusedExists(a: Arena, used: seq<bool>, useAll: bool)
    requires Marked(a, used, useAll) && used != [] && (useAll ==> |a.roster| < |used|)
    ensures exists j :: 0 <= j < |used| && Eligible(useAll, used, j)
  {
    if useAll {
      CountTrueBound(used);
      var j :| 0 <= j < |used| && !used[j];
      assert Eligible(useAll, used, j);
    } else {
      assert Eligible(useAll, used, 0);
    }
  }

  /** The host rule for node c: it shares its parent's host only if every eligible server is on
      that host; in use-all mode these are the servers that no earlier node has. */
  ghost predicate HostRule<H>(a: Arena, hosts: seq<H>, useAll: bool, c: nat)
    requires 1 <= c < |a.roster| == |a.parent|
  {
    && 0 <= a.parent[c] < c
    && a.roster[c] < |hosts| && a.roster[a.parent[c]] < |hosts|
    && (hosts[a.roster[c]] == hosts[a.roster[a.parent[c]]] ==>
          forall j :: 0 <= j < |hosts| && (!useAll || j !in a.roster[..c]) ==>
            hosts[j] == hosts[a.roster[a.parent[c]]])
  }

  ghost predicate HostRules<H>(a: Arena, hosts: seq<H>, useAll: bool) {
    |a.roster| == |a.parent| && forall c :: 1 <= c < |a.roster| ==> HostRule(a, hosts, useAll, c)
  }

  lemma AttachHostRules<H>(a: Arena, hosts: seq<H>, used: seq<bool>, useAll: bool, p: nat, r: nat, first: nat)
    requires Linked(a) && Marked(a, used, useAll) && HostRules(a, hosts, useAll)
    requires p < |a.kids| && r < |hosts| == |used| && first < |hosts|
    requires hosts[r] == hosts[a.roster[p]] ==>
               NoneGoodBefore(hosts, used, useAll, hosts[a.roster[p]], first, |hosts|)
    ensures HostRules(Attach(a, p, r), hosts, useAll)
  {
    var b, n := Attach(a, p, r), |a.roster|;
    forall c | 1 <= c < |b.roster| ensures HostRule(b, hosts, useAll, c) {
      if c < n {
        assert HostRule(a, hosts, useAll, c);
        assert b.roster[..c] == a.roster[..c];
      } else {
        assert b.roster[..n] == a.roster;
        if hosts[r] == hosts[a.roster[p]] {
          forall j | 0 <= j < |hosts| && (!useAll || j !in a.roster) ensures hosts[j] == hosts[a.roster[p]] {
            assert Steps(|hosts|, first, j) < |hosts|;
            assert !Good(hosts, used, useAll, hosts[a.roster[p]], j);
          }
        }
      }
    }
  }

  /** The servers among n that the nodes of a roster sequence sit on. */
  function UsedBy(roster: seq<nat>, n: nat): (r: seq<bool>)
    ensures |r| == n && forall j :: 0 <= j < n ==> (r[j] <==> j in roster)
  {
    seq(n, j => j in roster)
  }

  /** Node c sits on the server that a search finds which starts behind the server of the node created
      before it, with the servers of all nodes before it in use. */
  ghost predicate Searched<H>(a: Arena, hosts: seq<H>, useAll: bool, c: nat)
    requires 1 <= c < |a.roster| == |a.parent| && |hosts| > 0
  {
    && 0 <= a.parent[c] < c && a.roster[c] < |hosts| && a.roster[a.parent[c]] < |hosts|
    && Nearest(hosts, UsedBy(a.roster[..c], |hosts|), useAll, hosts[a.roster[a.parent[c]]],
               (a.roster[c - 1] + 1) % |hosts|, a.roster[c])
  }

  /** The root sits on server 0, and all others are searched for. */
  ghost predicate AllSearched<H>(a: Arena, hosts: seq<H>, useAll: bool) {
    && |a.roster| == |a.parent| >= 1 && |hosts| > 0
    && a.roster[0] == 0
    && forall c :: 1 <= c < |a.roster| ==> Searched(a, hosts, useAll, c)
  }

  /** Where the next search starts. */
  ghost predicate StartsBehind(a: Arena, n: nat, elIndex: nat) {
    n > 0 && a.roster != [] && elIndex == (a.roster[|a.roster| - 1] + 1) % n
  }

  lemma UsedIs(a: Arena, used: seq<bool>, useAll: bool)
    requires Marked(a, used, useAll)
    ensures used == UsedBy(a.roster, |used|)
    ensures forall c :: 0 <= c < |a.roster| ==> a.roster[c] < |used|
  {
  }

  lemma AttachSearched<H>(a: Arena, hosts: seq<H>, used: seq<bool>, useAll: bool, p: nat, r: nat, first: nat)
    requires Linked(a) && Marked(a, used, useAll) && AllSearched(a, hosts, useAll)
    requires p < |a.kids| && |hosts| == |used| && first < |hosts| && StartsBehind(a, |hosts|, first)
    requires Nearest(hosts, used, useAll, hosts[a.roster[p]], first, r)
    ensures AllSearched(Attach(a, p, r), hosts, useAll)
  {
    hide Nearest, Linked, Marked;
    AttachForm(a, p, r);
    UsedIs(a, used, useAll);
    var b, n := Attach(a, p, r), |a.roster|;
    forall c | 1 <= c < |b.roster| ensures Searched(b, hosts, useAll, c) {
      if c < n {
        assert Searched(a, hosts, useAll, c);
        assert b.roster[..c] == a.roster[..c];
      } else {
        NearestServer(hosts, used, useAll, hosts[a.roster[p]], first, r);
        assert b.roster[..n] == a.roster;
      }
    }
  }

  lemma AttachForm(a: Arena, p: nat, r: nat)
    requires Linked(a) && p < |a.kids|
    ensures |a.roster| == |a.parent| == |a.kids| && |a.roster| >= 1
    ensures Attach(a, p, r).roster == a.roster + [r] && Attach(a, p, r).parent == a.parent + [p]
  {
  }

  lemma NearestServer<H>(hosts: seq<H>, used: seq<bool>, useAll: bool, parentHost: H, first: nat, k: nat)
    requires first < |hosts| == |used| && Nearest(hosts, used, useAll, parentHost, first, k)
    ensures k < |hosts|
  {
  }

  // ---------- levels ----------

  /** The number of nodes above level l in a tree with full levels. */
  function Above(N: nat, l: nat): nat {
    if l == 0 then 0 else Full(N, l - 1)
  }

  lemma NextLevel(N: nat, l: nat)
    ensures Above(N, l + 2) == Above(N, l + 1) + N * (Above(N, l + 1) - Above(N, l))
    ensures Above(N, l) < Above(N, l + 1) || N == 0
  {
    if l > 0 {
      assert Full(N, l + 1) - Full(N, l) == N * (Full(N, l) - Full(N, l - 1));
      LevelGrows(N, l - 1);
    }
  }

  lemma {:induction false} LevelGrows(N: nat, l: nat)
    ensures N > 0 ==> Full(N, l) < Full(N, l + 1)
    decreases l
  {
    if l > 0 && N > 0 {
      LevelGrows(N, l - 1);
      assert N * Full(N, l - 1) < N * Full(N, l);
    } else {
      assert Full(N, 1) == 1 + N * Full(N, 0);
    }
  }

  /** Nodes of level l have their parents in level l - 1. */
  ghost predicate Levelled(N: nat, parent: seq<int>) {
    forall c, l {:trigger Above(N, l + 1), parent[c]} ::
      1 <= c < |parent| && 0 <= l && Above(N, l) <= c < Above(N, l + 1) ==>
        l >= 1 && Above(N, l - 1) <= parent[c] < Above(N, l)
  }

  ghost predicate Branches(a: Arena, N: nat) {
    forall p :: 0 <= p < |a.kids| ==> |a.kids[p]| <= N
  }

  // ---------- the generator ----------

  /** Nodes are created parent by parent. */
  ghost predicate Rising(parent: seq<int>) {
    forall c, d :: 0 <= c < d < |parent| ==> parent[c] <= parent[d]
  }

  /** Children are listed in the order in which they were created. */
  ghost predicate KidsRise(a: Arena) {
    forall p, i, j :: 0 <= p < |a.kids| && 0 <= i < j < |a.kids[p]| ==> a.kids[p][i] < a.kids[p][j]
  }

  lemma AttachRises(a: Arena, p: nat, r: nat)
    requires Linked(a) && KidsRise(a) && p < |a.kids|
    ensures KidsRise(Attach(a, p, r))
  {
    var b, n := Attach(a, p, r), |a.roster|;
    assert b.kids[n] == [];
    forall q, i, j | 0 <= q < |b.kids| && 0 <= i < j < |b.kids[q]| ensures b.kids[q][i] < b.kids[q][j] {
      if q < n && j == |a.kids[q]| { assert IsKid(a, q, a.kids[q][i]); }
    }
  }

  ghost predicate Sound<H>(a: Arena, hosts: seq<H>, used: seq<bool>, useAll: bool) {
    && Linked(a) && Marked(a, used, useAll) && HostRules(a, hosts, useAll) && AllSearched(a, hosts, useAll)
    && Rising(a.parent) && KidsRise(a)
    && |used| == |hosts| && |hosts| > 0
    && |a.roster| == |a.parent| == |a.kids|
  }

  /** The tree b extends a by nodes whose parents are in lo..hi. */
  ghost predicate Extends(a: Arena, b: Arena, lo: nat, hi: nat) {
    && |a.parent| <= |b.parent|
    && (forall c :: 0 <= c < |a.parent| ==> b.parent[c] == a.parent[c])
    && (forall c :: |a.parent| <= c < |b.parent| ==> lo <= b.parent[c] < hi)
  }

  function Least(a: int, b: int): int {
    if a < b then a else b
  }

  /** The children of the first i nodes from lo on. */
  ghost function Born(a: Arena, lo: nat, i: nat): nat
    requires lo + i <= |a.kids|
  {
    if i == 0 then 0 else Born(a, lo, i - 1) + |a.kids[lo + i - 1]|
  }

  lemma BornNone(a: Arena, lo: nat)
    requires lo <= |a.kids|
    ensures Born(a, lo, 0) == 0
  {
  }

  lemma {:induction false} BornSame(a: Arena, b: Arena, lo: nat, i: nat)
    requires lo + i <= |a.kids| && lo + i <= |b.kids|
    requires forall q :: lo <= q < lo + i ==> a.kids[q] == b.kids[q]
    ensures Born(a, lo, i) == Born(b, lo, i)
    decreases i
  {
    if i > 0 { BornSame(a, b, lo, i - 1); }
  }

  lemma AttachSound<H>(a: Arena, hosts: seq<H>, used: seq<bool>, useAll: bool, p: nat, r: nat, first: nat)
    requires Sound(a, hosts, used, useAll) && p < |a.kids| && a.parent[|a.parent| - 1] <= p
    requires first < |hosts| && StartsBehind(a, |hosts|, first) && r < |hosts| && a.roster[p] < |hosts|
    requires Nearest(hosts, used, useAll, hosts[a.roster[p]], first, r)
    ensures Sound(Attach(a, p, r), hosts, used[r := true], useAll)
  {
    hide Linked, Marked, HostRules, AllSearched, KidsRise;
    AttachLinked(a, p, r);
    AttachRises(a, p, r);
    AttachMarked(a, used, useAll, p, r);
    AttachHostRules(a, hosts, used, useAll, p, r, first);
    AttachSearched(a, hosts, used, useAll, p, r, first);
  }

  lemma AttachKids(a: Arena, p: nat, r: nat)
    requires |a.roster| == |a.parent| == |a.kids| && p < |a.kids|
    ensures var b := Attach(a, p, r);
            && b.roster == a.roster + [r] && b.parent == a.parent + [p]
            && |b.kids| == |a.kids| + 1 && |b.kids[p]| == |a.kids[p]| + 1
            && forall q :: 0 <= q < |b.kids| && q != p ==> b.kids[q] == if q < |a.kids| then a.kids[q] else []
  {
  }

  /** The children loop of one parent. */
  method AddChildren<H(==)>(hosts: seq<H>, useAll: bool, a0: Arena, used0: seq<bool>, elIndex0: nat, p: nat, children: nat)
    returns (a: Arena, used: seq<bool>, elIndex: nat)
    requires Sound(a0, hosts, used0, useAll) && elIndex0 < |hosts| && p < |a0.kids| && a0.kids[p] == []
    requires StartsBehind(a0, |hosts|, elIndex0) && a0.parent[|a0.parent| - 1] <= p
    requires useAll ==> |a0.roster| + children <= |hosts|
    ensures Sound(a, hosts, used, useAll) && elIndex < |hosts| && StartsBehind(a, |hosts|, elIndex)
    ensures a.parent[|a.parent| - 1] <= p
    ensures |a.roster| == |a0.roster| + children && Extends(a0, a, p, p + 1)
    ensures |a.kids[p]| == children
    ensures forall q :: 0 <= q < |a.kids| && q != p ==> a.kids[q] == if q < |a0.kids| then a0.kids[q] else []
  {
    hide Linked, Marked, HostRules, AllSearched, Rising, KidsRise, Attach, Nearest, CountTrue;
    a, used, elIndex := a0, used0, elIndex0;
    for n := 0 to children
      invariant Sound(a, hosts, used, useAll) && elIndex < |hosts| && StartsBehind(a, |hosts|, elIndex)
      invariant a.parent[|a.parent| - 1] <= p
      invariant |a.roster| == |a0.roster| + n && Extends(a0, a, p, p + 1)
      invariant |a.kids[p]| == n
      invariant forall q :: 0 <= q < |a.kids| && q != p ==> a.kids[q] == if q < |a0.kids| then a0.kids[q] else []
    {
      UnusedExists(a, used, useAll);
      UsedIs(a, used, useAll);
      var parentHost := hosts[a.roster[p]];
      var k := FindHost(hosts, used, useAll, parentHost, elIndex);
      AttachSound(a, hosts, used, useAll, p, k, elIndex);
      AttachKids(a, p, k);
      a := Attach(a, p, k);
      used := used[k := true];
      elIndex := Next(|hosts|, k);
    }
  }

  /** One level: the parents lo..hi get their quotas in turn. */
  method AddLevel<H(==)>(hosts: seq<H>, useAll: bool, N: nat, nodes: nat, a0: Arena, used0: seq<bool>, elIndex0: nat,
                         lo: nat, hi: nat)
    returns (a: Arena, used: seq<bool>, elIndex: nat)
    requires Sound(a0, hosts, used0, useAll) && elIndex0 < |hosts| && Branches(a0, N)
    requires StartsBehind(a0, |hosts|, elIndex0) && a0.parent[|a0.parent| - 1] <= lo
    requires lo < hi == |a0.roster| && hi < nodes && (useAll ==> nodes <= |hosts|)
    requires forall q :: lo <= q < hi ==> a0.kids[q] == []
    ensures Sound(a, hosts, used, useAll) && elIndex < |hosts| && Branches(a, N)
    ensures StartsBehind(a, |hosts|, elIndex) && a.parent[|a.parent| - 1] < hi
    ensures hi <= |a.kids| == |a.roster| && Shared(a, N, nodes, lo, hi, hi - lo)
    ensures |a.roster| == if hi + N * (hi - lo) <= nodes then hi + N * (hi - lo) else nodes
    ensures Extends(a0, a, lo, hi)
    ensures forall q :: hi <= q < |a.kids| ==> a.kids[q] == []
  {
    hide Linked, Marked, HostRules, AllSearched, Rising, KidsRise, StartsBehind, Quota, Extends, Branches, Progress, Born;
    a, used, elIndex := a0, used0, elIndex0;
    ExtendsRefl(a0, lo, hi);
    var L := hi - lo;
    ProgressStart(N, L, hi, nodes);
    BornNone(a, lo);
    for i := 0 to L
      invariant Sound(a, hosts, used, useAll) && elIndex < |hosts| && Branches(a, N)
      invariant hi <= |a.roster| <= nodes && Extends(a0, a, lo, hi)
      invariant Progress(N, L, i, hi, nodes, |a.roster|)
      invariant forall q :: lo + i <= q < |a.kids| ==> a.kids[q] == []
      invariant StartsBehind(a, |hosts|, elIndex)
      invariant a.parent[|a.parent| - 1] <= (if i == 0 then lo else lo + i - 1)
      invariant |a.kids| == |a.roster| == hi + Born(a, lo, i)
      invariant Shared(a, N, nodes, lo, hi, i)
    {
      var R := nodes - |a.roster|;
      var children := Quota(R, i, L, N);
      ProgressStep(N, L, i, hi, nodes, |a.roster|);
      ghost var b := a;
      a, used, elIndex := AddChildren(hosts, useAll, a, used, elIndex, lo + i, children);
      ExtendsTrans(a0, b, a, lo, hi, lo + i);
      assert Branches(a, N) by { BranchesKept(b, a, N, lo + i); }
      SharedStep(b, a, N, nodes, lo, hi, i);
    }
    ProgressEnd(N, L, hi, nodes, |a.roster|);
  }

  /** The first i parents of the level have their share of what was missing when it was their turn. */
  ghost predicate Shared(a: Arena, N: nat, nodes: nat, lo: nat, hi: nat, i: nat)
    requires lo + i <= hi <= |a.kids| && lo < hi
  {
    forall m :: 0 <= m < i ==>
      |a.kids[lo + m]| == Least((nodes - hi - Born(a, lo, m)) * (m + 1) / (hi - lo), N)
  }

  lemma SharedStep(a: Arena, b: Arena, N: nat, nodes: nat, lo: nat, hi: nat, i: nat)
    requires lo + i < hi <= |a.kids| <= |b.kids| && |a.kids| <= nodes
    requires Shared(a, N, nodes, lo, hi, i) && |a.kids| == hi + Born(a, lo, i)
    requires |b.kids[lo + i]| == Quota(nodes - |a.kids|, i, hi - lo, N)
    requires |b.kids| == |a.kids| + |b.kids[lo + i]|
    requires forall q :: 0 <= q < |b.kids| && q != lo + i ==> b.kids[q] == if q < |a.kids| then a.kids[q] else []
    ensures Shared(b, N, nodes, lo, hi, i + 1) && |b.kids| == hi + Born(b, lo, i + 1)
  {
    BornSame(a, b, lo, i);
    forall m | 0 <= m < i + 1
      ensures |b.kids[lo + m]| == Least((nodes - hi - Born(b, lo, m)) * (m + 1) / (hi - lo), N)
    {
      BornSame(a, b, lo, m);
    }
  }

  /** With i of L parents served there are `size` nodes: N for each of them if the level can be
      filled, and otherwise no more are missing than the parents that are left can take. */
  ghost predicate Progress(N: nat, L: nat, i: nat, hi: nat, nodes: nat, size: nat)
    requires i <= L
  {
    && hi <= size <= nodes
    && if hi + Filled(N, L) <= nodes then size == hi + Filled(N, i) else nodes - size <= Filled(N, L - i)
  }

  lemma ProgressStart(N: nat, L: nat, hi: nat, nodes: nat)
    requires hi <= nodes
    ensures Progress(N, L, 0, hi, nodes, hi)
  {
  }

  lemma ProgressStep(N: nat, L: nat, i: nat, hi: nat, nodes: nat, size: nat)
    requires i < L && Progress(N, L, i, hi, nodes, size)
    ensures size + Quota(nodes - size, i, L, N) <= nodes
    ensures Progress(N, L, i + 1, hi, nodes, size + Quota(nodes - size, i, L, N))
  {
    hide Quota, Filled;
    var R := nodes - size;
    Parts(N, L, i);
    if hi + Filled(N, L) <= nodes { QuotaFull(R, i, L, N); } else { QuotaRest(R, i, L, N); }
  }

  lemma ProgressEnd(N: nat, L: nat, hi: nat, nodes: nat, size: nat)
    requires Progress(N, L, L, hi, nodes, size)
    ensures size == if hi + N * L <= nodes then hi + N * L else nodes
  {
  }

  lemma Parts(N: nat, L: nat, i: nat)
    requires i < L
    ensures Filled(N, L) == Filled(N, i) + Filled(N, L - i)
    ensures Filled(N, i + 1) == Filled(N, i) + N && Filled(N, L - i) == Filled(N, L - i - 1) + N
  {
    Distribute(N, i, L - i);
    Distribute(N, L - i - 1, 1);
  }

  lemma ExtendsRefl(a: Arena, lo: nat, hi: nat)
    ensures Extends(a, a, lo, hi)
  {
  }

  lemma ExtendsTrans(a: Arena, b: Arena, c: Arena, lo: nat, hi: nat, p: nat)
    requires Extends(a, b, lo, hi) && Extends(b, c, p, p + 1) && lo <= p < hi
    ensures Extends(a, c, lo, hi)
  {
  }

  lemma BranchesKept(a: Arena, b: Arena, N: nat, p: nat)
    requires Branches(a, N) && p < |a.kids| <= |b.kids| && |b.kids[p]| <= N
    requires forall q :: 0 <= q < |b.kids| && q != p ==> b.kids[q] == if q < |a.kids| then a.kids[q] else []
    ensures Branches(b, N)
  {
  }

  lemma StartSound<H>(hosts: seq<H>, useAll: bool)
    requires |hosts| > 0
    ensures Sound(Arena([0], [-1], [[]]), hosts, seq(|hosts|, j => j == 0), useAll)
  {
    var used := seq(|hosts|, j => j == 0);
    assert used[1..] == seq(|hosts| - 1, _ => false);
    CountTrueSame(used[1..], false);
    assert CountTrue(used) == 1;
  }

  /** A new level keeps nodes and their parents in neighbouring levels. */
  lemma LevelledKept(N: nat, a: Arena, b: Arena, l: nat)
    requires N > 0 && Levelled(N, a.parent) && Extends(a, b, Above(N, l), Above(N, l + 1))
    requires |a.parent| == Above(N, l + 1) && |b.parent| <= Above(N, l + 2)
    ensures Levelled(N, b.parent)
  {
    forall c, m {:trigger Above(N, m + 1), b.parent[c]} |
      1 <= c < |b.parent| && 0 <= m && Above(N, m) <= c < Above(N, m + 1)
      ensures m >= 1 && Above(N, m - 1) <= b.parent[c] < Above(N, m)
    {
      if c < |a.parent| {
        assert a.parent[c] == b.parent[c];
      } else {
        LevelUnique(N, c, m, l + 1);
      }
    }
  }

  lemma {:induction false} AboveMonotone(N: nat, l: nat, m: nat)
    requires N > 0 && l <= m
    ensures Above(N, l) <= Above(N, m)
    decreases m - l
  {
    if l < m {
      NextLevel(N, l);
      AboveMonotone(N, l + 1, m);
    }
  }

  lemma LevelUnique(N: nat, c: nat, l: nat, m: nat)
    requires N > 0 && Above(N, l) <= c < Above(N, l + 1) && Above(N, m) <= c < Above(N, m + 1)
    ensures l == m
  {
    if l < m { AboveMonotone(N, l + 1, m); }
    if m < l { AboveMonotone(N, m + 1, l); }
  }

  lemma StartLevelled(N: nat)
    ensures Above(N, 0) == 0 && Above(N, 1) == 1 && Levelled(N, [-1]) && Branches(Arena([0], [-1], [[]]), N)
  {
  }

  lemma ServersUsed<H>(a: Arena, hosts: seq<H>, used: seq<bool>, useAll: bool)
    requires Sound(a, hosts, used, useAll)
    ensures forall c :: 0 <= c < |a.roster| ==> a.roster[c] < |hosts|
    ensures useAll ==> forall c, d :: 0 <= c < d < |a.roster| ==> a.roster[c] != a.roster[d]
    ensures useAll && |a.roster| == |hosts| ==> forall j :: 0 <= j < |hosts| ==> j in a.roster
  {
    CountTrueBound(used);
  }

  /** The tree has exactly `nodes` nodes, at most N children each, every level but the last full,
      hence the least possible depth; with as many nodes as servers each server is used exactly
      once; and a child shares its parent's host only when it cannot be avoided. */
  method GenerateBigNaryTree<H(==)>(hosts: seq<H>, N: nat, nodes: nat) returns (a: Arena, depth: nat)
    requires |hosts| > 0 && N > 0 && nodes > 0
    ensures Linked(a) && |a.roster| == nodes && Branches(a, N) && Levelled(N, a.parent)
    ensures nodes <= Full(N, depth) && (depth > 0 ==> Full(N, depth - 1) < nodes)
    ensures HostRules(a, hosts, nodes == |hosts|)
    ensures a.roster[0] == 0 && AllSearched(a, hosts, nodes == |hosts|)
    ensures Rising(a.parent) && KidsRise(a)
    ensures forall c :: 0 <= c < nodes ==> a.roster[c] < |hosts|
    ensures nodes == |hosts| ==>
              && (forall c, d :: 0 <= c < d < nodes ==> a.roster[c] != a.roster[d])
              && (forall j :: 0 <= j < |hosts| ==> j in a.roster)
  {
    hide Linked, Marked, HostRules, Branches, Full, Levelled, Extends, AllSearched, Rising, KidsRise, Shared, StartsBehind, Above;
    var useAll := |hosts| == nodes;
    var used := seq(|hosts|, j => j == 0);
    StartSound(hosts, useAll);
    a := Arena([0], [-1], [[]]);
    var lo, hi := 0, 1;
    var elIndex: nat := if |hosts| == 1 then 0 else 1;
    depth := 0;
    StartLevelled(N);
    StartBehind(|hosts|);
    while hi < nodes
      invariant Sound(a, hosts, used, useAll) && elIndex < |hosts| && Branches(a, N)
      invariant lo < hi == |a.roster| <= nodes && lo == Above(N, depth) && hi <= Above(N, depth + 1)
      invariant hi < nodes ==> hi == Above(N, depth + 1)
      invariant Levelled(N, a.parent)
      invariant StartsBehind(a, |hosts|, elIndex) && a.parent[|a.parent| - 1] <= lo
      invariant forall q :: lo <= q < hi ==> a.kids[q] == []
      decreases nodes - hi
    {
      NextLevel(N, depth);
      assert N * (hi - lo) > 0 by { Positive(N, hi - lo); }
      ghost var b := a;
      a, used, elIndex := AddLevel(hosts, useAll, N, nodes, a, used, elIndex, lo, hi);
      LevelledKept(N, b, a, depth);
      lo, hi := hi, |a.roster|;
      depth := depth + 1;
    }
    ServersUsed(a, hosts, used, useAll);
    RootServer(a, hosts, useAll);
    AboveIs(N, depth);
  }

  lemma AboveIs(N: nat, l: nat)
    ensures Above(N, l + 1) == Full(N, l) && (l > 0 ==> Above(N, l) == Full(N, l - 1))
  {
  }

  lemma StartBehind(n: nat)
    requires n > 0
    ensures StartsBehind(Arena([0], [-1], [[]]), n, if n == 1 then 0 else 1)
  {
  }

  lemma RootServer<H>(a: Arena, hosts: seq<H>, useAll: bool)
    requires AllSearched(a, hosts, useAll)
    ensures |a.roster| >= 1 && a.roster[0] == 0
  {
  }
}
