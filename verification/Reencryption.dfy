/** Encoding a key under the collective public key, re-encrypting it towards a reader with shares of
    the collective secret, and decoding it; and the transport of decrypted shares to the reader.
    Points form a module over the integers modulo a prime; the embedding of bytes into points
    consumes a non-empty prefix and gives it back. */
module Reencryption {
  import opened Basics
  import opened Interpolation

  datatype Group<!P> = Group(zero: P, base: P, add: (P, P) -> P, neg: P -> P, mul: (P, int) -> P)

  ghost predicate IsModule<P(!new)>(g: Group<P>, q: int) {
    && IsPrime(q)
    && (forall a, b :: g.add(a, b) == g.add(b, a))
    && (forall a, b, c :: g.add(g.add(a, b), c) == g.add(a, g.add(b, c)))
    && (forall a :: g.add(a, g.zero) == a)
    && (forall a :: g.add(a, g.neg(a)) == g.zero)
    && (forall p, a: int, b: int :: g.add(g.mul(p, a), g.mul(p, b)) == g.mul(p, a + b))
    && (forall p, r, a: int :: g.add(g.mul(p, a), g.mul(r, a)) == g.mul(g.add(p, r), a))
    && (forall p, a: int, b: int :: g.mul(g.mul(p, a), b) == g.mul(p, a * b))
    && (forall p :: g.mul(p, 0) == g.zero)
    && (forall p, a: int, b: int :: Cong(q, a, b) ==> g.mul(p, a) == g.mul(p, b))
  }

  datatype Embedding<!P> = Embedding(
    pick: (seq<Byte>, int) -> P,
    take: (seq<Byte>, int) -> nat,
    pickLen: nat,
    data: P -> Option<seq<Byte>>)

  /** What `Pick` and `Data` promise: for any random seed, picking a point for non-empty data uses
      up a non-empty prefix of it, which the point gives back. */
  ghost predicate Faithful<P>(emb: Embedding<P>) {
    forall d: seq<Byte>, s: int :: d != [] ==>
      0 < Take(emb, d, s) <= |d| && emb.data(emb.pick(d, s)) == Some(d[..Take(emb, d, s)])
  }

  function Take<P>(emb: Embedding<P>, d: seq<Byte>, s: int): nat {
    emb.take(d, s)
  }

  // ---------- the laws, one at a time ----------

  lemma MulAdd<P(!new)>(g: Group<P>, q: int, p: P, a: int, b: int)
    requires IsModule(g, q)
    ensures g.add(g.mul(p, a), g.mul(p, b)) == g.mul(p, a + b)
  {
  }

  lemma MulMul<P(!new)>(g: Group<P>, q: int, p: P, a: int, b: int)
    requires IsModule(g, q)
    ensures g.mul(g.mul(p, a), b) == g.mul(p, a * b)
  {
  }

  lemma MulCong<P(!new)>(g: Group<P>, q: int, p: P, a: int, b: int)
    requires IsModule(g, q) && Cong(q, a, b)
    ensures g.mul(p, a) == g.mul(p, b)
  {
  }

  /** Subtracting what was added. */
  lemma Unmask<P(!new)>(g: Group<P>, q: int, s: P, k: P)
    requires IsModule(g, q)
    ensures g.add(g.add(s, k), g.neg(s)) == k
  {
    assert g.add(s, k) == g.add(k, s);
    assert g.add(g.add(k, s), g.neg(s)) == g.add(k, g.add(s, g.neg(s)));
  }

  // ---------- chunked encryption ----------

  /** The data in chunks, each embedded in a point and blinded with s. */
  function Blind<P(!new)>(g: Group<P>, emb: Embedding<P>, s: P, d: seq<Byte>, seed: nat -> int, i: nat): seq<P>
    requires Faithful(emb)
    decreases |d|
  {
    if d == [] then []
    else [g.add(s, emb.pick(d, seed(i)))] + Blind(g, emb, s, d[Take(emb, d, seed(i))..], seed, i + 1)
  }

  /** One round of the chunk loops, with `done` written so far. */
  lemma BlindStep<P(!new)>(g: Group<P>, emb: Embedding<P>, s: P, done: seq<P>, d: seq<Byte>, seed: nat -> int, i: nat)
    requires Faithful(emb) && d != []
    ensures 0 < Take(emb, d, seed(i)) <= |d|
    ensures done + Blind(g, emb, s, d, seed, i) ==
            done + [g.add(s, emb.pick(d, seed(i)))] + Blind(g, emb, s, d[Take(emb, d, seed(i))..], seed, i + 1)
  {
    Associative(done, [g.add(s, emb.pick(d, seed(i)))], Blind(g, emb, s, d[Take(emb, d, seed(i))..], seed, i + 1));
  }

  lemma BlindEnd<P(!new)>(g: Group<P>, emb: Embedding<P>, s: P, done: seq<P>, seed: nat -> int, i: nat)
    requires Faithful(emb)
    ensures done + Blind(g, emb, s, [], seed, i) == done
  {
  }

  /** Unblinding every point with the given inverse, or None when one does not embed data. */
  function Unblind<P>(g: Group<P>, emb: Embedding<P>, inv: P, cs: seq<P>): Option<seq<Byte>> {
    if cs == [] then Some([])
    else
      match emb.data(g.add(cs[0], inv))
      case None => None
      case Some(part) =>
        match Unblind(g, emb, inv, cs[1..])
        case None => None
        case Some(rest) => Some(part + rest)
  }

  /** Unblinding fails if and only if some point does not embed data; what it gives otherwise is the data of
      all points, one after the other. */
  lemma {:induction false} UnblindFailsIff<P>(g: Group<P>, emb: Embedding<P>, inv: P, cs: seq<P>)
    ensures Unblind(g, emb, inv, cs).None? <==> exists i :: 0 <= i < |cs| && emb.data(g.add(cs[i], inv)).None?
    decreases |cs|
  {
    if cs != [] {
      UnblindFailsIff(g, emb, inv, cs[1..]);
      assert forall i :: 0 <= i < |cs[1..]| ==> cs[1..][i] == cs[i + 1];
      assert forall i :: 1 <= i < |cs| ==> cs[i] == cs[1..][i - 1];
    }
  }

  lemma {:induction false} UnblindBlind<P(!new)>(g: Group<P>, q: int, emb: Embedding<P>, s: P,
                                                 d: seq<Byte>, seed: nat -> int, i: nat)
    requires IsModule(g, q) && Faithful(emb)
    ensures Unblind(g, emb, g.neg(s), Blind(g, emb, s, d, seed, i)) == Some(d)
    decreases |d|
  {
    hide IsModule;
    if d != [] {
      var n, kp := Take(emb, d, seed(i)), emb.pick(d, seed(i));
      UnblindBlind(g, q, emb, s, d[n..], seed, i + 1);
      Unmask(g, q, s, kp);
      var cs := Blind(g, emb, s, d, seed, i);
      assert cs[1..] == Blind(g, emb, s, d[n..], seed, i + 1);
      assert d == d[..n] + d[n..];
    }
  }

  /** `EncodeKey` for the random scalar r. */
  method EncodeKey<P(!new)>(g: Group<P>, emb: Embedding<P>, X: P, key: seq<Byte>, r: int, seed: nat -> int)
    returns (U: P, Cs: seq<P>)
    requires Faithful(emb)
    ensures U == g.mul(g.base, r)
    ensures Cs == Blind(g, emb, g.mul(X, r), key, seed, 0)
  {
    hide Blind, Faithful, Take;
    U := g.mul(g.base, r);
    var rem, i := key, 0;
    Cs := [];
    while rem != []
      invariant Cs + Blind(g, emb, g.mul(X, r), rem, seed, i) == Blind(g, emb, g.mul(X, r), key, seed, 0)
      decreases |rem|
    {
      BlindStep(g, emb, g.mul(X, r), Cs, rem, seed, i);
      var kp := emb.pick(rem, seed(i));
      var C := g.mul(X, r);
      Cs := Cs + [g.add(C, kp)];
      rem, i := rem[Take(emb, rem, seed(i))..], i + 1;
    }
    BlindEnd(g, emb, g.mul(X, r), Cs, seed, i);
  }

  /** The point that `DecodeKey` adds to every key slice. */
  function KeyInverse<P>(g: Group<P>, X: P, XhatEnc: P, xc: int): P {
    g.neg(g.add(XhatEnc, g.mul(X, -xc)))
  }

  /** `DecodeKey`: None is the error that a slice does not hold data. */
  method DecodeKey<P>(g: Group<P>, emb: Embedding<P>, X: P, Cs: seq<P>, XhatEnc: P, xc: int)
    returns (key: Option<seq<Byte>>)
    ensures key == Unblind(g, emb, KeyInverse(g, X, XhatEnc, xc), Cs)
  {
    var XhatInv := g.neg(g.add(XhatEnc, g.mul(X, -xc)));
    var acc: seq<Byte> := [];
    assert Cs[0..] == Cs && forall rest: seq<Byte> :: acc + rest == rest;
    for i := 0 to |Cs|
      invariant Unblind(g, emb, XhatInv, Cs) ==
                (match Unblind(g, emb, XhatInv, Cs[i..]) case None => None case Some(rest) => Some(acc + rest))
    {
      assert Cs[i..][1..] == Cs[i + 1..];
      match emb.data(g.add(Cs[i], XhatInv)) {
        case None => return None;
        case Some(part) =>
          ghost var before := acc;
          acc := acc + part;
          assert forall rest: seq<Byte> :: before + (part + rest) == acc + rest;
      }
    }
    assert Cs[|Cs|..] == [] && acc + [] == acc;
    key := Some(acc);
  }

  // ---------- shares of the re-encryption ----------

  datatype Share<P> = Share(i: nat, v: P)

  /** `getUi`: node i's part of the re-encryption with its secret share v. */
  function GetUi<P>(g: Group<P>, i: nat, v: int, U: P, Xc: P): Share<P> {
    Share(i, g.add(g.mul(U, v), g.mul(Xc, v)))
  }

  /** Honest shares of the secret polynomial f: node i holds f(1 + i). */
  ghost predicate Honest<P>(g: Group<P>, f: seq<int>, U: P, Xc: P, s: Share<P>) {
    s == GetUi(g, s.i, Eval(f, 1 + s.i), U, Xc)
  }

  function Xs<P>(shares: seq<Share<P>>): (xs: seq<int>)
    ensures |xs| == |shares|
  {
    seq(|shares|, k requires 0 <= k < |shares| => 1 + shares[k].i)
  }

  ghost predicate GoodShares<P>(q: int, shares: seq<Share<P>>) {
    && (forall k :: 0 <= k < |shares| ==> 1 + shares[k].i < q)
    && (forall k, m :: 0 <= k < m < |shares| ==> shares[k].i != shares[m].i)
  }

  lemma GoodPoints<P>(q: int, shares: seq<Share<P>>)
    requires GoodShares(q, shares)
    ensures Points(q, Xs(shares)) && InRange(q, Xs(shares))
  {
  }

  /** `RecoverCommit`: the weighted sum of the shares' points, weights relative to xs. */
  ghost function Recover<P>(g: Group<P>, q: int, xs: seq<int>, shares: seq<Share<P>>): P
    requires IsPrime(q) && InRange(q, xs) && InRange(q, Xs(shares))
  {
    if shares == [] then g.zero
    else
      assert Xs(shares)[0] == 1 + shares[0].i;
      assert Xs(shares)[1..] == Xs(shares[1..]);
      g.add(g.mul(shares[0].v, Weight(q, xs, 1 + shares[0].i)), Recover(g, q, xs, shares[1..]))
  }

  lemma GetUiFactors<P(!new)>(g: Group<P>, q: int, i: nat, v: int, U: P, Xc: P)
    requires IsModule(g, q)
    ensures GetUi(g, i, v, U, Xc).v == g.mul(g.add(U, Xc), v)
  {
  }

  /** The weighted sum of honest shares is one multiple of U + Xc. */
  lemma {:induction false} RecoverIsMultiple<P(!new)>(g: Group<P>, q: int, f: seq<int>, U: P, Xc: P,
                                                      xs: seq<int>, shares: seq<Share<P>>)
    requires IsModule(g, q) && InRange(q, xs) && InRange(q, Xs(shares)) && IsPrime(q)
    requires forall k :: 0 <= k < |shares| ==> Honest(g, f, U, Xc, shares[k])
    ensures Recover(g, q, xs, shares) == g.mul(g.add(U, Xc), Sum(q, Xs(shares), xs, f))
    decreases |shares|
  {
    hide IsPrime, IsModule, Weight;
    if shares == [] {
      MulZero(g, q, g.add(U, Xc));
    } else {
      var i, R := shares[0].i, g.add(U, Xc);
      assert Xs(shares)[0] == 1 + i && Xs(shares)[1..] == Xs(shares[1..]);
      RecoverIsMultiple(g, q, f, U, Xc, xs, shares[1..]);
      assert Honest(g, f, U, Xc, shares[0]);
      GetUiFactors(g, q, i, Eval(f, 1 + i), U, Xc);
      var e, w := Eval(f, 1 + i), Weight(q, xs, 1 + i);
      MulMul(g, q, R, e, w);
      MulAdd(g, q, R, e * w, Sum(q, Xs(shares[1..]), xs, f));
    }
  }

  lemma MulZero<P(!new)>(g: Group<P>, q: int, p: P)
    requires IsModule(g, q)
    ensures g.mul(p, 0) == g.zero
  {
  }

  /** Any honest shares of distinct nodes, in any order and at least as many as the threshold,
      recover the product of U + Xc with the collective secret. */
  lemma RecoversSecretMultiple<P(!new)>(g: Group<P>, q: int, f: seq<int>, U: P, Xc: P, shares: seq<Share<P>>)
    requires IsModule(g, q) && IsPrime(q) && GoodShares(q, shares) && shares != [] && |f| <= |shares|
    requires forall k :: 0 <= k < |shares| ==> Honest(g, f, U, Xc, shares[k])
    ensures InRange(q, Xs(shares))
    ensures Recover(g, q, Xs(shares), shares) == g.mul(g.add(U, Xc), Eval(f, 0))
  {
    hide IsPrime, IsModule, Sum, Recover;
    GoodPoints(q, shares);
    RecoverIsMultiple(g, q, f, U, Xc, Xs(shares), shares);
    InterpolatesAtZero(q, Xs(shares), f);
    MulCong(g, q, g.add(U, Xc), Sum(q, Xs(shares), Xs(shares), f), Eval(f, 0));
  }

  /** The reader removes his own key from the re-encryption: what is left is the writer's blind. */
  lemma ReaderUnmasks<P(!new)>(g: Group<P>, q: int, s: int, r: int, xc: int)
    requires IsModule(g, q)
    ensures var X, U, Xc := g.mul(g.base, s), g.mul(g.base, r), g.mul(g.base, xc);
            g.add(g.mul(g.add(U, Xc), s), g.mul(X, -xc)) == g.mul(X, r)
  {
    hide IsModule;
    MulAdd(g, q, g.base, r, xc);
    MulMul(g, q, g.base, r + xc, s);
    MulMul(g, q, g.base, s, -xc);
    MulMul(g, q, g.base, s, r);
    MulAdd(g, q, g.base, (r + xc) * s, s * -xc);
    Expand(r, xc, s);
  }

  lemma Expand(r: int, xc: int, s: int)
    ensures (r + xc) * s + s * -xc == s * r
  {
  }

  /** The point of the protocol: with the collective secret shared by a polynomial f of degree
      below the number of shares used, any honest shares of distinct nodes let exactly the reader
      with secret key xc decode exactly the key that was encoded. */
  lemma KeyDelivered<P(!new)>(g: Group<P>, q: int, emb: Embedding<P>, f: seq<int>, key: seq<Byte>,
                              r: int, seed: nat -> int, xc: int, shares: seq<Share<P>>)
    requires IsModule(g, q) && IsPrime(q) && Faithful(emb)
    requires GoodShares(q, shares) && shares != [] && |f| <= |shares|
    requires forall k :: 0 <= k < |shares| ==>
               Honest(g, f, g.mul(g.base, r), g.mul(g.base, xc), shares[k])
    ensures InRange(q, Xs(shares))
    ensures var X := g.mul(g.base, Eval(f, 0));
            var Cs := Blind(g, emb, g.mul(X, r), key, seed, 0);
            var XhatEnc := Recover(g, q, Xs(shares), shares);
            Unblind(g, emb, KeyInverse(g, X, XhatEnc, xc), Cs) == Some(key)
  {
    hide IsPrime, IsModule, Recover, Faithful, Blind, Unblind;
    var X := g.mul(g.base, Eval(f, 0));
    RecoversSecretMultiple(g, q, f, g.mul(g.base, r), g.mul(g.base, xc), shares);
    ReaderUnmasks(g, q, Eval(f, 0), r, xc);
    UnblindBlind(g, q, emb, g.mul(X, r), key, seed, 0);
  }

  // ---------- placing replies by index ----------

  /** Storing each item in the slot of its index; None where the source indexes out of range. */
  function PlaceAll<T>(slots: seq<Option<T>>, items: seq<T>, index: T -> int): (r: Option<seq<Option<T>>>)
    ensures r.Some? ==> |r.value| == |slots|
    decreases |items|
  {
    if items == [] then Some(slots)
    else if 0 <= index(items[0]) < |slots| then
      PlaceAll(slots[index(items[0]) := Some(items[0])], items[1..], index)
    else None
  }

  /** Placing fails if and only if some index is out of range. */
  lemma {:induction false} PlaceFailsIff<T>(slots: seq<Option<T>>, items: seq<T>, index: T -> int)
    ensures PlaceAll(slots, items, index).None? <==>
              exists k :: 0 <= k < |items| && !(0 <= index(items[k]) < |slots|)
    decreases |items|
  {
    if items != [] && 0 <= index(items[0]) < |slots| {
      PlaceFailsIff(slots[index(items[0]) := Some(items[0])], items[1..], index);
      assert forall k :: 0 <= k < |items[1..]| ==> items[1..][k] == items[k + 1];
      assert forall k :: 1 <= k < |items| ==> items[k] == items[1..][k - 1];
    }
  }

  ghost predicate NoneAfter<T>(items: seq<T>, index: T -> int, k: int, i: int) {
    forall m :: k < m < |items| && m >= 0 ==> index(items[m]) != i
  }

  /** Of several items with one index, the last one stays. */
  lemma {:induction false} LastPlaced<T>(slots: seq<Option<T>>, items: seq<T>, index: T -> int, k: nat)
    requires PlaceAll(slots, items, index).Some? && k < |items| && NoneAfter(items, index, k, index(items[k]))
    ensures var i := index(items[k]);
            0 <= i < |slots| && PlaceAll(slots, items, index).value[i] == Some(items[k])
    decreases |items|
  {
    var slots' := slots[index(items[0]) := Some(items[0])];
    if k == 0 {
      NotPlaced(slots', items[1..], index, index(items[0]));
    } else {
      LastPlaced(slots', items[1..], index, k - 1);
    }
  }

  lemma {:induction false} NotPlaced<T>(slots: seq<Option<T>>, items: seq<T>, index: T -> int, i: nat)
    requires PlaceAll(slots, items, index).Some? && i < |slots| && NoneAfter(items, index, -1, i)
    ensures PlaceAll(slots, items, index).value[i] == slots[i]
    decreases |items|
  {
    if items != [] {
      assert index(items[0]) != i;
      forall m | 0 <= m < |items[1..]| ensures index(items[1..][m]) != i {
        assert items[1..][m] == items[m + 1];
      }
      NotPlaced(slots[index(items[0]) := Some(items[0])], items[1..], index, i);
    }
  }

  method Place<T>(slots: seq<Option<T>>, items: seq<T>, index: T -> int) returns (r: Option<seq<Option<T>>>)
    ensures r == PlaceAll(slots, items, index)
  {
    var cur := slots;
    assert items[0..] == items;
    for k := 0 to |items|
      invariant |cur| == |slots|
      invariant PlaceAll(cur, items[k..], index) == PlaceAll(slots, items, index)
    {
      assert items[k..][1..] == items[k + 1..];
      var i := index(items[k]);
      if !(0 <= i < |cur|) { return None; }
      cur := cur[i := Some(items[k])];
    }
    r := Some(cur);
  }

  ghost predicate DistinctIndices<T>(n: nat, items: seq<T>, index: T -> int) {
    && (forall k :: 0 <= k < |items| ==> 0 <= index(items[k]) < n)
    && (forall k, m :: 0 <= k < m < |items| ==> index(items[k]) != index(items[m]))
  }

  /** Whatever the order of arrival, every item ends in its own slot and no other slot changes. */
  lemma {:induction false} Placed<T>(slots: seq<Option<T>>, items: seq<T>, index: T -> int)
    requires DistinctIndices(|slots|, items, index)
    ensures PlaceAll(slots, items, index).Some?
    ensures var r := PlaceAll(slots, items, index).value;
            && (forall k :: 0 <= k < |items| ==> r[index(items[k])] == Some(items[k]))
            && (forall i :: 0 <= i < |slots| && (forall k :: 0 <= k < |items| ==> index(items[k]) != i) ==>
                  r[i] == slots[i])
    decreases |items|
  {
    if items != [] {
      var i0 := index(items[0]);
      var slots' := slots[i0 := Some(items[0])];
      forall k, m | 0 <= k < m < |items[1..]| ensures index(items[1..][k]) != index(items[1..][m]) {
        assert items[1..][k] == items[k + 1] && items[1..][m] == items[m + 1];
      }
      Placed(slots', items[1..], index);
      var r := PlaceAll(slots, items, index).value;
      forall k | 0 <= k < |items| ensures r[index(items[k])] == Some(items[k]) {
        if k == 0 {
          forall m | 0 <= m < |items[1..]| ensures index(items[1..][m]) != i0 {
            assert items[1..][m] == items[m + 1];
          }
        } else {
          assert items[k] == items[1..][k - 1];
        }
      }
      forall i | 0 <= i < |slots| && (forall k :: 0 <= k < |items| ==> index(items[k]) != i)
        ensures r[i] == slots[i]
      {
        assert i != i0;
        forall m | 0 <= m < |items[1..]| ensures index(items[1..][m]) != i {
          assert items[1..][m] == items[m + 1];
        }
      }
    }
  }

  // ---------- from arriving replies to the key ----------

  function ShareIndex<P>(s: Share<P>): int {
    s.i
  }

  function Slots<T>(n: nat): (r: seq<Option<T>>)
    ensures |r| == n && forall i :: 0 <= i < n ==> r[i] == None
  {
    seq(n, _ => None)
  }

  /** `reencryptReply`: the root's own part in slot 0, whatever the index of the root's share, and every
      reply in the slot of its index. */
  method ReencryptReply<P>(g: Group<P>, n: nat, root: nat, v: int, U: P, Xc: P, replies: seq<Share<P>>)
    returns (uis: Option<seq<Option<Share<P>>>>)
    requires n > 0
    ensures uis == PlaceAll(Slots(n)[0 := Some(GetUi(g, root, v, U, Xc))], replies, ShareIndex)
  {
    var start := Slots(n)[0 := Some(GetUi(g, root, v, U, Xc))];
    uis := Place(start, replies, ShareIndex);
  }

  /** The shares present, as `RecoverCommit` picks them up. */
  function Present<T>(slots: seq<Option<T>>): seq<T> {
    if slots == [] then []
    else (if slots[0].Some? then [slots[0].value] else []) + Present(slots[1..])
  }

  lemma {:induction false} PresentUpdate<T>(slots: seq<Option<T>>, i: nat, x: T)
    requires i < |slots| && slots[i].None?
    ensures |Present(slots[i := Some(x)])| == |Present(slots)| + 1
    decreases |slots|
  {
    if i == 0 {
      assert slots[i := Some(x)][1..] == slots[1..];
    } else {
      PresentUpdate(slots[1..], i - 1, x);
      assert slots[i := Some(x)][1..] == slots[1..][i - 1 := Some(x)];
    }
  }

  lemma {:induction false} PlacedCount<T>(slots: seq<Option<T>>, items: seq<T>, index: T -> int)
    requires DistinctIndices(|slots|, items, index)
    requires forall k :: 0 <= k < |items| ==> slots[index(items[k])].None?
    ensures PlaceAll(slots, items, index).Some?
    ensures |Present(PlaceAll(slots, items, index).value)| == |Present(slots)| + |items|
    decreases |items|
  {
    if items != [] {
      var i0 := index(items[0]);
      var slots' := slots[i0 := Some(items[0])];
      PresentUpdate(slots, i0, items[0]);
      forall k | 0 <= k < |items[1..]| ensures slots'[index(items[1..][k])].None? {
        assert items[1..][k] == items[k + 1];
      }
      PlacedCount(slots', items[1..], index);
    }
  }

  ghost predicate InSlot<P>(slots: seq<Option<Share<P>>>, lo: nat, s: Share<P>) {
    lo <= s.i < lo + |slots| && slots[s.i - lo] == Some(s)
  }

  lemma {:induction false} PresentIndexed<P>(slots: seq<Option<Share<P>>>, lo: nat)
    requires forall k :: 0 <= k < |slots| && slots[k].Some? ==> slots[k].value.i == lo + k
    ensures forall m :: 0 <= m < |Present(slots)| ==> InSlot(slots, lo, Present(slots)[m])
    ensures forall m, n :: 0 <= m < n < |Present(slots)| ==> Present(slots)[m].i < Present(slots)[n].i
    decreases |slots|
  {
    if slots != [] {
      PresentIndexed(slots[1..], lo + 1);
      var rest := Present(slots[1..]);
      forall m | 0 <= m < |rest| ensures InSlot(slots, lo, rest[m]) && rest[m].i > lo {
        assert InSlot(slots[1..], lo + 1, rest[m]);
      }
      var head := if slots[0].Some? then [slots[0].value] else [];
      forall m | 0 <= m < |head + rest| ensures InSlot(slots, lo, (head + rest)[m]) {
        if m >= |head| { assert (head + rest)[m] == rest[m - |head|]; }
      }
    }
  }

  /** Some child has the share of index 0, whose slot the root has taken for its own. */
  ghost predicate Collides<P>(replies: seq<Share<P>>) {
    exists k :: 0 <= k < |replies| && ShareIndex(replies[k]) == 0
  }

  /** The slots of the replies alone. */
  lemma RepliesPlaced<P>(n: nat, replies: seq<Share<P>>)
    requires DistinctIndices(n, replies, ShareIndex)
    ensures var r := PlaceAll(Slots<Share<P>>(n), replies, ShareIndex);
            && r.Some?
            && |Present(r.value)| == |replies|
            && (forall k :: 0 <= k < n && r.value[k].Some? ==> r.value[k].value in replies && r.value[k].value.i == k)
  {
    var start := Slots<Share<P>>(n);
    Placed(start, replies, ShareIndex);
    PlacedCount(start, replies, ShareIndex);
    NonePresent<Share<P>>(n);
    var uis := PlaceAll(start, replies, ShareIndex).value;
    forall k | 0 <= k < n && uis[k].Some? ensures uis[k].value in replies && uis[k].value.i == k {
      if j :| 0 <= j < |replies| && ShareIndex(replies[j]) == k {
        assert uis[ShareIndex(replies[j])] == Some(replies[j]);
      }
    }
  }

  /** The root's own part stays in slot 0 unless a reply takes it. */
  lemma RootPlaced<P>(n: nat, own: Share<P>, replies: seq<Share<P>>)
    requires n > 0 && DistinctIndices(n, replies, ShareIndex)
    ensures var r, r0 := PlaceAll(Slots(n)[0 := Some(own)], replies, ShareIndex), PlaceAll(Slots(n), replies, ShareIndex);
            && r.Some? && r0.Some?
            && r.value == (if Collides(replies) then r0.value else r0.value[0 := Some(own)])
            && (!Collides(replies) ==> r0.value[0].None?)
  {
    var start, start0 := Slots(n)[0 := Some(own)], Slots<Share<P>>(n);
    Placed(start, replies, ShareIndex);
    Placed(start0, replies, ShareIndex);
    var r, r0 := PlaceAll(start, replies, ShareIndex).value, PlaceAll(start0, replies, ShareIndex).value;
    forall i | 0 <= i < n && (i > 0 || Collides(replies)) ensures r[i] == r0[i] {
      if k :| 0 <= k < |replies| && ShareIndex(replies[k]) == i {
        assert r[ShareIndex(replies[k])] == Some(replies[k]) == r0[ShareIndex(replies[k])];
      }
    }
  }

  /** The shares that the root ends up with, for a root with any share index: its own, unless a child
      has the share of index 0, and those of all replies. They are honest and of distinct nodes. */
  lemma RepliesGiveShares<P>(g: Group<P>, q: int, f: seq<int>, U: P, Xc: P, n: nat, root: nat, replies: seq<Share<P>>)
    requires 0 < n < q && root < n && DistinctIndices(n, replies, ShareIndex)
    requires forall k :: 0 <= k < |replies| ==> replies[k].i != root && Honest(g, f, U, Xc, replies[k])
    ensures var own := GetUi(g, root, Eval(f, 1 + root), U, Xc);
            var r := PlaceAll(Slots(n)[0 := Some(own)], replies, ShareIndex);
            && r.Some?
            && var shares := Present(r.value);
            && GoodShares(q, shares)
            && |shares| == (if Collides(replies) then 0 else 1) + |replies|
            && (own in shares <==> !Collides(replies))
            && forall k :: 0 <= k < |shares| ==> Honest(g, f, U, Xc, shares[k])
  {
    hide PlaceAll, Present, Honest, GetUi, Collides, InSlot;
    var own := GetUi(g, root, Eval(f, 1 + root), U, Xc);
    OwnHonest(g, f, U, Xc, root);
    RepliesPlaced(n, replies);
    RootPlaced(n, own, replies);
    var r0 := PlaceAll(Slots(n), replies, ShareIndex).value;
    var rest := PresentReplies(r0, replies);
    forall m | 0 <= m < |rest| ensures rest[m].i != root && Honest(g, f, U, Xc, rest[m]) {
      var k :| 0 <= k < |replies| && replies[k] == rest[m];
    }
    if !Collides(replies) { PresentFirst(r0, own); }
  }

  lemma OwnHonest<P>(g: Group<P>, f: seq<int>, U: P, Xc: P, i: nat)
    ensures Honest(g, f, U, Xc, GetUi(g, i, Eval(f, 1 + i), U, Xc)) && GetUi(g, i, Eval(f, 1 + i), U, Xc).i == i
  {
  }

  /** The replies in their slots, as they are picked up: all of them replies, of distinct nodes. */
  lemma PresentReplies<P>(slots: seq<Option<Share<P>>>, replies: seq<Share<P>>) returns (rest: seq<Share<P>>)
    requires forall k :: 0 <= k < |slots| && slots[k].Some? ==> slots[k].value in replies && slots[k].value.i == k
    ensures rest == Present(slots)
    ensures forall m :: 0 <= m < |rest| ==> rest[m] in replies && rest[m].i < |slots|
    ensures forall m, n :: 0 <= m < n < |rest| ==> rest[m].i != rest[n].i
  {
    rest := Present(slots);
    PresentIndexed(slots, 0);
    forall m | 0 <= m < |rest| ensures rest[m] in replies && rest[m].i < |slots| {
      assert InSlot(slots, 0, rest[m]);
    }
  }

  lemma PresentFirst<T>(slots: seq<Option<T>>, x: T)
    requires slots != [] && slots[0].None?
    ensures Present(slots[0 := Some(x)]) == [x] + Present(slots)
  {
    assert slots[0 := Some(x)][1..] == slots[1..];
  }

  /** Two nodes and a root with index 1: the reply of the node with index 0 takes slot 0, and only one
      of the two shares is left. */
  lemma CollisionExample<P>(g: Group<P>, f: seq<int>, U: P, Xc: P)
    ensures var own, reply := GetUi(g, 1, Eval(f, 2), U, Xc), GetUi(g, 0, Eval(f, 1), U, Xc);
            var r := PlaceAll(Slots(2)[0 := Some(own)], [reply], ShareIndex);
            r == Some([Some(reply), None]) && Present(r.value) == [reply]
  {
    var own, reply := GetUi(g, 1, Eval(f, 2), U, Xc), GetUi(g, 0, Eval(f, 1), U, Xc);
    var slots: seq<Option<Share<P>>> := [Some(reply), None];
    assert Slots(2)[0 := Some(own)][0 := Some(reply)] == slots;
    assert [reply][1..] == [];
    assert Present(slots[1..]) == [] by { assert slots[1..][1..] == []; }
  }

  lemma {:induction false} NonePresent<T>(n: nat)
    ensures Present(Slots<T>(n)) == []
  {
    if n > 0 {
      assert Slots<T>(n)[1..] == Slots<T>(n - 1);
      NonePresent<T>(n - 1);
    }
  }

  /** Some of the shares present, each at most once. */
  ghost predicate Chosen<P>(used: seq<Share<P>>, shares: seq<Share<P>>) {
    && (forall k :: 0 <= k < |used| ==> used[k] in shares)
    && (forall k, m :: 0 <= k < m < |used| ==> used[k].i != used[m].i)
  }

  /** The reader with secret key xc decodes the key from what these shares recover. */
  ghost predicate Opens<P(!new)>(g: Group<P>, q: int, emb: Embedding<P>, f: seq<int>, key: seq<Byte>,
                                 r: int, seed: nat -> int, xc: int, used: seq<Share<P>>)
    requires IsPrime(q) && Faithful(emb)
  {
    var X := g.mul(g.base, Eval(f, 0));
    && InRange(q, Xs(used))
    && Unblind(g, emb, KeyInverse(g, X, Recover(g, q, Xs(used), used), xc),
               Blind(g, emb, g.mul(X, r), key, seed, 0)) == Some(key)
  }

  /** The whole protocol: encode, re-encrypt at the nodes, place the replies as they arrive,
      interpolate, decode. For every root and every order and choice of replies, the root ends up with one
      share for each reply and its own, unless a child has the share of index 0; and whichever of them
      `RecoverCommit` uses, if they are at least as many as the threshold |f|, the reader gets the key. */
  lemma ProtocolDeliversKey<P(!new)>(g: Group<P>, q: int, emb: Embedding<P>, f: seq<int>, key: seq<Byte>,
                                     r: int, seed: nat -> int, xc: int, n: nat, root: nat, replies: seq<Share<P>>)
    requires IsModule(g, q) && IsPrime(q) && Faithful(emb)
    requires 0 < n < q && root < n && DistinctIndices(n, replies, ShareIndex)
    requires forall k :: 0 <= k < |replies| ==>
               replies[k].i != root && Honest(g, f, g.mul(g.base, r), g.mul(g.base, xc), replies[k])
    ensures var U, Xc := g.mul(g.base, r), g.mul(g.base, xc);
            var uis := PlaceAll(Slots(n)[0 := Some(GetUi(g, root, Eval(f, 1 + root), U, Xc))], replies, ShareIndex);
            && uis.Some?
            && var shares := Present(uis.value);
            && |shares| == (if Collides(replies) then 0 else 1) + |replies|
            && (forall t :: 0 <= t <= |shares| ==> Chosen(shares[..t], shares))
            && forall used :: Chosen(used, shares) && |f| <= |used| && used != [] ==>
                 Opens(g, q, emb, f, key, r, seed, xc, used)
  {
    hide IsPrime, IsModule, Faithful, Opens, GetUi, PlaceAll, Present, Honest, Chosen, Collides;
    var U, Xc := g.mul(g.base, r), g.mul(g.base, xc);
    RepliesGiveShares(g, q, f, U, Xc, n, root, replies);
    var uis := PlaceAll(Slots(n)[0 := Some(GetUi(g, root, Eval(f, 1 + root), U, Xc))], replies, ShareIndex);
    var shares := Present(uis.value);
    forall t | 0 <= t <= |shares| ensures Chosen(shares[..t], shares) {
      PrefixChosen(q, shares, t);
    }
    forall used | Chosen(used, shares) && |f| <= |used| && used != []
      ensures Opens(g, q, emb, f, key, r, seed, xc, used)
    {
      ChosenOpen(g, q, emb, f, key, r, seed, xc, shares, used);
    }
  }

  lemma PrefixChosen<P>(q: int, shares: seq<Share<P>>, t: nat)
    requires GoodShares(q, shares) && t <= |shares|
    ensures Chosen(shares[..t], shares)
  {
    forall k | 0 <= k < t ensures shares[..t][k] in shares {
      assert shares[..t][k] == shares[k];
    }
  }

  lemma ChosenOpen<P(!new)>(g: Group<P>, q: int, emb: Embedding<P>, f: seq<int>, key: seq<Byte>, r: int,
                            seed: nat -> int, xc: int, shares: seq<Share<P>>, used: seq<Share<P>>)
    requires IsModule(g, q) && IsPrime(q) && Faithful(emb) && GoodShares(q, shares)
    requires forall k :: 0 <= k < |shares| ==> Honest(g, f, g.mul(g.base, r), g.mul(g.base, xc), shares[k])
    requires Chosen(used, shares) && |f| <= |used| && used != []
    ensures Opens(g, q, emb, f, key, r, seed, xc, used)
  {
    hide IsPrime, IsModule, Faithful, Recover, Blind, Unblind, KeyInverse, Honest;
    forall k | 0 <= k < |used|
      ensures 1 + used[k].i < q && Honest(g, f, g.mul(g.base, r), g.mul(g.base, xc), used[k])
    {
      assert used[k] in shares;
      var m :| 0 <= m < |shares| && shares[m] == used[k];
    }
    KeyDelivered(g, q, emb, f, key, r, seed, xc, used);
  }

  // ---------- transport of decrypted shares ----------

  /** An ElGamal ciphertext in chunks. */
  datatype Sealed<P> = Sealed(K: P, Cs: seq<P>)

  /** `Pick` uses `PickLen` bytes, or all that is left. */
  ghost predicate UsesPickLen<P>(emb: Embedding<P>) {
    forall d: seq<Byte>, s: int :: d != [] ==>
      Take(emb, d, s) == if |d| < emb.pickLen then |d| else emb.pickLen
  }

  /** `elGamalEncrypt` of marshalled bytes for the random scalar k. */
  method ElGamalEncrypt<P(!new)>(g: Group<P>, emb: Embedding<P>, bytes: seq<Byte>, rPubKey: P, k: int,
                                 seed: nat -> int) returns (s: Sealed<P>)
    requires Faithful(emb) && UsesPickLen(emb)
    ensures s == Sealed(g.mul(g.base, k), Blind(g, emb, g.mul(rPubKey, k), bytes, seed, 0))
  {
    hide Blind, Faithful, Take;
    var S := g.mul(rPubKey, k);
    var msg, i, Cs := bytes, 0, [];
    while msg != []
      invariant Cs + Blind(g, emb, S, msg, seed, i) == Blind(g, emb, S, bytes, seed, 0)
      decreases |msg|
    {
      BlindStep(g, emb, S, Cs, msg, seed, i);
      assert Take(emb, msg, seed(i)) == if |msg| < emb.pickLen then |msg| else emb.pickLen;
      var kp := emb.pick(msg, seed(i));
      Cs := Cs + [g.add(S, kp)];
      msg, i := msg[if |msg| < emb.pickLen then |msg| else emb.pickLen..], i + 1;
    }
    BlindEnd(g, emb, S, Cs, seed, i);
    s := Sealed(g.mul(g.base, k), Cs);
  }

  /** Unblinding that skips points without data, as `ElGamalDecrypt` does. */
  function UnblindSkipping<P>(g: Group<P>, emb: Embedding<P>, inv: P, cs: seq<P>): seq<Byte> {
    if cs == [] then []
    else
      (match emb.data(g.add(cs[0], inv)) case None => [] case Some(part) => part)
      + UnblindSkipping(g, emb, inv, cs[1..])
  }

  /** Points are decrypted one by one, and one without data contributes nothing, whatever comes after it. */
  lemma {:induction false} SkippingConcat<P>(g: Group<P>, emb: Embedding<P>, inv: P, a: seq<P>, b: seq<P>)
    ensures UnblindSkipping(g, emb, inv, a + b) == UnblindSkipping(g, emb, inv, a) + UnblindSkipping(g, emb, inv, b)
    ensures |a| == 1 && emb.data(g.add(a[0], inv)).None? ==> UnblindSkipping(g, emb, inv, a) == []
    decreases |a|
  {
    if a == [] {
      assert a + b == b;
    } else {
      SkippingConcat(g, emb, inv, a[1..], b);
      assert (a + b)[1..] == a[1..] + b;
    }
  }

  lemma {:induction false} SkippingAgrees<P>(g: Group<P>, emb: Embedding<P>, inv: P, cs: seq<P>)
    requires Unblind(g, emb, inv, cs).Some?
    ensures UnblindSkipping(g, emb, inv, cs) == Unblind(g, emb, inv, cs).value
    decreases |cs|
  {
    if cs != [] { SkippingAgrees(g, emb, inv, cs[1..]); }
  }

  method ElGamalOpen<P>(g: Group<P>, emb: Embedding<P>, s: Sealed<P>, privKey: int) returns (b: seq<Byte>)
    ensures b == UnblindSkipping(g, emb, g.neg(g.mul(s.K, privKey)), s.Cs)
  {
    b := [];
    ghost var inv := g.neg(g.mul(s.K, privKey));
    assert s.Cs[0..] == s.Cs;
    for i := 0 to |s.Cs|
      invariant b + UnblindSkipping(g, emb, inv, s.Cs[i..]) == UnblindSkipping(g, emb, inv, s.Cs)
    {
      assert s.Cs[i..][1..] == s.Cs[i + 1..];
      var S := g.mul(s.K, privKey);
      var part := emb.data(g.add(s.Cs[i], g.neg(S)));
      if part.Some? { b := b + part.value; }
    }
    assert s.Cs[|s.Cs|..] == [];
  }

  /** Chunked encryption under the reader's public key and decryption with his private key. */
  lemma TransportRoundTrip<P(!new)>(g: Group<P>, q: int, emb: Embedding<P>, bytes: seq<Byte>, privKey: int,
                                    k: int, seed: nat -> int)
    requires IsModule(g, q) && Faithful(emb)
    ensures UnblindSkipping(g, emb, g.neg(g.mul(g.mul(g.base, k), privKey)),
                            Blind(g, emb, g.mul(g.mul(g.base, privKey), k), bytes, seed, 0)) == bytes
  {
    hide IsModule, Faithful, Blind, Unblind, UnblindSkipping;
    MulMul(g, q, g.base, k, privKey);
    MulMul(g, q, g.base, privKey, k);
    assert k * privKey == privKey * k;
    var s := g.mul(g.mul(g.base, privKey), k);
    UnblindBlind(g, q, emb, s, bytes, seed, 0);
    SkippingAgrees(g, emb, g.neg(s), Blind(g, emb, s, bytes, seed, 0));
  }

  /** Whatever order the decrypted shares arrive in, if their indices are those of all n trustees
      then share i is in slot i. */
  lemma SharesInOrder<T>(n: nat, items: seq<T>, index: T -> int, i: nat)
    requires DistinctIndices(n, items, index) && |items| == n && i < n
    ensures PlaceAll(Slots(n), items, index).Some?
    ensures var r := PlaceAll(Slots(n), items, index).value;
            r[i].Some? && index(r[i].value) == i && r[i].value in items
  {
    Placed(Slots(n), items, index);
    var k := SomeHasIndex(n, items, index, i);
    assert PlaceAll(Slots(n), items, index).value[index(items[k])] == Some(items[k]);
  }

  /** n distinct indices below n hit every index. */
  lemma {:induction false} SomeHasIndex<T>(n: nat, items: seq<T>, index: T -> int, i: nat) returns (k: nat)
    requires DistinctIndices(n, items, index) && |items| == n && i < n
    ensures k < n && index(items[k]) == i
    decreases n
  {
    if m :| 0 <= m < n && index(items[m]) == n - 1 {
      if i == n - 1 {
        k := m;
      } else {
        var rest := items[..m] + items[m + 1..];
        assert forall j :: 0 <= j < |rest| ==> rest[j] == items[if j < m then j else j + 1];
        var k' := SomeHasIndex(n - 1, rest, index, i);
        k := if k' < m then k' else k' + 1;
      }
    } else {
      Pigeonhole(n - 1, items, index);
      assert false;
    }
  }

  /** More items than indices cannot all be distinct. */
  lemma {:induction false} Pigeonhole<T>(n: nat, items: seq<T>, index: T -> int)
    requires |items| > n
    requires forall k :: 0 <= k < |items| ==> 0 <= index(items[k]) < n
    ensures exists k, m :: 0 <= k < m < |items| && index(items[k]) == index(items[m])
    decreases n
  {
    assert index(items[0]) < n;
    if n > 0 {
      if m :| 0 <= m < |items| && index(items[m]) == n - 1 {
        if j :| 0 <= j < |items| && j != m && index(items[j]) == n - 1 {
          assert index(items[if j < m then j else m]) == index(items[if j < m then m else j]);
        } else {
          var rest := items[..m] + items[m + 1..];
          assert forall j :: 0 <= j < |rest| ==> rest[j] == items[if j < m then j else j + 1];
          Pigeonhole(n - 1, rest, index);
          var a, b :| 0 <= a < b < |rest| && index(rest[a]) == index(rest[b]);
          assert index(items[if a < m then a else a + 1]) == index(items[if b < m then b else b + 1]);
        }
      } else {
        Pigeonhole(n - 1, items, index);
      }
    }
  }

  /** `network.Marshal` and `network.Unmarshal` of one message type. */
  datatype Marshaller<!T> = Marshaller(marshal: T -> seq<Byte>, unmarshal: seq<Byte> -> Option<T>)

  ghost predicate Lossless<T(!new)>(m: Marshaller<T>) {
    forall x: T :: m.unmarshal(m.marshal(x)) == Some(x)
  }

  function Opened<P, T>(g: Group<P>, emb: Embedding<P>, m: Marshaller<T>, s: Sealed<P>, privKey: int): Option<T> {
    m.unmarshal(UnblindSkipping(g, emb, g.neg(g.mul(s.K, privKey)), s.Cs))
  }

  /** `ElGamalDecrypt` of all shares; None when one of them does not unmarshal. */
  function OpenAll<P, T>(g: Group<P>, emb: Embedding<P>, m: Marshaller<T>, shares: seq<Sealed<P>>, privKey: int)
    : (r: Option<seq<T>>)
    ensures r.Some? ==> |r.value| == |shares|
    decreases |shares|
  {
    if shares == [] then Some([])
    else
      var n := |shares| - 1;
      match OpenAll(g, emb, m, shares[..n], privKey)
      case None => None
      case Some(xs) =>
        match Opened(g, emb, m, shares[n], privKey)
        case None => None
        case Some(x) => Some(xs + [x])
  }

  /** Decryption fails if and only if some share does not unmarshal. */
  lemma {:induction false} OpenFailsIff<P, T>(g: Group<P>, emb: Embedding<P>, m: Marshaller<T>,
                                              shares: seq<Sealed<P>>, privKey: int)
    ensures OpenAll(g, emb, m, shares, privKey).None? <==>
              exists i :: 0 <= i < |shares| && Opened(g, emb, m, shares[i], privKey).None?
    decreases |shares|
  {
    if shares != [] { OpenFailsIff(g, emb, m, shares[..|shares| - 1], privKey); }
  }

  /** A share that does not unmarshal makes the whole decryption fail. */
  lemma {:induction false} OpenAllFails<P, T>(g: Group<P>, emb: Embedding<P>, m: Marshaller<T>,
                                              shares: seq<Sealed<P>>, privKey: int, i: nat)
    requires i <= |shares| && OpenAll(g, emb, m, shares[..i], privKey).None?
    ensures OpenAll(g, emb, m, shares, privKey).None?
    decreases |shares|
  {
    if i < |shares| {
      assert shares[..|shares| - 1][..i] == shares[..i];
      OpenAllFails(g, emb, m, shares[..|shares| - 1], privKey, i);
    } else {
      assert shares[..i] == shares;
    }
  }

  /** `ElGamalDecrypt`, then the placement of `GetDecryptedShares`; None is an error or a panic. */
  method GetDecryptedShares<P, T>(g: Group<P>, emb: Embedding<P>, m: Marshaller<T>, shares: seq<Sealed<P>>,
                                  privKey: int, index: T -> int) returns (r: Option<seq<Option<T>>>)
    ensures r == match OpenAll(g, emb, m, shares, privKey)
                 case None => None
                 case Some(xs) => PlaceAll(Slots(|shares|), xs, index)
  {
    var decShares: seq<T> := [];
    for i := 0 to |shares|
      invariant OpenAll(g, emb, m, shares[..i], privKey) == Some(decShares)
    {
      assert shares[..i + 1][..i] == shares[..i];
      var bytes := ElGamalOpen(g, emb, shares[i], privKey);
      var x := m.unmarshal(bytes);
      if x.None? {
        OpenAllFails(g, emb, m, shares, privKey, i + 1);
        return None;
      }
      decShares := decShares + [x.value];
    }
    assert shares[..|shares|] == shares;
    r := Place(Slots(|shares|), decShares, index);
  }

  /** What a trustee sends for its share x, with its own random scalar and stream. */
  function SealedShare<P(!new), T>(g: Group<P>, emb: Embedding<P>, m: Marshaller<T>, x: T, rPubKey: P,
                                   k: int, seed: nat -> int): Sealed<P>
    requires Faithful(emb)
  {
    Sealed(g.mul(g.base, k), Blind(g, emb, g.mul(rPubKey, k), m.marshal(x), seed, 0))
  }

  lemma {:induction false} OpenAllSealed<P(!new), T(!new)>(g: Group<P>, q: int, emb: Embedding<P>,
      m: Marshaller<T>, xs: seq<T>, shares: seq<Sealed<P>>, privKey: int, ks: seq<int>, seeds: seq<nat -> int>)
    requires IsModule(g, q) && Faithful(emb) && Lossless(m) && |shares| == |xs| == |ks| == |seeds|
    requires forall j :: 0 <= j < |xs| ==>
               shares[j] == SealedShare(g, emb, m, xs[j], g.mul(g.base, privKey), ks[j], seeds[j])
    ensures OpenAll(g, emb, m, shares, privKey) == Some(xs)
    decreases |xs|
  {
    hide IsModule, Faithful, Blind, UnblindSkipping;
    if xs != [] {
      var n := |xs| - 1;
      OpenAllSealed(g, q, emb, m, xs[..n], shares[..n], privKey, ks[..n], seeds[..n]);
      TransportRoundTrip(g, q, emb, m.marshal(xs[n]), privKey, ks[n], seeds[n]);
      assert shares[n] == SealedShare(g, emb, m, xs[n], g.mul(g.base, privKey), ks[n], seeds[n]);
      assert xs == xs[..n] + [xs[n]];
    }
  }

  /** Share transport: the sealed shares of all trustees, received in any order, decrypt to the
      shares sent, and the reader's array holds the share of trustee i in slot i. */
  lemma SharesDelivered<P(!new), T(!new)>(g: Group<P>, q: int, emb: Embedding<P>, m: Marshaller<T>, xs: seq<T>,
      shares: seq<Sealed<P>>, privKey: int, ks: seq<int>, seeds: seq<nat -> int>, index: T -> int, i: nat)
    requires IsModule(g, q) && Faithful(emb) && Lossless(m) && |shares| == |xs| == |ks| == |seeds|
    requires forall j :: 0 <= j < |xs| ==>
               shares[j] == SealedShare(g, emb, m, xs[j], g.mul(g.base, privKey), ks[j], seeds[j])
    requires DistinctIndices(|xs|, xs, index) && i < |xs|
    ensures OpenAll(g, emb, m, shares, privKey) == Some(xs)
    ensures var r := PlaceAll(Slots(|shares|), xs, index);
            r.Some? && r.value[i].Some? && index(r.value[i].value) == i && r.value[i].value in xs
  {
    OpenAllSealed(g, q, emb, m, xs, shares, privKey, ks, seeds);
    SharesInOrder(|xs|, xs, index, i);
  }
}
