/** Aggregation of children's messages at a tree node: messages of an aggregated type that do not
    come from the parent are held back until there is one batch of as many as the node has
    children. */
module Aggregation {
  import opened Basics

  datatype Message = Message(ty: nat, from: nat, body: nat)

  /** The node's place in the tree and its aggregated message types. */
  datatype Config = Config(parent: Option<nat>, children: nat, aggregated: set<nat>) {
    /** Whether a message is held back. */
    predicate Holds(m: Message) {
      m.ty in aggregated && Some(m.from) != parent
    }
  }

  type Queues = map<nat, seq<Message>>

  function Pending(q: Queues, ty: nat): seq<Message> {
    if ty in q then q[ty] else []
  }

  /** `aggregate`: the new queues, and the messages to dispatch now, if any. */
  function Aggregate(c: Config, q: Queues, m: Message): (Queues, Option<seq<Message>>) {
    if !c.Holds(m) then (q, Some([m]))
    else
      var msgs := Pending(q, m.ty) + [m];
      if |msgs| == c.children then (q - {m.ty}, Some(msgs)) else (q[m.ty := msgs], None)
  }

  class TreeNodeInstance {
    const config: Config
    var msgQueue: Queues

    constructor (config: Config)
      ensures this.config == config && msgQueue == map[]
    {
      this.config := config;
      msgQueue := map[];
    }

    method AggregateMsg(m: Message) returns (done: bool, msgs: seq<Message>)
      modifies this
      ensures (msgQueue, if done then Some(msgs) else None) == Aggregate(config, old(msgQueue), m)
      ensures m.ty !in config.aggregated || config.parent == Some(m.from) ==>
                done && msgs == [m] && msgQueue == old(msgQueue)
    {
      var fromParent := config.parent == Some(m.from);
      if fromParent || m.ty !in config.aggregated {
        return true, [m];
      }
      if m.ty !in msgQueue {
        msgQueue := msgQueue[m.ty := []];
      }
      msgs := msgQueue[m.ty] + [m];
      msgQueue := msgQueue[m.ty := msgs];
      if |msgs| == config.children {
        msgQueue := msgQueue - {m.ty};
        assert msgQueue == old(msgQueue) - {m.ty};
        return true, msgs;
      }
      assert msgQueue == old(msgQueue)[m.ty := msgs];
      return false, [];
    }
  }

  // ---------- runs ----------

  /** The queues after messages have arrived one after the other. */
  function After(c: Config, ms: seq<Message>): Queues {
    if ms == [] then map[] else Aggregate(c, After(c, ms[..|ms| - 1]), ms[|ms| - 1]).0
  }

  /** What the last of the messages released. */
  function LastRelease(c: Config, ms: seq<Message>): Option<seq<Message>>
    requires ms != []
  {
    Aggregate(c, After(c, ms[..|ms| - 1]), ms[|ms| - 1]).1
  }

  /** The batches of type ty released so far, in order. */
  function Batches(c: Config, ms: seq<Message>, ty: nat): seq<seq<Message>> {
    if ms == [] then []
    else
      var m := ms[|ms| - 1];
      var before := Batches(c, ms[..|ms| - 1], ty);
      match LastRelease(c, ms)
      case Some(b) => if m.ty == ty && c.Holds(m) then before + [b] else before
      case None => before
  }

  function Concat(bs: seq<seq<Message>>): seq<Message> {
    if bs == [] then [] else Concat(bs[..|bs| - 1]) + bs[|bs| - 1]
  }

  /** The held-back messages of type ty among those that arrived. */
  function Held(c: Config, ms: seq<Message>, ty: nat): seq<Message> {
    if ms == [] then []
    else
      var m := ms[|ms| - 1];
      Held(c, ms[..|ms| - 1], ty) + if m.ty == ty && c.Holds(m) then [m] else []
  }

  lemma ConcatAppend(bs: seq<seq<Message>>, b: seq<Message>)
    ensures Concat(bs + [b]) == Concat(bs) + b
  {
    assert (bs + [b])[..|bs|] == bs;
  }

  /** Conservation, for every sequence of arrivals and every type: the batches released, one after
      the other, followed by what is pending, are the held-back messages in order of arrival; every
      batch has exactly one message a child; and less than that is pending, unless the node is a
      leaf, where nothing is ever released. */
  lemma {:induction false} Conservation(c: Config, ms: seq<Message>, ty: nat)
    ensures Concat(Batches(c, ms, ty)) + Pending(After(c, ms), ty) == Held(c, ms, ty)
    ensures forall i :: 0 <= i < |Batches(c, ms, ty)| ==> |Batches(c, ms, ty)[i]| == c.children
    ensures c.children > 0 ==> |Pending(After(c, ms), ty)| < c.children
    ensures c.children == 0 ==> Batches(c, ms, ty) == []
    decreases |ms|
  {
    hide After, Batches, Held, Pending, Concat;
    if ms == [] {
      NothingYet(c, ty);
    } else {
      var m, before := ms[|ms| - 1], ms[..|ms| - 1];
      Conservation(c, before, ty);
      if m.ty == ty && c.Holds(m) {
        var msgs := HeldStep(c, ms, ty);
        var bs := Batches(c, before, ty);
        assert Concat(bs) + msgs == Held(c, before, ty) + [m];
        if |msgs| == c.children {
          ConcatAppend(bs, msgs);
          assert Concat(bs) + msgs + [] == Concat(bs) + msgs;
        }
      } else {
        OtherStep(c, ms, ty);
      }
    }
  }

  lemma NothingYet(c: Config, ty: nat)
    ensures Batches(c, [], ty) == [] && Pending(After(c, []), ty) == [] && Held(c, [], ty) == [] && Concat([]) == []
  {
  }

  /** A held-back message of the type joins the queue, which is released when it is complete. */
  lemma HeldStep(c: Config, ms: seq<Message>, ty: nat) returns (msgs: seq<Message>)
    requires ms != [] && ms[|ms| - 1].ty == ty && c.Holds(ms[|ms| - 1])
    ensures var before := ms[..|ms| - 1];
            && msgs == Pending(After(c, before), ty) + [ms[|ms| - 1]]
            && Held(c, ms, ty) == Held(c, before, ty) + [ms[|ms| - 1]]
            && (if |msgs| == c.children
                then Pending(After(c, ms), ty) == [] && Batches(c, ms, ty) == Batches(c, before, ty) + [msgs]
                else Pending(After(c, ms), ty) == msgs && Batches(c, ms, ty) == Batches(c, before, ty))
  {
    msgs := Pending(After(c, ms[..|ms| - 1]), ty) + [ms[|ms| - 1]];
  }

  /** Any other message leaves the type's queue alone. */
  lemma OtherStep(c: Config, ms: seq<Message>, ty: nat)
    requires ms != [] && !(ms[|ms| - 1].ty == ty && c.Holds(ms[|ms| - 1]))
    ensures var before := ms[..|ms| - 1];
            && Held(c, ms, ty) == Held(c, before, ty)
            && Pending(After(c, ms), ty) == Pending(After(c, before), ty)
            && Batches(c, ms, ty) == Batches(c, before, ty)
  {
    assert Held(c, ms, ty) == Held(c, ms[..|ms| - 1], ty) + [];
  }

  /** When every child sends exactly one message of the type, the node gets exactly one batch, with
      all of them, and nothing stays behind. */
  lemma OneRound(c: Config, ms: seq<Message>, ty: nat)
    requires c.children > 0 && |Held(c, ms, ty)| == c.children
    ensures Batches(c, ms, ty) == [Held(c, ms, ty)] && Pending(After(c, ms), ty) == []
  {
    hide After, Batches, Held, Pending;
    Conservation(c, ms, ty);
    OneBatch(Batches(c, ms, ty), Pending(After(c, ms), ty), c.children);
  }

  lemma OneBatch(bs: seq<seq<Message>>, pending: seq<Message>, n: nat)
    requires forall i :: 0 <= i < |bs| ==> |bs[i]| == n
    requires |pending| < n && |Concat(bs) + pending| == n
    ensures bs == [Concat(bs) + pending] && pending == []
  {
    BatchTotal(bs, n);
    OneFactor(|bs|, n, |pending|);
    assert Concat(bs[..0]) == [];
    assert Concat(bs) == bs[0];
    assert Concat(bs) + pending == bs[0];
  }

  lemma OneFactor(k: nat, n: nat, r: nat)
    requires k * n + r == n && r < n
    ensures k == 1 && r == 0
  {
    assert k >= 2 ==> k * n >= 2 * n;
    assert k == 0 ==> k * n == 0;
  }

  lemma {:induction false} BatchTotal(bs: seq<seq<Message>>, n: nat)
    requires forall i :: 0 <= i < |bs| ==> |bs[i]| == n
    ensures |Concat(bs)| == |bs| * n
    decreases |bs|
  {
    if bs != [] {
      BatchTotal(bs[..|bs| - 1], n);
      assert |bs| * n == (|bs| - 1) * n + n;
    }
  }

  // ---------- all messages ----------

  /** Everything released so far, of all types, one release after the other. */
  function Released(c: Config, ms: seq<Message>): seq<Message> {
    if ms == [] then []
    else
      Released(c, ms[..|ms| - 1]) + match LastRelease(c, ms) case Some(b) => b case None => []
  }

  /** The messages that are dispatched as they come: of types that are not aggregated, and those from the
      parent. */
  function Direct(c: Config, ms: seq<Message>): seq<Message> {
    if ms == [] then []
    else
      var m := ms[|ms| - 1];
      Direct(c, ms[..|ms| - 1]) + if m.ty !in c.aggregated || c.parent == Some(m.from) then [m] else []
  }

  /** A message that is not aggregated or comes from the parent is released at once and alone. */
  lemma DirectAtOnce(c: Config, ms: seq<Message>)
    requires ms != [] && (ms[|ms| - 1].ty !in c.aggregated || c.parent == Some(ms[|ms| - 1].from))
    ensures LastRelease(c, ms) == Some([ms[|ms| - 1]]) && After(c, ms) == After(c, ms[..|ms| - 1])
  {
  }

  ghost predicate OwnType(q: Queues) {
    forall ty, i :: ty in q && 0 <= i < |q[ty]| ==> q[ty][i].ty == ty
  }

  lemma {:induction false} QueuesOwnType(c: Config, ms: seq<Message>)
    ensures OwnType(After(c, ms))
    decreases |ms|
  {
    if ms != [] { QueuesOwnType(c, ms[..|ms| - 1]); }
  }

  /** Nothing is lost and nothing is made up, whatever the types: every message received is either
      released or pending in the queue of its type, as often as it was received. */
  lemma {:induction false} AllAccounted(c: Config, ms: seq<Message>, x: Message)
    ensures multiset(Released(c, ms))[x] + multiset(Pending(After(c, ms), x.ty))[x] == multiset(ms)[x]
    decreases |ms|
  {
    if ms != [] {
      var n := |ms| - 1;
      AllAccounted(c, ms[..n], x);
      QueuesOwnType(c, ms[..n]);
      assert ms == ms[..n] + [ms[n]];
      StepAccounted(c, After(c, ms[..n]), ms[n], x);
    }
  }

  lemma StepAccounted(c: Config, q: Queues, m: Message, x: Message)
    requires OwnType(q)
    ensures var (q', out) := Aggregate(c, q, m);
            multiset(match out case Some(b) => b case None => [])[x] + multiset(Pending(q', x.ty))[x] ==
            multiset(Pending(q, x.ty))[x] + multiset([m])[x]
  {
    hide OwnType, Pending;
    if c.Holds(m) {
      var msgs := Pending(q, m.ty) + [m];
      OneJoins(Pending(q, m.ty), m, x);
      if x.ty == m.ty { PendingOwn(q, m.ty, msgs); } else { PendingOther(q, m.ty, x.ty, msgs, x); }
    }
  }

  lemma OneJoins(pending: seq<Message>, m: Message, x: Message)
    ensures multiset(pending + [m])[x] == multiset(pending)[x] + multiset([m])[x]
  {
  }

  lemma PendingOwn(q: Queues, ty: nat, msgs: seq<Message>)
    ensures Pending(q - {ty}, ty) == [] && Pending(q[ty := msgs], ty) == msgs
  {
  }

  lemma PendingOther(q: Queues, ty: nat, other: nat, msgs: seq<Message>, x: Message)
    requires OwnType(q) && other != ty && x.ty == other && |msgs| > 0 && msgs[|msgs| - 1].ty == ty
    requires msgs == Pending(q, ty) + [msgs[|msgs| - 1]]
    ensures Pending(q - {ty}, other) == Pending(q, other) == Pending(q[ty := msgs], other)
    ensures multiset(msgs)[x] == 0
  {
    forall i | 0 <= i < |msgs| ensures msgs[i].ty == ty {
      if i < |msgs| - 1 { assert msgs[i] == Pending(q, ty)[i]; }
    }
  }

  /** Messages that are dispatched as they come keep their order. */
  lemma {:induction false} DirectInOrder(c: Config, ms: seq<Message>)
    ensures Direct(c, Released(c, ms)) == Direct(c, ms)
    decreases |ms|
  {
    if ms != [] {
      var n := |ms| - 1;
      DirectInOrder(c, ms[..n]);
      HeldNotDirect(c, ms[..n]);
      var out := match LastRelease(c, ms) case Some(b) => b case None => [];
      DirectConcat(c, Released(c, ms[..n]), out);
      if ms[n].ty !in c.aggregated || c.parent == Some(ms[n].from) {
        assert [ms[n]][..0] == [];
      } else {
        NoneDirect(c, out);
      }
    }
  }

  ghost predicate AllHeld(c: Config, ms: seq<Message>) {
    forall i :: 0 <= i < |ms| ==> ms[i].ty in c.aggregated && c.parent != Some(ms[i].from)
  }

  lemma {:induction false} HeldNotDirect(c: Config, ms: seq<Message>)
    ensures forall ty :: ty in After(c, ms) ==> AllHeld(c, After(c, ms)[ty])
    decreases |ms|
  {
    if ms != [] { HeldNotDirect(c, ms[..|ms| - 1]); }
  }

  lemma {:induction false} NoneDirect(c: Config, ms: seq<Message>)
    requires AllHeld(c, ms)
    ensures Direct(c, ms) == []
    decreases |ms|
  {
    if ms != [] { NoneDirect(c, ms[..|ms| - 1]); }
  }

  lemma {:induction false} DirectConcat(c: Config, a: seq<Message>, b: seq<Message>)
    ensures Direct(c, a + b) == Direct(c, a) + Direct(c, b)
    decreases |b|
  {
    if b == [] {
      assert a + b == a;
    } else {
      assert (a + b)[..|a + b| - 1] == a + b[..|b| - 1];
      DirectConcat(c, a, b[..|b| - 1]);
    }
  }
}
