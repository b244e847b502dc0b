/** A node's message queue: producers append and wake the reader with a one-place token channel, a
    closer stops it. Every interleaving of the critical sections' single steps is considered, with
    the reader receiving the token outside the lock. */
module MessageQueue {

  /** What the holder of the mutex does next. */
  datatype Lock<M> =
    | Free
    | Enqueue(msg: M)      // a producer, about to append
    | Appended             // a producer, about to test whether to send the token
    | CloseSet             // the closer has set the flag, about to test whether to send the token
    | Sending              // about to send the token: blocks if there is one
    | Unlocking
    | Reading              // the reader, about to look at the flag and the queue

  datatype Reader = AtTop | Holding | Dispatching | Waiting | Stopped

  /** The fields of the node, and the histories of messages received and dispatched. */
  datatype State<M> = State(
    lock: Lock<M>,
    reader: Reader,
    queue: seq<M>,
    token: bool,
    closing: bool,
    received: seq<M>,
    dispatched: seq<M>)

  datatype Action<M> =
    | Produce(msg: M) | Append | TestProduce
    | Close | TestClose
    | Send | Unlock
    | ReaderLock | ReaderLook | DispatchDone | TakeToken

  function Init<M>(): State<M> {
    State(Free, AtTop, [], false, false, [], [])
  }

  ghost predicate Enabled<M>(s: State<M>, a: Action<M>) {
    match a
    case Produce(_) => s.lock.Free?
    case Append => s.lock.Enqueue?
    case TestProduce => s.lock.Appended?
    case Close => s.lock.Free?
    case TestClose => s.lock.CloseSet?
    case Send => s.lock.Sending? && !s.token
    case Unlock => s.lock.Unlocking?
    case ReaderLock => s.lock.Free? && s.reader.AtTop?
    case ReaderLook => s.lock.Reading?
    case DispatchDone => s.reader.Dispatching?
    case TakeToken => s.reader.Waiting? && s.token
  }

  ghost function Apply<M>(s: State<M>, a: Action<M>): State<M>
    requires Enabled(s, a)
  {
    match a
    case Produce(m) => s.(lock := Enqueue(m))
    case Append =>
      s.(lock := Appended, queue := s.queue + [s.lock.msg], received := s.received + [s.lock.msg])
    case TestProduce => s.(lock := if |s.queue| == 1 && !s.token then Sending else Unlocking)
    case Close => s.(lock := CloseSet, closing := true)
    case TestClose => s.(lock := if !s.token then Sending else Unlocking)
    case Send => s.(lock := Unlocking, token := true)
    case Unlock => s.(lock := Free)
    case ReaderLock => s.(lock := Reading, reader := Holding)
    case ReaderLook =>
      if s.closing then s.(lock := Free, reader := Stopped)
      else if s.queue != [] then
        s.(lock := Free, reader := Dispatching, queue := s.queue[1..], dispatched := s.dispatched + [s.queue[0]])
      else s.(lock := Free, reader := Waiting)
    case DispatchDone => s.(reader := AtTop)
    case TakeToken => s.(reader := AtTop, token := false)
  }

  ghost predicate Run<M>(ss: seq<State<M>>, acts: seq<Action<M>>) {
    && |ss| == |acts| + 1
    && ss[0] == Init()
    && forall k :: 0 <= k < |acts| ==> Enabled(ss[k], acts[k]) && ss[k + 1] == Apply(ss[k], acts[k])
  }

  /** Somebody will wake the reader: a token is there, or its sender is on the way to send it. */
  ghost predicate WakeComing<M>(s: State<M>) {
    s.token || s.lock.Sending? || s.lock.CloseSet? || (s.lock.Appended? && |s.queue| == 1)
  }

  ghost predicate Inv<M>(s: State<M>) {
    && (s.reader.Holding? <==> s.lock.Reading?)
    && (s.lock.Sending? ==> !s.token)
    && (s.lock.CloseSet? ==> s.closing)
    && (s.lock.Appended? ==> s.queue != [])
    && (s.reader.Waiting? && (s.queue != [] || s.closing) ==> WakeComing(s))
    && (s.reader.Stopped? ==> s.closing)
    && s.dispatched + s.queue == s.received
  }

  lemma StepKeeps<M>(s: State<M>, a: Action<M>)
    requires Inv(s) && Enabled(s, a)
    ensures Inv(Apply(s, a))
  {
    var s' := Apply(s, a);
    match a {
      case Append =>
        assert s.dispatched + (s.queue + [s.lock.msg]) == s.received + [s.lock.msg];
      case ReaderLook =>
        if !s.closing && s.queue != [] {
          assert s.dispatched + s.queue == s'.dispatched + s'.queue;
        }
      case _ =>
    }
  }

  lemma {:induction false} RunInv<M>(ss: seq<State<M>>, acts: seq<Action<M>>, k: nat)
    requires Run(ss, acts) && k <= |acts|
    ensures Inv(ss[k])
    decreases k
  {
    if k > 0 {
      RunInv(ss, acts, k - 1);
      StepKeeps(ss[k - 1], acts[k - 1]);
    }
  }

  /** No lost wake-up, in every state of every run: outside critical sections, a reader that waits
      while there are messages or a closing flag has a token to take; whoever is about to send the
      token finds the channel empty; and the messages dispatched so far followed by the queue are
      the messages received, in order. */
  lemma NoLostWakeup<M>(ss: seq<State<M>>, acts: seq<Action<M>>, k: nat)
    requires Run(ss, acts) && k <= |acts|
    ensures ss[k].lock.Free? && ss[k].reader.Waiting? && (ss[k].queue != [] || ss[k].closing) ==> ss[k].token
    ensures ss[k].lock.Sending? ==> Enabled(ss[k], Send)
    ensures ss[k].dispatched + ss[k].queue == ss[k].received
  {
    RunInv(ss, acts, k);
  }

  /** The next step of whoever holds the lock, or else of the reader. */
  ghost function NextStep<M>(s: State<M>): Action<M> {
    match s.lock
    case Enqueue(_) => Append
    case Appended => TestProduce
    case CloseSet => TestClose
    case Sending => Send
    case Unlocking => Unlock
    case Reading => ReaderLook
    case Free =>
      match s.reader
      case AtTop => ReaderLock
      case Dispatching => DispatchDone
      case _ => TakeToken
  }

  ghost predicate Idle<M>(s: State<M>) {
    s.lock.Free? && (s.reader.Stopped? || (s.reader.Waiting? && s.queue == [] && !s.closing))
  }

  /** No deadlock: until the reader has stopped or sits idle on an empty queue with nobody in a
      critical section, the lock holder or the reader can move, without any new message. */
  lemma NeverStuck<M>(ss: seq<State<M>>, acts: seq<Action<M>>, k: nat)
    requires Run(ss, acts) && k <= |acts|
    ensures !Idle(ss[k]) ==> Enabled(ss[k], NextStep(ss[k]))
  {
    RunInv(ss, acts, k);
  }

  // ---------- the steps that make progress ----------

  /** Work left before the reader waits, stops or dispatches: how far the lock holder and the
      reader are from their next look at the queue. */
  ghost function Distance<M>(s: State<M>): nat {
    (match s.lock
     case Free => 0
     case Unlocking => 1
     case Sending => 2
     case Appended => 3
     case CloseSet => 3
     case Enqueue(_) => 4
     case Reading => 0)
    +
    (match s.reader
     case Holding => 1
     case AtTop => 2
     case Dispatching => 3
     case Waiting => 4
     case Stopped => 0)
  }

  /** Left alone, the lock holder and the reader get to the next look at the queue in a bounded
      number of steps: each of their steps before it comes closer. */
  lemma StepsComeCloser<M>(s: State<M>)
    requires Inv(s) && Enabled(s, NextStep(s)) && !s.lock.Reading?
    ensures Distance(Apply(s, NextStep(s))) < Distance(s)
  {
  }

  ghost function Undelivered<M>(s: State<M>): nat {
    |s.queue| + if s.lock.Enqueue? then 1 else 0
  }

  lemma CanMove<M>(s: State<M>)
    requires Inv(s) && !Idle(s)
    ensures Enabled(s, NextStep(s))
  {
  }

  /** The state in which the lock holder and the reader come to rest when nobody else interferes. */
  ghost function Rest<M>(s: State<M>): (r: State<M>)
    requires Inv(s)
    ensures Inv(r) && Idle(r)
    decreases if Idle(s) then 0 else 1, Undelivered(s), Distance(s)
  {
    if Idle(s) then s
    else
      CanMove(s);
      var s' := Apply(s, NextStep(s));
      StepKeeps(s, NextStep(s));
      assert s.lock.Reading? || Distance(s') < Distance(s) by { if !s.lock.Reading? { StepsComeCloser(s); } }
      Rest(s')
  }

  lemma {:induction false} RestKeeps<M>(s: State<M>)
    requires Inv(s)
    ensures Rest(s).closing == s.closing
    ensures Rest(s).received == s.received + (if s.lock.Enqueue? then [s.lock.msg] else [])
    decreases if Idle(s) then 0 else 1, Undelivered(s), Distance(s)
  {
    if !Idle(s) {
      CanMove(s);
      var s' := Apply(s, NextStep(s));
      StepKeeps(s, NextStep(s));
      if !s.lock.Reading? { StepsComeCloser(s); }
      RestKeeps(s');
    }
  }

  /** From every state of every run, left alone, the reader dispatches everything that has been
      received, in order, and waits; or, if the closing flag is set, it stops. */
  lemma QueueDrains<M>(ss: seq<State<M>>, acts: seq<Action<M>>, k: nat)
    requires Run(ss, acts) && k <= |acts|
    ensures Inv(ss[k])
    ensures var r := Rest(ss[k]);
            && r.received == ss[k].received + (if ss[k].lock.Enqueue? then [ss[k].lock.msg] else [])
            && (if ss[k].closing then r.reader.Stopped? else r.dispatched == r.received)
  {
    RunInv(ss, acts, k);
    RestKeeps(ss[k]);
    var r := Rest(ss[k]);
    assert r.dispatched + [] == r.dispatched;
  }

  // ---------- closing ----------

  /** Once the closing flag is set it stays set, and the reader dispatches nothing any more, whatever is
      still in the queue or arrives. */
  lemma {:induction false} NothingAfterClosing<M>(ss: seq<State<M>>, acts: seq<Action<M>>, j: nat, k: nat)
    requires Run(ss, acts) && j <= k <= |acts| && ss[j].closing
    ensures ss[k].closing && ss[k].dispatched == ss[j].dispatched
    ensures ss[j].queue <= ss[k].queue
    decreases k
  {
    if j < k {
      NothingAfterClosing(ss, acts, j, k - 1);
      assert Enabled(ss[k - 1], acts[k - 1]);
    }
  }

  // ---------- when the token is sent ----------

  /** A producer sends the token if and only if its message is alone in the queue and no token is there; a
      closer sends it if and only if no token is there. */
  lemma TokenSentIff<M>(ss: seq<State<M>>, acts: seq<Action<M>>, k: nat)
    requires Run(ss, acts) && k < |acts|
    ensures acts[k].TestProduce? ==>
              (ss[k + 1].lock.Sending? <==> |ss[k].queue| == 1 && !ss[k].token)
    ensures acts[k].TestClose? ==> (ss[k + 1].lock.Sending? <==> !ss[k].token)
  {
    RunInv(ss, acts, k);
    assert Enabled(ss[k], acts[k]);
  }
}
