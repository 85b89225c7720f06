/**
 One poll of pkg/protocol/modbus/modbusbroker.go as a state machine: a goroutine per frame running message,
 other goroutines running DeliverAction on the same pool, the goroutine running rollVariable, and poll itself.
 Every step is one locked section, one channel operation or one local action; any interleaving is a run.
 */
module ModbusPoll {
  import opened ModbusPool
  import opened Wrappers
  import opened ModbusRead
  import opened ModbusFrame
  import opened ByteLayout
  import opened ModbusSlave
  import opened Sequences
  import Broker = ModbusBroker

  /** What a frame goroutine sends: the variables of its frame, or its errors. */
  datatype Sent = Values(vs: seq<Reading>) | Errors(es: seq<ModbusError>)

  /** Where a goroutine is in message (or, for an action, in DeliverAction). */
  datatype Phase =
    | Start
    | Waiting(key: nat)
    | Asking(m: Messenger)
    | Sending(m: Messenger, r: Sent)
    | Releasing(m: Messenger, sent: Option<Sent>)
    | Finishing(sent: Option<Sent>)
    | Done(sent: Option<Sent>)

  /**
   A frame's goroutine has what asking for its frame comes to (the outcomes of ModbusBroker.ReadFrame); an action has
   none.
   */
  datatype Thread = Thread(job: Option<Outcome>, phase: Phase)

  predicate IsFrame(t: Thread) {
    t.job.Some?
  }

  /** What a goroutine sends: a frame whose parsing panics sends nothing, nor does an action. */
  function Message(job: Option<Outcome>): Option<Sent> {
    match job
    case Some(Parsed(rs)) => Some(Values(rs))
    case Some(Failed(e)) => Some(Errors([e]))
    case Some(Panic) => None
    case None => None
  }

  /** rollVariable: collecting, then holding the result for the broker's channel, then finished. */
  datatype Roller = Roller(phase: RollerPhase, rvs: seq<Reading>, errs: seq<ModbusError>, received: seq<Sent>)

  datatype RollerPhase = Receiving | Emitting | Returned

  /** The result put on the broker's channel. */
  datatype PollResult = PollResult(rvs: seq<Reading>, errs: seq<ModbusError>)

  /** waiting is the counter of the wait group, closed whether poll has closed the channel of results. */
  datatype State = State(pool: Pool, threads: seq<Thread>, waiting: int, closed: bool,
                               roller: Roller, out: seq<PollResult>)

  // ---------------------------------------------------------------- steps

  /** All messengers are idle and no goroutine has started. */
  function Initially(messengers: seq<Messenger>, jobs: seq<Option<Outcome>>): State {
    var threads := seq(|jobs|, i requires 0 <= i < |jobs| => Thread(jobs[i], Start));
    State(Pool(|messengers|, messengers, {}, map[], 1), threads, FramesLeft(threads), false,
          Roller(Receiving, [], [], []), [])
  }

  ghost predicate SetThread(s: State, s': State, i: nat, phase: Phase)
    requires i < |s.threads|
  {
    s'.threads == s.threads[i := s.threads[i].(phase := phase)]
  }

  /** One step of goroutine i. */
  ghost predicate ThreadStep(s: State, s': State, i: nat)
    requires PoolInv(s.pool)
  {
    && i < |s.threads|
    && s'.out == s.out && s'.closed == s.closed
    && var t := s.threads[i];
       match t.phase
       case Start =>
         var (pool, r) := Acquire(s.pool);
         && s' == s.(pool := pool, threads := s'.threads)
         && SetThread(s, s', i, if r.Got? then Asking(r.messenger) else Waiting(r.key))
       case Waiting(key) =>
         && key in s.pool.mailbox
         && s' == s.(pool := PickUp(s.pool, key).0, threads := s'.threads)
         && SetThread(s, s', i, Asking(PickUp(s.pool, key).1))
       case Asking(m) =>
         // The frame's answer is parsed, or its errors are reported, or a panic is recovered from; an action sends
         // nothing.
         && s' == s.(threads := s'.threads)
         && SetThread(s, s', i, match Message(t.job) case Some(r) => Sending(m, r) case None => Releasing(m, None))
       case Sending(m, r) =>
         // An unbuffered channel: sender and receiver step together.
         && s.roller.phase == Receiving && !s.closed
         && s' == s.(threads := s'.threads, roller := Collected(s.roller, r))
         && SetThread(s, s', i, Releasing(m, Some(r)))
       case Releasing(m, sent) =>
         exists key: nat ::
           && (s.pool.idle == 0 && s.pool.requests != {} ==> key in s.pool.requests)
           && s' == s.(pool := Release(s.pool, m, key), threads := s'.threads)
           && SetThread(s, s', i, Finishing(sent))
       case Finishing(sent) =>
         && s' == s.(waiting := if IsFrame(t) then s.waiting - 1 else s.waiting, threads := s'.threads)
         && SetThread(s, s', i, Done(sent))
       case Done(_) => false
  }

  function Collected(r: Roller, x: Sent): Roller {
    match x
    case Values(vs) => r.(rvs := r.rvs + vs, received := r.received + [x])
    case Errors(es) => r.(errs := r.errs + es, received := r.received + [x])
  }

  /** poll closes the channel when the wait group is at zero. */
  ghost predicate CloseStep(s: State, s': State) {
    s.waiting == 0 && !s.closed && s' == s.(closed := true)
  }

  /** rollVariable sees the closed channel, and then puts its result on a channel with room for one. */
  ghost predicate RollStep(s: State, s': State) {
    || (s.roller.phase == Receiving && s.closed && s' == s.(roller := s.roller.(phase := Emitting)))
    || (s.roller.phase == Emitting && |s.out| < 1
        && s' == s.(roller := s.roller.(phase := Returned), out := s.out + [PollResult(s.roller.rvs, s.roller.errs)]))
  }

  ghost predicate Next(s: State, s': State)
    requires PoolInv(s.pool)
  {
    (exists i :: 0 <= i < |s.threads| && ThreadStep(s, s', i)) || CloseStep(s, s') || RollStep(s, s')
  }

  // ---------------------------------------------------------------- what the goroutines hold

  function FramesLeft(ts: seq<Thread>): nat {
    if ts == [] then 0
    else FramesLeft(ts[..|ts| - 1]) + Left(ts[|ts| - 1])
  }

  function Left(t: Thread): nat {
    if IsFrame(t) && !t.phase.Done? then 1 else 0
  }

  /** How many steps a goroutine has left. */
  function Rank(phase: Phase): nat {
    match phase
    case Start => 6
    case Waiting(_) => 5
    case Asking(_) => 4
    case Sending(_, _) => 3
    case Releasing(_, _) => 2
    case Finishing(_) => 1
    case Done(_) => 0
  }

  function Ranks(ts: seq<Thread>): nat {
    if ts == [] then 0 else Ranks(ts[..|ts| - 1]) + Rank(ts[|ts| - 1].phase)
  }

  function HeldBy(t: Thread): multiset<Messenger> {
    match t.phase
    case Asking(m) => multiset{m}
    case Sending(m, _) => multiset{m}
    case Releasing(m, _) => multiset{m}
    case _ => multiset{}
  }

  function Held(ts: seq<Thread>): multiset<Messenger> {
    if ts == [] then multiset{} else Held(ts[..|ts| - 1]) + HeldBy(ts[|ts| - 1])
  }

  function SentBy(t: Thread): multiset<Sent> {
    match t.phase
    case Releasing(_, Some(r)) => multiset{r}
    case Finishing(Some(r)) => multiset{r}
    case Done(Some(r)) => multiset{r}
    case _ => multiset{}
  }

  function AllSent(ts: seq<Thread>): multiset<Sent> {
    if ts == [] then multiset{} else AllSent(ts[..|ts| - 1]) + SentBy(ts[|ts| - 1])
  }

  function ValuesOf(received: seq<Sent>): seq<Reading> {
    if received == [] then []
    else
      var x := received[|received| - 1];
      ValuesOf(received[..|received| - 1]) + if x.Values? then x.vs else []
  }

  function ErrorsOf(received: seq<Sent>): seq<ModbusError> {
    if received == [] then []
    else
      var x := received[|received| - 1];
      ErrorsOf(received[..|received| - 1]) + if x.Errors? then x.es else []
  }

  /** The readings a goroutine has handed over. */
  function ReadBy(t: Thread): multiset<Reading> {
    match t.phase
    case Releasing(_, Some(Values(vs))) => multiset(vs)
    case Finishing(Some(Values(vs))) => multiset(vs)
    case Done(Some(Values(vs))) => multiset(vs)
    case _ => multiset{}
  }

  function AllRead(ts: seq<Thread>): multiset<Reading> {
    if ts == [] then multiset{} else AllRead(ts[..|ts| - 1]) + ReadBy(ts[|ts| - 1])
  }

  lemma MovePart<T>(x: multiset<T>, x': multiset<T>, h: multiset<T>, h': multiset<T>, y: multiset<T>)
    requires x' + h == x + h'
    ensures (x' + y) + h == (x + y) + h'
  {
    assert (x' + y) + h == (x' + h) + y && (x + y) + h' == (x + h') + y;
  }

  lemma Cancel<T>(x: multiset<T>, x': multiset<T>, y: multiset<T>, y': multiset<T>, h: multiset<T>, h': multiset<T>)
    requires x' + h' == x + h && y' + h == y + h'
    ensures x' + y' == x + y
  {
    forall e
      ensures (x' + y')[e] == (x + y)[e]
    {
      assert (x' + h')[e] == (x + h)[e] && (y' + h)[e] == (y + h')[e];
    }
  }

  lemma CancelOne<T>(x: multiset<T>, x': multiset<T>, y': multiset<T>, h: multiset<T>, h': multiset<T>)
    requires x' + h == x + h' && y' + h == x + h'
    ensures x' == y'
  {
    forall e
      ensures x'[e] == y'[e]
    {
      assert (x' + h)[e] == (y' + h)[e];
    }
  }

  // Replacing one goroutine changes each sum by that goroutine's part.

  lemma {:induction false} HeldReplaced(ts: seq<Thread>, i: nat, t: Thread)
    requires i < |ts|
    ensures Held(ts[i := t]) + HeldBy(ts[i]) == Held(ts) + HeldBy(t)
    decreases |ts|
  {
    hide HeldBy;
    var n := |ts| - 1;
    if i < n {
      HeldReplaced(ts[..n], i, t);
      assert ts[i := t][..n] == ts[..n][i := t];
      assert Held(ts[i := t]) == Held(ts[..n][i := t]) + HeldBy(ts[n]);
      MovePart(Held(ts[..n]), Held(ts[..n][i := t]), HeldBy(ts[i]), HeldBy(t), HeldBy(ts[n]));
    } else {
      assert ts[i := t][..n] == ts[..n];
    }
  }

  lemma {:induction false} SentReplaced(ts: seq<Thread>, i: nat, t: Thread)
    requires i < |ts|
    ensures AllSent(ts[i := t]) + SentBy(ts[i]) == AllSent(ts) + SentBy(t)
    decreases |ts|
  {
    hide SentBy;
    var n := |ts| - 1;
    if i < n {
      SentReplaced(ts[..n], i, t);
      assert ts[i := t][..n] == ts[..n][i := t];
      assert AllSent(ts[i := t]) == AllSent(ts[..n][i := t]) + SentBy(ts[n]);
      MovePart(AllSent(ts[..n]), AllSent(ts[..n][i := t]), SentBy(ts[i]), SentBy(t), SentBy(ts[n]));
    } else {
      assert ts[i := t][..n] == ts[..n];
    }
  }

  lemma {:induction false} ReadReplaced(ts: seq<Thread>, i: nat, t: Thread)
    requires i < |ts|
    ensures AllRead(ts[i := t]) + ReadBy(ts[i]) == AllRead(ts) + ReadBy(t)
    decreases |ts|
  {
    hide ReadBy;
    var n := |ts| - 1;
    if i < n {
      ReadReplaced(ts[..n], i, t);
      assert ts[i := t][..n] == ts[..n][i := t];
      assert AllRead(ts[i := t]) == AllRead(ts[..n][i := t]) + ReadBy(ts[n]);
      MovePart(AllRead(ts[..n]), AllRead(ts[..n][i := t]), ReadBy(ts[i]), ReadBy(t), ReadBy(ts[n]));
    } else {
      assert ts[i := t][..n] == ts[..n];
    }
  }

  lemma {:induction false} FramesReplaced(ts: seq<Thread>, i: nat, t: Thread)
    requires i < |ts|
    ensures FramesLeft(ts[i := t]) + Left(ts[i]) == FramesLeft(ts) + Left(t)
    decreases |ts|
  {
    var n := |ts| - 1;
    if i < n {
      FramesReplaced(ts[..n], i, t);
      assert ts[i := t][..n] == ts[..n][i := t];
    } else {
      assert ts[i := t][..n] == ts[..n];
    }
  }

  lemma {:induction false} RankReplaced(ts: seq<Thread>, i: nat, t: Thread)
    requires i < |ts|
    ensures Ranks(ts[i := t]) + Rank(ts[i].phase) == Ranks(ts) + Rank(t.phase)
    decreases |ts|
  {
    var n := |ts| - 1;
    if i < n {
      RankReplaced(ts[..n], i, t);
      assert ts[i := t][..n] == ts[..n][i := t];
    } else {
      assert ts[i := t][..n] == ts[..n];
    }
  }

  // ---------------------------------------------------------------- the invariant

  /** A goroutine waits for a request exactly as long as the pool knows it, and no two wait for the same. */
  ghost predicate RequestsMatch(s: State) {
    && (forall i | 0 <= i < |s.threads| && s.threads[i].phase.Waiting? ::
          s.threads[i].phase.key in s.pool.requests || s.threads[i].phase.key in s.pool.mailbox)
    && (forall i, j | 0 <= i < j < |s.threads| && s.threads[i].phase.Waiting? && s.threads[j].phase.Waiting? ::
          s.threads[i].phase.key != s.threads[j].phase.key)
    && (forall k | k in s.pool.requests || k in s.pool.mailbox :: SomeoneWaits(s.threads, k))
  }

  ghost predicate SomeoneWaits(ts: seq<Thread>, key: nat) {
    exists i :: 0 <= i < |ts| && ts[i].phase == Waiting(key)
  }

  /** A goroutine sends, and has sent, what its job comes to. */
  predicate Faithful(t: Thread) {
    match t.phase
    case Sending(_, r) => Message(t.job) == Some(r)
    case Releasing(_, sent) => sent == Message(t.job)
    case Finishing(sent) => sent == Message(t.job)
    case Done(sent) => sent == Message(t.job)
    case _ => true
  }

  ghost predicate Inv(s: State, messengers: multiset<Messenger>) {
    && PoolInv(s.pool) && RequestsMatch(s)
    && InPool(s.pool) + Held(s.threads) == messengers
    && s.waiting == FramesLeft(s.threads)
    && (s.closed ==> s.waiting == 0)
    && (s.roller.phase != Receiving ==> s.closed)
    && multiset(s.roller.received) == AllSent(s.threads)
    && s.roller.rvs == ValuesOf(s.roller.received) && s.roller.errs == ErrorsOf(s.roller.received)
    && multiset(s.roller.rvs) == AllRead(s.threads)
    && s.out == (if s.roller.phase == Returned then [PollResult(s.roller.rvs, s.roller.errs)] else [])
    && (forall i | 0 <= i < |s.threads| :: Faithful(s.threads[i]))
  }

  /** Only goroutine i changed. */
  predicate Changed(s: State, s': State, i: nat) {
    i < |s.threads| == |s'.threads| && s'.threads == s.threads[i := s'.threads[i]]
  }

  lemma InitInv(messengers: seq<Messenger>, jobs: seq<Option<Outcome>>)
    ensures Inv(Initially(messengers, jobs), multiset(messengers))
  {
    StartHolds(Initially(messengers, jobs).threads);
  }

  lemma StartHolds(ts: seq<Thread>)
    requires forall t | t in ts :: t.phase == Start
    ensures Held(ts) == multiset{} && AllSent(ts) == multiset{} && AllRead(ts) == multiset{}
  {
  }

  /** Every step keeps the invariant. */
  lemma NextInv(s: State, s': State, messengers: multiset<Messenger>)
    requires Inv(s, messengers) && Next(s, s')
    ensures Inv(s', messengers)
  {
    hide ThreadStep, InPool, Held, AllSent, AllRead, FramesLeft, ValuesOf, ErrorsOf, RequestsMatch, PoolInv, Faithful;
    if i :| 0 <= i < |s.threads| && ThreadStep(s, s', i) {
      ThreadInv(s, s', i, messengers);
    } else {
      OtherInv(s, s', messengers);
    }
  }

  lemma OtherInv(s: State, s': State, messengers: multiset<Messenger>)
    requires Inv(s, messengers) && (CloseStep(s, s') || RollStep(s, s'))
    ensures Inv(s', messengers)
  {
    hide InPool, Held, AllSent, AllRead, FramesLeft, ValuesOf, ErrorsOf, RequestsMatch, PoolInv, Faithful;
    RequestsMatchFrame(s, s');
  }

  lemma RequestsMatchFrame(s: State, s': State)
    requires s'.pool == s.pool && s'.threads == s.threads
    ensures RequestsMatch(s') == RequestsMatch(s)
  {
  }

  lemma ThreadInv(s: State, s': State, i: nat, messengers: multiset<Messenger>)
    requires Inv(s, messengers) && ThreadStep(s, s', i)
    ensures Inv(s', messengers)
  {
    hide ThreadStep, Held, HeldBy, AllSent, SentBy, AllRead, ReadBy, FramesLeft, RequestsMatch, PoolInv, InPool,
         ValuesOf, ErrorsOf, Faithful;
    StepFrame(s, s', i);
    StepFaithful(s, s', i);
    var t, t' := s.threads[i], s'.threads[i];
    HeldReplaced(s.threads, i, t');
    SentReplaced(s.threads, i, t');
    ReadReplaced(s.threads, i, t');
    FramesReplaced(s.threads, i, t');
    PoolStep(s, s', i);
    RequestsStep(s, s', i);
    RollerStep(s, s', i);
    Cancel(InPool(s.pool), InPool(s'.pool), Held(s.threads), Held(s'.threads), HeldBy(t), HeldBy(t'));
    CancelOne(AllSent(s.threads), AllSent(s'.threads), multiset(s'.roller.received), SentBy(t), SentBy(t'));
    CancelOne(AllRead(s.threads), AllRead(s'.threads), multiset(s'.roller.rvs), ReadBy(t), ReadBy(t'));
    if IsFrame(t) {
      FrameRemains(s, i);
    }
  }

  /** What a goroutine's step can change: its own phase, the pool, the counter and what was received. */
  lemma StepFrame(s: State, s': State, i: nat)
    requires PoolInv(s.pool) && ThreadStep(s, s', i)
    ensures Changed(s, s', i)
    ensures s'.threads[i].job == s.threads[i].job
    ensures s'.closed == s.closed && s'.out == s.out && s'.roller.phase == s.roller.phase
    ensures s'.waiting + Left(s.threads[i]) == s.waiting + Left(s'.threads[i])
    ensures !s.threads[i].phase.Done?
    ensures s'.roller.phase != Receiving ==> s'.roller == s.roller
  {
    assert forall x :: Collected(s.roller, x).phase == s.roller.phase;
    hide Acquire, Release, PickUp, PoolInv, Collected;
  }

  lemma StepFaithful(s: State, s': State, i: nat)
    requires PoolInv(s.pool) && ThreadStep(s, s', i) && Faithful(s.threads[i])
    ensures i < |s'.threads| && Faithful(s'.threads[i])
  {
    hide Acquire, Release, PickUp, PoolInv, Collected, Message;
  }

  /** While the wait group is at zero no frame is left, so nothing is ever sent on the closed channel. */
  lemma {:induction false} NoFrameLeft(ts: seq<Thread>, i: nat)
    requires i < |ts| && FramesLeft(ts) == 0
    ensures IsFrame(ts[i]) ==> ts[i].phase.Done?
  {
    if i < |ts| - 1 {
      NoFrameLeft(ts[..|ts| - 1], i);
    }
  }

  lemma FrameRemains(s: State, i: nat)
    requires i < |s.threads| && s.waiting == FramesLeft(s.threads) && IsFrame(s.threads[i]) && !s.threads[i].phase.Done?
    ensures s.waiting > 0
  {
    if s.waiting == 0 {
      NoFrameLeft(s.threads, i);
    }
  }

  /** Messengers only move between the pool and the goroutine that steps. */
  lemma PoolStep(s: State, s': State, i: nat)
    requires PoolInv(s.pool) && i < |s.threads| && ThreadStep(s, s', i)
    ensures i < |s'.threads| && PoolInv(s'.pool)
    ensures InPool(s'.pool) + HeldBy(s'.threads[i]) == InPool(s.pool) + HeldBy(s.threads[i])
  {
    hide ThreadStep, InPool, PoolInv, HeldBy;
    var phase := s.threads[i].phase;
    if phase.Start? {
      AcquireStep(s, s', i);
    } else if phase.Waiting? {
      PickUpStep(s, s', i);
    } else if phase.Releasing? {
      ReleaseStep(s, s', i);
    } else {
      PoolKept(s, s', i);
    }
  }

  lemma AcquireStep(s: State, s': State, i: nat)
    requires PoolInv(s.pool) && ThreadStep(s, s', i) && s.threads[i].phase.Start?
    ensures i < |s'.threads| && PoolInv(s'.pool)
    ensures InPool(s'.pool) + HeldBy(s'.threads[i]) == InPool(s.pool) + HeldBy(s.threads[i])
  {
    hide InPool, PoolInv, Acquire;
    AcquireKeeps(s.pool);
  }

  lemma PickUpStep(s: State, s': State, i: nat)
    requires PoolInv(s.pool) && ThreadStep(s, s', i) && s.threads[i].phase.Waiting?
    ensures i < |s'.threads| && PoolInv(s'.pool)
    ensures InPool(s'.pool) + HeldBy(s'.threads[i]) == InPool(s.pool) + HeldBy(s.threads[i])
  {
    hide InPool, PoolInv, PickUp;
    PickUpKeeps(s.pool, s.threads[i].phase.key);
  }

  lemma ReleaseStep(s: State, s': State, i: nat)
    requires PoolInv(s.pool) && ThreadStep(s, s', i) && s.threads[i].phase.Releasing?
    ensures i < |s'.threads| && PoolInv(s'.pool)
    ensures InPool(s'.pool) + HeldBy(s'.threads[i]) == InPool(s.pool) + HeldBy(s.threads[i])
  {
    hide InPool, PoolInv, Release;
    var m := s.threads[i].phase.m;
    var key: nat :| (s.pool.idle == 0 && s.pool.requests != {} ==> key in s.pool.requests)
                    && s' == s.(pool := Release(s.pool, m, key), threads := s'.threads)
                    && SetThread(s, s', i, Finishing(s.threads[i].phase.sent));
    ReleaseKeeps(s.pool, m, key);
  }

  lemma PoolKept(s: State, s': State, i: nat)
    requires PoolInv(s.pool) && ThreadStep(s, s', i)
    requires s.threads[i].phase.Asking? || s.threads[i].phase.Sending? || s.threads[i].phase.Finishing?
             || s.threads[i].phase.Done?
    ensures i < |s'.threads| && PoolInv(s'.pool)
    ensures InPool(s'.pool) + HeldBy(s'.threads[i]) == InPool(s.pool) + HeldBy(s.threads[i])
  {
    hide InPool, PoolInv;
  }

  lemma RequestsStep(s: State, s': State, i: nat)
    requires PoolInv(s.pool) && RequestsMatch(s) && ThreadStep(s, s', i)
    ensures RequestsMatch(s')
  {
    hide RequestsMatch, Collected;
    var phase, phase' := s.threads[i].phase, s'.threads[i].phase;
    if phase'.Waiting? {
      NewRequest(s, s', i);
    } else if phase.Waiting? {
      RequestServed(s, s', i, phase.key);
    } else {
      assert s'.pool.requests + s'.pool.mailbox.Keys == s.pool.requests + s.pool.mailbox.Keys;
      RequestsSame(s, s', i);
    }
  }

  lemma RequestsSame(s: State, s': State, i: nat)
    requires RequestsMatch(s) && Changed(s, s', i)
    requires !s.threads[i].phase.Waiting? && !s'.threads[i].phase.Waiting?
    requires s'.pool.requests + s'.pool.mailbox.Keys == s.pool.requests + s.pool.mailbox.Keys
    ensures RequestsMatch(s')
  {
    forall k | k in s'.pool.requests || k in s'.pool.mailbox
      ensures SomeoneWaits(s'.threads, k)
    {
      assert k in s.pool.requests + s.pool.mailbox.Keys;
      OtherWaits(s, s', i, k);
    }
    forall j | 0 <= j < |s'.threads| && s'.threads[j].phase.Waiting?
      ensures s'.threads[j].phase.key in s'.pool.requests || s'.threads[j].phase.key in s'.pool.mailbox
    {
      assert s.threads[j].phase.key in s.pool.requests + s.pool.mailbox.Keys;
    }
  }

  lemma OtherWaits(s: State, s': State, i: nat, k: nat)
    requires Changed(s, s', i)
    requires SomeoneWaits(s.threads, k) && s.threads[i].phase != Waiting(k)
    ensures SomeoneWaits(s'.threads, k)
  {
    var j :| 0 <= j < |s.threads| && s.threads[j].phase == Waiting(k);
    assert s'.threads[j].phase == Waiting(k);
  }

  lemma NewRequest(s: State, s': State, i: nat)
    requires RequestsMatch(s) && PoolInv(s.pool)
    requires Changed(s, s', i)
    requires !s.threads[i].phase.Waiting? && s'.threads[i].phase == Waiting(s.pool.next)
    requires s'.pool.requests == s.pool.requests + {s.pool.next} && s'.pool.mailbox == s.pool.mailbox
    ensures RequestsMatch(s')
  {
    forall k | k in s'.pool.requests || k in s'.pool.mailbox
      ensures SomeoneWaits(s'.threads, k)
    {
      if k == s.pool.next {
        assert s'.threads[i].phase == Waiting(k);
      } else {
        OtherWaits(s, s', i, k);
      }
    }
  }

  lemma RequestServed(s: State, s': State, i: nat, key: nat)
    requires RequestsMatch(s) && PoolInv(s.pool)
    requires Changed(s, s', i)
    requires s.threads[i].phase == Waiting(key) && !s'.threads[i].phase.Waiting? && key in s.pool.mailbox
    requires s'.pool.requests == s.pool.requests && s'.pool.mailbox == s.pool.mailbox - {key}
    ensures RequestsMatch(s')
  {
    forall k | k in s'.pool.requests || k in s'.pool.mailbox
      ensures SomeoneWaits(s'.threads, k)
    {
      OtherWaits(s, s', i, k);
    }
  }

  lemma RollerStep(s: State, s': State, i: nat)
    requires PoolInv(s.pool) && i < |s.threads| && ThreadStep(s, s', i)
    requires s.roller.rvs == ValuesOf(s.roller.received) && s.roller.errs == ErrorsOf(s.roller.received)
    ensures i < |s'.threads|
    ensures multiset(s'.roller.received) + SentBy(s.threads[i]) == multiset(s.roller.received) + SentBy(s'.threads[i])
    ensures multiset(s'.roller.rvs) + ReadBy(s.threads[i]) == multiset(s.roller.rvs) + ReadBy(s'.threads[i])
    ensures s'.roller.rvs == ValuesOf(s'.roller.received) && s'.roller.errs == ErrorsOf(s'.roller.received)
  {
    hide ThreadStep, PoolInv, ValuesOf, ErrorsOf, SentBy, ReadBy;
    if s.threads[i].phase.Sending? {
      SendStep(s, s', i);
    } else {
      RollerKept(s, s', i);
    }
  }

  lemma SendStep(s: State, s': State, i: nat)
    requires PoolInv(s.pool) && ThreadStep(s, s', i) && s.threads[i].phase.Sending?
    requires s.roller.rvs == ValuesOf(s.roller.received) && s.roller.errs == ErrorsOf(s.roller.received)
    ensures i < |s'.threads|
    ensures multiset(s'.roller.received) + SentBy(s.threads[i]) == multiset(s.roller.received) + SentBy(s'.threads[i])
    ensures multiset(s'.roller.rvs) + ReadBy(s.threads[i]) == multiset(s.roller.rvs) + ReadBy(s'.threads[i])
    ensures s'.roller.rvs == ValuesOf(s'.roller.received) && s'.roller.errs == ErrorsOf(s'.roller.received)
  {
    hide PoolInv, Collected, ValuesOf, ErrorsOf;
    CollectOne(s.roller, s.threads[i].phase.r);
  }

  lemma RollerKept(s: State, s': State, i: nat)
    requires PoolInv(s.pool) && ThreadStep(s, s', i) && !s.threads[i].phase.Sending?
    ensures i < |s'.threads| && s'.roller == s.roller && SentBy(s.threads[i]) == SentBy(s'.threads[i])
    ensures ReadBy(s.threads[i]) == ReadBy(s'.threads[i])
  {
    hide PoolInv, Acquire, Release, PickUp, Collected;
    var phase := s.threads[i].phase;
    assert s'.roller == s.roller;
    if phase.Releasing? {
      assert s'.threads[i].phase == Finishing(phase.sent);
    } else if phase.Finishing? {
      assert s'.threads[i].phase == Done(phase.sent);
    } else if phase.Asking? {
      assert s'.threads[i].phase.Releasing? ==> s'.threads[i].phase.sent == None;
    }
  }

  lemma CollectOne(r: Roller, x: Sent)
    ensures Collected(r, x).received == r.received + [x]
    ensures Collected(r, x).rvs == r.rvs + if x.Values? then x.vs else []
    ensures r.rvs == ValuesOf(r.received) ==> Collected(r, x).rvs == ValuesOf(r.received + [x])
    ensures r.errs == ErrorsOf(r.received) ==> Collected(r, x).errs == ErrorsOf(r.received + [x])
  {
    assert (r.received + [x])[..|r.received|] == r.received;
  }

  // ---------------------------------------------------------------- progress

  /** Everything is over: all goroutines, poll and rollVariable. */
  predicate Final(s: State) {
    (forall i | 0 <= i < |s.threads| :: s.threads[i].phase.Done?) && s.closed && s.roller.phase == Returned
  }

  /** Goroutine i can go on. */
  predicate Ready(s: State, i: nat)
    requires i < |s.threads|
  {
    match s.threads[i].phase
    case Waiting(key) => key in s.pool.mailbox
    case Sending(_, _) => s.roller.phase == Receiving && !s.closed
    case Done(_) => false
    case _ => true
  }

  lemma ReadySteps(s: State, i: nat)
    requires PoolInv(s.pool) && i < |s.threads| && Ready(s, i)
    ensures exists s' :: ThreadStep(s, s', i)
  {
    hide Acquire, Release, PickUp, PoolInv, Collected;
    var t := s.threads[i];
    var s' := s;
    match t.phase {
      case Start =>
        var (pool, r) := Acquire(s.pool);
        s' := s.(pool := pool,
                 threads := s.threads[i := t.(phase := if r.Got? then Asking(r.messenger) else Waiting(r.key))]);
      case Waiting(key) =>
        s' := s.(pool := PickUp(s.pool, key).0, threads := s.threads[i := t.(phase := Asking(PickUp(s.pool, key).1))]);
      case Asking(m) =>
        var phase := match Message(t.job) case Some(r) => Sending(m, r) case None => Releasing(m, None);
        s' := s.(threads := s.threads[i := t.(phase := phase)]);
      case Sending(m, r) =>
        s' := s.(threads := s.threads[i := t.(phase := Releasing(m, Some(r)))], roller := Collected(s.roller, r));
      case Releasing(m, sent) =>
        var key: nat := 0;
        if s.pool.idle == 0 && s.pool.requests != {} {
          key :| key in s.pool.requests;
        }
        s' := s.(pool := Release(s.pool, m, key), threads := s.threads[i := t.(phase := Finishing(sent))]);
      case Finishing(sent) =>
        s' := s.(waiting := if IsFrame(t) then s.waiting - 1 else s.waiting,
                 threads := s.threads[i := t.(phase := Done(sent))]);
    }
    assert ThreadStep(s, s', i);
  }

  /** A goroutine that holds a messenger can go on: the receiver stays until all frames are done. */
  lemma HolderReady(s: State, i: nat, messengers: multiset<Messenger>)
    requires Inv(s, messengers) && i < |s.threads|
    requires !s.threads[i].phase.Done? && !s.threads[i].phase.Waiting?
    ensures Ready(s, i)
  {
    hide InPool, Held, AllSent, FramesLeft, RequestsMatch;
    if s.threads[i].phase.Sending? {
      FrameRemains(s, i);
    }
  }

  lemma {:induction false} SomeoneHolds(ts: seq<Thread>)
    requires Held(ts) != multiset{}
    ensures exists i :: 0 <= i < |ts| && HeldBy(ts[i]) != multiset{}
    decreases |ts|
  {
    var n := |ts| - 1;
    if HeldBy(ts[n]) == multiset{} {
      SomeoneHolds(ts[..n]);
      var i :| 0 <= i < n && HeldBy(ts[..n][i]) != multiset{};
      assert HeldBy(ts[i]) != multiset{};
    }
  }

  /** While a request waits, the messenger it waits for is on its way or with a goroutine that can go on. */
  lemma WaiterServed(s: State, i: nat, messengers: multiset<Messenger>) returns (j: nat)
    requires Inv(s, messengers) && messengers != multiset{}
    requires i < |s.threads| && s.threads[i].phase.Waiting?
    ensures j < |s.threads| && Ready(s, j)
  {
    hide Held, AllSent, FramesLeft;
    var key := s.threads[i].phase.key;
    if key in s.pool.mailbox {
      j := i;
    } else if s.pool.mailbox != map[] {
      var k :| k in s.pool.mailbox;
      assert SomeoneWaits(s.threads, k);
      j :| j < |s.threads| && s.threads[j].phase == Waiting(k);
    } else {
      assert InPool(s.pool) == multiset{};
      SomeoneHolds(s.threads);
      j :| j < |s.threads| && HeldBy(s.threads[j]) != multiset{};
      HolderReady(s, j, messengers);
    }
  }

  /** A poll over a pool of at least one messenger never gets stuck. */
  lemma NeverStuck(s: State, messengers: multiset<Messenger>) returns (s': State)
    requires Inv(s, messengers) && messengers != multiset{} && !Final(s)
    ensures Next(s, s')
  {
    hide InPool, Held, AllSent, RequestsMatch, ThreadStep, PoolInv;
    if i :| 0 <= i < |s.threads| && !s.threads[i].phase.Done? {
      var j := i;
      if s.threads[i].phase.Waiting? {
        j := WaiterServed(s, i, messengers);
      } else {
        HolderReady(s, i, messengers);
      }
      ReadySteps(s, j);
      s' :| ThreadStep(s, s', j);
    } else {
      AllDone(s.threads);
      if !s.closed {
        s' := s.(closed := true);
      } else if s.roller.phase == Receiving {
        s' := s.(roller := s.roller.(phase := Emitting));
      } else {
        s' := s.(roller := s.roller.(phase := Returned), out := [PollResult(s.roller.rvs, s.roller.errs)]);
      }
    }
  }

  lemma AllDone(ts: seq<Thread>)
    requires forall i | 0 <= i < |ts| :: ts[i].phase.Done?
    ensures FramesLeft(ts) == 0 && Held(ts) == multiset{}
  {
  }

  /** The number of steps left, at most. */
  function StepsLeft(s: State): nat {
    Ranks(s.threads) + (if s.closed then 0 else 1)
    + match s.roller.phase case Receiving => 2 case Emitting => 1 case Returned => 0
  }

  lemma StepsDecrease(s: State, s': State)
    requires PoolInv(s.pool) && Next(s, s')
    ensures StepsLeft(s') < StepsLeft(s)
  {
    hide ThreadStep, PoolInv, Ranks, Rank;
    if i :| 0 <= i < |s.threads| && ThreadStep(s, s', i) {
      StepFrame(s, s', i);
      RankReplaced(s.threads, i, s'.threads[i]);
      RankDecreases(s, s', i);
    }
  }

  lemma RankDecreases(s: State, s': State, i: nat)
    requires PoolInv(s.pool) && ThreadStep(s, s', i)
    ensures i < |s'.threads| && Rank(s'.threads[i].phase) < Rank(s.threads[i].phase)
  {
    hide PoolInv, Acquire, Release, PickUp, Collected;
  }

  // ---------------------------------------------------------------- whole runs

  ghost predicate Step(s: State, s': State) {
    PoolInv(s.pool) && Next(s, s')
  }

  ghost predicate CanGoOn(s: State) {
    exists s' :: Step(s, s')
  }

  ghost predicate IsRun(run: seq<State>, messengers: seq<Messenger>, jobs: seq<Option<Outcome>>) {
    && run != [] && run[0] == Initially(messengers, jobs)
    && forall k | 0 < k < |run| :: Step(run[k - 1], run[k])
  }

  lemma {:induction false} RunInv(run: seq<State>, messengers: seq<Messenger>, jobs: seq<Option<Outcome>>, k: nat)
    requires IsRun(run, messengers, jobs) && k < |run|
    ensures Inv(run[k], multiset(messengers)) && Jobs(run[k].threads) == jobs
    ensures StepsLeft(run[k]) + k <= StepsLeft(run[0])
  {
    hide Inv, Next, PoolInv;
    if k == 0 {
      InitInv(messengers, jobs);
    } else {
      hide Initially;
      RunInv(run, messengers, jobs, k - 1);
      assert Step(run[k - 1], run[k]);
      NextInv(run[k - 1], run[k], multiset(messengers));
      NextJobs(run[k - 1], run[k]);
      StepsDecrease(run[k - 1], run[k]);
    }
  }

  function Jobs(ts: seq<Thread>): seq<Option<Outcome>> {
    seq(|ts|, i requires 0 <= i < |ts| => ts[i].job)
  }

  lemma NextJobs(s: State, s': State)
    requires PoolInv(s.pool) && Next(s, s')
    ensures Jobs(s'.threads) == Jobs(s.threads)
  {
    hide ThreadStep, PoolInv;
    if i :| 0 <= i < |s.threads| && ThreadStep(s, s', i) {
      StepFrame(s, s', i);
    }
  }

  function ReadingsIn(job: Option<Outcome>): multiset<Reading> {
    match job
    case Some(Parsed(rs)) => multiset(rs)
    case _ => multiset{}
  }

  /** The readings of all frames that were parsed. */
  function Results(jobs: seq<Option<Outcome>>): multiset<Reading> {
    if jobs == [] then multiset{} else Results(jobs[..|jobs| - 1]) + ReadingsIn(jobs[|jobs| - 1])
  }

  lemma {:induction false} DoneRead(ts: seq<Thread>)
    requires forall i | 0 <= i < |ts| :: ts[i].phase.Done? && Faithful(ts[i])
    ensures AllRead(ts) == Results(Jobs(ts))
  {
    hide Faithful, ReadBy, ReadingsIn;
    if ts != [] {
      var n := |ts| - 1;
      DoneRead(ts[..n]);
      assert Jobs(ts)[..n] == Jobs(ts[..n]);
      DoneOne(ts[n]);
    }
  }

  lemma DoneOne(t: Thread)
    requires t.phase.Done? && Faithful(t)
    ensures ReadBy(t) == ReadingsIn(t.job)
  {
  }

  /** What a frame's goroutine should send: one message if the frame was parsed or failed, none for a panic. */
  function MessageOf(job: Option<Outcome>): seq<Sent> {
    match job
    case Some(Parsed(rs)) => [Values(rs)]
    case Some(Failed(e)) => [Errors([e])]
    case _ => []
  }

  function Messages(jobs: seq<Option<Outcome>>): seq<Sent> {
    if jobs == [] then [] else Messages(jobs[..|jobs| - 1]) + MessageOf(jobs[|jobs| - 1])
  }

  function FailureIn(job: Option<Outcome>): multiset<ModbusError> {
    match job
    case Some(Failed(e)) => multiset{e}
    case _ => multiset{}
  }

  /** The errors of all frames that failed. */
  function Failures(jobs: seq<Option<Outcome>>): multiset<ModbusError> {
    if jobs == [] then multiset{} else Failures(jobs[..|jobs| - 1]) + FailureIn(jobs[|jobs| - 1])
  }

  lemma {:induction false} DoneSent(ts: seq<Thread>)
    requires forall i | 0 <= i < |ts| :: ts[i].phase.Done? && Faithful(ts[i])
    ensures AllSent(ts) == multiset(Messages(Jobs(ts)))
  {
    hide Faithful, SentBy, MessageOf;
    if ts != [] {
      var n := |ts| - 1;
      DoneSent(ts[..n]);
      assert Jobs(ts)[..n] == Jobs(ts[..n]);
      DoneMessage(ts[n]);
    }
  }

  lemma DoneMessage(t: Thread)
    requires t.phase.Done? && Faithful(t)
    ensures SentBy(t) == multiset(MessageOf(t.job))
  {
  }

  lemma {:induction false} MessageErrors(jobs: seq<Option<Outcome>>)
    ensures multiset(ErrorsOf(Messages(jobs))) == Failures(jobs)
  {
    hide ErrorsOf, MessageOf, FailureIn;
    if jobs == [] {
      NoMessage();
    } else {
      var n := |jobs| - 1;
      MessageErrors(jobs[..n]);
      ErrorsConcat(Messages(jobs[..n]), MessageOf(jobs[n]));
      MessageFailure(jobs[n]);
    }
  }

  lemma NoMessage()
    ensures ErrorsOf([]) == []
  {
  }

  lemma MessageFailure(job: Option<Outcome>)
    ensures multiset(ErrorsOf(MessageOf(job))) == FailureIn(job)
  {
    if MessageOf(job) != [] {
      assert MessageOf(job)[..0] == [];
    }
  }

  lemma {:induction false} ErrorsConcat(a: seq<Sent>, b: seq<Sent>)
    ensures ErrorsOf(a + b) == ErrorsOf(a) + ErrorsOf(b)
  {
    if b == [] {
      assert a + b == a;
    } else {
      ErrorsConcat(a, b[..|b| - 1]);
      assert (a + b)[..|a + b| - 1] == a + b[..|b| - 1];
    }
  }


  lemma WithoutOne<T>(a: seq<T>, b: seq<T>, i: nat)
    requires a != [] && i < |b| && b[i] == a[|a| - 1] && multiset(a) == multiset(b)
    ensures multiset(a[..|a| - 1]) == multiset(b[..i] + b[i + 1..])
  {
    var n, x := |a| - 1, b[i];
    assert a == a[..n] + [x] && b == b[..i] + [x] + b[i + 1..];
    assert multiset(b[..i] + b[i + 1..]) + multiset{x} == multiset(b);
    CancelOne(multiset(a), multiset(a[..n]), multiset(b[..i] + b[i + 1..]), multiset{x}, multiset{});
  }

  lemma ErrorsTaken(a: seq<Sent>, i: nat)
    requires i < |a|
    ensures multiset(ErrorsOf(a)) == multiset(ErrorsOf(a[..i] + a[i + 1..])) + multiset(ErrorsOf([a[i]]))
  {
    hide ErrorsOf;
    var before, x, after := a[..i], [a[i]], a[i + 1..];
    assert a == before + x + after;
    ErrorsConcat(before + x, after);
    ErrorsConcat(before, x);
    ErrorsConcat(before, after);
  }

  /** The order in which messages arrive does not change the errors they carry. */
  lemma {:induction false} ErrorsPermuted(a: seq<Sent>, b: seq<Sent>)
    requires multiset(a) == multiset(b)
    ensures multiset(ErrorsOf(a)) == multiset(ErrorsOf(b))
    decreases |a|
  {
    if a == [] {
      assert |multiset(b)| == 0;
    } else {
      var n := |a| - 1;
      assert a[n] in multiset(b);
      var i :| 0 <= i < |b| && b[i] == a[n];
      WithoutOne(a, b, i);
      assert a[..n] + a[n + 1..] == a[..n];
      hide ErrorsOf;
      ErrorsTaken(a, n);
      ErrorsTaken(b, i);
      ErrorsPermuted(a[..n], b[..i] + b[i + 1..]);
    }
  }

  /**
   How a poll ends: all messengers idle, and one result made of exactly one message for each frame that was parsed or
   failed: the readings of the parsed frames, and the errors of those that failed.
   */
  ghost predicate Completed(s: State, messengers: multiset<Messenger>) {
    && Final(s)
    && s.pool.idle == |s.pool.messengers| && multiset(s.pool.messengers) == messengers
    && s.pool.requests == {} && s.pool.mailbox == map[]
    && multiset(s.roller.received) == AllSent(s.threads) == multiset(Messages(Jobs(s.threads)))
    && s.out == [PollResult(ValuesOf(s.roller.received), ErrorsOf(s.roller.received))]
    && multiset(s.out[0].rvs) == Results(Jobs(s.threads)) && multiset(s.out[0].errs) == Failures(Jobs(s.threads))
  }

  lemma FinalMessages(s: State, messengers: multiset<Messenger>)
    requires Inv(s, messengers) && Final(s)
    ensures multiset(s.roller.received) == multiset(Messages(Jobs(s.threads)))
    ensures multiset(ErrorsOf(s.roller.received)) == Failures(Jobs(s.threads))
  {
    hide AllSent, ValuesOf, ErrorsOf, Held, InPool, AllRead, Faithful, Messages, Failures, PoolInv, RequestsMatch;
    DoneSent(s.threads);
    MessageErrors(Jobs(s.threads));
    ErrorsPermuted(s.roller.received, Messages(Jobs(s.threads)));
  }

  lemma FinalCompleted(s: State, messengers: multiset<Messenger>)
    requires Inv(s, messengers) && Final(s)
    ensures Completed(s, messengers)
  {
    hide AllSent, ValuesOf, ErrorsOf, Held, Faithful, Messages, Failures, Results, Jobs;
    AllDone(s.threads);
    DoneRead(s.threads);
    FinalMessages(s, messengers);
    forall k
      ensures !SomeoneWaits(s.threads, k)
    {
    }
    assert s.pool.mailbox.Keys == {};
  }

  /**
   Every run of a poll ends, whatever the interleaving and however many frames panic: no run is longer than
   the bound, and a run that cannot go on has completed, with the readings of all frames that were parsed.
   */
  lemma PollCompletes(run: seq<State>, messengers: seq<Messenger>, jobs: seq<Option<Outcome>>)
    requires IsRun(run, messengers, jobs) && messengers != []
    ensures |run| <= StepsLeft(run[0]) + 1 && Jobs(run[|run| - 1].threads) == jobs
    ensures Completed(run[|run| - 1], multiset(messengers)) || CanGoOn(run[|run| - 1])
    ensures Final(run[|run| - 1]) <==> Completed(run[|run| - 1], multiset(messengers))
  {
    hide Inv, Initially, Next, Completed, Final;
    var last := run[|run| - 1];
    RunInv(run, messengers, jobs, |run| - 1);
    assert messengers[0] in multiset(messengers);
    InvPool(last, multiset(messengers));
    if Final(last) {
      FinalCompleted(last, multiset(messengers));
    } else {
      var s' := NeverStuck(last, multiset(messengers));
      assert Step(last, s');
      CompletedFinal(last, multiset(messengers));
    }
  }

  // ---------------------------------------------------------------- what a poll reads

  /** The outcomes of the frames, without the actions between them. */
  function Frames(jobs: seq<Option<Outcome>>): seq<Outcome> {
    if jobs == [] then []
    else
      Frames(jobs[..|jobs| - 1]) + match jobs[|jobs| - 1] case Some(o) => [o] case None => []
  }

  /** Every frame came out as reading each of its variables alone would. */
  ghost predicate AllParsed(jobs: seq<Option<Outcome>>, mem: Memory, layout: MemoryLayout, scale: Scale,
                            groups: seq<seq<Variable>>) {
    Broker.AllDirect(Frames(jobs), mem, layout, scale, groups)
  }

  /**
   A poll whose frames all came out right ends with the direct readings of all variables of all frames, each as often as
   it is in them, in the order the frames happened to finish, and without errors.
   */
  lemma PollReads(run: seq<State>, messengers: seq<Messenger>, jobs: seq<Option<Outcome>>, mem: Memory,
                  layout: MemoryLayout, scale: Scale, groups: seq<seq<Variable>>)
    requires IsRun(run, messengers, jobs) && messengers != [] && Final(run[|run| - 1])
    requires AllParsed(jobs, mem, layout, scale, groups)
    ensures var out := run[|run| - 1].out;
            && |out| == 1 && out[0].errs == []
            && multiset(out[0].rvs) == multiset(Broker.DirectReadings(mem, layout, scale, Concat(groups)))
  {
    hide Inv, Initially, Next, Final, AllParsed, Broker.DirectReadings, Results, AllSent, ErrorsOf, ValuesOf;
    var last := run[|run| - 1];
    PollCompletes(run, messengers, jobs);
    RunInv(run, messengers, jobs, |run| - 1);
    ResultsDirect(jobs, mem, layout, scale, groups);
    forall r | r in last.roller.received ensures r.Values? {
      assert r in multiset(last.roller.received);
      SentByFrame(last, multiset(messengers), r);
      ParsedValues(jobs, mem, layout, scale, groups, r);
    }
    NoErrors(last.roller.received);
  }

  lemma {:induction false} ResultsDirect(jobs: seq<Option<Outcome>>, mem: Memory, layout: MemoryLayout, scale: Scale,
                                         groups: seq<seq<Variable>>)
    requires AllParsed(jobs, mem, layout, scale, groups)
    ensures Results(jobs) == multiset(Broker.DirectReadings(mem, layout, scale, Concat(groups)))
    decreases |jobs|
  {
    hide Broker.DirectReadings;
    if jobs == [] {
      assert groups == [];
      Broker.NothingRead(mem, layout, scale);
    } else if jobs[|jobs| - 1].None? {
      ResultsDirect(jobs[..|jobs| - 1], mem, layout, scale, groups);
    } else {
      var k := |groups| - 1;
      assert Frames(jobs)[k] == jobs[|jobs| - 1].value;
      ResultsDirect(jobs[..|jobs| - 1], mem, layout, scale, groups[..k]);
      Broker.ReadingsConcat(mem, layout, scale, groups, k);
      assert groups[..k + 1] == groups;
    }
  }

  lemma SentByFrame(s: State, messengers: multiset<Messenger>, r: Sent)
    requires Inv(s, messengers) && Final(s) && r in AllSent(s.threads)
    ensures exists i :: 0 <= i < |s.threads| && Message(Jobs(s.threads)[i]) == Some(r)
  {
    hide Held, InPool, ValuesOf, ErrorsOf, AllRead, RequestsMatch, PoolInv, Message;
    Sender(s.threads, r);
    var i :| 0 <= i < |s.threads| && r in SentBy(s.threads[i]);
    assert Faithful(s.threads[i]) && s.threads[i].phase.Done?;
    assert Message(Jobs(s.threads)[i]) == Some(r);
  }

  lemma {:induction false} Sender(ts: seq<Thread>, r: Sent)
    requires r in AllSent(ts)
    ensures exists i :: 0 <= i < |ts| && r in SentBy(ts[i])
    decreases |ts|
  {
    hide SentBy;
    var n := |ts| - 1;
    if r !in SentBy(ts[n]) {
      Sender(ts[..n], r);
      var i :| 0 <= i < n && r in SentBy(ts[..n][i]);
      assert r in SentBy(ts[i]);
    }
  }

  lemma ParsedValues(jobs: seq<Option<Outcome>>, mem: Memory, layout: MemoryLayout, scale: Scale,
                     groups: seq<seq<Variable>>, r: Sent)
    requires AllParsed(jobs, mem, layout, scale, groups) && exists i :: 0 <= i < |jobs| && Message(jobs[i]) == Some(r)
    ensures r.Values?
  {
    var i :| 0 <= i < |jobs| && Message(jobs[i]) == Some(r);
    InFrames(jobs, i);
    hide Frames, Broker.DirectReadings;
  }

  lemma {:induction false} InFrames(jobs: seq<Option<Outcome>>, i: nat)
    requires i < |jobs| && jobs[i].Some?
    ensures jobs[i].value in Frames(jobs)
    decreases |jobs|
  {
    if i < |jobs| - 1 {
      InFrames(jobs[..|jobs| - 1], i);
    }
  }

  lemma {:induction false} NoErrors(received: seq<Sent>)
    requires forall r | r in received :: r.Values?
    ensures ErrorsOf(received) == []
    decreases |received|
  {
    if received != [] {
      NoErrors(received[..|received| - 1]);
      assert received[|received| - 1] in received;
    }
  }

  /** Every run can be continued until it has completed, so completed runs exist. */
  lemma {:induction false} Continued(run: seq<State>, messengers: seq<Messenger>, jobs: seq<Option<Outcome>>)
    requires IsRun(run, messengers, jobs) && messengers != []
    ensures exists full :: IsRun(full, messengers, jobs) && run <= full && Final(full[|full| - 1])
    decreases StepsLeft(run[|run| - 1])
  {
    hide Inv, Initially, Next, Completed, Final, StepsLeft;
    var last := run[|run| - 1];
    RunInv(run, messengers, jobs, |run| - 1);
    if !Final(last) {
      assert messengers[0] in multiset(messengers);
      InvPool(last, multiset(messengers));
      var s' := NeverStuck(last, multiset(messengers));
      StepsDecrease(last, s');
      assert Step(last, s');
      Continued(run + [s'], messengers, jobs);
    }
  }

  lemma FirstRun(messengers: seq<Messenger>, jobs: seq<Option<Outcome>>)
    requires messengers != []
    ensures exists run :: IsRun(run, messengers, jobs) && Final(run[|run| - 1])
  {
    hide Final, Initially;
    Continued([Initially(messengers, jobs)], messengers, jobs);
  }

  /** The poll waits for its frames and for nothing else: it can end while actions are still under way. */
  lemma WaitsForFrames(s: State, messengers: multiset<Messenger>)
    requires Inv(s, messengers)
    ensures s.waiting == 0 <==> forall i | 0 <= i < |s.threads| :: s.threads[i].job.Some? ==> s.threads[i].phase.Done?
    ensures !s.closed && s.waiting == 0 ==> PoolInv(s.pool) && Next(s, s.(closed := true))
  {
    NoneLeft(s.threads);
    hide RequestsMatch, ThreadStep, Faithful, FramesLeft;
  }

  lemma {:induction false} NoneLeft(ts: seq<Thread>)
    ensures FramesLeft(ts) == 0 <==> forall i | 0 <= i < |ts| :: ts[i].job.Some? ==> ts[i].phase.Done?
  {
    if ts != [] {
      var n := |ts| - 1;
      NoneLeft(ts[..n]);
      assert forall i | 0 <= i < n :: ts[..n][i] == ts[i];
    }
  }

  lemma InvPool(s: State, messengers: multiset<Messenger>)
    requires Inv(s, messengers)
    ensures PoolInv(s.pool)
  {
  }

  lemma CompletedFinal(s: State, messengers: multiset<Messenger>)
    ensures Completed(s, messengers) ==> Final(s)
  {
  }

  /** Nothing is sent once the channel is closed, and no messenger is with two goroutines, in any state of any run. */
  lemma RunSafe(run: seq<State>, messengers: seq<Messenger>, jobs: seq<Option<Outcome>>, k: nat, i: nat, j: nat)
    requires IsRun(run, messengers, jobs) && k < |run| && i < j < |run[k].threads|
    requires forall m | m in messengers :: multiset(messengers)[m] == 1
    ensures run[k].closed ==> !run[k].threads[i].phase.Sending?
    ensures HeldBy(run[k].threads[i]) !! HeldBy(run[k].threads[j])
    ensures HeldBy(run[k].threads[i]) !! InPool(run[k].pool)
  {
    hide Held, InPool, AllSent, HeldBy, RequestsMatch, PoolInv, Initially, Step;
    var s := run[k];
    RunInv(run, messengers, jobs, k);
    if s.closed && s.threads[i].phase.Sending? {
      FrameRemains(s, i);
    }
    HeldTwice(s.threads, i, j);
    forall m | m in HeldBy(s.threads[i])
      ensures m !in HeldBy(s.threads[j]) && m !in InPool(s.pool)
    {
      assert (InPool(s.pool) + Held(s.threads))[m] == multiset(messengers)[m];
      assert m in multiset(messengers);
      assert m in messengers;
    }
  }

  lemma {:induction false} HeldOnce(ts: seq<Thread>, i: nat)
    requires i < |ts|
    ensures HeldBy(ts[i]) <= Held(ts)
    decreases |ts|
  {
    hide HeldBy;
    if i < |ts| - 1 {
      HeldOnce(ts[..|ts| - 1], i);
    }
  }

  lemma {:induction false} HeldTwice(ts: seq<Thread>, i: nat, j: nat)
    requires i < j < |ts|
    ensures HeldBy(ts[i]) + HeldBy(ts[j]) <= Held(ts)
    decreases |ts|
  {
    hide HeldBy;
    var n := |ts| - 1;
    if j < n {
      HeldTwice(ts[..n], i, j);
    } else {
      HeldOnce(ts[..n], i);
    }
  }
}
