/** How the collector thread stops every other thread before it forks (forkscan.c 178-207 and 254-262,
    frontend.c 111-137 and 164-206).  A thread that is inside the g_in_malloc region only notes the signal and
    acknowledges it when it has left the region.  The first time, the collector thread allocates the buffer for the dead
    references between the last acknowledgement and the fork, for which it needs list_lock (buffer.c 239-244 and
    alloc.c 126-192); a reclaimer takes that lock outside the region (frontend.c 97 and buffer.c 68). */
module Handshake {
  import opened Sequences

  /** forkscan_acknowledge_signal: about to read g_cleanup_counter, about to count the signal as received, or
      waiting for the counter to change from what was read. */
  datatype Ack = ReadCounter | Count(seen: nat) | Wait(seen: nat)

  /** Where the main line of a thread is.  Busy: g_in_malloc is set.  Test: it has been cleared, and
      g_waiting_to_fork is tested next.  Clear: it was found set. */
  datatype Pc = User | Busy | Test | Clear | Acking(ack: Ack)

  datatype Handler = NoHandler | Handling(ack: Ack)

  /** `pending` is a signal sent but not yet delivered.  The handler runs on top of the main line, and further
      signals are held back while it runs. */
  datatype Thread = Thread(pc: Pc, waiting: bool, pending: bool, handler: Handler)

  /** Gathering: as many acknowledgements as signals have been counted, and the dead references are gathered next.
      Ready: they have been. */
  datatype Phase = Quiet | Signalling(next: nat) | Gathering | Ready

  /** list_lock, as far as the threads that get the signal hold it. */
  datatype Lock = Free | Held(holder: nat)

  /** `acks` records how often each thread has counted itself in this round; `deadrefs` says that the buffer for the
      dead references has been allocated. */
  datatype State = State(threads: seq<Thread>, phase: Phase, received: nat, sent: nat, counter: nat, acks: seq<nat>,
                         lock: Lock, deadrefs: bool)

  datatype Label =
    | Enter(t: nat) | Leave(t: nat) | TestWaiting(t: nat) | ClearWaiting(t: nat)
    | Deliver(t: nat) | Acknowledge(t: nat) | TakeLock(t: nat) | DropLock(t: nat)
    | StartRound | Signal | AllReceived | Gather | Fork

  const IDLE := Thread(User, false, false, NoHandler)

  ghost predicate Init(st: State) {
    && st.phase.Quiet? && |st.acks| == |st.threads| && st.lock.Free? && !st.deadrefs
    && (forall t :: 0 <= t < |st.threads| ==> st.threads[t] == IDLE)
  }

  /** The main line of a thread is what runs: it exists and no handler is on top of it. */
  ghost predicate Main(st: State, t: nat) {
    t < |st.threads| && st.threads[t].handler.NoHandler?
  }

  ghost predicate Enabled(st: State, l: Label) {
    match l
    case Enter(t) => Main(st, t) && st.threads[t].pc.User? && st.lock != Held(t)
    case Leave(t) => Main(st, t) && st.threads[t].pc.Busy?
    case TestWaiting(t) => Main(st, t) && st.threads[t].pc.Test?
    case ClearWaiting(t) => Main(st, t) && st.threads[t].pc.Clear?
    case Deliver(t) => Main(st, t) && st.threads[t].pending
    case Acknowledge(t) =>
      t < |st.threads| && t < |st.acks| && (st.threads[t].handler.Handling? || st.threads[t].pc.Acking?)
    case TakeLock(t) => Main(st, t) && st.threads[t].pc.User? && st.lock.Free?
    case DropLock(t) => Main(st, t) && st.threads[t].pc.User? && st.lock == Held(t)
    case StartRound => st.phase.Quiet?
    case Signal => st.phase.Signalling? && st.phase.next < |st.threads|
    case AllReceived => st.phase.Signalling? && st.phase.next >= |st.threads| && st.received >= st.sent
    case Gather => st.phase.Gathering? && (st.deadrefs || st.lock.Free?)
    case Fork => st.phase.Ready?
  }

  /** The frame of forkscan_acknowledge_signal that runs: the handler's, if there is one. */
  ghost function Frame(th: Thread): Ack
    requires th.handler.Handling? || th.pc.Acking?
  {
    if th.handler.Handling? then th.handler.ack else th.pc.ack
  }

  ghost function WithFrame(th: Thread, a: Ack): Thread
    requires th.handler.Handling? || th.pc.Acking?
  {
    if th.handler.Handling? then th.(handler := Handling(a)) else th.(pc := Acking(a))
  }

  ghost function WithoutFrame(th: Thread): Thread {
    if th.handler.Handling? then th.(handler := NoHandler) else th.(pc := User)
  }

  ghost function With(st: State, t: nat, th: Thread): State
    requires t < |st.threads|
  {
    st.(threads := st.threads[t := th])
  }

  ghost function AckStep(st: State, t: nat): State
    requires Enabled(st, Acknowledge(t))
  {
    var th := st.threads[t];
    match Frame(th)
    case ReadCounter => With(st, t, WithFrame(th, Count(st.counter)))
    case Count(seen) =>
      With(st, t, WithFrame(th, Wait(seen))).(received := st.received + 1, acks := st.acks[t := st.acks[t] + 1])
    case Wait(seen) => if seen == st.counter then st else With(st, t, WithoutFrame(th))
  }

  ghost function Apply(st: State, l: Label): State
    requires Enabled(st, l)
  {
    match l
    case Enter(t) => With(st, t, st.threads[t].(pc := Busy))
    case Leave(t) => With(st, t, st.threads[t].(pc := Test))
    case TestWaiting(t) => With(st, t, st.threads[t].(pc := if st.threads[t].waiting then Clear else User))
    case ClearWaiting(t) => With(st, t, st.threads[t].(pc := Acking(ReadCounter), waiting := false))
    case Deliver(t) =>
      var th := st.threads[t].(pending := false);
      With(st, t, if th.pc.Busy? then th.(waiting := true) else th.(handler := Handling(ReadCounter)))
    case Acknowledge(t) => AckStep(st, t)
    case TakeLock(t) => st.(lock := Held(t))
    case DropLock(t) => st.(lock := Free)
    case StartRound => st.(phase := Signalling(0), received := 0, sent := 0, acks := seq(|st.threads|, _ => 0))
    case Signal =>
      With(st, st.phase.next, st.threads[st.phase.next].(pending := true))
        .(phase := Signalling(st.phase.next + 1), sent := st.sent + 1)
    case AllReceived => st.(phase := Gathering)
    case Gather => st.(phase := Ready, deadrefs := true)
    case Fork => st.(phase := Quiet, counter := st.counter + 1)
  }

  ghost predicate Runs(st: State, labels: seq<Label>, st': State)
    decreases |labels|
  {
    if labels == [] then st' == st
    else Enabled(st, labels[0]) && Runs(Apply(st, labels[0]), labels[1..], st')
  }

  // ---------------------------------------------------------------- invariant

  /** This frame is the acknowledgement of the current round, under way or made. */
  ghost predicate Current(a: Ack, counter: nat) {
    a.Wait? ==> a.seen == counter
  }

  ghost predicate Made(a: Ack, counter: nat) {
    a == Wait(counter)
  }

  ghost function Bit(b: bool): nat {
    if b then 1 else 0
  }

  /** The forms that the signal of the current round can have taken at a thread. */
  ghost function Tokens(th: Thread, counter: nat): nat {
    Bit(th.pending) + Bit(th.waiting)
    + Bit(th.pc.Acking? && Current(th.pc.ack, counter))
    + Bit(th.handler.Handling? && Current(th.handler.ack, counter))
  }

  ghost predicate Acked(th: Thread, counter: nat) {
    || (th.pc.Acking? && Made(th.pc.ack, counter))
    || (th.handler.Handling? && Made(th.handler.ack, counter))
  }

  ghost predicate OldOk(a: Ack, counter: nat) {
    (a.Count? ==> a.seen == counter) && (a.Wait? ==> a.seen <= counter)
  }

  ghost predicate ThreadOk(th: Thread, counter: nat) {
    && (th.waiting ==> th.pc.Busy? || th.pc.Test? || th.pc.Clear?)
    && (th.pc.Clear? ==> th.waiting)
    && (th.handler.Handling? ==> !th.waiting && !th.pc.Busy?)
    && (th.handler.Handling? && th.pc.Acking? ==> !Current(th.pc.ack, counter))
    && (th.pc.Acking? ==> OldOk(th.pc.ack, counter))
    && (th.handler.Handling? ==> OldOk(th.handler.ack, counter))
  }

  /** Thread t has been sent the signal of the current round. */
  ghost predicate Signalled(phase: Phase, t: nat) {
    Halted(phase) || (phase.Signalling? && t < phase.next)
  }

  /** Every acknowledgement has been counted and the fork is still to come. */
  ghost predicate Halted(phase: Phase) {
    phase.Gathering? || phase.Ready?
  }

  ghost predicate RoundOk(st: State, t: nat)
    requires t < |st.threads| == |st.acks|
  {
    && Tokens(st.threads[t], st.counter) == Bit(Signalled(st.phase, t))
    && (!st.phase.Quiet? ==> st.acks[t] == Bit(Acked(st.threads[t], st.counter)))
  }

  ghost predicate Inv(st: State) {
    && |st.acks| == |st.threads|
    && (forall t: nat :: t < |st.threads| ==> ThreadOk(st.threads[t], st.counter))
    && (forall t: nat :: t < |st.threads| ==> RoundOk(st, t))
    && (!st.phase.Quiet? ==> st.received == Sum(st.acks))
    && (st.phase.Signalling? ==> st.sent == st.phase.next <= |st.threads|)
    && (Halted(st.phase) ==> st.received >= |st.threads|)
    && (st.phase.Ready? ==> st.deadrefs)
  }

  lemma InitInv(st: State)
    requires Init(st)
    ensures Inv(st)
  {
  }

  /** A step of one thread keeps the invariant if it keeps that thread's part of it. */
  lemma ThreadStep(st: State, t: nat, th: Thread)
    requires Inv(st) && t < |st.threads| && ThreadOk(th, st.counter)
    requires Tokens(th, st.counter) == Tokens(st.threads[t], st.counter)
    requires Acked(th, st.counter) == Acked(st.threads[t], st.counter)
    ensures Inv(With(st, t, th))
  {
    var st' := With(st, t, th);
    forall u: nat | u < |st'.threads| ensures RoundOk(st', u) {
      assert RoundOk(st, u);
    }
  }

  lemma MainInv(st: State, l: Label)
    requires Inv(st) && Enabled(st, l)
    requires l.Enter? || l.Leave? || l.TestWaiting? || l.ClearWaiting? || l.Deliver?
    ensures Inv(Apply(st, l))
  {
    assert ThreadOk(st.threads[l.t], st.counter) && RoundOk(st, l.t);
    ThreadStep(st, l.t, Apply(st, l).threads[l.t]);
  }

  lemma CountInv(st: State, t: nat)
    requires Inv(st) && Enabled(st, Acknowledge(t)) && Frame(st.threads[t]).Count?
    ensures Inv(Apply(st, Acknowledge(t)))
  {
    var th := st.threads[t];
    var st' := Apply(st, Acknowledge(t));
    assert ThreadOk(th, st.counter) && RoundOk(st, t);
    SumUpdate(st.acks, t, st.acks[t] + 1);
    forall u: nat | u < |st'.threads| ensures ThreadOk(st'.threads[u], st'.counter) && RoundOk(st', u) {
      assert ThreadOk(st.threads[u], st.counter) && RoundOk(st, u);
    }
  }

  lemma AckInv(st: State, t: nat)
    requires Inv(st) && Enabled(st, Acknowledge(t))
    ensures Inv(Apply(st, Acknowledge(t)))
  {
    var th := st.threads[t];
    assert ThreadOk(th, st.counter) && RoundOk(st, t);
    match Frame(th)
    case ReadCounter => ThreadStep(st, t, WithFrame(th, Count(st.counter)));
    case Count(_) => CountInv(st, t);
    case Wait(seen) => if seen != st.counter { ThreadStep(st, t, WithoutFrame(th)); }
  }

  lemma StartInv(st: State)
    requires Inv(st) && Enabled(st, StartRound)
    ensures Inv(Apply(st, StartRound))
  {
    var st' := Apply(st, StartRound);
    SumOfZeros(|st.threads|);
    forall u: nat | u < |st'.threads| ensures RoundOk(st', u) {
      assert RoundOk(st, u);
    }
  }

  lemma SignalInv(st: State)
    requires Inv(st) && Enabled(st, Signal)
    ensures Inv(Apply(st, Signal))
  {
    var st' := Apply(st, Signal);
    var t := st.phase.next;
    forall u: nat | u < |st'.threads| ensures ThreadOk(st'.threads[u], st'.counter) && RoundOk(st', u) {
      assert ThreadOk(st.threads[u], st.counter) && RoundOk(st, u);
    }
  }

  /** The steps that leave the threads alone. */
  lemma StillInv(st: State, l: Label)
    requires (l.AllReceived? || l.Gather? || l.TakeLock? || l.DropLock?) && Inv(st) && Enabled(st, l)
    ensures Inv(Apply(st, l))
  {
    var st' := Apply(st, l);
    forall u: nat | u < |st'.threads| ensures RoundOk(st', u) {
      assert RoundOk(st, u);
    }
  }

  /** Once as many acknowledgements as signals have been counted, each thread has made its own. */
  lemma EachAcked(st: State)
    requires Inv(st) && Halted(st.phase)
    ensures forall t :: 0 <= t < |st.threads| ==> st.acks[t] == 1 && Acked(st.threads[t], st.counter)
  {
    forall t: nat | t < |st.acks| ensures st.acks[t] <= 1 { assert RoundOk(st, t); }
    SumOfBits(st.acks);
    forall t: nat | t < |st.threads| ensures Acked(st.threads[t], st.counter) { assert RoundOk(st, t); }
  }

  lemma ForkInv(st: State)
    requires Inv(st) && Enabled(st, Fork)
    ensures Inv(Apply(st, Fork))
  {
    var st' := Apply(st, Fork);
    EachAcked(st);
    forall u: nat | u < |st'.threads| ensures ThreadOk(st'.threads[u], st'.counter) && RoundOk(st', u) {
      assert ThreadOk(st.threads[u], st.counter) && RoundOk(st, u) && Acked(st.threads[u], st.counter);
    }
  }

  lemma StepInv(st: State, l: Label)
    requires Inv(st) && Enabled(st, l)
    ensures Inv(Apply(st, l))
  {
    match l
    case Acknowledge(t) => AckInv(st, t);
    case StartRound => StartInv(st);
    case Signal => SignalInv(st);
    case Fork => ForkInv(st);
    case Enter(_) => MainInv(st, l);
    case Leave(_) => MainInv(st, l);
    case TestWaiting(_) => MainInv(st, l);
    case ClearWaiting(_) => MainInv(st, l);
    case Deliver(_) => MainInv(st, l);
    case _ => StillInv(st, l);
  }

  lemma {:induction false} RunInv(st: State, labels: seq<Label>, st': State)
    requires Inv(st) && Runs(st, labels, st')
    ensures Inv(st')
    decreases |labels|
  {
    if labels != [] {
      StepInv(st, labels[0]);
      RunInv(Apply(st, labels[0]), labels[1..], st');
    }
  }

  /** The thread waits for the counter to change from its present value. */
  ghost predicate Parked(th: Thread, counter: nat) {
    && (th.handler.Handling? || th.pc.Acking?)
    && Frame(th) == Wait(counter)
  }

  /** Every thread has acknowledged the signal of this round exactly once, has no signal outstanding, waits for the
      fork, and is outside the g_in_malloc region. */
  ghost predicate AllParked(st: State) {
    && |st.acks| == |st.threads| == st.received
    && forall t :: 0 <= t < |st.threads| ==>
         && st.acks[t] == 1 && Parked(st.threads[t], st.counter)
         && !st.threads[t].pending && !st.threads[t].waiting && !st.threads[t].pc.Busy?
  }

  lemma HaltedParks(st: State)
    requires Inv(st) && Halted(st.phase)
    ensures AllParked(st)
  {
    EachAcked(st);
    SumOfBits(st.acks);
    forall t: nat | t < |st.threads| ensures
      && Parked(st.threads[t], st.counter)
      && !st.threads[t].pending && !st.threads[t].waiting && !st.threads[t].pc.Busy?
    {
      assert ThreadOk(st.threads[t], st.counter) && RoundOk(st, t) && Acked(st.threads[t], st.counter);
    }
  }

  /** From the last acknowledgement to the fork every thread stands still. */
  lemma AllParkedAtFork(st0: State, labels: seq<Label>, st: State)
    requires Init(st0) && Runs(st0, labels, st) && Halted(st.phase)
    ensures AllParked(st)
  {
    InitInv(st0);
    RunInv(st0, labels, st);
    HaltedParks(st);
  }

  // ---------------------------------------------------------------- progress: to the last acknowledgement

  /** The step by which thread t gets nearer to its acknowledgement. */
  ghost function Onward(st: State, t: nat): Label
    requires t < |st.threads|
  {
    var th := st.threads[t];
    if th.handler.Handling? || (th.pc.Acking? && !th.pending) then Acknowledge(t)
    else if th.pending then Deliver(t)
    else if th.pc.Busy? then Leave(t)
    else if th.pc.Test? then TestWaiting(t)
    else ClearWaiting(t)
  }

  ghost function AckRank(a: Ack): nat {
    match a
    case ReadCounter => 2
    case Count(_) => 1
    case Wait(_) => 0
  }

  /** How many steps a thread that has been sent the signal of this round is away from its acknowledgement. */
  ghost function Rank(th: Thread): nat {
    if th.pending then if th.handler.Handling? then 7 else 6
    else if th.waiting then if th.pc.Busy? then 5 else if th.pc.Test? then 4 else 3
    else if th.handler.Handling? || th.pc.Acking? then AckRank(Frame(th))
    else 0
  }

  ghost function Ranks(threads: seq<Thread>): seq<nat> {
    seq(|threads|, i requires 0 <= i < |threads| => Rank(threads[i]))
  }

  /** All signals of the round have been sent, and acknowledgements are waited for. */
  ghost predicate Waiting(st: State) {
    st.phase.Signalling? && st.phase.next == |st.threads|
  }

  /** The step onward can be taken, and it takes the thread nearer. */
  lemma OnwardLowers(st: State, t: nat)
    requires Inv(st) && Waiting(st) && t < |st.threads| && !Acked(st.threads[t], st.counter)
    ensures Enabled(st, Onward(st, t))
    ensures Waiting(Apply(st, Onward(st, t))) && |Apply(st, Onward(st, t)).threads| == |st.threads|
    ensures Rank(Apply(st, Onward(st, t)).threads[t]) < Rank(st.threads[t])
  {
    assert ThreadOk(st.threads[t], st.counter) && RoundOk(st, t);
  }

  /** No step of anyone takes a thread further away. */
  lemma NoStepRaises(st: State, l: Label, t: nat)
    requires Inv(st) && Waiting(st) && t < |st.threads| && Enabled(st, l)
    ensures t < |Apply(st, l).threads| && Rank(Apply(st, l).threads[t]) <= Rank(st.threads[t])
  {
    assert ThreadOk(st.threads[t], st.counter) && RoundOk(st, t);
  }

  /** What the steps lower: at most seven for each thread. */
  ghost function TotalRank(st: State): nat {
    Sum(Ranks(st.threads))
  }

  lemma ThreadsStay(st: State, l: Label)
    requires Enabled(st, l)
    ensures |Apply(st, l).threads| == |st.threads|
  {
  }

  lemma TotalNotRaised(st: State, l: Label)
    requires Inv(st) && Waiting(st) && Enabled(st, l)
    ensures TotalRank(Apply(st, l)) <= TotalRank(st)
  {
    var st' := Apply(st, l);
    ThreadsStay(st, l);
    forall t: nat | t < |st.threads| ensures Ranks(st'.threads)[t] <= Ranks(st.threads)[t] {
      NoStepRaises(st, l, t);
    }
    SumAtMost(Ranks(st.threads), Ranks(st'.threads));
  }

  lemma OneMoves(st: State, l: Label, t: nat)
    requires Enabled(st, l) && (l.Acknowledge? || l.Deliver? || l.Leave? || l.TestWaiting? || l.ClearWaiting?)
    requires l.t == t
    ensures t < |st.threads| == |Apply(st, l).threads|
    ensures Apply(st, l).threads == st.threads[t := Apply(st, l).threads[t]]
    ensures Apply(st, l).lock == st.lock && Apply(st, l).deadrefs == st.deadrefs && Apply(st, l).counter == st.counter
  {
  }

  lemma OnwardLowersTotal(st: State, t: nat)
    requires Inv(st) && Waiting(st) && t < |st.threads| && !Acked(st.threads[t], st.counter)
    ensures Enabled(st, Onward(st, t)) && Waiting(Apply(st, Onward(st, t)))
    ensures TotalRank(Apply(st, Onward(st, t))) < TotalRank(st)
    ensures var st' := Apply(st, Onward(st, t));
      st'.lock == st.lock && st'.deadrefs == st.deadrefs && st'.counter == st.counter
  {
    OnwardLowers(st, t);
    var st' := Apply(st, Onward(st, t));
    OneMoves(st, Onward(st, t), t);
    assert Ranks(st'.threads) == Ranks(st.threads)[t := Rank(st'.threads[t])];
    SumUpdate(Ranks(st.threads), t, Rank(st'.threads[t]));
  }

  /** A thread that has not acknowledged, as long as acknowledgements are missing. */
  lemma SomeoneOwes(st: State) returns (t: nat)
    requires Inv(st) && Waiting(st) && st.received < st.sent
    ensures t < |st.threads| && !Acked(st.threads[t], st.counter)
  {
    if forall t :: 0 <= t < |st.acks| ==> st.acks[t] == 1 { SumOfOnes(st.acks); }
    t :| t < |st.acks| && st.acks[t] != 1;
    assert RoundOk(st, t);
  }

  /** The collector thread never waits in vain for acknowledgements.  While one is missing, some thread that owes one
      can take a step that lowers the total rank, and no step of anyone ever raises it. */
  lemma RoundIsNeverStuck(st0: State, labels: seq<Label>, st: State)
    requires Init(st0) && Runs(st0, labels, st) && Waiting(st)
    ensures st.received < st.sent ==>
              exists t: nat :: t < |st.threads| && !Acked(st.threads[t], st.counter) && Enabled(st, Onward(st, t))
                               && TotalRank(Apply(st, Onward(st, t))) < TotalRank(st)
    ensures forall l :: Enabled(st, l) ==> TotalRank(Apply(st, l)) <= TotalRank(st)
    ensures TotalRank(st) <= 7 * |st.threads|
  {
    InitInv(st0);
    RunInv(st0, labels, st);
    forall l | Enabled(st, l) ensures TotalRank(Apply(st, l)) <= TotalRank(st) { TotalNotRaised(st, l); }
    var sevens := seq(|st.threads|, _ => 7);
    SumAtMost(sevens, Ranks(st.threads));
    SumOfSame(sevens, 7);
    if st.received < st.sent {
      var t := SomeoneOwes(st);
      OnwardLowersTotal(st, t);
    }
  }

  /** From every state in which acknowledgements are waited for, the last one is TotalRank steps away at most. */
  lemma {:induction false} AcknowledgementsCome(st: State) returns (labels: seq<Label>, st': State)
    requires Inv(st) && Waiting(st)
    ensures Runs(st, labels, st') && |labels| <= TotalRank(st)
    ensures Inv(st') && Enabled(st', AllReceived)
    ensures st'.lock == st.lock && st'.deadrefs == st.deadrefs && st'.counter == st.counter
    decreases TotalRank(st)
  {
    if st.received >= st.sent { return [], st; }
    var t := SomeoneOwes(st);
    var l := Onward(st, t);
    OnwardLowersTotal(st, t);
    StepInv(st, l);
    var rest;
    rest, st' := AcknowledgementsCome(Apply(st, l));
    labels := [l] + rest;
  }

  // ---------------------------------------------------------------- progress: from there to the fork

  /** While every thread stands still, no step of a thread changes anything. */
  lemma ParkedStepIsIdle(st: State, l: Label)
    requires AllParked(st) && st.phase.Gathering? && Enabled(st, l) && !l.Gather?
    ensures Apply(st, l) == st
  {
    assert forall t :: 0 <= t < |st.threads| ==> Parked(st.threads[t], st.counter) && !st.threads[t].pending;
  }

  lemma {:induction false} HangsForever(st: State, labels: seq<Label>, st': State)
    requires AllParked(st) && st.phase.Gathering? && !st.deadrefs && st.lock.Held?
    requires Runs(st, labels, st')
    ensures st' == st
    decreases |labels|
  {
    if labels != [] {
      ParkedStepIsIdle(st, labels[0]);
      HangsForever(st, labels[1..], st');
    }
  }

  ghost predicate CanFork(st: State) {
    exists labels, st' :: Runs(st, labels, st') && Enabled(st', Fork)
  }

  /** With all acknowledgements counted, the fork can still come exactly when the buffer for the dead references is
      there from an earlier round or no thread was stopped with list_lock in its hands.  Otherwise nothing changes any
      more, whatever the threads do. */
  lemma ForksExactly(st0: State, before: seq<Label>, st: State)
    requires Init(st0) && Runs(st0, before, st) && st.phase.Gathering?
    ensures CanFork(st) <==> st.deadrefs || st.lock.Free?
    ensures !CanFork(st) ==> forall labels, st' :: Runs(st, labels, st') ==> st' == st
  {
    AllParkedAtFork(st0, before, st);
    if st.deadrefs || st.lock.Free? {
      var st' := Apply(st, Gather);
      assert Runs(st', [], st') && [Gather][1..] == [];
      assert Runs(st, [Gather], st') && Enabled(st', Fork);
    } else {
      forall labels, st' | Runs(st, labels, st') ensures st' == st { HangsForever(st, labels, st'); }
    }
  }

  /** After the first fork the buffer is there, so that no later round can hang. */
  lemma {:induction false} LaterRoundsFork(st: State, labels: seq<Label>, st': State)
    requires Inv(st) && Runs(st, labels, st')
    ensures st.deadrefs || Fork in labels ==> st'.deadrefs
    decreases |labels|
  {
    if labels != [] {
      StepInv(st, labels[0]);
      LaterRoundsFork(Apply(st, labels[0]), labels[1..], st');
    }
  }

  lemma RunsOn(st: State, l: Label, labels: seq<Label>, st': State)
    requires Enabled(st, l) && Runs(Apply(st, l), labels, st')
    ensures Runs(st, [l] + labels, st')
  {
    assert ([l] + labels)[1..] == labels;
  }

  /** A first round that hangs: the only thread is stopped just after it has taken list_lock. */
  lemma FirstRoundCanHang() returns (st0: State, labels: seq<Label>, st: State)
    ensures Init(st0) && Runs(st0, labels, st) && st.phase.Gathering? && !CanFork(st)
  {
    st0 := State([IDLE], Quiet, 0, 0, 0, [0], Free, false);
    var locked := st0.(lock := Held(0));
    var sent := locked.(threads := [IDLE.(pending := true)], phase := Signalling(1), sent := 1);
    st := State([IDLE.(handler := Handling(Wait(0)))], Gathering, 1, 1, 0, [1], Held(0), false);
    var last := Acknowledges(sent, st);
    var started := locked.(phase := Signalling(0));
    assert Apply(started, Signal) == sent;
    RunsOn(started, Signal, last, st);
    assert Apply(locked, StartRound) == started;
    RunsOn(locked, StartRound, [Signal] + last, st);
    assert Apply(st0, TakeLock(0)) == locked;
    RunsOn(st0, TakeLock(0), [StartRound] + ([Signal] + last), st);
    labels := [TakeLock(0)] + ([StartRound] + ([Signal] + last));
    ForksExactly(st0, labels, st);
  }

  /** The signal reaches the only thread, whose handler reads the counter and counts the signal. */
  lemma Acknowledges(sent: State, st: State) returns (labels: seq<Label>)
    requires sent == State([IDLE.(pending := true)], Signalling(1), 0, 1, 0, [0], Held(0), false)
    requires st == State([IDLE.(handler := Handling(Wait(0)))], Gathering, 1, 1, 0, [1], Held(0), false)
    ensures Runs(sent, labels, st)
  {
    var stopped := sent.(threads := [IDLE.(handler := Handling(ReadCounter))]);
    var read := stopped.(threads := [IDLE.(handler := Handling(Count(0)))]);
    var counted := st.(phase := Signalling(1));
    assert Apply(counted, AllReceived) == st && Runs(st, [], st);
    RunsOn(counted, AllReceived, [], st);
    assert Apply(read, Acknowledge(0)) == counted;
    RunsOn(read, Acknowledge(0), [AllReceived] + [], st);
    assert Apply(stopped, Acknowledge(0)) == read;
    RunsOn(stopped, Acknowledge(0), [Acknowledge(0)] + ([AllReceived] + []), st);
    assert Apply(sent, Deliver(0)) == stopped;
    labels := [Deliver(0)] + ([Acknowledge(0)] + ([Acknowledge(0)] + ([AllReceived] + [])));
    RunsOn(sent, Deliver(0), labels[1..], st);
  }
}
