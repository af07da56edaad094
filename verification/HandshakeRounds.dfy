/** A whole round of the handshake: when it can be completed, and that the threads come back from it (forkscan.c 178-207
    and 254-262, frontend.c 111-137 and 198-206). */
module HandshakeRounds {
  import opened Sequences
  import opened Handshake

  lemma {:induction false} RunsJoin(st: State, labels: seq<Label>, mid: State, more: seq<Label>, st': State)
    requires Runs(st, labels, mid) && Runs(mid, more, st')
    ensures Runs(st, labels + more, st')
    decreases |labels|
  {
    if labels == [] {
      assert labels + more == more;
    } else {
      RunsJoin(Apply(st, labels[0]), labels[1..], mid, more, st');
      assert (labels + more)[1..] == labels[1..] + more;
    }
  }

  lemma RunsOne(st: State, l: Label)
    requires Enabled(st, l)
    ensures Runs(st, [l], Apply(st, l))
  {
    assert [l][1..] == [];
  }

  // ---------------------------------------------------------------- the way back

  /** Once the counter has changed, a thread that waits in forkscan_acknowledge_signal leaves it by one step: to where
      the handler has interrupted it, or to the end of the call that it made itself. */
  lemma AcknowledgeReturns(st: State, t: nat)
    requires Enabled(st, Acknowledge(t)) && Frame(st.threads[t]).Wait? && Frame(st.threads[t]).seen != st.counter
    ensures var th, st' := st.threads[t], Apply(st, Acknowledge(t));
      && |st'.threads| == |st.threads|
      && (forall u :: 0 <= u < |st.threads| && u != t ==> st'.threads[u] == st.threads[u])
      && st'.threads[t].pc == (if th.handler.Handling? then th.pc else User)
      && st'.threads[t].handler.NoHandler?
      && st'.threads[t].pending == th.pending && st'.threads[t].waiting == th.waiting
  {
  }

  /** Between two rounds nothing of a signal is left at a thread but frames that may return. */
  lemma QuietThread(st: State, t: nat)
    requires Inv(st) && st.phase.Quiet? && t < |st.threads|
    ensures var th := st.threads[t];
      && !th.pending && !th.waiting && !th.pc.Clear?
      && (th.handler.Handling? ==> th.handler.ack.Wait? && th.handler.ack.seen != st.counter)
      && (th.pc.Acking? ==> th.pc.ack.Wait? && th.pc.ack.seen != st.counter)
  {
    assert ThreadOk(st.threads[t], st.counter) && RoundOk(st, t);
  }

  /** The step by which thread t gets nearer to the end of what it is doing. */
  ghost function Homeward(st: State, t: nat): Label
    requires t < |st.threads|
  {
    var th := st.threads[t];
    if th.handler.Handling? || th.pc.Acking? then Acknowledge(t)
    else if th.pc.Busy? then Leave(t)
    else TestWaiting(t)
  }

  ghost function Away(th: Thread): nat {
    (if th.handler.Handling? then 3 else 0)
    + match th.pc
      case User => 0
      case Busy => 2
      case _ => 1
  }

  ghost function AllAway(st: State): nat {
    Sum(seq(|st.threads|, i requires 0 <= i < |st.threads| => Away(st.threads[i])))
  }

  ghost predicate SameRound(st: State, st': State) {
    && st'.phase == st.phase && st'.counter == st.counter && st'.lock == st.lock && st'.deadrefs == st.deadrefs
    && |st'.threads| == |st.threads|
  }

  lemma HomewardStep(st: State, t: nat)
    requires Inv(st) && st.phase.Quiet? && t < |st.threads| && st.threads[t] != IDLE
    ensures Enabled(st, Homeward(st, t)) && SameRound(st, Apply(st, Homeward(st, t)))
    ensures var st' := Apply(st, Homeward(st, t));
      st'.threads == st.threads[t := st'.threads[t]] && Away(st'.threads[t]) < Away(st.threads[t])
  {
    QuietThread(st, t);
  }

  lemma HomewardLowers(st: State, t: nat)
    requires Inv(st) && st.phase.Quiet? && t < |st.threads| && st.threads[t] != IDLE
    ensures Enabled(st, Homeward(st, t)) && SameRound(st, Apply(st, Homeward(st, t)))
    ensures AllAway(Apply(st, Homeward(st, t))) < AllAway(st)
  {
    HomewardStep(st, t);
    var st' := Apply(st, Homeward(st, t));
    var xs := seq(|st.threads|, i requires 0 <= i < |st.threads| => Away(st.threads[i]));
    assert xs[t := Away(st'.threads[t])]
        == seq(|st'.threads|, i requires 0 <= i < |st'.threads| => Away(st'.threads[i]));
    SumUpdate(xs, t, Away(st'.threads[t]));
  }

  ghost predicate AllIdle(st: State) {
    forall t :: 0 <= t < |st.threads| ==> st.threads[t] == IDLE
  }

  /** Between two rounds every thread can come back to what it was doing. */
  lemma {:induction false} AllComeHome(st: State) returns (labels: seq<Label>, st': State)
    requires Inv(st) && st.phase.Quiet?
    ensures Runs(st, labels, st') && Inv(st') && SameRound(st, st') && AllIdle(st')
    decreases AllAway(st)
  {
    if AllIdle(st) { return [], st; }
    var t: nat :| t < |st.threads| && st.threads[t] != IDLE;
    var l := Homeward(st, t);
    HomewardLowers(st, t);
    StepInv(st, l);
    var rest;
    rest, st' := AllComeHome(Apply(st, l));
    RunsOn(st, l, rest, st');
    labels := [l] + rest;
  }

  // ---------------------------------------------------------------- whole rounds

  /** The thread that holds list_lock is there and outside the region. */
  ghost predicate LockOk(st: State) {
    st.lock.Held? ==> st.lock.holder < |st.threads| && st.threads[st.lock.holder].pc.User?
  }

  lemma LockStep(st: State, l: Label)
    requires LockOk(st) && Enabled(st, l)
    ensures LockOk(Apply(st, l))
  {
  }

  lemma {:induction false} LockRun(st: State, labels: seq<Label>, st': State)
    requires LockOk(st) && Runs(st, labels, st')
    ensures LockOk(st')
    decreases |labels|
  {
    if labels != [] {
      LockStep(st, labels[0]);
      LockRun(Apply(st, labels[0]), labels[1..], st');
    }
  }

  /** A first round has caught a thread with list_lock in its hands. */
  ghost predicate Caught(st: State) {
    && !st.deadrefs && st.lock.Held? && st.lock.holder < |st.threads|
    && var th := st.threads[st.lock.holder];
    && th.pc.User? && th.handler.Handling? && Current(th.handler.ack, st.counter)
  }

  lemma CaughtStays(st: State, l: Label)
    requires Inv(st) && Caught(st) && Enabled(st, l)
    ensures Caught(Apply(st, l)) && Apply(st, l).counter == st.counter
  {
  }

  lemma {:induction false} CaughtForEver(st: State, labels: seq<Label>, st': State)
    requires Inv(st) && Caught(st) && Runs(st, labels, st')
    ensures Caught(st') && st'.counter == st.counter
    decreases |labels|
  {
    if labels != [] {
      CaughtStays(st, labels[0]);
      StepInv(st, labels[0]);
      CaughtForEver(Apply(st, labels[0]), labels[1..], st');
    }
  }

  /** Nothing is in the way of the next fork. */
  ghost predicate Unblocked(st: State) {
    st.deadrefs || st.lock.Free?
  }

  /** A thread that holds the lock and has not been caught can give it back. */
  lemma LockComesBack(st: State) returns (labels: seq<Label>, st': State)
    requires Inv(st) && LockOk(st) && !Caught(st)
    ensures Runs(st, labels, st') && Inv(st') && Unblocked(st')
    ensures st'.phase == st.phase && st'.counter == st.counter && |st'.threads| == |st.threads|
  {
    if Unblocked(st) { return [], st; }
    var t := st.lock.holder;
    assert ThreadOk(st.threads[t], st.counter) && RoundOk(st, t);
    labels, st' := [], st;
    if st.threads[t].handler.Handling? {
      AcknowledgeReturns(st, t);
      StepInv(st, Acknowledge(t));
      RunsOne(st, Acknowledge(t));
      labels, st' := [Acknowledge(t)], Apply(st, Acknowledge(t));
    }
    StepInv(st', DropLock(t));
    RunsOne(st', DropLock(t));
    RunsJoin(st, labels, st', [DropLock(t)], Apply(st', DropLock(t)));
    labels, st' := labels + [DropLock(t)], Apply(st', DropLock(t));
  }

  lemma {:induction false} SignalsAreSent(st: State) returns (labels: seq<Label>, st': State)
    requires Inv(st) && st.phase.Signalling? && Unblocked(st)
    ensures Runs(st, labels, st') && Inv(st') && Waiting(st') && Unblocked(st')
    ensures st'.counter == st.counter
    decreases |st.threads| - if st.phase.Signalling? then st.phase.next else 0
  {
    if st.phase.next == |st.threads| { return [], st; }
    StepInv(st, Signal);
    var rest;
    rest, st' := SignalsAreSent(Apply(st, Signal));
    RunsOn(st, Signal, rest, st');
    labels := [Signal] + rest;
  }

  /** From the last acknowledgement on: the dead references are gathered and the process forks. */
  lemma ForkComes(st: State) returns (labels: seq<Label>, st': State)
    requires Inv(st) && Unblocked(st) && Halted(st.phase)
    ensures Runs(st, labels, st') && Inv(st') && st'.phase.Quiet? && st'.counter == st.counter + 1
  {
    labels, st' := [], st;
    if st.phase.Gathering? {
      StepInv(st, Gather);
      RunsOne(st, Gather);
      labels, st' := [Gather], Apply(st, Gather);
    }
    StepInv(st', Fork);
    RunsOne(st', Fork);
    RunsJoin(st, labels, st', [Fork], Apply(st', Fork));
    labels, st' := labels + [Fork], Apply(st', Fork);
  }

  lemma SignallingCompletes(st: State) returns (labels: seq<Label>, st': State)
    requires Inv(st) && st.phase.Signalling? && Unblocked(st)
    ensures Runs(st, labels, st') && Inv(st') && st'.phase.Quiet? && st'.counter == st.counter + 1
  {
    var sent, sentTo := SignalsAreSent(st);
    var acks, acked := AcknowledgementsCome(sentTo);
    StepInv(acked, AllReceived);
    var rest;
    rest, st' := ForkComes(Apply(acked, AllReceived));
    RunsOn(acked, AllReceived, rest, st');
    RunsJoin(sentTo, acks, acked, [AllReceived] + rest, st');
    RunsJoin(st, sent, sentTo, acks + ([AllReceived] + rest), st');
    labels := sent + (acks + ([AllReceived] + rest));
  }

  /** A round that nothing is in the way of can be completed, starting with a new one if none is under way. */
  lemma RoundCompletes(st: State) returns (labels: seq<Label>, st': State)
    requires Inv(st) && Unblocked(st)
    ensures Runs(st, labels, st') && Inv(st') && st'.phase.Quiet? && st'.counter == st.counter + 1
  {
    match st.phase
    case Quiet =>
      StepInv(st, StartRound);
      var rest;
      rest, st' := SignallingCompletes(Apply(st, StartRound));
      RunsOn(st, StartRound, rest, st');
      labels := [StartRound] + rest;
    case Signalling(_) => labels, st' := SignallingCompletes(st);
    case _ => labels, st' := ForkComes(st);
  }

  /** After this state the process can fork (once more). */
  ghost predicate ForkAhead(st: State) {
    exists labels, st' :: Runs(st, labels, st') && st'.counter > st.counter
  }

  /** In every reachable state a fork can still come if and only if no thread has been caught with list_lock in the
      first round; and if it can, then with all threads back at what they were doing afterwards, so that the next round
      can start from there. */
  lemma RoundsGoOnExactly(st0: State, before: seq<Label>, st: State)
    requires Init(st0) && Runs(st0, before, st)
    ensures ForkAhead(st) <==> !Caught(st)
    ensures !Caught(st) ==>
              exists labels, st' ::
                && Runs(st, labels, st') && st'.counter == st.counter + 1
                && AllIdle(st') && Enabled(st', StartRound) && !Caught(st')
  {
    InitInv(st0);
    RunInv(st0, before, st);
    LockRun(st0, before, st);
    if Caught(st) {
      forall labels, st' | Runs(st, labels, st') ensures st'.counter == st.counter { CaughtForEver(st, labels, st'); }
    } else {
      var labels, st' := RoundAndBack(st);
      assert Runs(st, labels, st') && st'.counter > st.counter;
    }
  }

  lemma RoundAndBack(st: State) returns (labels: seq<Label>, st': State)
    requires Inv(st) && LockOk(st) && !Caught(st)
    ensures Runs(st, labels, st') && st'.counter == st.counter + 1
    ensures AllIdle(st') && Enabled(st', StartRound) && !Caught(st')
  {
    var free, freed := LockComesBack(st);
    var round, forked := RoundCompletes(freed);
    var home;
    home, st' := AllComeHome(forked);
    RunsJoin(freed, round, forked, home, st');
    RunsJoin(st, free, freed, round + home, st');
    labels := free + (round + home);
  }
}
