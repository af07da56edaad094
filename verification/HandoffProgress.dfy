/** Nothing gets stuck on its way: from every reachable state every thread can come back to the user's code, and all
    that has been retired can be freed (frontend.c 65-105 and 191-264, thread.c 184-207, forkscan.c 267-326). */
module HandoffProgress {
  import opened Words
  import opened Handoff
  import opened HandoffRuns

  // ---------------------------------------------------------------- the collector thread comes to rest

  /** The collector thread sleeps, nothing is waiting for it, and nobody is in the throttle's critical section. */
  ghost predicate Settled(st: State) {
    st.queue.gc == Sleeping(false) && st.queue.waiting == 0 && st.lock.NoOne?
  }

  /** How far a reclaimer is from giving the lock back. */
  ghost function HolderRank(pc: Pc, n: nat): nat {
    match pc
    case ReadForce(_) => n + 14
    case ClearForce(_) => n + 13
    case Drain(_, _, k) => if k <= n then n - k + 12 else 12
    case Initiate(_, _) => 11
    case TakeLock(_) => 8
    case Checking(_) => 7
    case AboutToWait(_) => 6
    case Asleep(_, _) => 5
    case Throttle(_) => 4
    case Release(_) => 3
    case _ => 0
  }

  /** Nothing has changed for the threads but that the reclaimer may have come nearer to the end. */
  ghost predicate SameThreads(st: State, st': State) {
    && |st'.pcs| == |st.pcs| && st'.stamp == st.stamp && st'.force == st.force
    && st'.store.rings == st.store.rings && st'.store.bufs == st.store.bufs && st'.store.retired == st.store.retired
    && (forall t :: 0 <= t < |st.pcs| ==> SameThread(st.pcs[t], st'.pcs[t], |st.pcs|))
  }

  ghost predicate SameThread(pc: Pc, pc': Pc, n: nat) {
    && (Holds(pc) <==> Holds(pc'))
    && (!Holds(pc) ==> pc' == pc)
    && HolderRank(pc', n) <= HolderRank(pc, n)
    && (Holds(pc) ==> pc'.forced == pc.forced)
    && (HasGathered(pc) ==> HasGathered(pc'))
  }

  lemma SameTwice(st: State, st1: State, st2: State)
    requires SameThreads(st, st1) && SameThreads(st1, st2)
    ensures SameThreads(st, st2)
  {
    forall t | 0 <= t < |st.pcs| ensures SameThread(st.pcs[t], st2.pcs[t], |st.pcs|) {
      assert SameThread(st.pcs[t], st1.pcs[t], |st.pcs|) && SameThread(st1.pcs[t], st2.pcs[t], |st.pcs|);
    }
  }

  /** The thread in the throttle's critical section leaves it. */
  lemma {:induction false} UnlockComes(c: Config, st: State) returns (labels: seq<Label>, st': State)
    requires ValidConfig(c) && Inv(c, st)
    ensures Runs(c, st, labels, st') && Inv(c, st') && st'.lock.NoOne? && SameThreads(st, st')
    ensures st'.queue == st.queue && st'.store == st.store
    decreases if st.lock.Client? && st.lock.t < |st.pcs| then HolderRank(st.pcs[st.lock.t], 0) else 0
  {
    if st.lock.NoOne? { return [], st; }
    var t := st.lock.t;
    UnlockStep(c, st, t);
    StepInv(c, st, Run(t));
    var mid, rest := Apply(c, st, Run(t)), [];
    rest, st' := UnlockComes(c, mid);
    RunsOn(c, st, Run(t), rest, st');
    SameTwice(st, mid, st');
    labels := [Run(t)] + rest;
  }

  lemma UnlockStep(c: Config, st: State, t: nat)
    requires WaitInv(c, st) && RoomInv(c, st) && st.lock == Client(t) && t < |st.pcs|
    ensures Enabled(c, st, Run(t))
    ensures var st' := Apply(c, st, Run(t));
      && st'.queue == st.queue && st'.store == st.store && SameThreads(st, st')
      && (st'.lock.NoOne? || (st'.lock == st.lock && HolderRank(st'.pcs[t], 0) < HolderRank(st.pcs[t], 0)))
  {
    assert HasClientLock(st.pcs[t]);
  }

  ghost function GcRank(queue: Queue): nat {
    (if queue.waiting > 0 then 10 else 0)
    + match queue.gc
      case Sleeping(signalled) => if signalled then 5 else 0
      case Top => 1
      case Collecting => 2
      case Aggregating(_) => 3
      case Owing(_) => 4
  }

  /** What has been queued is on its way: it is counted, or taken already. */
  ghost predicate Clearing(queue: Queue) {
    || queue.waiting > 0
    || (queue.chain == [] && (queue.gc.Owing? || queue.gc.Aggregating? || queue.gc.Collecting?))
  }

  /** Everything queued has been through an iteration, and nothing has survived. */
  ghost predicate Cleared(st: State) {
    && st.queue.waiting == 0 && st.queue.chain == [] && (st.queue.gc.Top? || st.queue.gc.Sleeping?)
    && st.store.uncollected == multiset{}
  }

  /** The collector thread's next step; what it publishes has no survivors. */
  ghost function GcNext(st: State): Label {
    if st.queue.gc.Collecting? then Publish(multiset{}) else GcStep
  }

  lemma GcNextLowers(c: Config, st: State)
    requires Inv(c, st) && st.lock.NoOne? && !Settled(st)
    ensures Enabled(c, st, GcNext(st))
    ensures var st' := Apply(c, st, GcNext(st));
      GcRank(st'.queue) < GcRank(st.queue) && st'.lock.NoOne? && (Clearing(st.queue) || Cleared(st) ==>
        Clearing(st'.queue) || Cleared(st'))
  {
  }

  lemma GcNextKeeps(c: Config, st: State)
    requires Shape(st) && Enabled(c, st, GcNext(st))
    ensures SameThreads(st, Apply(c, st, GcNext(st)))
  {
    var st' := Apply(c, st, GcNext(st));
    forall t | 0 <= t < |st.pcs| ensures SameThread(st.pcs[t], st'.pcs[t], |st.pcs|) {}
  }

  lemma {:induction false} GcComesToRest(c: Config, st: State) returns (labels: seq<Label>, st': State)
    requires ValidConfig(c) && Inv(c, st) && st.lock.NoOne?
    ensures Runs(c, st, labels, st') && Inv(c, st') && Settled(st') && SameThreads(st, st')
    ensures Clearing(st.queue) || Cleared(st) ==> Cleared(st')
    decreases GcRank(st.queue)
  {
    if Settled(st) { return [], st; }
    var l := GcNext(st);
    GcNextLowers(c, st);
    GcNextKeeps(c, st);
    StepInv(c, st, l);
    var mid, rest := Apply(c, st, l), [];
    rest, st' := GcComesToRest(c, mid);
    RunsOn(c, st, l, rest, st');
    SameTwice(st, mid, st');
    labels := [l] + rest;
  }

  lemma Settles(c: Config, st: State) returns (labels: seq<Label>, st': State)
    requires ValidConfig(c) && Inv(c, st)
    ensures Runs(c, st, labels, st') && Inv(c, st') && Settled(st') && SameThreads(st, st')
    ensures Clearing(st.queue) || Cleared(st) ==> Cleared(st')
  {
    var first, mid := UnlockComes(c, st);
    var second;
    second, st' := GcComesToRest(c, mid);
    RunsJoin(c, st, first, mid, second, st');
    SameTwice(st, mid, st');
    labels := first + second;
  }

  // ---------------------------------------------------------------- the threads come back

  /** No thread but t has moved, and nothing has been retired. */
  ghost predicate OnlyMoved(st: State, st': State, t: nat) {
    && |st'.pcs| == |st.pcs| && st'.store.retired == st.store.retired
    && forall u :: 0 <= u < |st.pcs| && u != t ==> st'.pcs[u] == st.pcs[u]
  }

  lemma OnlyHolderMoves(c: Config, st: State, st': State, t: nat)
    requires LockInv(st.pcs, st.stamp.active) && SameThreads(st, st') && t < |st.pcs| && Holds(st.pcs[t])
    ensures OnlyMoved(st, st', t)
  {
    forall u | 0 <= u < |st.pcs| && u != t ensures st'.pcs[u] == st.pcs[u] {
      assert SameThread(st.pcs[u], st'.pcs[u], |st.pcs|);
    }
  }

  /** With the collector thread at rest the reclaimer can take its next step, and nobody waits for anything. */
  lemma HolderStep(c: Config, st: State, t: nat)
    requires Inv(c, st) && ValidConfig(c) && Settled(st) && t < |st.pcs| && Holds(st.pcs[t]) && !st.pcs[t].Release?
    ensures Enabled(c, st, Run(t))
    ensures var st' := Apply(c, st, Run(t));
      && OnlyMoved(st, st', t) && Holds(st'.pcs[t])
      && HolderRank(st'.pcs[t], |st.pcs|) < HolderRank(st.pcs[t], |st.pcs|)
  {
    assert BufOk(c, st.pcs[t], st.store.bufs[t], |st.pcs|);
    assert HasClientLock(st.pcs[t]) <==> st.lock == Client(t);
    assert SleepsOrWill(st.pcs[t]) ==> st.queue.waiting >= c.limit || st.queue.gc.Owing?;
    OnlyOneMoves(c, st, t);
  }

  lemma ReleaseStep(c: Config, st: State, t: nat)
    requires Inv(c, st) && ValidConfig(c) && t < |st.pcs| && st.pcs[t].Release?
    ensures Enabled(c, st, Run(t))
    ensures var st' := Apply(c, st, Run(t));
      && OnlyMoved(st, st', t) && !st'.stamp.active && st'.store.rings[t] == []
      && st'.pcs[t] == if st.pcs[t].forced then User else Test(false)
  {
    assert RingOk(c, st.pcs[t], st.store.rings[t], t);
    OnlyOneMoves(c, st, t);
  }

  /** With the collector thread brought to rest first, the reclaimer moves. */
  lemma CalmHolder(c: Config, st: State, t: nat) returns (labels: seq<Label>, st': State)
    requires ValidConfig(c) && Inv(c, st) && t < |st.pcs| && Holds(st.pcs[t])
    ensures Runs(c, st, labels, st') && Inv(c, st') && Settled(st') && OnlyMoved(st, st', t)
    ensures Holds(st'.pcs[t]) && HolderRank(st'.pcs[t], |st.pcs|) <= HolderRank(st.pcs[t], |st.pcs|)
  {
    labels, st' := Settles(c, st);
    OnlyHolderMoves(c, st, st', t);
    assert SameThread(st.pcs[t], st'.pcs[t], |st.pcs|);
  }

  lemma HolderAdvances(c: Config, st: State, t: nat) returns (labels: seq<Label>, st': State)
    requires ValidConfig(c) && Inv(c, st) && Settled(st) && t < |st.pcs| && Holds(st.pcs[t])
    ensures Runs(c, st, labels, st') && Inv(c, st') && OnlyMoved(st, st', t)
    ensures || (st'.pcs[t].User? && !st'.stamp.active)
            || (Holds(st'.pcs[t]) && HolderRank(st'.pcs[t], |st.pcs|) < HolderRank(st.pcs[t], |st.pcs|))
  {
    if st.pcs[t].Release? {
      labels, st' := ReleaserComesHome(c, st, t);
    } else {
      HolderStep(c, st, t);
      StepInv(c, st, Run(t));
      RunsOne(c, st, Run(t));
      labels, st' := [Run(t)], Apply(c, st, Run(t));
    }
  }

  /** The reclaimer can always finish, and then it is back in the user's code. */
  lemma {:induction false} HolderComesHome(c: Config, st: State, t: nat) returns (labels: seq<Label>, st': State)
    requires ValidConfig(c) && Inv(c, st) && t < |st.pcs| && Holds(st.pcs[t])
    ensures Runs(c, st, labels, st') && Inv(c, st')
    ensures OnlyMoved(st, st', t) && st'.pcs[t].User? && !st'.stamp.active
    decreases HolderRank(st.pcs[t], |st.pcs|)
  {
    var first, calm := CalmHolder(c, st, t);
    var second, mid := HolderAdvances(c, calm, t);
    RunsJoin(c, st, first, calm, second, mid);
    labels, st' := first + second, mid;
    if !st'.pcs[t].User? {
      var rest;
      rest, st' := HolderComesHome(c, mid, t);
      RunsJoin(c, st, first + second, mid, rest, st');
      labels := first + second + rest;
    }
  }

  lemma ReleaserComesHome(c: Config, st: State, t: nat) returns (labels: seq<Label>, st': State)
    requires ValidConfig(c) && Inv(c, st) && t < |st.pcs| && st.pcs[t].Release?
    ensures Runs(c, st, labels, st') && Inv(c, st')
    ensures OnlyMoved(st, st', t) && st'.pcs[t].User? && !st'.stamp.active
  {
    ReleaseStep(c, st, t);
    StepInv(c, st, Run(t));
    RunsOne(c, st, Run(t));
    labels, st' := [Run(t)], Apply(c, st, Run(t));
    if !st'.pcs[t].User? {
      var home := Apply(c, st', Run(t));
      OnlyOneMoves(c, st', t);
      StepInv(c, st', Run(t));
      RunsOne(c, st', Run(t));
      RunsJoin(c, st, labels, st', [Run(t)], home);
      labels, st' := labels + [Run(t)], home;
    }
  }

  /** How far a thread without the reclaimer lock is from taking it or going home, while nobody has it. */
  ghost function SeekRank(c: Config, st: State, t: nat): nat
    requires t < |st.pcs| == |st.store.rings|
  {
    match st.pcs[t]
    case Raise => 6
    case TryCas(_, seen) => if seen == st.stamp.at then 2 else 5
    case Test(forced) => if (if forced then st.force else IsFull(c, st.store.rings[t])) then 4 else 1
    case Try(_) => 3
    case _ => 0
  }

  lemma SeekStep(c: Config, st: State, t: nat)
    requires Inv(c, st) && !st.stamp.active && t < |st.pcs| && !st.pcs[t].User?
    ensures Enabled(c, st, Run(t))
    ensures var st' := Apply(c, st, Run(t));
      && OnlyMoved(st, st', t) && |st'.store.rings| == |st.store.rings|
      && (Holds(st'.pcs[t]) || (!st'.stamp.active && SeekRank(c, st', t) < SeekRank(c, st, t)))
  {
    assert !Holds(st.pcs[t]);
    OnlyOneMoves(c, st, t);
  }

  /** While nobody has the reclaimer lock, a thread comes home, as the reclaimer if it has to. */
  lemma {:induction false} SeekerComesHome(c: Config, st: State, t: nat) returns (labels: seq<Label>, st': State)
    requires ValidConfig(c) && Inv(c, st) && t < |st.pcs| && !st.stamp.active
    ensures Runs(c, st, labels, st') && Inv(c, st')
    ensures OnlyMoved(st, st', t) && st'.pcs[t].User? && !st'.stamp.active
    decreases SeekRank(c, st, t)
  {
    if st.pcs[t].User? { return [], st; }
    SeekStep(c, st, t);
    StepInv(c, st, Run(t));
    var mid, rest := Apply(c, st, Run(t)), [];
    if Holds(mid.pcs[t]) {
      rest, st' := HolderComesHome(c, mid, t);
    } else {
      rest, st' := SeekerComesHome(c, mid, t);
    }
    RunsOn(c, st, Run(t), rest, st');
    labels := [Run(t)] + rest;
  }

  ghost function NotHome(st: State): set<nat> {
    set t: nat | t < |st.pcs| && !st.pcs[t].User?
  }

  ghost predicate AllHome(st: State) {
    forall t :: 0 <= t < |st.pcs| ==> st.pcs[t].User?
  }

  lemma {:induction false} SeekersComeHome(c: Config, st: State) returns (labels: seq<Label>, st': State)
    requires ValidConfig(c) && Inv(c, st) && !st.stamp.active
    ensures Runs(c, st, labels, st') && Inv(c, st') && |st'.pcs| == |st.pcs| && AllHome(st') && !st'.stamp.active
    ensures st'.store.retired == st.store.retired
    decreases NotHome(st)
  {
    if AllHome(st) { return [], st; }
    var t: nat :| t < |st.pcs| && !st.pcs[t].User?;
    var first, mid := SeekerComesHome(c, st, t);
    assert NotHome(mid) == NotHome(st) - {t} && t in NotHome(st);
    var second;
    second, st' := SeekersComeHome(c, mid);
    RunsJoin(c, st, first, mid, second, st');
    labels := first + second;
  }

  /** Every reachable state can be continued until all threads are back in the user's code and the collector thread
      sleeps. */
  lemma AllComeHome(c: Config, st: State) returns (labels: seq<Label>, st': State)
    requires ValidConfig(c) && Inv(c, st)
    ensures Runs(c, st, labels, st') && Inv(c, st') && |st'.pcs| == |st.pcs| && AllHome(st')
    ensures !st'.stamp.active && Settled(st') && st'.store.retired == st.store.retired
  {
    var first, mid := [], st;
    if st.stamp.active {
      var t: nat :| t < |st.pcs| && Holds(st.pcs[t]);
      first, mid := HolderComesHome(c, st, t);
    }
    var second, home := SeekersComeHome(c, mid);
    var third;
    third, st' := Settles(c, home);
    forall t | 0 <= t < |home.pcs| ensures st'.pcs[t].User? {
      assert SameThread(home.pcs[t], st'.pcs[t], |home.pcs|);
    }
    RunsJoin(c, mid, second, home, third, st');
    RunsJoin(c, st, first, mid, second + third, st');
    labels := first + (second + third);
  }

  /** The reason for which a thread wants to become the reclaimer still holds. */
  ghost predicate StillNeeds(c: Config, st: State, t: nat, forced: bool)
    requires t < |st.store.rings|
  {
    if forced then st.force else IsFull(c, st.store.rings[t])
  }

  /** A thread that finds the reclaimer lock taken looks whether it still needs it: if not, it goes home, and otherwise
      it tries again. */
  lemma ContenderLooksAgain(c: Config, st: State, t: nat) returns (st': State)
    requires Shape(st) && t < |st.pcs|
    requires st.stamp.active
    requires st.pcs[t].Try? || st.pcs[t].TryCas?
    ensures Runs(c, st, [Run(t), Run(t)], st')
    ensures OnlyMoved(st, st', t) && st'.store == st.store && st'.stamp == st.stamp
    ensures var forced := st.pcs[t].forced; st'.pcs[t] == if StillNeeds(c, st, t, forced) then Try(forced) else User
  {
    var looking := Apply(c, st, Run(t));
    OnlyOneMoves(c, st, t);
    OnlyOneMoves(c, looking, t);
    st' := Apply(c, looking, Run(t));
    assert Runs(c, st', [], st');
    RunsOn(c, looking, Run(t), [], st');
    RunsOn(c, st, Run(t), [Run(t)] + [], st');
    assert [Run(t)] + ([Run(t)] + []) == [Run(t), Run(t)];
  }

  // ---------------------------------------------------------------- what a reclaimer queues

  /** The contents of the rings, one ring after the other. */
  ghost function Concat(rings: seq<seq<nat>>): seq<nat> {
    if rings == [] then [] else rings[0] + Concat(rings[1..])
  }

  /** What thread t has done when it has drained the rings from number k on. */
  ghost predicate Gathered(st: State, st': State, t: nat, k: nat)
    requires t < |st.store.bufs| == |st'.store.bufs| && k <= |st.store.rings| == |st'.store.rings|
  {
    && st'.queue == st.queue
    && st'.store.bufs[t] == st.store.bufs[t] + Concat(st.store.rings[k..])
    && (forall i :: 0 <= i < k ==> st'.store.rings[i] == st.store.rings[i])
    && (forall i :: k <= i < |st.store.rings| ==> st'.store.rings[i] == [])
  }

  lemma DrainStep(c: Config, st: State, t: nat)
    requires ValidConfig(c) && Inv(c, st) && t < |st.pcs| && st.pcs[t].Drain? && st.pcs[t].next < |st.pcs|
    ensures Enabled(c, st, Run(t))
    ensures var st', i := Apply(c, st, Run(t)), st.pcs[t].next;
      && OnlyMoved(st, st', t) && st'.pcs[t] == st.pcs[t].(next := i + 1) && st'.queue == st.queue
      && st'.store.bufs == st.store.bufs[t := st.store.bufs[t] + st.store.rings[i]]
      && st'.store.rings == st.store.rings[i := []]
  {
    DrainTakesAll(c, st, t);
    OnlyOneMoves(c, st, t);
  }

  lemma {:induction false} Gathers(c: Config, st: State, t: nat) returns (labels: seq<Label>, st': State)
    requires ValidConfig(c) && Inv(c, st) && t < |st.pcs| && st.pcs[t].Drain? && st.pcs[t].next <= |st.pcs|
    ensures Runs(c, st, labels, st') && Inv(c, st') && OnlyMoved(st, st', t)
    ensures Gathered(st, st', t, st.pcs[t].next)
    ensures st'.pcs[t] == Drain(st.pcs[t].forced, st.pcs[t].force, |st.pcs|)
    decreases |st.pcs| - if st.pcs[t].Drain? then st.pcs[t].next else 0
  {
    var k := st.pcs[t].next;
    if k == |st.pcs| {
      assert st.store.bufs[t] + Concat(st.store.rings[k..]) == st.store.bufs[t];
      return [], st;
    }
    DrainStep(c, st, t);
    StepInv(c, st, Run(t));
    var mid, rest := Apply(c, st, Run(t)), [];
    rest, st' := Gathers(c, mid, t);
    GatheredFrom(st, mid, st', t, k);
    RunsOn(c, st, Run(t), rest, st');
    labels := [Run(t)] + rest;
  }

  lemma GatheredFrom(st: State, mid: State, st': State, t: nat, k: nat)
    requires t < |st.store.bufs| == |mid.store.bufs| == |st'.store.bufs|
    requires k < |st.store.rings| == |mid.store.rings| == |st'.store.rings|
    requires mid.queue == st.queue && mid.store.bufs[t] == st.store.bufs[t] + st.store.rings[k]
    requires mid.store.rings == st.store.rings[k := []] && Gathered(mid, st', t, k + 1)
    ensures Gathered(st, st', t, k)
  {
    var rings := st.store.rings;
    assert mid.store.rings[k + 1..] == rings[k + 1..] && rings[k..][1..] == rings[k + 1..];
    var rest := Concat(rings[k + 1..]);
    assert st.store.bufs[t] + rings[k] + rest == st.store.bufs[t] + (rings[k] + rest);
  }

  /** A thread that has become the reclaimer and runs on its own puts the contents of all rings, in order, into one
      buffer at the head of the queue; the rings are empty afterwards, and the buffer is counted exactly in automatic
      mode or when the iteration was asked for. */
  lemma ReclaimerQueuesAll(c: Config, st: State, t: nat) returns (labels: seq<Label>, st': State)
    requires ValidConfig(c) && Inv(c, st) && t < |st.pcs| && st.pcs[t].Drain? && st.pcs[t].next == 0
    requires !st.queue.gc.Owing?
    ensures Runs(c, st, labels, st') && Inv(c, st') && OnlyMoved(st, st', t) && HasGathered(st'.pcs[t])
    ensures st'.queue.chain == [Buf(st.queue.queued, Concat(st.store.rings))] + st.queue.chain
    ensures st'.queue.waiting == st.queue.waiting + if c.auto || st.pcs[t].force then 1 else 0
    ensures |st'.store.rings| == |st.store.rings| && forall i :: 0 <= i < |st.store.rings| ==> st'.store.rings[i] == []
    ensures !st'.pcs[t].Initiate?
  {
    assert BufOk(c, st.pcs[t], st.store.bufs[t], |st.pcs|);
    var first, full := Gathers(c, st, t);
    assert st.store.rings[0..] == st.store.rings && st.store.bufs[t] == [];
    assert st.store.bufs[t] + Concat(st.store.rings) == Concat(st.store.rings);
    var second;
    second, st' := Hands(c, full, t);
    RunsJoin(c, st, first, full, second, st');
    labels := first + second;
  }

  lemma Hands(c: Config, st: State, t: nat) returns (labels: seq<Label>, st': State)
    requires ValidConfig(c) && Inv(c, st) && t < |st.pcs| && st.pcs[t].Drain? && st.pcs[t].next == |st.pcs|
    requires !st.queue.gc.Owing?
    ensures Runs(c, st, labels, st') && Inv(c, st') && OnlyMoved(st, st', t) && HasGathered(st'.pcs[t])
    ensures st'.queue.chain == [Buf(st.queue.queued, st.store.bufs[t])] + st.queue.chain
    ensures st'.queue.waiting == st.queue.waiting + if c.auto || st.pcs[t].force then 1 else 0
    ensures st'.store.rings == st.store.rings && !st'.pcs[t].Initiate?
  {
    var ready := Apply(c, st, Run(t));
    OnlyOneMoves(c, st, t);
    StepInv(c, st, Run(t));
    CountedExactly(c, ready, t);
    OnlyOneMoves(c, ready, t);
    StepInv(c, ready, Run(t));
    st' := Apply(c, ready, Run(t));
    RunsOne(c, st, Run(t));
    RunsOne(c, ready, Run(t));
    RunsJoin(c, st, [Run(t)], ready, [Run(t)], st');
    labels := [Run(t)] + [Run(t)];
  }

  // ---------------------------------------------------------------- everything can be freed

  /** From st, the first thread has called forkscan_force_reclaim and made k steps in it. */
  ghost predicate Acquiring(st: State, st': State, k: nat) {
    && OnlyMoved(st, st', 0) && st.pcs != [] && st'.store == st.store && st'.queue == st.queue
    && st'.pcs[0] == AcquireAt(st.stamp.at, k) && (1 <= k <= 4 ==> st'.force) && (k >= 5 ==> !st'.force)
    && st'.stamp == if k <= 2 then st.stamp else Stamp(true, st.stamp.at + 1)
  }

  lemma AcquireStep(c: Config, st: State, st': State, k: nat)
    requires Shape(st') && Acquiring(st, st', k) && !st.stamp.active && k < 5
    ensures Enabled(c, st', Run(0)) && Acquiring(st, Apply(c, st', Run(0)), k + 1)
  {
    OnlyOneMoves(c, st', 0);
  }

  lemma {:induction false} Acquires(c: Config, st: State, k: nat) returns (labels: seq<Label>, st': State)
    requires ValidConfig(c) && Inv(c, st) && AllHome(st) && !st.stamp.active && st.pcs != [] && k <= 5
    ensures Runs(c, st, labels, st') && Inv(c, st') && Acquiring(st, st', k)
  {
    if k == 0 {
      StepInv(c, st, Force(0));
      RunsOne(c, st, Force(0));
      return [Force(0)], Apply(c, st, Force(0));
    }
    var before, mid := Acquires(c, st, k - 1);
    AcquireStep(c, st, mid, k - 1);
    StepInv(c, mid, Run(0));
    RunsOne(c, mid, Run(0));
    st' := Apply(c, mid, Run(0));
    RunsJoin(c, st, before, mid, [Run(0)], st');
    labels := before + [Run(0)];
  }

  ghost function AcquireAt(at: nat, k: nat): Pc {
    if k == 0 then Raise
    else if k == 1 then Try(true)
    else if k == 2 then TryCas(true, at)
    else if k == 3 then ReadForce(true)
    else if k == 4 then ClearForce(true)
    else Drain(true, true, 0)
  }

  /** With rings, buffers and queue empty and no survivors, what has been retired is dead or has been freed. */
  lemma AllIsDead(c: Config, st: State)
    requires Inv(c, st) && Cleared(st) && Settled(st)
    requires forall i :: 0 <= i < |st.store.rings| ==> st.store.rings[i] == []
    requires forall t :: 0 <= t < |st.pcs| ==> !st.pcs[t].Drain? && !st.pcs[t].Initiate?
    ensures st.store.retired == st.store.dead + st.store.freed
  {
    forall t | 0 <= t < |st.store.bufs| ensures st.store.bufs[t] == [] {
      assert BufOk(c, st.pcs[t], st.store.bufs[t], |st.pcs|);
    }
    assert Addrs([]) == [];
    forall p: nat ensures st.store.retired[p] == st.store.dead[p] + st.store.freed[p] {
      assert ConservedAt(st, p);
      TimesOfEmpties(st.store.rings, p);
      TimesOfEmpties(st.store.bufs, p);
    }
  }

  lemma {:induction false} DeadAreFreed(c: Config, st: State) returns (labels: seq<Label>, st': State)
    requires Shape(st)
    ensures Runs(c, st, labels, st') && st'.store.retired == st.store.retired
    ensures st'.store.freed == st.store.freed + st.store.dead
    decreases |st.store.dead|
  {
    if st.store.dead == multiset{} { return [], st; }
    var p :| p in st.store.dead;
    var rest;
    rest, st' := DeadAreFreed(c, Apply(c, st, Free(p)));
    RunsOn(c, st, Free(p), rest, st');
    labels := [Free(p)] + rest;
  }

  /** Every reachable state with a thread in it can be continued until all that has been retired has been freed. */
  lemma EverythingCanBeFreed(c: Config, st0: State, before: seq<Label>, st: State)
    returns (labels: seq<Label>, st': State)
    requires ValidConfig(c) && Init(st0) && Runs(c, st0, before, st) && st.pcs != []
    ensures Runs(c, st, labels, st') && st'.store.freed == st'.store.retired == RetiredBy(before)
  {
    RunFromInit(c, st0, before, st);
    HistoryKept(c, st0, before, st);
    var first, home := AllComeHome(c, st);
    var second, cleared := AllIsCleared(c, home);
    var third;
    third, st' := DeadAreFreed(c, cleared);
    RunsJoin(c, home, second, cleared, third, st');
    RunsJoin(c, st, first, home, second + third, st');
    labels := first + (second + third);
  }

  /** One forced iteration from a state of rest, in which nothing survives. */
  lemma AllIsCleared(c: Config, st: State) returns (labels: seq<Label>, st': State)
    requires ValidConfig(c) && Inv(c, st) && AllHome(st) && !st.stamp.active && Settled(st) && st.pcs != []
    ensures Runs(c, st, labels, st') && Inv(c, st') && st'.store.retired == st.store.retired
    ensures st'.store.retired == st'.store.dead + st'.store.freed
  {
    var first, held := Acquires(c, st, 5);
    var second, queued := ReclaimerQueuesAll(c, held, 0);
    var third;
    third, st' := QueueIsCleared(c, queued);
    RunsJoin(c, held, second, queued, third, st');
    RunsJoin(c, st, first, held, second + third, st');
    labels := first + (second + third);
  }

  lemma QueueIsCleared(c: Config, st: State) returns (labels: seq<Label>, st': State)
    requires ValidConfig(c) && Inv(c, st) && st.queue.waiting > 0
    requires forall i :: 0 <= i < |st.store.rings| ==> st.store.rings[i] == []
    requires forall t :: 0 <= t < |st.pcs| ==>
               !st.pcs[t].ReadForce? && !st.pcs[t].ClearForce? && !st.pcs[t].Drain? && !st.pcs[t].Initiate?
    ensures Runs(c, st, labels, st') && Inv(c, st') && st'.store.retired == st.store.retired
    ensures st'.store.retired == st'.store.dead + st'.store.freed
  {
    labels, st' := Settles(c, st);
    forall t | 0 <= t < |st'.pcs| ensures !st'.pcs[t].Drain? && !st'.pcs[t].Initiate? {
      assert SameThread(st.pcs[t], st'.pcs[t], |st.pcs|);
    }
    AllIsDead(c, st');
  }
}
