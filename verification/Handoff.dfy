/** How retired pointers get from the threads' rings to the collector thread (thread.c 184-207, frontend.c 65-105 and
    191-264, forkscan.c 267-326).  Rings are the sequences that they implement. */
module Handoff {
  import opened Words

  const MAX_THREAD_COUNT := 256

  /** `auto` is g_config.auto_run, `limit` the throttling limit, and `capacity` the slots of a ring. */
  datatype Config = Config(auto: bool, limit: nat, capacity: nat)

  ghost predicate ValidConfig(c: Config) {
    c.limit > 0 && c.capacity > 1
  }

  /** Where a thread is.  `forced` says that it is in forkscan_force_reclaim and not in forkscan_retire; `force`
      that the iteration it starts was asked for by some user.  Drain(next): rings below `next` have been drained.
      Checking and AboutToWait hold the client lock. */
  datatype Pc =
    | User
    | Raise
    | Try(forced: bool)
    | TryCas(forced: bool, seen: nat)
    | Test(forced: bool)
    | ReadForce(forced: bool)
    | ClearForce(forced: bool)
    | Drain(forced: bool, force: bool, next: nat)
    | Initiate(forced: bool, force: bool)
    | Throttle(forced: bool)
    | TakeLock(forced: bool)
    | Checking(forced: bool)
    | AboutToWait(forced: bool)
    | Asleep(forced: bool, woken: bool)
    | Release(forced: bool)

  datatype Lock = NoOne | Client(t: nat)

  /** A queued buffer; `id` tells it from the others. */
  datatype Buf = Buf(id: nat, addrs: seq<nat>)

  /** Where the collector thread is.  Owing: it has reset the counter and has yet to broadcast, and it still holds
      the queue lock. */
  datatype Gc = Top | Sleeping(signalled: bool) | Owing(bufs: seq<Buf>) | Aggregating(bufs: seq<Buf>) | Collecting

  /** global_timestamp */
  datatype Stamp = Stamp(active: bool, at: nat)

  /** g_waiting_collects, g_addr_buffer, and the collector thread.  `queued` is the number of buffers ever queued, and
      `taken` lists those that have reached an iteration. */
  datatype Queue = Queue(waiting: nat, chain: seq<Buf>, gc: Gc, gcWaiting: bool, queued: nat, taken: seq<nat>)

  /** Where the retired pointers are.  `bufs` is what each thread has gathered as reclaimer. */
  datatype Store = Store(
    rings: seq<seq<nat>>,
    bufs: seq<seq<nat>>,
    uncollected: multiset<nat>,
    working: multiset<nat>,
    dead: multiset<nat>,
    freed: multiset<nat>,
    retired: multiset<nat>)

  datatype State = State(pcs: seq<Pc>, stamp: Stamp, force: bool, lock: Lock, queue: Queue, store: Store)

  datatype Label =
    | Retire(t: nat, p: nat) | Force(t: nat) | Run(t: nat)
    | GcStep | Publish(survivors: multiset<nat>) | Free(p: nat)

  ghost predicate Init(st: State) {
    && Shape(st)
    && (forall t :: 0 <= t < |st.pcs| ==> st.pcs[t].User? && st.store.rings[t] == [] && st.store.bufs[t] == [])
    && !st.stamp.active && !st.force && st.lock.NoOne?
    && st.queue == Queue(0, [], Top, true, 0, [])
    && st.store == Store(st.store.rings, st.store.bufs, multiset{}, multiset{}, multiset{}, multiset{}, multiset{})
  }

  ghost predicate IsFull(c: Config, ring: seq<nat>) {
    |ring| + 1 >= c.capacity
  }

  ghost predicate Shape(st: State) {
    |st.pcs| == |st.store.rings| == |st.store.bufs| <= MAX_THREAD_COUNT
  }

  ghost predicate Enabled(c: Config, st: State, l: Label) {
    && Shape(st)
    && match l
       case Retire(t, p) => t < |st.pcs| && st.pcs[t].User?
       case Force(t) => t < |st.pcs| && st.pcs[t].User?
       case Run(t) =>
         && t < |st.pcs| && !st.pcs[t].User?
         && (st.pcs[t].Initiate? ==> !st.queue.gc.Owing?)
         && (st.pcs[t].TakeLock? ==> st.lock.NoOne?)
         && (st.pcs[t].Asleep? ==> st.pcs[t].woken && st.lock.NoOne?)
       case GcStep =>
         && (st.queue.gc.Sleeping? ==> st.queue.gc.signalled)
         && (st.queue.gc.Owing? ==> st.lock.NoOne?)
         && !st.queue.gc.Collecting?
       case Publish(survivors) => st.queue.gc.Collecting? && survivors <= st.store.working
       case Free(p) => p in st.store.dead
  }

  ghost function To(st: State, t: nat, pc: Pc): State
    requires t < |st.pcs|
  {
    st.(pcs := st.pcs[t := pc])
  }

  ghost function MaxPtrs(c: Config): nat {
    c.capacity * MAX_THREAD_COUNT
  }

  /** One call of forkscan_queue_pop_bulk by the reclaimer t. */
  ghost function DrainRing(c: Config, store: Store, t: nat, i: nat): Store
    requires t < |store.bufs| && i < |store.rings|
  {
    var room := MaxPtrs(c) - |store.bufs[t]|;
    var n: nat := Max(Min(room, |store.rings[i]|), 0);
    store.(bufs := store.bufs[t := store.bufs[t] + store.rings[i][..n]],
           rings := store.rings[i := store.rings[i][n..]])
  }

  /** The critical section of forkscan_initiate_collection. */
  ghost function Enqueue(queue: Queue, addrs: seq<nat>, counted: bool): Queue {
    var Queue(waiting, chain, gc, gcWaiting, queued, taken) := queue;
    Queue(
      if counted then waiting + 1 else waiting,
      [Buf(queued, addrs)] + chain,
      if gcWaiting && counted && gc.Sleeping? then Sleeping(true) else gc,
      gcWaiting, queued + 1, taken)
  }

  ghost function RunStep(c: Config, st: State, t: nat): State
    requires Enabled(c, st, Run(t))
  {
    match st.pcs[t]
    case Raise => To(st, t, Try(true)).(force := true)
    case Try(forced) => To(st, t, if st.stamp.active then Test(forced) else TryCas(forced, st.stamp.at))
    case TryCas(forced, seen) =>
      if st.stamp == Stamp(false, seen) then To(st, t, ReadForce(forced)).(stamp := Stamp(true, seen + 1))
      else To(st, t, Test(forced))
    case Test(forced) =>
      To(st, t, if (if forced then st.force else IsFull(c, st.store.rings[t])) then Try(forced) else User)
    case ReadForce(forced) => To(st, t, if st.force then ClearForce(forced) else Drain(forced, false, 0))
    case ClearForce(forced) => To(st, t, Drain(forced, true, 0)).(force := false)
    case Drain(forced, force, i) =>
      if i < |st.store.rings| then To(st, t, Drain(forced, force, i + 1)).(store := DrainRing(c, st.store, t, i))
      else To(st, t, Initiate(forced, force))
    case Initiate(forced, force) =>
      To(st, t, if c.auto then Throttle(forced) else Release(forced))
        .(queue := Enqueue(st.queue, st.store.bufs[t], c.auto || force),
          store := st.store.(bufs := st.store.bufs[t := []]))
    case Throttle(forced) =>
      To(st, t, if st.queue.waiting >= c.limit then TakeLock(forced) else Release(forced))
    case TakeLock(forced) => To(st, t, Checking(forced)).(lock := Client(t))
    case Checking(forced) =>
      if st.queue.waiting >= c.limit then To(st, t, AboutToWait(forced))
      else To(st, t, Throttle(forced)).(lock := NoOne)
    case AboutToWait(forced) => To(st, t, Asleep(forced, false)).(lock := NoOne)
    case Asleep(forced, _) => To(st, t, Throttle(forced))
    case Release(forced) => To(st, t, if forced then User else Test(forced)).(stamp := st.stamp.(active := false))
    case User => st
  }

  ghost function Ids(chain: seq<Buf>): seq<nat> {
    seq(|chain|, i requires 0 <= i < |chain| => chain[i].id)
  }

  ghost function Addrs(chain: seq<Buf>): seq<seq<nat>> {
    seq(|chain|, i requires 0 <= i < |chain| => chain[i].addrs)
  }

  /** The collector thread takes the whole chain. */
  ghost function TakeChain(c: Config, queue: Queue): Queue {
    var Queue(waiting, chain, gc, gcWaiting, queued, taken) := queue;
    Queue(0, [], if waiting >= c.limit then Owing(chain) else Aggregating(chain), gcWaiting, queued, taken + Ids(chain))
  }

  /** pthread_cond_broadcast */
  ghost function Wake(pcs: seq<Pc>): seq<Pc> {
    seq(|pcs|, t requires 0 <= t < |pcs| => if pcs[t].Asleep? then pcs[t].(woken := true) else pcs[t])
  }

  ghost function GcApply(c: Config, st: State): State
    requires Enabled(c, st, GcStep)
  {
    var queue := st.queue;
    match queue.gc
    case Top =>
      st.(queue := if queue.waiting < 1 then queue.(gc := Sleeping(false), gcWaiting := true) else TakeChain(c, queue))
    case Sleeping(_) => st.(queue := TakeChain(c, queue.(gcWaiting := false)))
    case Owing(bufs) => st.(pcs := Wake(st.pcs), queue := queue.(gc := Aggregating(bufs)))
    case Aggregating(bufs) =>
      st.(queue := queue.(gc := Collecting),
          store := st.store.(working := st.store.uncollected + Total(Addrs(bufs)), uncollected := multiset{}))
    case Collecting => st
  }

  /** The working buffer is published: the survivors go into the next round, the rest may be freed. */
  ghost function Published(store: Store, survivors: multiset<nat>): Store {
    store.(uncollected := survivors, dead := store.dead + (store.working - survivors), working := multiset{})
  }

  ghost function Apply(c: Config, st: State, l: Label): State
    requires Enabled(c, st, l)
  {
    var store := st.store;
    match l
    case Retire(t, p) =>
      To(st, t, Test(false))
        .(store := store.(rings := store.rings[t := store.rings[t] + [p]], retired := store.retired + multiset{p}))
    case Force(t) => To(st, t, Raise)
    case Run(t) => RunStep(c, st, t)
    case GcStep => GcApply(c, st)
    case Publish(survivors) =>
      st.(queue := st.queue.(gc := Top), store := Published(store, survivors))
    case Free(p) => st.(store := store.(dead := store.dead - multiset{p}, freed := store.freed + multiset{p}))
  }

  ghost predicate Runs(c: Config, st: State, labels: seq<Label>, st': State)
    decreases |labels|
  {
    if labels == [] then st' == st
    else Enabled(c, st, labels[0]) && Runs(c, Apply(c, st, labels[0]), labels[1..], st')
  }

  /** Everything in the given lists, with multiplicity. */
  ghost function Total(xss: seq<seq<nat>>): multiset<nat> {
    if xss == [] then multiset{} else Total(xss[..|xss| - 1]) + multiset(xss[|xss| - 1])
  }

  // ---------------------------------------------------------------- the reclaimer lock

  /** The thread is between a successful try_acquire and the release. */
  ghost predicate Holds(pc: Pc) {
    !(pc.User? || pc.Raise? || pc.Try? || pc.TryCas? || pc.Test?)
  }

  ghost predicate LockInv(pcs: seq<Pc>, active: bool) {
    && (forall t, u :: 0 <= t < |pcs| && 0 <= u < |pcs| && Holds(pcs[t]) && Holds(pcs[u]) ==> t == u)
    && (forall t :: 0 <= t < |pcs| && Holds(pcs[t]) ==> active)
    && (active ==> exists t :: 0 <= t < |pcs| && Holds(pcs[t]))
  }

  /** What a step of a thread does to the reclaimer lock: nothing, or it takes it when it is free, or gives it up. */
  ghost predicate LockMove(pc: Pc, pc': Pc, active: bool, active': bool) {
    || (Holds(pc) == Holds(pc') && active == active')
    || (!Holds(pc) && Holds(pc') && !active && active')
    || (Holds(pc) && !Holds(pc') && !active')
  }

  lemma RunMoves(c: Config, st: State, t: nat)
    requires Enabled(c, st, Run(t))
    ensures |RunStep(c, st, t).pcs| == |st.pcs|
    ensures LockMove(st.pcs[t], RunStep(c, st, t).pcs[t], st.stamp.active, RunStep(c, st, t).stamp.active)
  {
    match st.pcs[t]
    case Raise =>
    case Try(_) =>
    case TryCas(_, _) =>
    case Test(_) =>
    case ReadForce(_) =>
    case ClearForce(_) =>
    case Drain(_, _, _) =>
    case Initiate(_, _) =>
    case Throttle(_) =>
    case TakeLock(_) =>
    case Checking(_) =>
    case AboutToWait(_) =>
    case Asleep(_, _) =>
    case Release(_) =>
  }

  lemma OnlyOneMoves(c: Config, st: State, t: nat)
    requires Enabled(c, st, Run(t))
    ensures |RunStep(c, st, t).pcs| == |st.pcs| && RunStep(c, st, t).pcs == st.pcs[t := RunStep(c, st, t).pcs[t]]
  {
  }

  lemma LockMoves(pcs: seq<Pc>, active: bool, t: nat, pc': Pc, active': bool)
    requires LockInv(pcs, active) && t < |pcs| && LockMove(pcs[t], pc', active, active')
    ensures LockInv(pcs[t := pc'], active')
  {
    var pcs' := pcs[t := pc'];
    if Holds(pc') { assert Holds(pcs'[t]); }
    if active && !Holds(pcs[t]) {
      var u :| 0 <= u < |pcs| && Holds(pcs[u]);
      assert Holds(pcs'[u]);
    }
  }

  /** Waking changes nothing that the invariants of the reclaimer lock look at. */
  lemma WakeKeeps(pcs: seq<Pc>, active: bool)
    requires LockInv(pcs, active)
    ensures LockInv(Wake(pcs), active)
  {
    assert forall t :: 0 <= t < |pcs| ==> Holds(Wake(pcs)[t]) == Holds(pcs[t]);
  }

  lemma LockStep(c: Config, st: State, l: Label)
    requires LockInv(st.pcs, st.stamp.active) && Enabled(c, st, l)
    ensures LockInv(Apply(c, st, l).pcs, Apply(c, st, l).stamp.active)
  {
    var st' := Apply(c, st, l);
    match l
    case Run(t) =>
      RunMoves(c, st, t);
      OnlyOneMoves(c, st, t);
      LockMoves(st.pcs, st.stamp.active, t, st'.pcs[t], st'.stamp.active);
    case Retire(t, _) => LockMoves(st.pcs, st.stamp.active, t, st'.pcs[t], st'.stamp.active);
    case Force(t) => LockMoves(st.pcs, st.stamp.active, t, st'.pcs[t], st'.stamp.active);
    case GcStep => WakeKeeps(st.pcs, st.stamp.active);
    case _ =>
  }

  // ---------------------------------------------------------------- the queue and the two condition variables

  /** This thread has decided to sleep, or sleeps and has not been woken. */
  ghost predicate SleepsOrWill(pc: Pc) {
    pc.AboutToWait? || (pc.Asleep? && !pc.woken)
  }

  ghost predicate HasClientLock(pc: Pc) {
    pc.Checking? || pc.AboutToWait?
  }

  /** In automatic mode the counter is below the limit whenever a thread is about to queue a buffer, or may get the
      reclaimer lock. */
  ghost predicate MayQueue(pc: Pc) {
    pc.ReadForce? || pc.ClearForce? || pc.Drain? || pc.Initiate? || pc.Release?
  }

  ghost predicate WaitInv(c: Config, st: State) {
    && (st.queue.waiting > 0 ==> st.queue.chain != [])
    && (st.queue.gc.Owing? || st.queue.gc.Aggregating? ==> st.queue.gc.bufs != [])
    && (st.lock.Client? ==> st.lock.t < |st.pcs|)
    && (st.queue.gc.Sleeping? ==> st.queue.gcWaiting && (st.queue.gc.signalled <==> st.queue.waiting > 0))
    && (forall t :: 0 <= t < |st.pcs| ==> (HasClientLock(st.pcs[t]) <==> st.lock == Client(t)))
    && (forall t :: 0 <= t < |st.pcs| && SleepsOrWill(st.pcs[t]) ==> st.queue.waiting >= c.limit || st.queue.gc.Owing?)
  }

  /** What a step of thread t does to the queue and to the client lock. */
  ghost predicate WaitMove(c: Config, st: State, st': State, t: nat)
    requires t < |st.pcs| == |st'.pcs|
  {
    && (st'.queue.waiting == st.queue.waiting || (st'.queue.waiting == st.queue.waiting + 1 && st'.queue.chain != []))
    && (st.queue.chain != [] ==> st'.queue.chain != [])
    && (|| st'.queue.gc == st.queue.gc
        || (st.queue.gc.Sleeping? && st'.queue.gc == Sleeping(true) && st'.queue.waiting > 0))
    && (st.queue.gc.Sleeping? && st.queue.gcWaiting && st'.queue.waiting > st.queue.waiting ==>
          st'.queue.gc == Sleeping(true))
    && st'.queue.gcWaiting == st.queue.gcWaiting
  }

  ghost predicate ClientLockMove(c: Config, st: State, st': State, t: nat)
    requires t < |st.pcs| == |st'.pcs|
  {
    && (HasClientLock(st'.pcs[t]) ==> st'.lock == Client(t))
    && (!HasClientLock(st'.pcs[t]) && HasClientLock(st.pcs[t]) ==> st'.lock == NoOne)
    && (!HasClientLock(st'.pcs[t]) && !HasClientLock(st.pcs[t]) ==> st'.lock == st.lock)
    && (HasClientLock(st'.pcs[t]) && !HasClientLock(st.pcs[t]) ==> st.lock == NoOne)
    && (SleepsOrWill(st'.pcs[t]) ==> SleepsOrWill(st.pcs[t]) || st'.queue.waiting >= c.limit)
  }

  lemma RunWaits(c: Config, st: State, t: nat)
    requires Enabled(c, st, Run(t))
    ensures |RunStep(c, st, t).pcs| == |st.pcs|
    ensures WaitMove(c, st, RunStep(c, st, t), t)
  {
  }

  lemma RunLocks(c: Config, st: State, t: nat)
    requires Enabled(c, st, Run(t)) && (HasClientLock(st.pcs[t]) ==> st.lock == Client(t))
    ensures |RunStep(c, st, t).pcs| == |st.pcs|
    ensures ClientLockMove(c, st, RunStep(c, st, t), t)
  {
  }

  lemma WaitMoves(c: Config, st: State, st': State, t: nat)
    requires WaitInv(c, st) && t < |st.pcs| == |st'.pcs| && st'.pcs == st.pcs[t := st'.pcs[t]]
    requires WaitMove(c, st, st', t) && ClientLockMove(c, st, st', t)
    ensures WaitInv(c, st')
  {
    forall u | 0 <= u < |st'.pcs|
      ensures HasClientLock(st'.pcs[u]) <==> st'.lock == Client(u)
      ensures SleepsOrWill(st'.pcs[u]) ==> st'.queue.waiting >= c.limit || st'.queue.gc.Owing?
    {
      assert HasClientLock(st.pcs[u]) <==> st.lock == Client(u);
      assert HasClientLock(st.pcs[t]) <==> st.lock == Client(t);
      assert SleepsOrWill(st.pcs[u]) ==> st.queue.waiting >= c.limit || st.queue.gc.Owing?;
    }
  }

  lemma WaitRun(c: Config, st: State, t: nat)
    requires WaitInv(c, st) && Enabled(c, st, Run(t))
    ensures WaitInv(c, RunStep(c, st, t))
  {
    assert HasClientLock(st.pcs[t]) <==> st.lock == Client(t);
    RunWaits(c, st, t);
    RunLocks(c, st, t);
    OnlyOneMoves(c, st, t);
    WaitMoves(c, st, RunStep(c, st, t), t);
  }

  lemma WaitGc(c: Config, st: State)
    requires ValidConfig(c) && WaitInv(c, st) && Enabled(c, st, GcStep)
    ensures WaitInv(c, GcApply(c, st))
  {
    var st' := GcApply(c, st);
    forall t | 0 <= t < |st'.pcs|
      ensures HasClientLock(st'.pcs[t]) <==> st'.lock == Client(t)
      ensures SleepsOrWill(st'.pcs[t]) ==> st'.queue.waiting >= c.limit || st'.queue.gc.Owing?
    {
      assert HasClientLock(st.pcs[t]) <==> st.lock == Client(t);
      assert SleepsOrWill(st.pcs[t]) ==> st.queue.waiting >= c.limit || st.queue.gc.Owing?;
    }
  }

  lemma WaitStep(c: Config, st: State, l: Label)
    requires ValidConfig(c) && WaitInv(c, st) && Enabled(c, st, l)
    ensures WaitInv(c, Apply(c, st, l))
  {
    match l
    case Run(t) => WaitRun(c, st, t);
    case GcStep => WaitGc(c, st);
    case _ =>
  }

  ghost predicate LimitInv(c: Config, st: State) {
    c.auto ==>
      && st.queue.waiting <= c.limit
      && (!st.stamp.active ==> st.queue.waiting < c.limit)
      && forall t :: 0 <= t < |st.pcs| && MayQueue(st.pcs[t]) ==> st.queue.waiting < c.limit
  }

  /** Queueing, taking the reclaimer lock and passing the throttle, as far as the counter is concerned. */
  lemma RunLimits(c: Config, st: State, t: nat)
    requires Enabled(c, st, Run(t)) && c.auto && (Holds(st.pcs[t]) ==> st.stamp.active)
    ensures |RunStep(c, st, t).pcs| == |st.pcs|
    ensures var st' := RunStep(c, st, t);
      && (st'.queue.waiting == st.queue.waiting || (st.pcs[t].Initiate? && st'.queue.waiting == st.queue.waiting + 1))
      && (MayQueue(st'.pcs[t]) ==>
            && st'.queue.waiting == st.queue.waiting
            && (MayQueue(st.pcs[t]) || !st.stamp.active || st.queue.waiting < c.limit))
      && (!st'.stamp.active ==> st'.queue.waiting == st.queue.waiting && (!st.stamp.active || st.pcs[t].Release?))
  {
  }

  lemma LimitRun(c: Config, st: State, t: nat)
    requires ValidConfig(c) && LockInv(st.pcs, st.stamp.active) && LimitInv(c, st) && Enabled(c, st, Run(t)) && c.auto
    ensures LimitInv(c, RunStep(c, st, t))
  {
    var st' := RunStep(c, st, t);
    RunLimits(c, st, t);
    OnlyOneMoves(c, st, t);
    forall u | 0 <= u < |st'.pcs| && MayQueue(st'.pcs[u]) ensures st'.queue.waiting < c.limit {
      if u != t {
        assert MayQueue(st.pcs[u]) && Holds(st.pcs[u]);
        assert !Holds(st.pcs[t]);
      }
    }
  }

  lemma LimitStep(c: Config, st: State, l: Label)
    requires ValidConfig(c) && LockInv(st.pcs, st.stamp.active) && LimitInv(c, st) && Enabled(c, st, l)
    ensures LimitInv(c, Apply(c, st, l))
  {
    if c.auto && l.Run? {
      LimitRun(c, st, l.t);
    }
  }

  // ---------------------------------------------------------------- room in the rings and in the buffers

  ghost predicate IsForced(pc: Pc) {
    pc.User? || pc.Raise? || pc.forced
  }

  ghost predicate RingOk(c: Config, pc: Pc, ring: seq<nat>, t: nat) {
    && |ring| < c.capacity
    && (IsForced(pc) ==> !IsFull(c, ring))
    && ((pc.Drain? && pc.next > t) || HasGathered(pc) ==> ring == [])
  }

  /** The reclaimer has drained all rings, its own among them. */
  ghost predicate HasGathered(pc: Pc) {
    Holds(pc) && !pc.ReadForce? && !pc.ClearForce? && !pc.Drain?
  }

  ghost predicate BufOk(c: Config, pc: Pc, buf: seq<nat>, n: nat) {
    if pc.Drain? then pc.next <= n && |buf| <= pc.next * c.capacity
    else if pc.Initiate? then |buf| <= MaxPtrs(c)
    else buf == []
  }

  ghost predicate RoomInv(c: Config, st: State) {
    && Shape(st)
    && (forall t :: 0 <= t < |st.pcs| ==> RingOk(c, st.pcs[t], st.store.rings[t], t))
    && (forall t :: 0 <= t < |st.pcs| ==> BufOk(c, st.pcs[t], st.store.bufs[t], |st.pcs|))
  }

  lemma MulSteps(i: nat, n: nat, cap: nat)
    requires i < n
    ensures i * cap + cap == (i + 1) * cap <= n * cap
  {
    if i + 1 < n { MulSteps(i, n - 1, cap); }
  }

  /** A ring is always drained whole, and the buffer has room for it. */
  lemma DrainTakesAll(c: Config, st: State, t: nat)
    requires ValidConfig(c) && RoomInv(c, st) && t < |st.pcs| && st.pcs[t].Drain? && st.pcs[t].next < |st.pcs|
    ensures var i := st.pcs[t].next;
      var store := DrainRing(c, st.store, t, i);
      && store == st.store.(bufs := st.store.bufs[t := st.store.bufs[t] + st.store.rings[i]],
                            rings := st.store.rings[i := []])
      && |store.bufs[t]| <= (i + 1) * c.capacity <= MaxPtrs(c)
  {
    var i := st.pcs[t].next;
    assert RingOk(c, st.pcs[i], st.store.rings[i], i) && BufOk(c, st.pcs[t], st.store.bufs[t], |st.pcs|);
    MulSteps(i, MAX_THREAD_COUNT, c.capacity);
    var ring := st.store.rings[i];
    assert MaxPtrs(c) - |st.store.bufs[t]| >= c.capacity > |ring|;
    assert ring[..|ring|] == ring && ring[|ring|..] == [];
  }

  /** The step of a thread that touches rings or buffers only in its own places keeps the rest. */
  lemma RoomMoves(c: Config, st: State, st': State, t: nat)
    requires RoomInv(c, st) && t < |st.pcs| == |st'.pcs| && Shape(st')
    requires st'.pcs == st.pcs[t := st'.pcs[t]] && st'.store.bufs == st.store.bufs[t := st'.store.bufs[t]]
    requires st'.store.rings == st.store.rings
    requires RingOk(c, st'.pcs[t], st.store.rings[t], t) && BufOk(c, st'.pcs[t], st'.store.bufs[t], |st.pcs|)
    ensures RoomInv(c, st')
  {
    forall u | 0 <= u < |st'.pcs|
      ensures RingOk(c, st'.pcs[u], st'.store.rings[u], u) && BufOk(c, st'.pcs[u], st'.store.bufs[u], |st'.pcs|)
    {
      assert RingOk(c, st.pcs[u], st.store.rings[u], u) && BufOk(c, st.pcs[u], st.store.bufs[u], |st.pcs|);
    }
  }

  lemma DrainRoom(c: Config, st: State, t: nat)
    requires ValidConfig(c) && RoomInv(c, st) && Enabled(c, st, Run(t)) && st.pcs[t].Drain?
    ensures RoomInv(c, RunStep(c, st, t))
  {
    var st' := RunStep(c, st, t);
    var i := st.pcs[t].next;
    assert RingOk(c, st.pcs[t], st.store.rings[t], t) && BufOk(c, st.pcs[t], st.store.bufs[t], |st.pcs|);
    if i < |st.store.rings| {
      DrainTakesAll(c, st, t);
      forall u | 0 <= u < |st'.pcs|
        ensures RingOk(c, st'.pcs[u], st'.store.rings[u], u) && BufOk(c, st'.pcs[u], st'.store.bufs[u], |st'.pcs|)
      {
        assert RingOk(c, st.pcs[u], st.store.rings[u], u) && BufOk(c, st.pcs[u], st.store.bufs[u], |st.pcs|);
      }
    } else {
      if i < MAX_THREAD_COUNT { MulSteps(i, MAX_THREAD_COUNT, c.capacity); }
      RoomMoves(c, st, st', t);
    }
  }

  lemma RunRoom(c: Config, st: State, t: nat)
    requires ValidConfig(c) && RoomInv(c, st) && Enabled(c, st, Run(t)) && !st.pcs[t].Drain?
    ensures RoomInv(c, RunStep(c, st, t))
  {
    var st' := RunStep(c, st, t);
    assert RingOk(c, st.pcs[t], st.store.rings[t], t) && BufOk(c, st.pcs[t], st.store.bufs[t], |st.pcs|);
    OnlyOneMoves(c, st, t);
    RunRoomLocal(c, st, t);
    RoomMoves(c, st, st', t);
  }

  lemma RunRoomLocal(c: Config, st: State, t: nat)
    requires ValidConfig(c) && RoomInv(c, st) && Enabled(c, st, Run(t)) && !st.pcs[t].Drain?
    requires RingOk(c, st.pcs[t], st.store.rings[t], t) && BufOk(c, st.pcs[t], st.store.bufs[t], |st.pcs|)
    ensures var st' := RunStep(c, st, t);
      && |st'.pcs| == |st.pcs| && Shape(st')
      && st'.store == st.store.(bufs := st'.store.bufs) && st'.store.bufs == st.store.bufs[t := st'.store.bufs[t]]
      && RingOk(c, st'.pcs[t], st.store.rings[t], t) && BufOk(c, st'.pcs[t], st'.store.bufs[t], |st.pcs|)
  {
    if !st.pcs[t].Initiate? { assert st.store.bufs[t := st.store.bufs[t]] == st.store.bufs; }
  }

  lemma RetireRoom(c: Config, st: State, t: nat, p: nat)
    requires ValidConfig(c) && RoomInv(c, st) && Enabled(c, st, Retire(t, p))
    ensures RoomInv(c, Apply(c, st, Retire(t, p)))
  {
    var st' := Apply(c, st, Retire(t, p));
    forall u | 0 <= u < |st'.pcs|
      ensures RingOk(c, st'.pcs[u], st'.store.rings[u], u) && BufOk(c, st'.pcs[u], st'.store.bufs[u], |st'.pcs|)
    {
      assert RingOk(c, st.pcs[u], st.store.rings[u], u) && BufOk(c, st.pcs[u], st.store.bufs[u], |st.pcs|);
    }
  }

  lemma WakeRoom(c: Config, st: State)
    requires ValidConfig(c) && RoomInv(c, st) && Enabled(c, st, GcStep)
    ensures RoomInv(c, GcApply(c, st))
  {
    var st' := GcApply(c, st);
    forall u | 0 <= u < |st'.pcs|
      ensures RingOk(c, st'.pcs[u], st'.store.rings[u], u) && BufOk(c, st'.pcs[u], st'.store.bufs[u], |st'.pcs|)
    {
      assert RingOk(c, st.pcs[u], st.store.rings[u], u) && BufOk(c, st.pcs[u], st.store.bufs[u], |st.pcs|);
    }
  }

  lemma RoomStep(c: Config, st: State, l: Label)
    requires ValidConfig(c) && RoomInv(c, st) && Enabled(c, st, l)
    ensures RoomInv(c, Apply(c, st, l))
  {
    match l
    case Run(t) => if st.pcs[t].Drain? { DrainRoom(c, st, t); } else { RunRoom(c, st, t); }
    case Retire(t, p) => RetireRoom(c, st, t, p);
    case Force(t) =>
      assert RingOk(c, st.pcs[t], st.store.rings[t], t) && BufOk(c, st.pcs[t], st.store.bufs[t], |st.pcs|);
      RoomMoves(c, st, Apply(c, st, l), t);
    case GcStep => WakeRoom(c, st);
    case _ =>
  }

  // ---------------------------------------------------------------- conservation

  /** How often p occurs in the given lists. */
  ghost function Times(xss: seq<seq<nat>>, p: nat): nat {
    if xss == [] then 0 else Times(xss[..|xss| - 1], p) + multiset(xss[|xss| - 1])[p]
  }

  lemma {:induction false} TotalTimes(xss: seq<seq<nat>>, p: nat)
    ensures Total(xss)[p] == Times(xss, p)
  {
    if xss != [] { TotalTimes(xss[..|xss| - 1], p); }
  }

  lemma {:induction false} TimesUpdate(xss: seq<seq<nat>>, i: nat, xs: seq<nat>, p: nat)
    requires i < |xss|
    ensures Times(xss[i := xs], p) + multiset(xss[i])[p] == Times(xss, p) + multiset(xs)[p]
  {
    var n := |xss| - 1;
    var yss := xss[i := xs];
    if i < n {
      TimesUpdate(xss[..n], i, xs, p);
      assert yss[..n] == xss[..n][i := xs] && yss[n] == xss[n];
    } else {
      assert yss[..n] == xss[..n] && yss[n] == xs;
    }
  }

  lemma {:induction false} TimesCons(xs: seq<nat>, xss: seq<seq<nat>>, p: nat)
    ensures Times([xs] + xss, p) == multiset(xs)[p] + Times(xss, p)
  {
    var all := [xs] + xss;
    if xss == [] {
      assert all == [xs] && all[..0] == [];
    } else {
      TimesCons(xs, xss[..|xss| - 1], p);
      assert all[..|all| - 1] == [xs] + xss[..|xss| - 1];
    }
  }

  lemma {:induction false} TimesOfEmpties(xss: seq<seq<nat>>, p: nat)
    requires forall i :: 0 <= i < |xss| ==> xss[i] == []
    ensures Times(xss, p) == 0
  {
    if xss != [] {
      TimesOfEmpties(xss[..|xss| - 1], p);
    }
  }

  /** The buffers that the collector thread has taken and not yet aggregated. */
  ghost function InHand(gc: Gc): seq<Buf> {
    if gc.Owing? || gc.Aggregating? then gc.bufs else []
  }

  ghost function TimesQueued(queue: Queue, p: nat): nat {
    Times(Addrs(queue.chain), p) + Times(Addrs(InHand(queue.gc)), p)
  }

  ghost function TimesHeld(store: Store, p: nat): nat {
    Times(store.rings, p) + Times(store.bufs, p)
  }

  ghost function TimesKept(store: Store, p: nat): nat {
    store.uncollected[p] + store.working[p] + store.dead[p] + store.freed[p]
  }

  /** Every retirement of p is in exactly one place: a ring, a buffer being filled, a queued buffer, the collector
      thread's hands, the survivors, the working buffer, the dead, or the freed. */
  ghost predicate ConservedAt(st: State, p: nat) {
    st.store.retired[p] == TimesHeld(st.store, p) + TimesKept(st.store, p) + TimesQueued(st.queue, p)
  }

  lemma DrainConserves(c: Config, store: Store, t: nat, i: nat, p: nat)
    requires t < |store.bufs| && i < |store.rings|
    ensures TimesHeld(DrainRing(c, store, t, i), p) == TimesHeld(store, p)
  {
    var room := MaxPtrs(c) - |store.bufs[t]|;
    var ring := store.rings[i];
    var n: nat := Max(Min(room, |ring|), 0);
    assert ring == ring[..n] + ring[n..];
    TimesUpdate(store.bufs, t, store.bufs[t] + ring[..n], p);
    TimesUpdate(store.rings, i, ring[n..], p);
  }

  lemma EnqueueConserves(store: Store, queue: Queue, t: nat, counted: bool, p: nat)
    requires t < |store.bufs|
    ensures TimesHeld(store.(bufs := store.bufs[t := []]), p) + TimesQueued(Enqueue(queue, store.bufs[t], counted), p)
         == TimesHeld(store, p) + TimesQueued(queue, p)
  {
    TimesUpdate(store.bufs, t, [], p);
    var queue' := Enqueue(queue, store.bufs[t], counted);
    assert Addrs(queue'.chain) == [store.bufs[t]] + Addrs(queue.chain);
    TimesCons(store.bufs[t], Addrs(queue.chain), p);
    assert InHand(queue'.gc) == InHand(queue.gc);
  }

  /** Only draining and queueing move pointers. */
  lemma RunMovesNoPointers(c: Config, st: State, t: nat)
    requires Enabled(c, st, Run(t)) && !st.pcs[t].Drain? && !st.pcs[t].Initiate?
    ensures RunStep(c, st, t).store == st.store && RunStep(c, st, t).queue == st.queue
  {
  }

  lemma RunConserves(c: Config, st: State, t: nat, p: nat)
    requires ConservedAt(st, p) && Enabled(c, st, Run(t))
    ensures ConservedAt(RunStep(c, st, t), p)
  {
    if st.pcs[t].Drain? {
      if st.pcs[t].next < |st.store.rings| { DrainConserves(c, st.store, t, st.pcs[t].next, p); }
    } else if st.pcs[t].Initiate? {
      EnqueueConserves(st.store, st.queue, t, c.auto || st.pcs[t].force, p);
    } else {
      RunMovesNoPointers(c, st, t);
    }
  }

  lemma PublishKeeps(store: Store, survivors: multiset<nat>, p: nat)
    requires survivors <= store.working && store.uncollected == multiset{}
    ensures TimesKept(Published(store, survivors), p) == TimesKept(store, p)
  {
    assert store.working == (store.working - survivors) + survivors;
  }

  lemma PublishConserves(c: Config, st: State, survivors: multiset<nat>, p: nat)
    requires ConservedAt(st, p) && Enabled(c, st, Publish(survivors)) && st.store.uncollected == multiset{}
    ensures ConservedAt(Apply(c, st, Publish(survivors)), p)
  {
    var st' := Apply(c, st, Publish(survivors));
    assert InHand(st'.queue.gc) == InHand(st.queue.gc);
    PublishKeeps(st.store, survivors, p);
  }

  lemma GcConserves(c: Config, st: State, p: nat)
    requires ConservedAt(st, p) && Enabled(c, st, GcStep)
    requires st.queue.gc.Aggregating? ==> st.store.working == multiset{}
    ensures ConservedAt(GcApply(c, st), p)
  {
    if st.queue.gc.Aggregating? { AggregateConserves(c, st, p); } else { GcQueues(c, st, p); }
  }

  /** Until it aggregates, the collector thread only takes the chain in hand. */
  lemma GcQueues(c: Config, st: State, p: nat)
    requires Enabled(c, st, GcStep) && !st.queue.gc.Aggregating?
    ensures GcApply(c, st).store == st.store
    ensures TimesQueued(GcApply(c, st).queue, p) == TimesQueued(st.queue, p)
  {
    assert Addrs([]) == [];
  }

  lemma AggregateConserves(c: Config, st: State, p: nat)
    requires ConservedAt(st, p) && Enabled(c, st, GcStep)
    requires st.queue.gc.Aggregating? && st.store.working == multiset{}
    ensures ConservedAt(GcApply(c, st), p)
  {
    assert Addrs([]) == [];
    TotalTimes(Addrs(st.queue.gc.bufs), p);
  }

  lemma RetireConserves(c: Config, st: State, t: nat, q: nat, p: nat)
    requires ConservedAt(st, p) && Enabled(c, st, Retire(t, q))
    ensures ConservedAt(Apply(c, st, Retire(t, q)), p)
  {
    TimesUpdate(st.store.rings, t, st.store.rings[t] + [q], p);
  }

  /** The working buffer is empty except during an iteration. */
  ghost predicate WorkInv(st: State) {
    && (forall p: nat :: ConservedAt(st, p))
    && (!st.queue.gc.Collecting? ==> st.store.working == multiset{})
    && (st.queue.gc.Collecting? ==> st.store.uncollected == multiset{})
  }

  lemma RunWorks(c: Config, st: State, t: nat)
    requires Enabled(c, st, Run(t))
    ensures RunStep(c, st, t).store.working == st.store.working
    ensures RunStep(c, st, t).store.uncollected == st.store.uncollected
    ensures RunStep(c, st, t).queue.gc.Collecting? <==> st.queue.gc.Collecting?
  {
  }

  lemma ConserveStep(c: Config, st: State, l: Label, p: nat)
    requires ConservedAt(st, p) && Enabled(c, st, l)
    requires !st.queue.gc.Collecting? ==> st.store.working == multiset{}
    requires st.queue.gc.Collecting? ==> st.store.uncollected == multiset{}
    ensures ConservedAt(Apply(c, st, l), p)
  {
    match l
    case Run(t) => RunConserves(c, st, t, p);
    case Retire(t, q) => RetireConserves(c, st, t, q, p);
    case GcStep => GcConserves(c, st, p);
    case Publish(survivors) => PublishConserves(c, st, survivors, p);
    case Force(_) =>
    case Free(_) =>
  }

  lemma WorkStep(c: Config, st: State, l: Label)
    requires WorkInv(st) && Enabled(c, st, l)
    ensures WorkInv(Apply(c, st, l))
  {
    forall p: nat ensures ConservedAt(Apply(c, st, l), p) {
      ConserveStep(c, st, l, p);
    }
    if l.Run? { RunWorks(c, st, l.t); }
  }

  // ---------------------------------------------------------------- each buffer once

  /** Each buffer ever queued is in the chain or has reached an iteration, once. */
  ghost predicate OnceInv(queue: Queue) {
    forall id: nat :: Count(Ids(queue.chain), id) + Count(queue.taken, id) == if id < queue.queued then 1 else 0
  }

  ghost function Count(ids: seq<nat>, id: nat): nat {
    multiset(ids)[id]
  }

  lemma CountAppend(a: seq<nat>, b: seq<nat>, id: nat)
    ensures Count(a + b, id) == Count(a, id) + Count(b, id)
  {
  }

  lemma EnqueueOnce(queue: Queue, addrs: seq<nat>, counted: bool)
    requires OnceInv(queue)
    ensures OnceInv(Enqueue(queue, addrs, counted))
  {
    var queue' := Enqueue(queue, addrs, counted);
    assert Ids(queue'.chain) == [queue.queued] + Ids(queue.chain);
    forall id: nat
      ensures Count(Ids(queue'.chain), id) + Count(queue'.taken, id) == if id < queue'.queued then 1 else 0
    {
      CountAppend([queue.queued], Ids(queue.chain), id);
    }
  }

  lemma TakeOnce(c: Config, queue: Queue)
    requires OnceInv(queue)
    ensures OnceInv(TakeChain(c, queue))
  {
    var queue' := TakeChain(c, queue);
    assert Ids(queue'.chain) == [];
    forall id: nat
      ensures Count(Ids(queue'.chain), id) + Count(queue'.taken, id) == if id < queue'.queued then 1 else 0
    {
      CountAppend(queue.taken, Ids(queue.chain), id);
    }
  }

  lemma OnceStep(c: Config, st: State, l: Label)
    requires OnceInv(st.queue) && Enabled(c, st, l)
    ensures OnceInv(Apply(c, st, l).queue)
  {
    match l
    case Run(t) => RunOnce(c, st, t);
    case GcStep => TakeOnce(c, if st.queue.gc.Sleeping? then st.queue.(gcWaiting := false) else st.queue);
    case _ =>
  }

  lemma RunOnce(c: Config, st: State, t: nat)
    requires OnceInv(st.queue) && Enabled(c, st, Run(t))
    ensures OnceInv(RunStep(c, st, t).queue)
  {
    if st.pcs[t].Initiate? {
      EnqueueOnce(st.queue, st.store.bufs[t], c.auto || st.pcs[t].force);
    }
  }

  // ---------------------------------------------------------------- runs

  ghost predicate Inv(c: Config, st: State) {
    && LockInv(st.pcs, st.stamp.active) && WaitInv(c, st) && LimitInv(c, st) && RoomInv(c, st)
    && WorkInv(st) && OnceInv(st.queue)
  }

  lemma InitInv(c: Config, st: State)
    requires ValidConfig(c) && Init(st)
    ensures Inv(c, st)
  {
    forall p: nat ensures ConservedAt(st, p) {
      TimesOfEmpties(st.store.rings, p);
      TimesOfEmpties(st.store.bufs, p);
    }
    assert Addrs([]) == [] && Ids([]) == [];
  }

  lemma StepInv(c: Config, st: State, l: Label)
    requires ValidConfig(c) && Inv(c, st) && Enabled(c, st, l)
    ensures Inv(c, Apply(c, st, l))
  {
    LockStep(c, st, l);
    WaitStep(c, st, l);
    LimitStep(c, st, l);
    RoomStep(c, st, l);
    WorkStep(c, st, l);
    OnceStep(c, st, l);
  }

  lemma {:induction false} RunInv(c: Config, st: State, labels: seq<Label>, st': State)
    requires ValidConfig(c) && Inv(c, st) && Runs(c, st, labels, st')
    ensures Inv(c, st')
    decreases |labels|
  {
    if labels != [] {
      StepInv(c, st, labels[0]);
      RunInv(c, Apply(c, st, labels[0]), labels[1..], st');
    }
  }

  lemma RunFromInit(c: Config, st0: State, labels: seq<Label>, st: State)
    requires ValidConfig(c) && Init(st0) && Runs(c, st0, labels, st)
    ensures Inv(c, st)
  {
    InitInv(c, st0);
    RunInv(c, st0, labels, st);
  }

  // ---------------------------------------------------------------- what every run keeps

  /** At most one thread is the reclaimer, so that each ring has one consumer; the flag in global_timestamp says
      whether there is one. */
  lemma OneReclaimer(c: Config, st0: State, labels: seq<Label>, st: State)
    requires ValidConfig(c) && Init(st0) && Runs(c, st0, labels, st)
    ensures forall t, u :: 0 <= t < |st.pcs| && 0 <= u < |st.pcs| && Holds(st.pcs[t]) && Holds(st.pcs[u]) ==> t == u
    ensures st.stamp.active <==> exists t :: 0 <= t < |st.pcs| && Holds(st.pcs[t])
  {
    RunFromInit(c, st0, labels, st);
  }

  /** A retired pointer is never lost and never duplicated on its way. */
  lemma PointersAreConserved(c: Config, st0: State, labels: seq<Label>, st: State, p: nat)
    requires ValidConfig(c) && Init(st0) && Runs(c, st0, labels, st)
    ensures ConservedAt(st, p)
    ensures st.store.freed[p] <= st.store.retired[p]
  {
    RunFromInit(c, st0, labels, st);
    assert ConservedAt(st, p);
  }

  /** A thread that may retire has room in its ring, and the reclaimer always drains a ring whole: its buffer
      is large enough for all rings of all threads. */
  lemma RingsNeverOverflow(c: Config, st0: State, labels: seq<Label>, st: State, t: nat)
    requires ValidConfig(c) && Init(st0) && Runs(c, st0, labels, st) && t < |st.pcs|
    ensures Shape(st) && |st.store.rings[t]| < c.capacity
    ensures st.pcs[t].User? ==> !IsFull(c, st.store.rings[t])
    ensures |st.store.bufs[t]| <= MaxPtrs(c)
    ensures st.pcs[t].Drain? && st.pcs[t].next < |st.pcs| ==>
              DrainRing(c, st.store, t, st.pcs[t].next).rings[st.pcs[t].next] == []
    ensures st.pcs[t].Initiate? ==> !IsFull(c, st.store.rings[t])
  {
    RunFromInit(c, st0, labels, st);
    assert RingOk(c, st.pcs[t], st.store.rings[t], t) && BufOk(c, st.pcs[t], st.store.bufs[t], |st.pcs|);
    if st.pcs[t].Drain? {
      if st.pcs[t].next < |st.pcs| { DrainTakesAll(c, st, t); }
      if st.pcs[t].next < MAX_THREAD_COUNT { MulSteps(st.pcs[t].next, MAX_THREAD_COUNT, c.capacity); }
    }
  }

  /** When the collector thread is about to take the chain, there is one (the assertion of forkscan_thread), and what
      it has taken is never nothing. */
  lemma WorkMeansBuffers(c: Config, st0: State, labels: seq<Label>, st: State)
    requires ValidConfig(c) && Init(st0) && Runs(c, st0, labels, st)
    ensures st.queue.waiting > 0 ==> st.queue.chain != []
    ensures st.queue.gc.Sleeping? && st.queue.gc.signalled ==> st.queue.chain != []
    ensures st.queue.gc.Owing? || st.queue.gc.Aggregating? ==> st.queue.gc.bufs != []
    ensures st.queue.gc.Sleeping? && !st.queue.gc.signalled ==> st.queue.waiting == 0
  {
    RunFromInit(c, st0, labels, st);
  }

  /** Each queued buffer reaches at most one iteration, and until it does it is in the chain. */
  lemma EachBufferOnce(c: Config, st0: State, labels: seq<Label>, st: State, id: nat)
    requires ValidConfig(c) && Init(st0) && Runs(c, st0, labels, st)
    ensures Count(st.queue.taken, id) <= 1
    ensures id < st.queue.queued ==> (id in st.queue.taken <==> id !in Ids(st.queue.chain))
  {
    RunFromInit(c, st0, labels, st);
    var chain := Ids(st.queue.chain);
    assert Count(chain, id) + Count(st.queue.taken, id) == if id < st.queue.queued then 1 else 0;
    assert id in chain <==> id in multiset(chain);
    assert id in st.queue.taken <==> id in multiset(st.queue.taken);
  }

  /** No wakeup is lost: a thread that sleeps in the throttle and has not been woken has reason to, or the collector
      thread still owes it the broadcast. */
  lemma SleeperIsOwed(c: Config, st0: State, labels: seq<Label>, st: State, t: nat)
    requires ValidConfig(c) && Init(st0) && Runs(c, st0, labels, st)
    requires t < |st.pcs| && st.pcs[t].Asleep? && !st.pcs[t].woken
    ensures st.queue.waiting >= c.limit || st.queue.gc.Owing?
    ensures st.queue.gc.Owing? && st.lock.NoOne? ==>
              && Enabled(c, st, GcStep) && |Apply(c, st, GcStep).pcs| == |st.pcs|
              && Apply(c, st, GcStep).pcs[t] == Asleep(st.pcs[t].forced, true)
    ensures !st.queue.gc.Owing? ==> st.queue.chain != []
  {
    RunFromInit(c, st0, labels, st);
  }

  /** The throttled thread keeps the reclaimer lock, so in automatic mode never more buffers wait than the limit
      allows. */
  lemma WaitingIsLimited(c: Config, st0: State, labels: seq<Label>, st: State)
    requires ValidConfig(c) && Init(st0) && Runs(c, st0, labels, st) && c.auto
    ensures st.queue.waiting <= c.limit
  {
    RunFromInit(c, st0, labels, st);
  }
}
