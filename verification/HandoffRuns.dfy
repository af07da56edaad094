/** What the calls have asked for and what becomes of it: every retirement is accounted for, and from every reachable
    state all of them can still be freed (frontend.c 65-105 and 191-264, forkscan.c 267-326). */
module HandoffRuns {
  import opened Words
  import opened Handoff

  lemma {:induction false} RunsJoin(c: Config, st: State, labels: seq<Label>, mid: State, more: seq<Label>, st': State)
    requires Runs(c, st, labels, mid) && Runs(c, mid, more, st')
    ensures Runs(c, st, labels + more, st')
    decreases |labels|
  {
    if labels == [] {
      assert labels + more == more;
    } else {
      RunsJoin(c, Apply(c, st, labels[0]), labels[1..], mid, more, st');
      SplitsFirst(labels, more);
    }
  }

  lemma SplitsFirst(labels: seq<Label>, more: seq<Label>)
    requires labels != []
    ensures labels + more != [] && (labels + more)[0] == labels[0] && (labels + more)[1..] == labels[1..] + more
  {
  }

  lemma RunsOn(c: Config, st: State, l: Label, rest: seq<Label>, st': State)
    requires Enabled(c, st, l) && Runs(c, Apply(c, st, l), rest, st')
    ensures Runs(c, st, [l] + rest, st')
  {
    assert ([l] + rest)[1..] == rest;
  }

  lemma RunsOne(c: Config, st: State, l: Label)
    requires Enabled(c, st, l)
    ensures Runs(c, st, [l], Apply(c, st, l))
  {
    assert [l][1..] == [];
  }

  // ---------------------------------------------------------------- what the calls ask for

  /** The pointers that the threads retire in a run, and those that are freed in it. */
  ghost function RetiredBy(labels: seq<Label>): multiset<nat> {
    if labels == [] then multiset{}
    else (if labels[0].Retire? then multiset{labels[0].p} else multiset{}) + RetiredBy(labels[1..])
  }

  ghost function FreedBy(labels: seq<Label>): multiset<nat> {
    if labels == [] then multiset{}
    else (if labels[0].Free? then multiset{labels[0].p} else multiset{}) + FreedBy(labels[1..])
  }

  /** What the last round of the run has left for the next one. */
  ghost function LastSurvivors(labels: seq<Label>, before: multiset<nat>): multiset<nat> {
    if labels == [] then before
    else LastSurvivors(labels[1..], if labels[0].Publish? then labels[0].survivors else before)
  }

  lemma StepHistory(c: Config, st: State, l: Label)
    requires Enabled(c, st, l)
    ensures Apply(c, st, l).store.retired == st.store.retired + if l.Retire? then multiset{l.p} else multiset{}
    ensures Apply(c, st, l).store.freed == st.store.freed + if l.Free? then multiset{l.p} else multiset{}
  {
  }

  lemma {:induction false} HistoryKept(c: Config, st: State, labels: seq<Label>, st': State)
    requires Runs(c, st, labels, st')
    ensures st'.store.retired == st.store.retired + RetiredBy(labels)
    ensures st'.store.freed == st.store.freed + FreedBy(labels)
    decreases |labels|
  {
    if labels != [] {
      StepHistory(c, st, labels[0]);
      HistoryKept(c, Apply(c, st, labels[0]), labels[1..], st');
    }
  }

  /** Every call of forkscan_retire is accounted for: each pointer is found, as often as it has been retired, in the
      rings, the reclaimers' buffers, the queue, the collector thread's hands, the survivors, the working buffer, among
      the dead, or among what has been freed. */
  lemma RetirementsAreAccounted(c: Config, st0: State, labels: seq<Label>, st: State, p: nat)
    requires ValidConfig(c) && Init(st0) && Runs(c, st0, labels, st)
    ensures RetiredBy(labels)[p] == TimesHeld(st.store, p) + TimesKept(st.store, p) + TimesQueued(st.queue, p)
    ensures FreedBy(labels)[p] == st.store.freed[p] <= RetiredBy(labels)[p]
  {
    HistoryKept(c, st0, labels, st);
    PointersAreConserved(c, st0, labels, st, p);
  }

  /** A thread that retires a pointer has room for it, and it becomes the last one in its own ring. */
  lemma RetireAppends(c: Config, st0: State, labels: seq<Label>, st: State, t: nat, p: nat)
    requires ValidConfig(c) && Init(st0) && Runs(c, st0, labels, st) && Enabled(c, st, Retire(t, p))
    ensures var st' := Apply(c, st, Retire(t, p));
      && |st'.store.rings| == |st.store.rings| && |st.store.rings[t]| + 1 < c.capacity
      && st'.store.rings[t] == st.store.rings[t] + [p]
      && forall u :: 0 <= u < |st.store.rings| && u != t ==> st'.store.rings[u] == st.store.rings[u]
  {
    RunFromInit(c, st0, labels, st);
    assert RingOk(c, st.pcs[t], st.store.rings[t], t);
  }

  /** Between two iterations the survivors are what the last publication has left, and the working buffer of the next
      iteration is these and the buffers taken from the queue. */
  lemma {:induction false} SurvivorsAreKept(c: Config, st: State, labels: seq<Label>, st': State, left: multiset<nat>)
    requires Runs(c, st, labels, st')
    requires !st.queue.gc.Collecting? ==> st.store.uncollected == left
    ensures !st'.queue.gc.Collecting? ==> st'.store.uncollected == LastSurvivors(labels, left)
    ensures st'.queue.gc.Aggregating? && Enabled(c, st', GcStep) ==>
              Apply(c, st', GcStep).store.working == LastSurvivors(labels, left) + Total(Addrs(st'.queue.gc.bufs))
    decreases |labels|
  {
    if labels != [] {
      var mid := Apply(c, st, labels[0]);
      SurvivorsStep(c, st, labels[0], left);
      SurvivorsAreKept(c, mid, labels[1..], st', if labels[0].Publish? then labels[0].survivors else left);
    }
  }

  lemma SurvivorsStep(c: Config, st: State, l: Label, left: multiset<nat>)
    requires Enabled(c, st, l) && (!st.queue.gc.Collecting? ==> st.store.uncollected == left)
    ensures var st' := Apply(c, st, l);
      !st'.queue.gc.Collecting? ==> st'.store.uncollected == if l.Publish? then l.survivors else left
  {
  }

  // ---------------------------------------------------------------- manual mode

  ghost predicate NoForce(labels: seq<Label>) {
    forall k :: 0 <= k < |labels| ==> !labels[k].Force?
  }

  /** Without automatic mode, and before anybody has forced one, no iteration is under way or asked for. */
  ghost predicate Unasked(st: State) {
    && !st.force && st.queue.waiting == 0 && st.queue.taken == []
    && (st.queue.gc.Top? || st.queue.gc == Sleeping(false))
    && forall t :: 0 <= t < |st.pcs| ==> Unforced(st.pcs[t])
  }

  ghost predicate Unforced(pc: Pc) {
    match pc
    case User => true
    case Raise => false
    case ClearForce(_) => false
    case Drain(forced, force, _) => !forced && !force
    case Initiate(forced, force) => !forced && !force
    case _ => !pc.forced
  }

  lemma UnaskedStep(c: Config, st: State, l: Label)
    requires !c.auto && Unasked(st) && Enabled(c, st, l) && !l.Force?
    ensures Unasked(Apply(c, st, l))
  {
    if l.Run? { UnaskedRun(c, st, l.t); }
  }

  lemma UnaskedRun(c: Config, st: State, t: nat)
    requires !c.auto && Unasked(st) && Enabled(c, st, Run(t))
    ensures Unasked(RunStep(c, st, t))
  {
    OnlyOneMoves(c, st, t);
    assert Unforced(st.pcs[t]);
  }

  lemma {:induction false} UnaskedRuns(c: Config, st: State, labels: seq<Label>, st': State)
    requires !c.auto && Unasked(st) && Runs(c, st, labels, st') && NoForce(labels)
    ensures Unasked(st')
    decreases |labels|
  {
    if labels != [] {
      UnaskedStep(c, st, labels[0]);
      UnaskedRuns(c, Apply(c, st, labels[0]), labels[1..], st');
    }
  }

  /** In manual mode buffers are queued but not counted: no iteration takes place until one is forced. */
  lemma ManualWaits(c: Config, st0: State, labels: seq<Label>, st: State)
    requires ValidConfig(c) && !c.auto && Init(st0) && Runs(c, st0, labels, st) && NoForce(labels)
    ensures st.queue.waiting == 0 && st.queue.taken == []
    ensures st.store.working == st.store.dead == st.store.freed == multiset{}
  {
    UnaskedRuns(c, st0, labels, st);
    NothingTaken(c, st0, labels, st);
  }

  lemma {:induction false} NothingTaken(c: Config, st: State, labels: seq<Label>, st': State)
    requires !c.auto && Unasked(st) && Runs(c, st, labels, st') && NoForce(labels)
    requires st.store.working == st.store.dead == st.store.freed == multiset{}
    ensures st'.store.working == st'.store.dead == st'.store.freed == multiset{}
    decreases |labels|
  {
    if labels != [] {
      UnaskedStep(c, st, labels[0]);
      NothingTaken(c, Apply(c, st, labels[0]), labels[1..], st');
    }
  }

  /** A buffer is counted exactly when the mode is automatic or the iteration was asked for, and in both cases it is
      queued, in front of the others. */
  lemma CountedExactly(c: Config, st: State, t: nat)
    requires Enabled(c, st, Run(t)) && st.pcs[t].Initiate?
    ensures var queue, queue' := st.queue, Apply(c, st, Run(t)).queue;
      && (queue'.waiting == queue.waiting + 1 <==> c.auto || st.pcs[t].force)
      && (queue'.waiting == queue.waiting <==> !c.auto && !st.pcs[t].force)
      && queue'.chain == [Buf(queue.queued, st.store.bufs[t])] + queue.chain
  {
  }

  // ---------------------------------------------------------------- who is throttled, and who is woken

  ghost predicate InThrottle(pc: Pc) {
    pc.Throttle? || pc.TakeLock? || pc.Checking? || pc.AboutToWait? || pc.Asleep?
  }

  ghost predicate NoneThrottled(st: State) {
    forall t :: 0 <= t < |st.pcs| ==> !InThrottle(st.pcs[t])
  }

  lemma NoneThrottledStep(c: Config, st: State, l: Label)
    requires !c.auto && NoneThrottled(st) && Enabled(c, st, l)
    ensures NoneThrottled(Apply(c, st, l))
  {
    if l.Run? { OnlyOneMoves(c, st, l.t); }
  }

  /** In manual mode nobody is ever throttled, however many buffers wait. */
  lemma {:induction false} ManualNeverThrottles(c: Config, st: State, labels: seq<Label>, st': State)
    requires !c.auto && Runs(c, st, labels, st') && NoneThrottled(st)
    ensures NoneThrottled(st')
    decreases |labels|
  {
    if labels != [] {
      NoneThrottledStep(c, st, labels[0]);
      ManualNeverThrottles(c, Apply(c, st, labels[0]), labels[1..], st');
    }
  }

  /** The collector thread goes to sleep exactly when nothing is counted.  Otherwise it takes the whole chain and resets
      the counter, and it owes the throttled threads a wakeup exactly when the counter had reached the limit. */
  lemma TakesExactly(c: Config, st: State)
    requires Enabled(c, st, GcStep) && (st.queue.gc.Top? || st.queue.gc.Sleeping?)
    ensures var queue, queue' := st.queue, Apply(c, st, GcStep).queue;
      && (queue'.gc.Sleeping? <==> queue.gc.Top? && queue.waiting == 0)
      && (queue'.gc.Sleeping? ==> queue'.chain == queue.chain && queue'.gcWaiting && !queue'.gc.signalled)
      && (!queue'.gc.Sleeping? ==>
            && queue'.chain == [] && queue'.waiting == 0
            && queue'.gc == (if queue.waiting >= c.limit then Owing(queue.chain) else Aggregating(queue.chain)))
  {
  }
}
