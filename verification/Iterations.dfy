/** The queue and the cooperative freeing together: when the working buffer of an iteration is empty, and what becomes
    of it then (forkscan.c 114-159 and 229-244, frontend.c 253-264). */
module Iterations {
  import opened Words
  import A = Handoff
  import R = Retirees

  datatype State = State(hand: A.State, work: R.State)

  /** Publish is the step that both have in common. */
  datatype Label = Hand(h: A.Label) | Work(r: R.Label) | Publish(orig: seq<nat>)

  ghost predicate Init(st: State) {
    A.Init(st.hand) && R.Init(st.work)
  }

  /** The addresses of a working buffer, without their marks. */
  ghost function Unmasked(orig: seq<nat>): multiset<nat> {
    multiset(seq(|orig|, i requires 0 <= i < |orig| => PtrMask(orig[i])))
  }

  /** The collector thread starts the next iteration when it has copied the survivors of this one. */
  ghost predicate Enabled(c: A.Config, st: State, l: Label) {
    match l
    case Hand(h) => A.Enabled(c, st.hand, h) && !h.Publish? && (h.GcStep? ==> st.work.gc.Idle?)
    case Work(r) => R.Enabled(st.work, r) && !r.Publish?
    case Publish(orig) =>
      && R.Enabled(st.work, R.Publish(orig))
      && A.Enabled(c, st.hand, A.Publish(multiset(R.MarkedOf(orig))))
      && Unmasked(orig) == st.hand.store.working
  }

  ghost function Apply(c: A.Config, st: State, l: Label): State
    requires Enabled(c, st, l)
  {
    match l
    case Hand(h) => st.(hand := A.Apply(c, st.hand, h))
    case Work(r) => st.(work := R.Apply(st.work, r))
    case Publish(orig) =>
      State(A.Apply(c, st.hand, A.Publish(multiset(R.MarkedOf(orig)))), R.Apply(st.work, R.Publish(orig)))
  }

  ghost predicate Runs(c: A.Config, st: State, labels: seq<Label>, st': State)
    decreases |labels|
  {
    if labels == [] then st' == st
    else Enabled(c, st, labels[0]) && Runs(c, Apply(c, st, labels[0]), labels[1..], st')
  }

  /** What a step is to the freeing. */
  ghost function WorkOf(l: Label): seq<R.Label> {
    match l
    case Hand(_) => []
    case Work(r) => [r]
    case Publish(orig) => [R.Publish(orig)]
  }

  ghost function WorkPart(labels: seq<Label>): seq<R.Label> {
    if labels == [] then [] else WorkOf(labels[0]) + WorkPart(labels[1..])
  }

  /** A joint run is a run of the freeing. */
  lemma {:induction false} WorkRuns(c: A.Config, st: State, labels: seq<Label>, st': State)
    requires Runs(c, st, labels, st')
    ensures R.Runs(st.work, WorkPart(labels), st'.work)
    decreases |labels|
  {
    if labels != [] {
      var rest := WorkPart(labels[1..]);
      WorkRuns(c, Apply(c, st, labels[0]), labels[1..], st');
      if labels[0].Hand? {
        assert WorkPart(labels) == rest;
      } else {
        R.RunsOn(st.work, WorkOf(labels[0])[0], rest, st'.work);
        assert WorkPart(labels) == [WorkOf(labels[0])[0]] + rest;
      }
    }
  }

  /** Publication p is released at most once and only off the list, whatever happens. */
  ghost predicate AlwaysReleasedWell(c: A.Config, st: State, p: nat) {
    forall labels, st' :: Runs(c, st, labels, st') ==> R.ReleasedWell(st'.work, p)
  }

  /** What an iteration publishes is released well if and only if its working buffer has something in it. */
  lemma IterationIsSafeExactly(c: A.Config, st0: State, labels: seq<Label>, st: State, orig: seq<nat>)
    requires Init(st0) && Runs(c, st0, labels, st) && Enabled(c, st, Publish(orig))
    ensures st.hand.store.working != multiset{} <==>
            AlwaysReleasedWell(c, Apply(c, st, Publish(orig)), |st.work.pubs|)
  {
    var published := Apply(c, st, Publish(orig));
    assert |Unmasked(orig)| == |orig|;
    WorkRuns(c, st0, labels, st);
    R.PublicationIsSafeExactly(st0.work, WorkPart(labels), st.work, orig);
    if orig != [] {
      forall more, st' | Runs(c, published, more, st') ensures R.ReleasedWell(st'.work, |st.work.pubs|) {
        WorkRuns(c, published, more, st');
      }
    } else {
      EmptyGoesWrong(c, st0, labels, st, orig);
    }
  }

  lemma EmptyGoesWrong(c: A.Config, st0: State, labels: seq<Label>, st: State, orig: seq<nat>)
    requires Init(st0) && Runs(c, st0, labels, st) && Enabled(c, st, Publish(orig)) && orig == []
    ensures !AlwaysReleasedWell(c, Apply(c, st, Publish(orig)), |st.work.pubs|)
  {
    var published := Apply(c, st, Publish(orig));
    WorkRuns(c, st0, labels, st);
    R.RunFromInit(st0.work, WorkPart(labels), st.work);
    var work' := R.EmptyIsReleasedInList(st.work);
    var st' := published.(work := work');
    assert Runs(c, st', [], st');
    assert Apply(c, published, Work(R.GcStep)) == st';
    assert [Work(R.GcStep)][1..] == [];
    assert Runs(c, published, [Work(R.GcStep)], st');
  }

  /** The working buffer of an iteration is empty if and only if nothing survived the round before and every queued
      buffer is empty. */
  lemma EmptyIterationExactly(c: A.Config, st: A.State)
    requires A.Enabled(c, st, A.GcStep) && st.queue.gc.Aggregating?
    ensures A.Apply(c, st, A.GcStep).queue.gc.Collecting?
    ensures A.Apply(c, st, A.GcStep).store.working == multiset{} <==>
            && st.store.uncollected == multiset{}
            && forall i :: 0 <= i < |st.queue.gc.bufs| ==> st.queue.gc.bufs[i].addrs == []
  {
    var bufs := st.queue.gc.bufs;
    TotalIsEmpty(A.Addrs(bufs));
    assert forall i :: 0 <= i < |bufs| ==> A.Addrs(bufs)[i] == bufs[i].addrs;
    assert st.store.uncollected + A.Total(A.Addrs(bufs)) == multiset{} <==>
           st.store.uncollected == multiset{} && A.Total(A.Addrs(bufs)) == multiset{};
  }

  lemma {:induction false} TotalIsEmpty(xss: seq<seq<nat>>)
    ensures A.Total(xss) == multiset{} <==> forall i :: 0 <= i < |xss| ==> xss[i] == []
  {
    if xss != [] {
      var n := |xss| - 1;
      TotalIsEmpty(xss[..n]);
      assert |multiset(xss[n])| == |xss[n]|;
      assert A.Total(xss) == multiset{} <==> A.Total(xss[..n]) == multiset{} && multiset(xss[n]) == multiset{};
      assert forall i :: 0 <= i < n ==> xss[..n][i] == xss[i];
    }
  }

  // ---------------------------------------------------------------- a forced iteration with nothing retired

  lemma RunsThen(c: A.Config, st: State, labels: seq<Label>, mid: State, l: Label)
    requires Runs(c, st, labels, mid) && Enabled(c, mid, l)
    ensures Runs(c, st, labels + [l], Apply(c, mid, l))
    decreases |labels|
  {
    if labels == [] {
      assert labels + [l] == [l] && ([l])[1..] == [];
    } else {
      assert (labels + [l])[1..] == labels[1..] + [l];
      RunsThen(c, Apply(c, st, labels[0]), labels[1..], mid, l);
    }
  }

  ghost predicate Steps(c: A.Config, hand: A.State, h: A.Label, hand': A.State) {
    A.Enabled(c, hand, h) && !h.Publish? && A.Apply(c, hand, h) == hand'
  }

  lemma HandThen(c: A.Config, st0: State, labels: seq<Label>, hand: A.State, h: A.Label, hand': A.State)
    requires Runs(c, st0, labels, st0.(hand := hand)) && Steps(c, hand, h, hand') && st0.work.gc.Idle?
    ensures Runs(c, st0, labels + [Hand(h)], st0.(hand := hand'))
  {
    RunsThen(c, st0, labels, st0.(hand := hand), Hand(h));
  }

  /** The state with its first thread at the given place. */
  ghost function FirstAt(hand: A.State, pc: A.Pc): A.State
    requires hand.pcs != []
  {
    hand.(pcs := hand.pcs[0 := pc])
  }

  ghost function Locked(hand: A.State): A.State {
    hand.(stamp := A.Stamp(true, hand.stamp.at + 1))
  }

  lemma ForceSteps(c: A.Config, hand: A.State)
    requires A.Init(hand) && hand.pcs != []
    ensures Steps(c, hand, A.Force(0), FirstAt(hand, A.Raise))
    ensures Steps(c, FirstAt(hand, A.Raise), A.Run(0), FirstAt(hand.(force := true), A.Try(true)))
  {
  }

  lemma TrySteps(c: A.Config, hand: A.State)
    requires A.Init(hand) && hand.pcs != []
    ensures var raised := hand.(force := true);
      && Steps(c, FirstAt(raised, A.Try(true)), A.Run(0), FirstAt(raised, A.TryCas(true, hand.stamp.at)))
      && Steps(c, FirstAt(raised, A.TryCas(true, hand.stamp.at)), A.Run(0), FirstAt(Locked(raised), A.ReadForce(true)))
  {
    assert hand.stamp == A.Stamp(false, hand.stamp.at);
  }

  lemma ClearSteps(c: A.Config, hand: A.State)
    requires A.Init(hand) && hand.pcs != []
    ensures var raised := Locked(hand.(force := true));
      && Steps(c, FirstAt(raised, A.ReadForce(true)), A.Run(0), FirstAt(raised, A.ClearForce(true)))
      && Steps(c, FirstAt(raised, A.ClearForce(true)), A.Run(0), FirstAt(Locked(hand), A.Drain(true, true, 0)))
  {
  }

  /** The first thread calls forkscan_force_reclaim and becomes the reclaimer. */
  lemma BecomesReclaimer(c: A.Config, st0: State) returns (labels: seq<Label>)
    requires Init(st0) && st0.hand.pcs != []
    ensures Runs(c, st0, labels, st0.(hand := FirstAt(Locked(st0.hand), A.Drain(true, true, 0))))
  {
    var hand := st0.hand;
    var raised := hand.(force := true);
    ForceSteps(c, hand);
    TrySteps(c, hand);
    ClearSteps(c, hand);
    HandThen(c, st0, [], hand, A.Force(0), FirstAt(hand, A.Raise));
    labels := [] + [Hand(A.Force(0))];
    HandThen(c, st0, labels, FirstAt(hand, A.Raise), A.Run(0), FirstAt(raised, A.Try(true)));
    labels := labels + [Hand(A.Run(0))];
    HandThen(c, st0, labels, FirstAt(raised, A.Try(true)), A.Run(0), FirstAt(raised, A.TryCas(true, hand.stamp.at)));
    labels := labels + [Hand(A.Run(0))];
    HandThen(c, st0, labels, FirstAt(raised, A.TryCas(true, hand.stamp.at)), A.Run(0),
             FirstAt(Locked(raised), A.ReadForce(true)));
    labels := labels + [Hand(A.Run(0))];
    HandThen(c, st0, labels, FirstAt(Locked(raised), A.ReadForce(true)), A.Run(0),
             FirstAt(Locked(raised), A.ClearForce(true)));
    labels := labels + [Hand(A.Run(0))];
    HandThen(c, st0, labels, FirstAt(Locked(raised), A.ClearForce(true)), A.Run(0),
             FirstAt(Locked(hand), A.Drain(true, true, 0)));
    labels := labels + [Hand(A.Run(0))];
  }

  lemma SetTwice<T>(s: seq<T>, i: nat, x: T, y: T)
    requires i < |s|
    ensures s[i := x][i := y] == s[i := y]
  {
  }

  lemma MovedTwice(hand: A.State, pc: A.Pc, pc': A.Pc)
    requires hand.pcs != []
    ensures FirstAt(FirstAt(hand, pc), pc') == FirstAt(hand, pc')
  {
    SetTwice(hand.pcs, 0, pc, pc');
  }

  lemma DrainStores(c: A.Config, hand: A.State, k: nat)
    requires A.Shape(hand) && k < |hand.pcs| && hand.pcs[0] == A.Drain(true, true, k)
    ensures Steps(c, hand, A.Run(0),
                  FirstAt(hand, A.Drain(true, true, k + 1)).(store := A.DrainRing(c, hand.store, 0, k)))
  {
  }

  lemma DrainsEmpty(c: A.Config, store: A.Store, i: nat)
    requires 0 < |store.bufs| && i < |store.rings| && store.rings[i] == [] && store.bufs[0] == []
    ensures A.DrainRing(c, store, 0, i) == store
  {
    var n: nat := Max(Min(A.MaxPtrs(c), 0), 0);
    assert store.rings[i][..n] == [] && store.rings[i][n..] == [] && store.bufs[0] + [] == [];
    assert store.rings[i := []] == store.rings && store.bufs[0 := []] == store.bufs;
  }

  lemma DrainNext(c: A.Config, st0: State, before: seq<Label>, hand: A.State, k: nat) returns (labels: seq<Label>)
    requires A.Shape(hand) && k < |hand.pcs| && hand.store.rings[k] == [] && hand.store.bufs[0] == []
    requires Runs(c, st0, before, st0.(hand := FirstAt(hand, A.Drain(true, true, k)))) && st0.work.gc.Idle?
    ensures Runs(c, st0, labels, st0.(hand := FirstAt(hand, A.Drain(true, true, k + 1))))
  {
    var draining, pc' := FirstAt(hand, A.Drain(true, true, k)), A.Drain(true, true, k + 1);
    DrainStores(c, draining, k);
    HandThen(c, st0, before, draining, A.Run(0), FirstAt(draining, pc').(store := A.DrainRing(c, hand.store, 0, k)));
    DrainsEmpty(c, hand.store, k);
    MovedTwice(hand, A.Drain(true, true, k), pc');
    labels := before + [Hand(A.Run(0))];
  }

  /** It finds every ring empty. */
  lemma {:induction false} DrainsNothing(c: A.Config, st0: State, k: nat) returns (labels: seq<Label>)
    requires Init(st0) && st0.hand.pcs != [] && k <= |st0.hand.pcs|
    ensures Runs(c, st0, labels, st0.(hand := FirstAt(Locked(st0.hand), A.Drain(true, true, k))))
  {
    if k == 0 {
      labels := BecomesReclaimer(c, st0);
    } else {
      var hand := Locked(st0.hand);
      labels := DrainsNothing(c, st0, k - 1);
      labels := DrainNext(c, st0, labels, hand, k - 1);
    }
  }

  /** An empty buffer in the queue. */
  const ONE_EMPTY: seq<A.Buf> := [A.Buf(0, [])]

  ghost function Queued(c: A.Config, hand: A.State): A.State
    requires hand.pcs != []
  {
    FirstAt(hand, if c.auto then A.Throttle(true) else A.Release(true))
      .(queue := A.Queue(1, ONE_EMPTY, A.Top, true, 1, []))
  }

  lemma QueueSteps(c: A.Config, hand: A.State)
    requires A.Init(hand) && hand.pcs != []
    ensures Steps(c, FirstAt(Locked(hand), A.Drain(true, true, |hand.pcs|)), A.Run(0),
                  FirstAt(Locked(hand), A.Initiate(true, true)))
    ensures Steps(c, FirstAt(Locked(hand), A.Initiate(true, true)), A.Run(0), Queued(c, Locked(hand)))
  {
    assert [A.Buf(0, [])] + [] == ONE_EMPTY;
    assert hand.store.bufs[0 := []] == hand.store.bufs;
  }

  lemma QueuesNothing(c: A.Config, st0: State) returns (labels: seq<Label>)
    requires Init(st0) && st0.hand.pcs != []
    ensures Runs(c, st0, labels, st0.(hand := Queued(c, Locked(st0.hand))))
  {
    var hand := Locked(st0.hand);
    var n := |hand.pcs|;
    labels := DrainsNothing(c, st0, n);
    QueueSteps(c, st0.hand);
    HandThen(c, st0, labels, FirstAt(hand, A.Drain(true, true, n)), A.Run(0), FirstAt(hand, A.Initiate(true, true)));
    labels := labels + [Hand(A.Run(0))];
    HandThen(c, st0, labels, FirstAt(hand, A.Initiate(true, true)), A.Run(0), Queued(c, hand));
    labels := labels + [Hand(A.Run(0))];
  }

  ghost function TakenBy(hand: A.State, gc: A.Gc): A.State {
    hand.(queue := A.Queue(0, [], gc, true, 1, [0]))
  }

  /** The collector thread takes the queued buffer. */
  lemma TakeSteps(c: A.Config, hand: A.State)
    requires A.Shape(hand) && hand.queue == A.Queue(1, ONE_EMPTY, A.Top, true, 1, [])
    ensures c.limit > 1 ==> Steps(c, hand, A.GcStep, TakenBy(hand, A.Aggregating(ONE_EMPTY)))
    ensures c.limit <= 1 ==> Steps(c, hand, A.GcStep, TakenBy(hand, A.Owing(ONE_EMPTY)))
  {
    assert A.Ids(ONE_EMPTY) == [0] && [] + [0] == [0];
  }

  lemma OweSteps(c: A.Config, hand: A.State)
    requires A.Shape(hand) && hand.lock.NoOne? && forall t :: 0 <= t < |hand.pcs| ==> !hand.pcs[t].Asleep?
    ensures Steps(c, TakenBy(hand, A.Owing(ONE_EMPTY)), A.GcStep, TakenBy(hand, A.Aggregating(ONE_EMPTY)))
  {
    assert A.Wake(hand.pcs) == hand.pcs;
  }

  lemma CollectSteps(c: A.Config, hand: A.State)
    requires A.Shape(hand) && hand.store.uncollected == multiset{} && hand.store.working == multiset{}
    ensures Steps(c, TakenBy(hand, A.Aggregating(ONE_EMPTY)), A.GcStep, TakenBy(hand, A.Collecting))
  {
    TotalIsEmpty(A.Addrs(ONE_EMPTY));
    assert hand.store.uncollected + A.Total(A.Addrs(ONE_EMPTY)) == multiset{};
  }

  /** It finds that it has nothing to collect. */
  lemma CollectsNothing(c: A.Config, st0: State) returns (labels: seq<Label>)
    requires Init(st0) && st0.hand.pcs != []
    ensures Runs(c, st0, labels, st0.(hand := TakenBy(Queued(c, Locked(st0.hand)), A.Collecting)))
  {
    var hand := Queued(c, Locked(st0.hand));
    labels := QueuesNothing(c, st0);
    TakeSteps(c, hand);
    OweSteps(c, hand);
    CollectSteps(c, hand);
    var first := if c.limit > 1 then A.Aggregating(ONE_EMPTY) else A.Owing(ONE_EMPTY);
    HandThen(c, st0, labels, hand, A.GcStep, TakenBy(hand, first));
    labels := labels + [Hand(A.GcStep)];
    if c.limit <= 1 {
      HandThen(c, st0, labels, TakenBy(hand, first), A.GcStep, TakenBy(hand, A.Aggregating(ONE_EMPTY)));
      labels := labels + [Hand(A.GcStep)];
    }
    HandThen(c, st0, labels, TakenBy(hand, A.Aggregating(ONE_EMPTY)), A.GcStep, TakenBy(hand, A.Collecting));
    labels := labels + [Hand(A.GcStep)];
  }

  /** When nothing has ever been retired, forkscan_force_reclaim leads to an iteration whose working buffer is empty,
      and to the release of that buffer while it is in the list. */
  lemma ForcedIterationGoesWrong(c: A.Config, st0: State) returns (labels: seq<Label>, st: State)
    requires Init(st0) && st0.hand.pcs != []
    ensures Runs(c, st0, labels, st)
    ensures st.hand.store.retired == multiset{}
    ensures st.work.list == [0] && |st.work.pubs| == 1 && st.work.pubs[0].released == 1
  {
    labels := CollectsNothing(c, st0);
    labels, st := PublishesNothing(c, st0, labels, TakenBy(Queued(c, Locked(st0.hand)), A.Collecting));
  }

  lemma PublishesNothing(c: A.Config, st0: State, before: seq<Label>, hand: A.State)
    returns (labels: seq<Label>, st: State)
    requires Init(st0) && Runs(c, st0, before, st0.(hand := hand))
    requires A.Shape(hand) && hand.queue.gc.Collecting? && hand.store == st0.hand.store
    ensures Runs(c, st0, labels, st) && st.hand.store.retired == multiset{}
    ensures st.work.list == [0] && |st.work.pubs| == 1 && st.work.pubs[0].released == 1
  {
    var mid := st0.(hand := hand);
    assert Unmasked([]) == multiset{} && multiset(R.MarkedOf([])) == multiset{};
    RunsThen(c, st0, before, mid, Publish([]));
    var published := Apply(c, mid, Publish([]));
    RunsThen(c, st0, before + [Publish([])], published, Work(R.GcStep));
    labels, st := before + [Publish([])] + [Work(R.GcStep)], Apply(c, published, Work(R.GcStep));
  }
}
