/** The handshake and the cooperative freeing together: what the collector thread finds when it gathers the dead
    references, just before it forks (forkscan.c 178-184, frontend.c 111-137 and 198-206). */
module ForkPoint {
  import H = Handshake
  import R = Retirees

  datatype State = State(hand: H.State, work: R.State)

  datatype Label = Hand(h: H.Label) | Work(r: R.Label)

  ghost predicate Init(st: State) {
    H.Init(st.hand) && R.Init(st.work) && |st.hand.threads| == |st.work.threads|
  }

  /** The main line of thread t is inside the g_in_malloc region and not interrupted by the handler. */
  ghost predicate InRegion(st: State, t: nat) {
    H.Main(st.hand, t) && st.hand.threads[t].pc.Busy?
  }

  /** forkscan_util_free_ptrs runs only inside the region; a thread leaves the region when the call has returned;
      the collector thread publishes and copies between its rounds. */
  ghost predicate Enabled(st: State, l: Label) {
    match l
    case Hand(h) =>
      && H.Enabled(st.hand, h)
      && (h.Leave? ==> h.t < |st.work.threads| && st.work.threads[h.t].pc.Outside?)
      && (h.StartRound? ==> st.work.gc.Idle?)
    case Work(r) =>
      && R.Enabled(st.work, r)
      && (r.Enter? || r.Leave? || r.Run? ==> InRegion(st, r.t))
      && (r.Publish? || r.GcStep? ==> st.hand.phase.Quiet?)
  }

  ghost function Apply(st: State, l: Label): State
    requires Enabled(st, l)
  {
    match l
    case Hand(h) => st.(hand := H.Apply(st.hand, h))
    case Work(r) => st.(work := R.Apply(st.work, r))
  }

  ghost predicate Runs(st: State, labels: seq<Label>, st': State)
    decreases |labels|
  {
    if labels == [] then st' == st
    else Enabled(st, labels[0]) && Runs(Apply(st, labels[0]), labels[1..], st')
  }

  /** A thread that is inside forkscan_util_free_ptrs is inside the region. */
  ghost predicate Inv(st: State) {
    && |st.hand.threads| == |st.work.threads|
    && forall t :: 0 <= t < |st.work.threads| && !st.work.threads[t].pc.Outside? ==> st.hand.threads[t].pc.Busy?
  }

  /** The main line enters and leaves the region only by Enter and Leave. */
  lemma HandKeepsBusy(st: H.State, h: H.Label, t: nat)
    requires H.Enabled(st, h) && t < |st.threads| && st.threads[t].pc.Busy? && h != H.Leave(t)
    ensures t < |H.Apply(st, h).threads| == |st.threads| && H.Apply(st, h).threads[t].pc.Busy?
  {
  }

  lemma HandSize(st: H.State, h: H.Label)
    requires H.Enabled(st, h)
    ensures |H.Apply(st, h).threads| == |st.threads|
  {
  }

  /** A step of the freeing moves only the thread that makes it. */
  lemma WorkMovesOne(st: R.State, r: R.Label, t: nat)
    requires R.Enabled(st, r) && t < |st.threads| && !((r.Enter? || r.Leave? || r.Run?) && r.t == t)
    ensures t < |R.Apply(st, r).threads| && R.Apply(st, r).threads[t] == st.threads[t]
  {
    R.OneThreadMoves(st, r, t);
  }

  lemma WorkSize(st: R.State, r: R.Label)
    requires R.Enabled(st, r)
    ensures |R.Apply(st, r).threads| == |st.threads|
  {
  }

  lemma HandInv(st: State, h: H.Label)
    requires Inv(st) && Enabled(st, Hand(h))
    ensures Inv(Apply(st, Hand(h)))
  {
    HandSize(st.hand, h);
    forall t | 0 <= t < |st.work.threads| && !st.work.threads[t].pc.Outside?
      ensures H.Apply(st.hand, h).threads[t].pc.Busy?
    {
      HandKeepsBusy(st.hand, h, t);
    }
  }

  lemma WorkInv(st: State, r: R.Label)
    requires Inv(st) && Enabled(st, Work(r))
    ensures Inv(Apply(st, Work(r)))
  {
    WorkSize(st.work, r);
    forall t | 0 <= t < |st.work.threads| && !R.Apply(st.work, r).threads[t].pc.Outside?
      ensures st.hand.threads[t].pc.Busy?
    {
      if !((r.Enter? || r.Leave? || r.Run?) && r.t == t) { WorkMovesOne(st.work, r, t); }
    }
  }

  lemma StepInv(st: State, l: Label)
    requires Inv(st) && Enabled(st, l)
    ensures Inv(Apply(st, l))
  {
    if l.Hand? { HandInv(st, l.h); } else { WorkInv(st, l.r); }
  }

  ghost function HandPart(labels: seq<Label>): seq<H.Label> {
    if labels == [] then []
    else (if labels[0].Hand? then [labels[0].h] else []) + HandPart(labels[1..])
  }

  ghost function WorkPart(labels: seq<Label>): seq<R.Label> {
    if labels == [] then []
    else (if labels[0].Work? then [labels[0].r] else []) + WorkPart(labels[1..])
  }

  lemma {:induction false} RunInv(st: State, labels: seq<Label>, st': State)
    requires Inv(st) && Runs(st, labels, st')
    ensures Inv(st')
    decreases |labels|
  {
    if labels != [] {
      StepInv(st, labels[0]);
      RunInv(Apply(st, labels[0]), labels[1..], st');
    }
  }

  /** A joint run is a run of the handshake ... */
  lemma {:induction false} HandRuns(st: State, labels: seq<Label>, st': State)
    requires Runs(st, labels, st')
    ensures H.Runs(st.hand, HandPart(labels), st'.hand)
    decreases |labels|
  {
    if labels != [] {
      var rest := HandPart(labels[1..]);
      HandRuns(Apply(st, labels[0]), labels[1..], st');
      if labels[0].Hand? {
        assert HandPart(labels) == [labels[0].h] + rest;
        assert HandPart(labels)[1..] == rest;
      } else {
        assert HandPart(labels) == rest;
      }
    }
  }

  /** ... and a run of the freeing. */
  lemma {:induction false} WorkRuns(st: State, labels: seq<Label>, st': State)
    requires Runs(st, labels, st')
    ensures R.Runs(st.work, WorkPart(labels), st'.work)
    decreases |labels|
  {
    if labels != [] {
      var rest := WorkPart(labels[1..]);
      WorkRuns(Apply(st, labels[0]), labels[1..], st');
      if labels[0].Work? {
        assert WorkPart(labels) == [labels[0].r] + rest;
        assert WorkPart(labels)[1..] == rest;
      } else {
        assert WorkPart(labels) == rest;
      }
    }
  }

  /** When the dead references are gathered, and until the fork, no thread is between claiming an entry and freeing it,
      and every address gathered belongs to an entry that is still unfreed. */
  lemma DeadReferencesAtFork(st0: State, labels: seq<Label>, st: State, capacity: nat, a: nat)
    requires Init(st0) && Runs(st0, labels, st) && H.Halted(st.hand.phase)
    ensures R.AllOutside(st.work.threads)
    ensures forall k :: 0 <= k < |st.work.list| ==> st.work.list[k] < |st.work.pubs|
    ensures a in R.DeadReferences(st.work.pubs, st.work.list, capacity) ==>
              exists p :: p in st.work.list && R.UnfreedIn(st.work, p, a)
  {
    RunInv(st0, labels, st);
    HandRuns(st0, labels, st);
    H.AllParkedAtFork(st0.hand, HandPart(labels), st.hand);
    assert R.AllOutside(st.work.threads);
    WorkRuns(st0, labels, st);
    R.DeadReferencesAreUnfreed(st0.work, WorkPart(labels), st.work, capacity, a);
  }

  /** Nothing is freed between the last acknowledgement and the fork: no thread can enter the region. */
  lemma NothingFreedBeforeFork(st0: State, labels: seq<Label>, st: State, l: Label)
    requires Init(st0) && Runs(st0, labels, st) && H.Halted(st.hand.phase)
    requires Enabled(st, l) && l != Hand(H.Fork)
    ensures l.Hand? && Apply(st, l).work == st.work
  {
    RunInv(st0, labels, st);
    HandRuns(st0, labels, st);
    H.AllParkedAtFork(st0.hand, HandPart(labels), st.hand);
  }

  lemma RunsTwo(st: State, l: Label, k: Label)
    requires Enabled(st, l) && Enabled(Apply(st, l), k)
    ensures Runs(st, [l, k], Apply(Apply(st, l), k))
  {
    assert [l, k][1..] == [k] && [k][1..] == [];
  }

  /** Between rounds nothing keeps a thread from freeing: in the user's code and without list_lock it can enter the
      region and begin, and from there it can look at its buffer or ask for one. */
  lemma ThreadGetsIn(st0: State, labels: seq<Label>, st: State, t: nat) returns (st': State)
    requires Init(st0) && Runs(st0, labels, st) && t < |st.hand.threads| && !st.work.overrun
    requires H.Main(st.hand, t) && st.hand.threads[t].pc.User? && st.hand.lock != H.Held(t)
    ensures Runs(st, [Hand(H.Enter(t)), Work(R.Enter(t))], st')
    ensures t < |st'.work.threads| == |st.work.threads|
    ensures st'.work.threads[t] == st.work.threads[t].(pc := R.Loop)
    ensures Enabled(st', Work(R.Run(t)))
  {
    RunInv(st0, labels, st);
    WorkRuns(st0, labels, st);
    R.RunFromInit(st0.work, WorkPart(labels), st.work);
    assert R.ThreadList(st.work, st.work.threads[t]) && R.ListOk(st.work);
    assert st.work.threads[t].pc.Outside?;
    RunsTwo(st, Hand(H.Enter(t)), Work(R.Enter(t)));
    st' := Apply(Apply(st, Hand(H.Enter(t))), Work(R.Enter(t)));
  }

  /** A thread that is between two turns of forkscan_util_free_ptrs can leave it and then the region; if it has been
      sent the signal meanwhile it acknowledges it next. */
  lemma ThreadGetsOut(st: State, t: nat) returns (st': State)
    requires Inv(st) && t < |st.hand.threads| && InRegion(st, t) && !st.work.overrun
    requires st.work.threads[t].pc.Loop?
    ensures Runs(st, [Work(R.Leave(t)), Hand(H.Leave(t))], st')
    ensures t < |st'.work.threads| && st'.work.threads[t] == st.work.threads[t].(pc := R.Outside)
    ensures t < |st'.hand.threads| && st'.hand.threads[t] == st.hand.threads[t].(pc := H.Test)
    ensures Enabled(st', Hand(H.TestWaiting(t)))
  {
    RunsTwo(st, Work(R.Leave(t)), Hand(H.Leave(t)));
    st' := Apply(Apply(st, Work(R.Leave(t))), Hand(H.Leave(t)));
  }
}
