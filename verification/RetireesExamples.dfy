/** Runs in which the freeing goes wrong: free_idx changes between its two reads in forkscan_util_free_ptrs, or a
    buffer without entries is published. */
module RetireesExamples {
  import opened Retirees

  lemma RunsExtends(st: State, labels: seq<Label>, st': State, l: Label)
    requires Runs(st, labels, st') && Enabled(st', l)
    ensures Runs(st, labels + [l], Apply(st', l))
    decreases |labels|
  {
    if labels == [] {
      assert labels + [l] == [l];
      assert ([l])[1..] == [];
    } else {
      assert (labels + [l])[1..] == labels[1..] + [l];
      RunsExtends(Apply(st, labels[0]), labels[1..], st', l);
    }
  }

  const OUT := Thread(Outside, Nothing, 0, 0)

  /** Before anything has been published. */
  ghost function Start(ts: seq<Thread>): State {
    State([], [], ts, Idle, multiset{}, false, false)
  }

  ghost predicate AllOut(ts: seq<Thread>) {
    |ts| >= 2 && forall t :: 0 <= t < |ts| ==> ts[t] == OUT
  }

  /** One published entry and two of the threads; thread 1 claims the entry between the two reads of thread 0. */
  ghost function Racing(ts: seq<Thread>, k: nat): State
    requires AllOut(ts) && k <= 11
  {
    var published := State([Pub([8], [8], 0, 1, [], [], 0)], [0], ts, Copying(0, 0), multiset{}, false, false);
    var first := published.(pubs := [Pub([8], [8], 0, 2, [], [], 0)]);
    var both := published.(pubs := [Pub([8], [8], 0, 3, [], [], 0)]);
    var claimed := published.(pubs := [Pub([8], [8], 1, 3, [(0, 1)], [], 0)]);
    var twice := published.(pubs := [Pub([8], [8], 1, 3, [(0, 1), (1, 1)], [], 0)], stale := true);
    var checked, reading := Thread(Check, Buffer(0), 0, 0), Thread(ReadBegin, Buffer(0), 0, 0);
    var winner := Thread(Take, Buffer(0), 0, 1);
    if k == 0 then Start(ts)
    else if k == 1 then published
    else if k == 2 then published.(threads := ts[0 := OUT.(pc := Loop)])
    else if k == 3 then first.(threads := ts[0 := checked])
    else if k == 4 then first.(threads := ts[0 := reading])
    else if k == 5 then first.(threads := ts[0 := reading][1 := OUT.(pc := Loop)])
    else if k == 6 then both.(threads := ts[0 := reading][1 := checked])
    else if k == 7 then both.(threads := ts[0 := reading][1 := reading])
    else if k == 8 then both.(threads := ts[0 := reading][1 := Thread(Cas(0), Buffer(0), 0, 0)])
    else if k == 9 then claimed.(threads := ts[0 := reading][1 := winner])
    else if k == 10 then claimed.(threads := ts[0 := Thread(Cas(1), Buffer(0), 0, 0)][1 := winner])
    else twice.(threads := ts[0 := Thread(Take, Buffer(0), 1, 1)][1 := winner])
  }

  const RACE: seq<Label> := [
    Publish([8]), Enter(0), Run(0), Run(0), Enter(1), Run(1), Run(1), Run(1), Run(1), Run(0), Run(0)]

  ghost predicate RaceNext(ts: seq<Thread>, k: nat)
    requires AllOut(ts) && k < 11
  {
    Enabled(Racing(ts, k), RACE[k]) && Apply(Racing(ts, k), RACE[k]) == Racing(ts, k + 1)
  }

  lemma FirstSteps(ts: seq<Thread>)
    requires AllOut(ts)
    ensures RaceNext(ts, 0) && RaceNext(ts, 1)
  {
    assert [] + [0] == [0];
    assert [] + [Pub([8], [8], 0, 1, [], [], 0)] == [Pub([8], [8], 0, 1, [], [], 0)];
  }

  lemma FirstReader(ts: seq<Thread>)
    requires AllOut(ts)
    ensures RaceNext(ts, 2) && RaceNext(ts, 3)
  {
  }

  lemma SecondEnters(ts: seq<Thread>)
    requires AllOut(ts)
    ensures RaceNext(ts, 4) && RaceNext(ts, 5)
  {
  }

  lemma SecondReader(ts: seq<Thread>)
    requires AllOut(ts)
    ensures RaceNext(ts, 6) && RaceNext(ts, 7)
  {
  }

  lemma SecondClaims(ts: seq<Thread>)
    requires AllOut(ts)
    ensures RaceNext(ts, 8)
  {
    assert [] + [(0, 1)] == [(0, 1)];
  }

  lemma FirstClaims(ts: seq<Thread>)
    requires AllOut(ts)
    ensures RaceNext(ts, 9) && RaceNext(ts, 10)
  {
    assert [(0, 1)] + [(1, 1)] == [(0, 1), (1, 1)];
  }

  lemma RaceSteps(ts: seq<Thread>, k: nat)
    requires AllOut(ts) && k < 11
    ensures RaceNext(ts, k)
  {
    if k <= 1 {
      FirstSteps(ts);
    } else if k <= 3 {
      FirstReader(ts);
    } else if k <= 5 {
      SecondEnters(ts);
    } else if k <= 7 {
      SecondReader(ts);
    } else if k == 8 {
      SecondClaims(ts);
    } else {
      FirstClaims(ts);
    }
  }

  lemma RaceRuns(ts: seq<Thread>, k: nat) returns (labels: seq<Label>)
    requires AllOut(ts) && k <= 11
    ensures Runs(Start(ts), labels, Racing(ts, k))
  {
    if k == 0 {
      labels := [];
    } else {
      var before := RaceRuns(ts, k - 1);
      RaceSteps(ts, k - 1);
      assert RaceNext(ts, k - 1);
      RunsExtends(Start(ts), before, Racing(ts, k - 1), RACE[k - 1]);
      labels := before + [RACE[k - 1]];
    }
  }

  /** As written, with two threads or more, one of them can look at an entry behind the end of a published buffer. */
  lemma AsWrittenOverruns(st0: State) returns (labels: seq<Label>, st: State)
    requires Init(st0) && |st0.threads| >= 2
    ensures Runs(st0, labels, st) && st.overrun
  {
    var ts := st0.threads;
    assert st0 == Start(ts);
    labels := RaceRuns(ts, 11);
    RunsExtends(st0, labels, Racing(ts, 11), Run(0));
    labels, st := labels + [Run(0)], Apply(Racing(ts, 11), Run(0));
  }

  /** What a thread that frees alone has read of free_idx is still true. */
  ghost predicate Lone(st: State) {
    && |st.threads| <= 1 && !st.stale
    && forall t :: 0 <= t < |st.threads| && st.threads[t].buf.Buffer? ==>
         var th := st.threads[t];
         && th.buf.pub < |st.pubs|
         && (th.pc.ReadBegin? ==> st.pubs[th.buf.pub].freeIdx < |st.pubs[th.buf.pub].entries|)
         && (th.pc.Cas? ==> th.pc.begin == st.pubs[th.buf.pub].freeIdx < |st.pubs[th.buf.pub].entries|)
  }

  lemma LoneStep(st: State, l: Label)
    requires Lone(st) && Enabled(st, l)
    ensures Lone(Apply(st, l))
  {
    if l.Run? {
      if st.threads[l.t].pc.Cas? { LoneClaims(st, l.t); } else { LoneFrees(st, l.t); }
    }
  }

  lemma LoneClaims(st: State, t: nat)
    requires Lone(st) && Enabled(st, Run(t)) && st.threads[t].pc.Cas?
    ensures Lone(RunStep(st, t))
  {
  }

  lemma LoneFrees(st: State, t: nat)
    requires Lone(st) && Enabled(st, Run(t)) && !st.threads[t].pc.Cas?
    ensures Lone(RunStep(st, t))
  {
  }

  lemma {:induction false} LoneRun(st: State, labels: seq<Label>, st': State)
    requires Lone(st) && Runs(st, labels, st')
    ensures Lone(st')
    decreases |labels|
  {
    if labels != [] {
      LoneStep(st, labels[0]);
      LoneRun(Apply(st, labels[0]), labels[1..], st');
    }
  }

  ghost predicate NeverOverruns(st0: State) {
    forall labels, st :: Runs(st0, labels, st) ==> !st.stale && !st.overrun
  }

  /** A thread can claim at the end of a buffer, and read behind it, if and only if there are two threads or more. */
  lemma OverrunsExactly(st0: State)
    requires Init(st0)
    ensures NeverOverruns(st0) <==> |st0.threads| <= 1
  {
    if |st0.threads| <= 1 {
      forall labels, st | Runs(st0, labels, st) ensures !st.stale && !st.overrun {
        LoneRun(st0, labels, st);
        RunFromInit(st0, labels, st);
      }
    } else {
      var labels, st := AsWrittenOverruns(st0);
    }
  }

  // ---------------------------------------------------------------- a publication without entries

  /** A buffer without entries is published into an empty list; then a thread comes to free, and the buffer is released
      for the second time. */
  lemma EmptyIsReleasedTwice(st: State, t: nat) returns (labels: seq<Label>, st': State)
    requires CountInv(st) && Enabled(st, Publish([])) && st.list == []
    requires t < |st.threads| && st.threads[t] == OUT
    ensures Runs(st, labels, st') && |st.pubs| < |st'.pubs| && st'.pubs[|st.pubs|].released == 2
  {
    var once := EmptyIsReleasedInList(st);
    var rest;
    rest, st' := ReleasedAgain(once, t, |st.pubs|);
    assert ([GcStep] + rest)[1..] == rest;
    assert Apply(Apply(st, Publish([])), GcStep) == once;
    RunsOn(Apply(st, Publish([])), GcStep, rest, st');
    RunsOn(st, Publish([]), [GcStep] + rest, st');
    labels := [Publish([])] + ([GcStep] + rest);
  }

  lemma ReleasedAgain(st: State, t: nat, p: nat) returns (labels: seq<Label>, st': State)
    requires !st.overrun && st.list == [p] && p < |st.pubs| && st.pubs[p] == Pub([], [], 0, 0, [], [], 1)
    requires t < |st.threads| && st.threads[t] == OUT
    ensures Runs(st, labels, st') && p < |st'.pubs| && st'.pubs[p].released == 2
  {
    var entered := Apply(st, Enter(t));
    var got := Apply(entered, Run(t));
    assert got.threads[t] == Thread(Check, Buffer(p), 0, 0) && got.pubs[p] == Pub([], [], 0, 1, [], [], 1);
    var rest;
    rest, st' := DroppedAgain(got, t, p);
    RunsOn(entered, Run(t), rest, st');
    RunsOn(st, Enter(t), [Run(t)] + rest, st');
    labels := [Enter(t)] + ([Run(t)] + rest);
  }

  lemma DroppedAgain(st: State, t: nat, p: nat) returns (labels: seq<Label>, st': State)
    requires !st.overrun && p < |st.pubs| && st.pubs[p] == Pub([], [], 0, 1, [], [], 1)
    requires t < |st.threads| && st.threads[t] == Thread(Check, Buffer(p), 0, 0)
    ensures Runs(st, labels, st') && p < |st'.pubs| && st'.pubs[p].released == 2
  {
    var popping := Apply(st, Run(t));
    var dropping := Apply(popping, Run(t));
    st' := Apply(dropping, Run(t));
    assert Runs(st', [], st');
    RunsOn(dropping, Run(t), [], st');
    RunsOn(popping, Run(t), [Run(t)] + [], st');
    RunsOn(st, Run(t), [Run(t)] + ([Run(t)] + []), st');
    labels := [Run(t)] + ([Run(t)] + ([Run(t)] + []));
  }
}
