/** Concrete runs of the sibling processes on which the evident intent of the code fails. */
module MarkingExamples {
  import opened Snapshots
  import opened Marking

  lemma RunsExtends(snap: Snapshot, rec: Recursion, st: State, schedule: seq<nat>, st': State, s: nat)
    requires Runs(snap, rec, st, schedule, st') && Enabled(snap, st', s)
    ensures Runs(snap, rec, st, schedule + [s], Step(snap, rec, st', s))
    decreases |schedule|
  {
    if schedule == [] {
      assert schedule + [s] == [s];
      assert ([s])[1..] == [];
    } else {
      assert (schedule + [s])[1..] == schedule[1..] + [s];
      RunsExtends(snap, rec, Step(snap, rec, st, schedule[0]), schedule[1..], st', s);
    }
  }

  // Three tracked blocks in a chain; only the first is referred to from outside the pool.

  const CHAIN := Snapshot({4, 8, 12}, map[4 := [8], 8 := [12], 12 := [0]], [[4]])

  const START := State(Shared({}, 0, 0, map[], {}), [IDLE])

  lemma ChainIsReachable()
    ensures CHAIN.Valid() && CHAIN.Reachable(12)
  {
    assert CHAIN.ranges[0][0] == 4;
    assert CHAIN.Root(4);
    assert CHAIN.words[4][0] == 8 && CHAIN.words[8][0] == 12;
    assert CHAIN.IsPath([4, 8, 12]);
    assert [4, 8, 12][2] == 12;
  }

  /** The single sibling's state after k steps. */
  ghost function ChainRun(k: nat): State
    requires k <= 13
  {
    var claimed := Shared({}, 1, 0, map[0 := 0], {});
    var looked := Shared({}, 2, 0, map[0 := 0], {});
    var one, two := looked.(marked := {4}), looked.(marked := {4, 8});
    var flushing := Sibling(Finish, [4], true, {}, [], None, [0]);
    if k == 0 then START
    else if k == 1 then State(claimed, [IDLE.(task := Examine(0, 0))])
    else if k == 2 then State(claimed, [IDLE.(task := Examine(0, 1), lookaside := [4])])
    else if k == 3 then State(claimed, [IDLE.(lookaside := [4], claimed := [0])])
    else if k == 4 then State(looked, [flushing.(todo := {4})])
    else if k == 5 then State(looked, [flushing.(held := Some(4))])
    else if k == 6 then State(one, [flushing.(stack := [Frame(4, 0)])])
    else if k == 7 then State(one, [flushing.(stack := [Frame(4, 0)], held := Some(8))])
    else if k == 8 then State(two, [flushing.(stack := [Frame(4, 1), Frame(4, 0)])])
    else if k == 9 then State(two, [flushing.(stack := [Frame(4, 1), Frame(4, 1)])])
    else if k == 10 then State(two, [flushing.(stack := [Frame(4, 1)])])
    else if k == 11 then State(two, [flushing])
    else if k == 12 then State(two, [Sibling(Finish, [], false, {}, [], None, [0])])
    else State(two.(rootsCompleted := 1, finished := {0}), [Sibling(Done(true), [], false, {}, [], None, [0])])
  }

  ghost predicate ChainNext(k: nat)
    requires k < 13
  {
    && Enabled(CHAIN, ChainRun(k), 0)
    && Step(CHAIN, OnScannedBlock, ChainRun(k), 0) == ChainRun(k + 1)
  }

  lemma ChainSearch()
    ensures ChainNext(0) && ChainNext(1)
  {
    assert InBounds(CHAIN, 4) by { assert 4 in CHAIN.pool; }
    assert [] + [4] == [4];
    assert ExamineWord(CHAIN, ChainRun(1).sibs[0]) == ChainRun(2).sibs[0];
  }

  lemma ChainRangeDone()
    ensures ChainNext(2) && ChainNext(3)
  {
    assert Act(CHAIN, OnScannedBlock, ChainRun(2).shared, 0, ChainRun(2).sibs[0]).1 ==
           ChainRun(3).sibs[0] by { assert [] + [0] == [0]; }
    assert Elements([4]) == {4};
    assert Act(CHAIN, OnScannedBlock, ChainRun(3).shared, 0, ChainRun(3).sibs[0]).1 == ChainRun(4).sibs[0];
  }

  lemma ChainFirstMark()
    ensures ChainNext(4) && ChainNext(5) && ChainNext(6)
  {
    assert {4} - {4} == {};
    assert {} + {4} == {4};
  }

  lemma ChainSecondMark()
    ensures ChainNext(7)
  {
    var f := Frame(4, 0);
    assert [f][..0] + [Frame(4, 1), Frame(4, 0)] == [Frame(4, 1), Frame(4, 0)];
    assert {4} + {8} == {4, 8};
  }

  lemma ChainSecondScan()
    ensures ChainNext(8) && ChainNext(9) && ChainNext(10)
  {
    var f, g := Frame(4, 0), Frame(4, 1);
    assert [g, f][..1] + [g] == [g, g];
    assert [g, g][..1] == [g];
    assert [g][..0] == [];
  }

  lemma ChainFinish()
    ensures ChainNext(11) && ChainNext(12)
  {
    assert {} + Elements([0]) == {0};
  }

  lemma ChainSteps(k: nat)
    requires k < 13
    ensures ChainNext(k)
  {
    if k < 2 { ChainSearch(); }
    else if k < 4 { ChainRangeDone(); }
    else if k < 7 { ChainFirstMark(); }
    else if k == 7 { ChainSecondMark(); }
    else if k < 11 { ChainSecondScan(); }
    else { ChainFinish(); }
  }

  lemma ChainRuns(k: nat) returns (schedule: seq<nat>)
    requires k <= 13
    ensures Runs(CHAIN, OnScannedBlock, START, schedule, ChainRun(k))
  {
    if k == 0 {
      schedule := [];
    } else {
      var before := ChainRuns(k - 1);
      ChainSteps(k - 1);
      RunsExtends(CHAIN, OnScannedBlock, START, before, ChainRun(k - 1), 0);
      schedule := before + [0];
    }
  }

  /** The code as written tells its parent that the round is over although block 12, which a thread can
      reach through 4 and 8, is unmarked.  No schedule ever marks it. */
  lemma AsWrittenMissesAGrandchild()
    ensures CHAIN.Valid() && CHAIN.Reachable(12)
    ensures exists schedule, st ::
              && Runs(CHAIN, OnScannedBlock, START, schedule, st)
              && Notified(st)
              && 12 !in st.shared.marked
    ensures forall schedule, st :: Runs(CHAIN, OnScannedBlock, START, schedule, st) ==> 12 !in st.shared.marked
  {
    ChainIsReachable();
    var schedule := ChainRuns(13);
    assert ChainRun(13).sibs[0].task == Done(true);
    assert Notified(ChainRun(13)) && 12 !in ChainRun(13).shared.marked;
    forall sch, st | Runs(CHAIN, OnScannedBlock, START, sch, st) ensures 12 !in st.shared.marked {
      MarkedAsWritten(CHAIN, START, sch, st);
      assert !CHAIN.Root(12);
      assert forall b :: CHAIN.Root(b) ==> b == 4;
      assert !CHAIN.Hits(4, 12);
    }
  }

  // Two siblings and one range: the sibling that claimed nothing may notify as well.

  const ONE_RANGE := Snapshot({4}, map[4 := []], [[]])

  ghost function TwoRun(k: nat): State
    requires k <= 6
  {
    var claimed := Shared({}, 1, 0, map[0 := 0], {});
    var finisher := Sibling(Finish, [], false, {}, [], None, [0]);
    var idler := IDLE.(task := Finish);
    var total := Shared({}, 3, 1, map[0 := 0], {0});
    if k == 0 then State(Shared({}, 0, 0, map[], {}), [IDLE, IDLE])
    else if k == 1 then State(claimed, [IDLE.(task := Examine(0, 0)), IDLE])
    else if k == 2 then State(claimed, [IDLE.(claimed := [0]), IDLE])
    else if k == 3 then State(claimed.(rootCounter := 2), [finisher, IDLE])
    else if k == 4 then State(claimed.(rootCounter := 3), [finisher, idler])
    else if k == 5 then State(total, [finisher.(task := Done(true)), idler])
    else State(total, [finisher.(task := Done(true)), IDLE.(task := Done(true))])
  }

  const TWO_SCHEDULE: seq<nat> := [0, 0, 0, 1, 0, 1]

  lemma TwoNext(rec: Recursion, k: nat)
    requires k < 6
    ensures Enabled(ONE_RANGE, TwoRun(k), TWO_SCHEDULE[k])
    ensures Step(ONE_RANGE, rec, TwoRun(k), TWO_SCHEDULE[k]) == TwoRun(k + 1)
  {
    assert [] + [0] == [0];
    assert {} + Elements([0]) == {0};
    assert {0} + Elements([]) == {0};
  }

  lemma TwoRuns(rec: Recursion, k: nat) returns (schedule: seq<nat>)
    requires k <= 6
    ensures Runs(ONE_RANGE, rec, TwoRun(0), schedule, TwoRun(k))
  {
    if k == 0 {
      schedule := [];
    } else {
      var before := TwoRuns(rec, k - 1);
      TwoNext(rec, k - 1);
      RunsExtends(ONE_RANGE, rec, TwoRun(0), before, TwoRun(k - 1), TWO_SCHEDULE[k - 1]);
      schedule := before + [TWO_SCHEDULE[k - 1]];
    }
  }

  /** Both siblings write to the pipe, the second without having claimed a range. */
  lemma IdleSiblingNotifiesToo(rec: Recursion)
    ensures exists schedule, st ::
              && Runs(ONE_RANGE, rec, TwoRun(0), schedule, st)
              && Init(TwoRun(0))
              && |st.sibs| == 2 && st.sibs[0].task == Done(true) && st.sibs[1].task == Done(true)
              && st.sibs[1].claimed == []
  {
    var schedule := TwoRuns(rec, 6);
  }
}
