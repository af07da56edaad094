/** A run of the whole collector, with the recursion as written, that frees a block in use. */
module ReclaimExamples {
  import opened Words
  import opened Snapshots
  import M = Marking
  import E = MarkingExamples
  import opened Reclaim

  lemma RunsExtends(rec: M.Recursion, st: State, labels: seq<Label>, st': State, l: Label)
    requires Runs(rec, st, labels, st') && Enabled(st', l)
    ensures Runs(rec, st, labels + [l], Apply(rec, st', l))
    decreases |labels|
  {
    if labels == [] {
      assert labels + [l] == [l];
      assert ([l])[1..] == [];
    } else {
      assert (labels + [l])[1..] == labels[1..] + [l];
      RunsExtends(rec, Apply(rec, st, labels[0]), labels[1..], st', l);
    }
  }

  ghost function Plain(blocks: map<nat, Block>, roots: set<nat>, round: Round): State {
    State(blocks, roots, round, false, {})
  }

  /** A thread builds the chain 4, 8, 12, retires all of it, and keeps a reference to 4 only. */
  ghost function Chained(kind: Kind): map<nat, Block> {
    map[4 := Block(kind, [8]), 8 := Block(kind, [12]), 12 := Block(kind, [0])]
  }

  ghost function Building(k: nat): State
    requires k <= 10
  {
    var b4, b8, b12 := Block(Live, [0]), Block(Live, [0]), Block(Live, [0]);
    var r4, r8, r12 := Block(Retired, [8]), Block(Retired, [12]), Block(Retired, [0]);
    var l4, l8 := Block(Live, [8]), Block(Live, [12]);
    if k == 0 then INITIAL
    else if k == 1 then Plain(map[4 := b4], {4}, Idle)
    else if k == 2 then Plain(map[4 := b4, 8 := b8], {4, 8}, Idle)
    else if k == 3 then Plain(map[4 := b4, 8 := b8, 12 := b12], {4, 8, 12}, Idle)
    else if k == 4 then Plain(map[4 := l4, 8 := b8, 12 := b12], {4, 8, 12}, Idle)
    else if k == 5 then Plain(map[4 := l4, 8 := l8, 12 := b12], {4, 8, 12}, Idle)
    else if k == 6 then Plain(map[4 := r4, 8 := l8, 12 := b12], {4, 8, 12}, Idle)
    else if k == 7 then Plain(map[4 := r4, 8 := r8, 12 := b12], {4, 8, 12}, Idle)
    else if k == 8 then Plain(Chained(Retired), {4, 8, 12}, Idle)
    else if k == 9 then Plain(Chained(Retired), {4, 12}, Idle)
    else Plain(Chained(Retired), {4}, Idle)
  }

  const BUILD: seq<Label> := [
    Alloc(4, 1), Alloc(8, 1), Alloc(12, 1), Store(4, 0, 8), Store(8, 0, 12),
    Retire(4), Retire(8), Retire(12), Drop(8), Drop(12)]

  ghost predicate BuildNext(k: nat)
    requires k < 10
  {
    && Enabled(Building(k), BUILD[k])
    && Apply(M.OnScannedBlock, Building(k), BUILD[k]) == Building(k + 1)
  }

  lemma AllocNext()
    ensures BuildNext(0) && BuildNext(1) && BuildNext(2)
  {
    assert seq(1, _ => 0) == [0];
  }

  lemma StoreNext()
    ensures BuildNext(3) && BuildNext(4)
  {
    assert [0][0 := 8] == [8] && [0][0 := 12] == [12];
  }

  lemma RetireNext()
    ensures BuildNext(5) && BuildNext(6) && BuildNext(7)
  {
  }

  lemma DropNext()
    ensures BuildNext(8) && BuildNext(9)
  {
  }

  lemma BuildSteps(k: nat)
    requires k < 10
    ensures BuildNext(k)
  {
    if k < 3 { AllocNext(); }
    else if k < 5 { StoreNext(); }
    else if k < 8 { RetireNext(); }
    else { DropNext(); }
  }

  lemma BuildRuns(k: nat) returns (labels: seq<Label>)
    requires k <= 10
    ensures Runs(M.OnScannedBlock, INITIAL, labels, Building(k))
  {
    if k == 0 {
      labels := [];
    } else {
      var before := BuildRuns(k - 1);
      BuildSteps(k - 1);
      RunsExtends(M.OnScannedBlock, INITIAL, before, Building(k - 1), BUILD[k - 1]);
      labels := before + [BUILD[k - 1]];
    }
  }

  ghost function Marking(k: nat): State
    requires k <= 13
  {
    Plain(Chained(Tracked), {4}, Round(E.CHAIN, E.ChainRun(k)))
  }

  lemma ForkNext()
    ensures Enabled(Building(10), Fork({4, 8, 12}, E.CHAIN, 1))
    ensures Apply(M.OnScannedBlock, Building(10), Fork({4, 8, 12}, E.CHAIN, 1)) == Marking(0)
  {
    E.ChainIsReachable();
    var st := Building(10);
    assert InWords(E.CHAIN.ranges[0], 4) by { assert PtrMask(E.CHAIN.ranges[0][0]) == 4; }
    assert FreshMarking(1) == E.START;
    assert Track(st.blocks, {4, 8, 12}) == Chained(Tracked);
  }

  lemma MarkRuns(k: nat) returns (labels: seq<Label>)
    requires k <= 13
    ensures Runs(M.OnScannedBlock, INITIAL, labels, Marking(k))
  {
    if k == 0 {
      var before := BuildRuns(10);
      ForkNext();
      RunsExtends(M.OnScannedBlock, INITIAL, before, Building(10), Fork({4, 8, 12}, E.CHAIN, 1));
      labels := before + [Fork({4, 8, 12}, E.CHAIN, 1)];
    } else {
      var before := MarkRuns(k - 1);
      E.ChainSteps(k - 1);
      RunsExtends(M.OnScannedBlock, INITIAL, before, Marking(k - 1), Mark(0));
      labels := before + [Mark(0)];
    }
  }

  ghost function Published(): State {
    Plain(Chained(Tracked)[12 := Block(Dead, [0])], {4}, Idle)
  }

  ghost function Freed(): State {
    Plain(map[4 := Block(Tracked, [8]), 8 := Block(Tracked, [12])], {4}, Idle)
  }

  lemma PublishNext()
    ensures Enabled(Marking(13), Publish) && Apply(M.OnScannedBlock, Marking(13), Publish) == Published()
    ensures Enabled(Published(), Free(12)) && Apply(M.OnScannedBlock, Published(), Free(12)) == Freed()
  {
    assert E.ChainRun(13).sibs[0].task == M.Done(true);
    assert M.Notified(E.ChainRun(13));
    assert {4, 8, 12} - {4, 8} == {12};
  }

  lemma FreedRuns() returns (labels: seq<Label>)
    ensures Runs(M.OnScannedBlock, INITIAL, labels, Freed())
  {
    var before := MarkRuns(13);
    PublishNext();
    RunsExtends(M.OnScannedBlock, INITIAL, before, Marking(13), Publish);
    RunsExtends(M.OnScannedBlock, INITIAL, before + [Publish], Published(), Free(12));
    labels := before + [Publish] + [Free(12)];
  }

  lemma StillReachable()
    ensures HeapReachable(Freed(), 12)
  {
    var st := Freed();
    assert st.blocks[4].words[0] == 8 && st.blocks[8].words[0] == 12;
    assert RefersTo(st, 4, 8) && RefersTo(st, 8, 12);
    assert IsHeapPath(st, [4, 8, 12]);
    assert [4, 8, 12][2] == 12;
  }

  /** As written, a run exists in which a block that a thread can reach by loading two words has been
      freed.  The block was retired once, and every step of the client is allowed. */
  lemma AsWrittenFreesAReachableBlock()
    ensures exists labels, st ::
              && Runs(M.OnScannedBlock, INITIAL, labels, st)
              && HeapReachable(st, 12)
              && 12 !in st.blocks
  {
    var labels := FreedRuns();
    StillReachable();
  }
}
