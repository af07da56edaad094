/** What the collector can free when it is left to itself: a retired block is freed in some continuation if and only if
    no thread and no block that has not been retired leads to it (forkscan.c 161-245). */
module Collection {
  import opened Words
  import opened Sequences
  import opened Snapshots
  import M = Marking
  import P = MarkingProgress
  import opened Reclaim
  import opened LooseRounds
  import Garbage

  ghost predicate OfCollector(l: Label) {
    l.Fork? || l.Mark? || l.Publish? || l.Free?
  }

  ghost predicate NoMutator(labels: seq<Label>) {
    forall k :: 0 <= k < |labels| ==> OfCollector(labels[k])
  }

  /** The collector alone leads from st to st', without an empty round. */
  ghost predicate Continues(st: State, labels: seq<Label>, st': State) {
    Runs(M.OnTarget, st, labels, st') && NoMutator(labels) && Filled(M.OnTarget, st, labels)
  }

  lemma Then(st: State, l: Label, rest: seq<Label>, st': State) returns (labels: seq<Label>)
    requires Enabled(st, l) && OfCollector(l) && (l.Publish? ==> st.round.snap.pool != {})
    requires Continues(Apply(M.OnTarget, st, l), rest, st')
    ensures Continues(st, labels, st')
  {
    labels := [l] + rest;
    RunsOn(M.OnTarget, st, l, rest, st');
  }

  lemma Joined(st: State, first: seq<Label>, mid: State, second: seq<Label>, st': State) returns (labels: seq<Label>)
    requires Continues(st, first, mid) && Continues(mid, second, st')
    ensures Continues(st, labels, st')
  {
    labels := first + second;
    RunsJoin(M.OnTarget, st, first, mid, second, st');
  }

  lemma Once(st: State, l: Label) returns (labels: seq<Label>)
    requires Enabled(st, l) && OfCollector(l) && (l.Publish? ==> st.round.snap.pool != {})
    ensures Continues(st, labels, Apply(M.OnTarget, st, l))
  {
    var st' := Apply(M.OnTarget, st, l);
    assert Runs(M.OnTarget, st', [], st') && Filled(M.OnTarget, st', []);
    labels := Then(st, l, [], st');
  }

  /** What the blocks that have not been retired refer to. */
  ghost function LiveRefs(st: State): set<nat> {
    set b, i | b in st.blocks && st.blocks[b].kind.Live? && 0 <= i < |st.blocks[b].words|
               && PtrMask(st.blocks[b].words[i]) != 0 :: PtrMask(st.blocks[b].words[i])
  }

  /** The state as if the threads also held what the blocks that have not been retired refer to. */
  ghost function Widened(st: State): State {
    st.(roots := st.roots + LiveRefs(st))
  }

  /** A thread, or a block that has not been retired, leads to a. */
  ghost predicate Kept(st: State, a: nat) {
    HeapReachable(Widened(st), a)
  }

  // ---------------------------------------------------------------- what is kept stays

  lemma LiveRefIs(st: State, v: nat) returns (b: nat)
    requires v in LiveRefs(st)
    ensures v != 0 && b in st.blocks && st.blocks[b].kind.Live? && InWords(st.blocks[b].words, v)
  {
    var c, i :| c in st.blocks && st.blocks[c].kind.Live? && 0 <= i < |st.blocks[c].words|
                && PtrMask(st.blocks[c].words[i]) != 0 && PtrMask(st.blocks[c].words[i]) == v;
    b := c;
  }

  lemma WidenedInv(st: State)
    requires Inv(M.OnTarget, st)
    ensures Inv(M.OnTarget, Widened(st))
  {
    var wide := Widened(st);
    var f :| RoundBase(M.OnTarget, f, st);
    assert RoundBase(M.OnTarget, f, wide);
    forall v ensures Gone(wide, v) == Gone(st, v) && Safe(wide, v) == Safe(st, v) {}
    forall v | v in wide.roots ensures Safe(wide, v) {
      if v !in st.roots {
        var b := LiveRefIs(st, v);
        assert RefersTo(st, b, v) && !Gone(st, b);
      }
    }
    forall b, v | RefersTo(wide, b, v) && !Gone(wide, b) ensures Safe(wide, v) {
      assert RefersTo(st, b, v);
    }
  }

  /** A step of the collector is also one when the threads hold more, if blocks that are not retired refer to it. */
  lemma WidenedStep(st: State, held: set<nat>, l: Label)
    requires Inv(M.OnTarget, st) && Enabled(st, l) && OfCollector(l) && st.roots <= held <= st.roots + LiveRefs(st)
    ensures Enabled(st.(roots := held), l)
    ensures Apply(M.OnTarget, st.(roots := held), l) == Apply(M.OnTarget, st, l).(roots := held)
    ensures var st' := Apply(M.OnTarget, st, l); st'.roots <= held <= st'.roots + LiveRefs(st')
  {
    var st' := Apply(M.OnTarget, st, l);
    if l.Fork? { WidenedFork(st, held, l.batch, l.snap); }
    forall v | v in held ensures v in st'.roots + LiveRefs(st') {
      if v !in st.roots {
        var b := LiveRefIs(st, v);
        LiveStays(st, l, b);
        LiveRefOf(st', b, v);
      }
    }
  }

  lemma WidenedFork(st: State, held: set<nat>, batch: set<nat>, snap: Snapshot)
    requires SnapshotOf(st, batch, snap) && held <= st.roots + LiveRefs(st)
    ensures SnapshotOf(st.(roots := held), batch, snap)
  {
    forall v | v in held ensures snap.InRanges(v) {
      if v !in st.roots {
        var b := LiveRefIs(st, v);
        assert b !in snap.pool && !st.blocks[b].kind.Dead?;
      }
    }
  }

  /** The collector leaves alone what has not been retired. */
  lemma LiveStays(st: State, l: Label, b: nat)
    requires Inv(M.OnTarget, st) && Enabled(st, l) && OfCollector(l) && b in st.blocks && st.blocks[b].kind.Live?
    ensures b in Apply(M.OnTarget, st, l).blocks && Apply(M.OnTarget, st, l).blocks[b] == st.blocks[b]
  {
    assert RoundOk(M.OnTarget, st);
  }

  lemma LiveRefOf(st: State, b: nat, v: nat)
    requires b in st.blocks && st.blocks[b].kind.Live? && InWords(st.blocks[b].words, v) && v != 0
    ensures v in LiveRefs(st)
  {
    var i :| 0 <= i < |st.blocks[b].words| && PtrMask(st.blocks[b].words[i]) == v;
  }

  /** The collector takes no path away. */
  lemma PathsStay(st: State, l: Label, a: nat)
    requires Inv(M.OnTarget, st) && Enabled(st, l) && OfCollector(l) && HeapReachable(st, a)
    ensures HeapReachable(Apply(M.OnTarget, st, l), a)
  {
    var st' := Apply(M.OnTarget, st, l);
    var p :| IsHeapPath(st, p) && p[|p| - 1] == a;
    forall i | 0 < i < |p| ensures RefersTo(st', p[i - 1], p[i]) {
      assert IsHeapPath(st, p[..i]) && p[..i][|p[..i]| - 1] == p[i - 1];
      ReachableIsSafe(M.OnTarget, st, p[i - 1]);
      assert RefersTo(st, p[i - 1], p[i]);
      assert p[i - 1] in st'.blocks && st'.blocks[p[i - 1]].words == st.blocks[p[i - 1]].words;
    }
    assert IsHeapPath(st', p);
  }

  lemma {:induction false} KeptStays(st: State, held: set<nat>, labels: seq<Label>, st': State, a: nat)
    requires Continues(st, labels, st')
    requires Inv(M.OnTarget, st) && st.roots <= held <= st.roots + LiveRefs(st)
    requires Inv(M.OnTarget, st.(roots := held)) && HeapReachable(st.(roots := held), a)
    ensures a in st'.blocks
    decreases |labels|
  {
    var wide := st.(roots := held);
    if labels == [] {
      ReachableIsSafe(M.OnTarget, wide, a);
    } else {
      assert OfCollector(labels[0]);
      WidenedStep(st, held, labels[0]);
      StepInv(M.OnTarget, st, labels[0]);
      StepInv(M.OnTarget, wide, labels[0]);
      PathsStay(wide, labels[0], a);
      KeptStays(Apply(M.OnTarget, st, labels[0]), held, labels[1..], st', a);
    }
  }

  // ---------------------------------------------------------------- the round that is under way ends

  /** The marks of the round have come about step by step. */
  ghost predicate Marked(st: State) {
    st.round.Round? ==>
      st.round.snap.Valid() && exists n: nat, schedule :: MarksOf(st, n, schedule)
  }

  ghost predicate MarksOf(st: State, n: nat, schedule: seq<nat>)
    requires st.round.Round?
  {
    n > 0 && M.Runs(st.round.snap, M.OnTarget, FreshMarking(n), schedule, st.round.marking)
  }

  lemma MarkedStep(st: State, l: Label)
    requires Marked(st) && Enabled(st, l)
    ensures Marked(Apply(M.OnTarget, st, l))
  {
    var st' := Apply(M.OnTarget, st, l);
    if l.Fork? {
      assert MarksOf(st', l.siblings, []);
    } else if l.Mark? {
      var n: nat, schedule :| MarksOf(st, n, schedule);
      P.OneMore(st.round.snap, M.OnTarget, FreshMarking(n), schedule, st.round.marking, l.sibling);
      assert MarksOf(st', n, schedule + [l.sibling]);
    } else if st'.round.Round? {
      var n: nat, schedule :| MarksOf(st, n, schedule);
      assert MarksOf(st', n, schedule);
    }
  }

  lemma {:induction false} MarkedRuns(st: State, labels: seq<Label>, st': State)
    requires Marked(st) && Runs(M.OnTarget, st, labels, st')
    ensures Marked(st')
    decreases |labels|
  {
    if labels != [] {
      MarkedStep(st, labels[0]);
      MarkedRuns(Apply(M.OnTarget, st, labels[0]), labels[1..], st');
    }
  }

  /** What is left of a schedule after its beginning. */
  lemma {:induction false} RestRuns(snap: Snapshot, st: M.State, before: seq<nat>, mid: M.State, all: seq<nat>,
                                    st': M.State)
    requires M.Runs(snap, M.OnTarget, st, before, mid) && M.Runs(snap, M.OnTarget, st, all, st') && before <= all
    ensures M.Runs(snap, M.OnTarget, mid, all[|before|..], st')
    decreases |before|
  {
    if before == [] {
      assert all[0..] == all;
    } else {
      RestRuns(snap, M.Step(snap, M.OnTarget, st, before[0]), before[1..], mid, all[1..], st');
      assert all[1..][|before| - 1..] == all[|before|..];
    }
  }

  /** The same blocks with the same words, held by the same threads and live in the same places. */
  ghost predicate SameHeap(st: State, st': State) {
    && st'.roots == st.roots && st'.blocks.Keys == st.blocks.Keys
    && forall b :: b in st.blocks ==>
         && st'.blocks[b].words == st.blocks[b].words
         && (st'.blocks[b].kind.Live? <==> st.blocks[b].kind.Live?)
  }

  lemma SameKept(st: State, st': State, a: nat)
    requires SameHeap(st, st')
    ensures Kept(st', a) <==> Kept(st, a)
  {
    assert LiveRefs(st') == LiveRefs(st);
    forall p ensures IsHeapPath(Widened(st'), p) <==> IsHeapPath(Widened(st), p) {
      assert forall b, v :: RefersTo(Widened(st'), b, v) <==> RefersTo(Widened(st), b, v);
    }
  }

  lemma RoundEnds(st: State) returns (labels: seq<Label>, st': State)
    requires Inv(M.OnTarget, st) && Marked(st) && st.round.Round? && st.round.snap.pool != {}
    ensures Continues(st, labels, st')
    ensures Inv(M.OnTarget, st') && st'.round.Idle? && SameHeap(st, st')
    ensures forall b :: b in st.round.snap.pool && !st.round.snap.Reachable(b) && b in st.blocks ==>
              st'.blocks[b].kind.Dead?
    ensures forall b :: b in st.blocks && !st.blocks[b].kind.Tracked? ==> st'.blocks[b] == st.blocks[b]
  {
    var marks, m := MarksAreMade(st);
    var marked := st.(round := Round(st.round.snap, m));
    RunInv(M.OnTarget, st, marks, marked);
    st' := Apply(M.OnTarget, marked, Publish);
    var publish := Once(marked, Publish);
    labels := Joined(st, marks, marked, publish, st');
    PublishEnds(marked);
  }

  lemma MarksAreMade(st: State) returns (labels: seq<Label>, m: M.State)
    requires Marked(st) && st.round.Round?
    ensures Continues(st, labels, st.(round := Round(st.round.snap, m))) && M.Notified(m)
  {
    var snap := st.round.snap;
    var n: nat, before :| MarksOf(st, n, before);
    var schedule;
    schedule, m := P.NotificationComes(snap, M.OnTarget, FreshMarking(n), before, st.round.marking);
    RestRuns(snap, FreshMarking(n), before, st.round.marking, schedule, m);
    labels := MarksLift(M.OnTarget, st, schedule[|before|..], m);
  }

  lemma PublishEnds(st: State)
    requires Inv(M.OnTarget, st) && Enabled(st, Publish) && st.round.snap.pool != {}
    ensures var st' := Apply(M.OnTarget, st, Publish);
      && Inv(M.OnTarget, st') && st'.round.Idle? && SameHeap(st, st')
      && (forall b :: b in st.round.snap.pool && !st.round.snap.Reachable(b) && b in st.blocks ==>
            st'.blocks[b].kind.Dead?)
      && (forall b :: b in st.blocks && !st.blocks[b].kind.Tracked? ==> st'.blocks[b] == st.blocks[b])
  {
    PublishInv(M.OnTarget, st);
    UnmarkedIsDoomed(M.OnTarget, st);
    assert RoundOk(M.OnTarget, st);
  }

  // ---------------------------------------------------------------- a round of its own

  /** Everything that has been retired and everything that has survived. */
  ghost function Retirees(st: State): set<nat> {
    set b | b in st.blocks && (st.blocks[b].kind.Retired? || st.blocks[b].kind.Tracked?)
  }

  ghost function Batch(st: State): set<nat> {
    set b | b in st.blocks && st.blocks[b].kind.Retired?
  }

  /** What has to be searched: the threads' words and those of the blocks that have not been retired. */
  ghost function ToSearch(st: State): set<nat> {
    st.roots + LiveRefs(st) + {0}
  }

  /** A snapshot that searches nothing else. */
  lemma ExactSnapshot(st: State) returns (snap: Snapshot)
    requires Inv(M.OnTarget, st)
    ensures SnapshotOf(st, Batch(st), snap) && snap.pool == Retirees(st)
    ensures forall v :: snap.Reachable(v) ==> Kept(st, v)
  {
    var xs := ListOf(ToSearch(st));
    snap := Snapshot(Retirees(st), Contents(st), [xs]);
    SnapshotFits(st, snap, xs);
    forall v | snap.Reachable(v) ensures Kept(st, v) {
      var p :| snap.IsPath(p) && p[|p| - 1] == v;
      ExactPath(st, snap, xs, p);
    }
  }

  lemma MaskedAlready(st: State, v: nat)
    requires Inv(M.OnTarget, st) && v in ToSearch(st)
    ensures PtrMask(v) == v
  {
    if v in st.roots {
      assert Safe(st, v);
    } else if v in LiveRefs(st) {
      var b := LiveRefIs(st, v);
    }
  }

  lemma SnapshotFits(st: State, snap: Snapshot, xs: seq<nat>)
    requires Inv(M.OnTarget, st) && snap == Snapshot(Retirees(st), Contents(st), [xs])
    requires forall x :: x in xs <==> x in ToSearch(st)
    ensures SnapshotOf(st, Batch(st), snap)
  {
    forall v | v in ToSearch(st) ensures snap.InRanges(v) {
      MaskedAlready(st, v);
      var i :| 0 <= i < |xs| && xs[i] == v;
      assert InWords(snap.ranges[0], v);
    }
    forall b, v | b in st.blocks && st.blocks[b].kind.Live? && InWords(st.blocks[b].words, v)
      ensures v in ToSearch(st)
    {
      if v != 0 { LiveRefOf(st, b, v); }
    }
  }

  lemma ExactPath(st: State, snap: Snapshot, xs: seq<nat>, p: seq<nat>)
    requires Inv(M.OnTarget, st) && snap == Snapshot(Retirees(st), Contents(st), [xs])
    requires (forall x :: x in xs <==> x in ToSearch(st)) && snap.IsPath(p)
    ensures IsHeapPath(Widened(st), p)
  {
    assert snap.Root(p[0]) && InWords(xs, p[0]);
    var i :| 0 <= i < |xs| && PtrMask(xs[i]) == p[0];
    assert xs[i] in xs;
    MaskedAlready(st, xs[i]);
    forall k | 0 < k < |p| ensures RefersTo(Widened(st), p[k - 1], p[k]) {
      assert snap.Hits(p[k - 1], p[k]);
    }
  }

  /** A round in which a, which nothing leads to, is found dead and then freed. */
  lemma RoundFrees(st: State, a: nat) returns (labels: seq<Label>, st': State)
    requires Inv(M.OnTarget, st) && st.round.Idle? && a in Retirees(st) && !Kept(st, a)
    ensures Continues(st, labels, st')
    ensures a !in st'.blocks
  {
    var l := ForkOfAll(st, a);
    var forked := Apply(M.OnTarget, st, l);
    var rest, ended := RoundEnds(forked);
    var last;
    last, st' := DeadIsFreed(ended, a);
    var both := Joined(forked, rest, ended, last, st');
    labels := Then(st, l, both, st');
  }

  lemma ForkOfAll(st: State, a: nat) returns (l: Label)
    requires Inv(M.OnTarget, st) && st.round.Idle? && a in Retirees(st) && !Kept(st, a)
    ensures l.Fork? && Enabled(st, l)
    ensures var st' := Apply(M.OnTarget, st, l);
      && Inv(M.OnTarget, st') && Marked(st') && st'.round.Round?
      && a in st'.round.snap.pool && !st'.round.snap.Reachable(a) && a in st'.blocks
  {
    var snap := ExactSnapshot(st);
    l := Fork(Batch(st), snap, 1);
    StepInv(M.OnTarget, st, l);
    assert MarksOf(Apply(M.OnTarget, st, l), 1, []);
  }

  lemma DeadIsFreed(st: State, a: nat) returns (labels: seq<Label>, st': State)
    requires a in st.blocks && st.blocks[a].kind.Dead?
    ensures Continues(st, labels, st')
    ensures a !in st'.blocks
  {
    st' := Apply(M.OnTarget, st, Free(a));
    labels := Once(st, Free(a));
  }

  /** The collector alone, without an empty round, can free the block. */
  ghost predicate Collectable(st: State, a: nat) {
    exists labels, st' :: Continues(st, labels, st') && a !in st'.blocks
  }

  /** In every reachable state a retired block can be freed by the collector alone if and only if neither a thread nor a
      block that has not been retired leads to it. */
  lemma CollectedExactly(before: seq<Label>, st: State, a: nat)
    requires Runs(M.OnTarget, INITIAL, before, st) && !st.loose
    requires st.round.Round? ==> st.round.snap.pool != {}
    requires a in st.blocks && !st.blocks[a].kind.Live?
    ensures Collectable(st, a) <==> !Kept(st, a)
  {
    InitInv(M.OnTarget);
    RunInv(M.OnTarget, INITIAL, before, st);
    if Kept(st, a) {
      forall labels, st' | Continues(st, labels, st') ensures a in st'.blocks {
        WidenedInv(st);
        KeptStays(st, Widened(st).roots, labels, st', a);
      }
    } else {
      MarkedRuns(INITIAL, before, st);
      var labels, st' := UnkeptIsFreed(st, a);
    }
  }

  lemma UnkeptIsFreed(st: State, a: nat) returns (labels: seq<Label>, st': State)
    requires Inv(M.OnTarget, st) && Marked(st) && (st.round.Round? ==> st.round.snap.pool != {})
    requires a in st.blocks && !st.blocks[a].kind.Live? && !Kept(st, a)
    ensures Continues(st, labels, st')
    ensures a !in st'.blocks
  {
    var first, idle := [], st;
    assert Continues(st, [], st);
    if st.round.Round? {
      first, idle := RoundEnds(st);
      SameKept(st, idle, a);
    }
    var second;
    if idle.blocks[a].kind.Dead? {
      second, st' := DeadIsFreed(idle, a);
    } else {
      second, st' := RoundFrees(idle, a);
    }
    labels := Joined(st, first, idle, second, st');
  }
}
