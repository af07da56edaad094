/** What a round with an empty working buffer leads to, and that only such a round does (forkscan.c 135 and 229-244). */
module LooseRounds {
  import opened Words
  import opened Sequences
  import opened Snapshots
  import M = Marking
  import P = MarkingProgress
  import opened Reclaim

  /** In no round of the run that is published is the pool empty. */
  ghost predicate Filled(rec: M.Recursion, st: State, labels: seq<Label>)
    decreases |labels|
  {
    labels != [] && Enabled(st, labels[0]) ==>
      && (labels[0].Publish? ==> st.round.snap.pool != {})
      && Filled(rec, Apply(rec, st, labels[0]), labels[1..])
  }

  /** As long as no further round is empty, what a thread can reach cannot be freed. */
  ghost predicate StaysSafe(rec: M.Recursion, st: State) {
    forall labels, st', a ::
      Runs(rec, st, labels, st') && Filled(rec, st, labels) && HeapReachable(st', a) ==>
        a in st'.blocks && !Enabled(st', Free(a))
  }

  lemma {:induction false} FilledIsTight(rec: M.Recursion, st: State, labels: seq<Label>, st': State)
    requires Runs(rec, st, labels, st') && Filled(rec, st, labels) && !st.loose
    ensures !st'.loose
    decreases |labels|
  {
    if labels != [] { FilledIsTight(rec, Apply(rec, st, labels[0]), labels[1..], st'); }
  }

  lemma TightStaysSafe(st: State)
    requires Inv(M.OnTarget, st)
    ensures StaysSafe(M.OnTarget, st)
  {
    forall labels, st', a | Runs(M.OnTarget, st, labels, st') && Filled(M.OnTarget, st, labels) && HeapReachable(st', a)
      ensures a in st'.blocks && !Enabled(st', Free(a))
    {
      FilledIsTight(M.OnTarget, st, labels, st');
      RunInv(M.OnTarget, st, labels, st');
      ReachableIsSafe(M.OnTarget, st', a);
    }
  }

  // ---------------------------------------------------------------- after an empty round

  lemma {:induction false} Exceeds(s: set<nat>) returns (n: nat)
    ensures forall x :: x in s ==> x < n
  {
    if s == {} {
      n := 0;
    } else {
      var x :| x in s;
      var m := Exceeds(s - {x});
      n := if m > x then m else x + 1;
      forall y | y in s ensures y < n { assert y == x || y in s - {x}; }
    }
  }

  lemma FreshAddress(s: set<nat>) returns (a: nat)
    ensures a !in s && 0 < a && a % 4 == 0
  {
    var n := Exceeds(s);
    a := 4 * (n + 1);
    assert a >= n;
  }

  /** Everything that a thread or a block refers to. */
  ghost function Referred(st: State): set<nat> {
    st.roots + set b, i | b in st.blocks && 0 <= i < |st.blocks[b].words| :: PtrMask(st.blocks[b].words[i])
  }

  /** The survivors and the given block. */
  ghost function PoolWith(st: State, a: nat): set<nat> {
    set b | b in st.blocks && (b == a || st.blocks[b].kind.Tracked?)
  }

  ghost function Contents(st: State): map<nat, seq<nat>> {
    map b | b in st.blocks :: st.blocks[b].words
  }

  ghost predicate Aligned(st: State) {
    && (forall b :: b in st.blocks ==> 0 < b && b % 4 == 0)
    && (forall r :: r in st.roots ==> r % 4 == 0)
  }

  /** A snapshot whose batch is one block that a thread has just retired. */
  lemma SnapshotWith(st: State, a: nat) returns (snap: Snapshot)
    requires Aligned(st) && a in st.roots && a in st.blocks && st.blocks[a].kind.Retired?
    ensures SnapshotOf(st, {a}, snap) && snap.Root(a) && snap.pool == PoolWith(st, a)
  {
    var xs := ListOf(Referred(st));
    snap := Snapshot(PoolWith(st, a), Contents(st), [xs]);
    forall v | v in Referred(st) ensures snap.InRanges(v) {
      assert v % 4 == 0;
      var i :| 0 <= i < |xs| && xs[i] == v;
      assert PtrMask(xs[i]) == v;
      assert InWords(snap.ranges[0], v);
    }
    forall b, v | b in st.blocks && InWords(st.blocks[b].words, v) ensures v in Referred(st) {
      var i :| 0 <= i < |st.blocks[b].words| && PtrMask(st.blocks[b].words[i]) == v;
    }
  }

  /** The steps of the siblings, as steps of the whole. */
  lemma {:induction false} MarksLift(rec: M.Recursion, st: State, schedule: seq<nat>, m: M.State)
    returns (labels: seq<Label>)
    requires st.round.Round? && M.Runs(st.round.snap, rec, st.round.marking, schedule, m)
    ensures Runs(rec, st, labels, st.(round := Round(st.round.snap, m))) && Filled(rec, st, labels)
    ensures forall k :: 0 <= k < |labels| ==> labels[k].Mark?
    decreases |schedule|
  {
    if schedule == [] {
      labels := [];
    } else {
      var rest := MarksLift(rec, Apply(rec, st, Mark(schedule[0])), schedule[1..], m);
      labels := [Mark(schedule[0])] + rest;
      assert labels[1..] == rest;
    }
  }

  lemma RunsOn(rec: M.Recursion, st: State, l: Label, rest: seq<Label>, st': State)
    requires Enabled(st, l) && Runs(rec, Apply(rec, st, l), rest, st')
    ensures Runs(rec, st, [l] + rest, st')
    ensures Filled(rec, Apply(rec, st, l), rest) && (l.Publish? ==> st.round.snap.pool != {}) ==>
              Filled(rec, st, [l] + rest)
  {
    assert ([l] + rest)[1..] == rest;
  }

  lemma {:induction false} RunsJoin(rec: M.Recursion, st: State, labels: seq<Label>, mid: State, more: seq<Label>,
                                    st': State)
    requires Runs(rec, st, labels, mid) && Runs(rec, mid, more, st')
    ensures Runs(rec, st, labels + more, st')
    ensures Filled(rec, st, labels) && Filled(rec, mid, more) ==> Filled(rec, st, labels + more)
    decreases |labels|
  {
    if labels == [] {
      assert labels + more == more;
    } else {
      RunsJoin(rec, Apply(rec, st, labels[0]), labels[1..], mid, more, st');
      assert (labels + more)[1..] == labels[1..] + more;
    }
  }

  /** A root that is marked while a buffer is loose is exposed. */
  lemma RoundExposes(rec: M.Recursion, st: State, a: nat) returns (labels: seq<Label>, st': State)
    requires st.round.Round? && st.loose && st.round.snap.Valid() && st.round.snap.Root(a)
    requires st.round.marking == FreshMarking(1)
    ensures Runs(rec, st, labels, st') && Filled(rec, st, labels)
    ensures a in st'.exposed && st'.roots == st.roots && (a in st.blocks ==> a in st'.blocks)
  {
    var snap, start := st.round.snap, FreshMarking(1);
    var schedule, m := P.NotificationComes(snap, rec, start, [], start);
    RootIsMarked(snap, rec, start, schedule, m, a);
    var marks := MarksLift(rec, st, schedule, m);
    var marked := st.(round := Round(snap, m));
    st' := Apply(rec, marked, Publish);
    assert Runs(rec, st', [], st') && Filled(rec, st', []);
    RunsOn(rec, marked, Publish, [], st');
    RunsJoin(rec, st, marks, marked, [Publish] + [], st');
    labels := marks + ([Publish] + []);
  }

  lemma RootIsMarked(snap: Snapshot, rec: M.Recursion, st0: M.State, schedule: seq<nat>, m: M.State, a: nat)
    requires snap.Valid() && M.Init(st0) && M.Runs(snap, rec, st0, schedule, m) && M.Notified(m) && snap.Root(a)
    ensures a in m.shared.marked
  {
    snap.RootIsReachable(a);
    if rec.OnTarget? {
      M.MarkedIsReachable(snap, st0, schedule, m);
    } else {
      M.MarkedAsWritten(snap, st0, schedule, m);
    }
  }

  /** After an empty round, a block that a thread has allocated and retired and still refers to can be freed in the
      next round. */
  lemma LooseGoesWrong(rec: M.Recursion, st: State) returns (labels: seq<Label>, st': State, a: nat)
    requires st.loose && st.round.Idle? && Aligned(st)
    ensures Runs(rec, st, labels, st') && Filled(rec, st, labels)
    ensures a in st'.roots && Enabled(st', Free(a))
  {
    a := FreshAddress(st.blocks.Keys);
    var born := Apply(rec, st, Alloc(a, 0));
    var retired := Apply(rec, born, Retire(a));
    var snap := SnapshotWith(retired, a);
    var forked := Apply(rec, retired, Fork({a}, snap, 1));
    var rest;
    rest, st' := RoundExposes(rec, forked, a);
    RunsOn(rec, retired, Fork({a}, snap, 1), rest, st');
    RunsOn(rec, born, Retire(a), [Fork({a}, snap, 1)] + rest, st');
    RunsOn(rec, st, Alloc(a, 0), [Retire(a)] + ([Fork({a}, snap, 1)] + rest), st');
    labels := [Alloc(a, 0)] + ([Retire(a)] + ([Fork({a}, snap, 1)] + rest));
  }

  lemma HeldIsReachable(st: State, a: nat)
    requires a in st.roots
    ensures HeapReachable(st, a)
  {
    assert IsHeapPath(st, [a]) && [a][0] == a;
  }

  // ---------------------------------------------------------------- exactly when

  /** In a run without an empty round so far, publishing the round that is under way keeps everything reachable safe, as
      long as no further round is empty, if and only if its working buffer is not empty. */
  lemma RoundIsSafeExactly(labels: seq<Label>, st: State)
    requires Runs(M.OnTarget, INITIAL, labels, st) && !st.loose && Enabled(st, Publish)
    ensures st.round.snap.pool != {} <==> StaysSafe(M.OnTarget, Apply(M.OnTarget, st, Publish))
  {
    var published := Apply(M.OnTarget, st, Publish);
    InitInv(M.OnTarget);
    RunInv(M.OnTarget, INITIAL, labels, st);
    if st.round.snap.pool != {} {
      PublishInv(M.OnTarget, st);
      TightStaysSafe(published);
    } else {
      assert forall r :: r in st.roots ==> Safe(st, r);
      var more, st', a := LooseGoesWrong(M.OnTarget, published);
      HeldIsReachable(st', a);
    }
  }

  /** A run in which a reachable block has been freed, although the recursion follows the target: the first round is
      empty. */
  lemma EmptyRoundFreesAReachableBlock() returns (labels: seq<Label>, st: State, a: nat)
    ensures Runs(M.OnTarget, INITIAL, labels, st) && HeapReachable(st, a) && a !in st.blocks
  {
    var before, loose := EmptyRound();
    var rest, exposed;
    rest, exposed, a := LooseGoesWrong(M.OnTarget, loose);
    st := Apply(M.OnTarget, exposed, Free(a));
    HeldIsReachable(st, a);
    assert Runs(M.OnTarget, st, [], st);
    RunsOn(M.OnTarget, exposed, Free(a), [], st);
    RunsJoin(M.OnTarget, loose, rest, exposed, [Free(a)] + [], st);
    RunsJoin(M.OnTarget, INITIAL, before, loose, rest + ([Free(a)] + []), st);
    labels := before + (rest + ([Free(a)] + []));
  }

  lemma EmptyRound() returns (labels: seq<Label>, st: State)
    ensures Runs(M.OnTarget, INITIAL, labels, st) && st.loose && st.round.Idle? && Aligned(st)
  {
    var snap, start := Snapshot({}, map[], []), FreshMarking(1);
    var forked := Apply(M.OnTarget, INITIAL, Fork({}, snap, 1));
    var schedule, m := P.NotificationComes(snap, M.OnTarget, start, [], start);
    var marks := MarksLift(M.OnTarget, forked, schedule, m);
    var marked := forked.(round := Round(snap, m));
    st := Apply(M.OnTarget, marked, Publish);
    assert Runs(M.OnTarget, st, [], st);
    RunsOn(M.OnTarget, marked, Publish, [], st);
    RunsJoin(M.OnTarget, forked, marks, marked, [Publish] + [], st);
    labels := [Fork({}, snap, 1)] + (marks + ([Publish] + []));
    RunsOn(M.OnTarget, INITIAL, Fork({}, snap, 1), marks + ([Publish] + []), st);
  }
}
