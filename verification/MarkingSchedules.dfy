/** Schedules on which the recursion of recursive_mark, as written, misses a reachable entry: they exist for every
    snapshot in which some reachable entry is neither a root nor carried by one (child.c 145-228). */
module MarkingSchedules {
  import opened Words
  import opened Sequences
  import opened Snapshots
  import opened Marking
  import opened MarkingAsWritten
  import opened MarkingProgress

  // ---------------------------------------------------------------- one root to a sibling

  /** The same pool, with each of the given values alone in a range of its own. */
  ghost function Spread(snap: Snapshot, rs: seq<nat>): Snapshot {
    snap.(ranges := seq(|rs|, i requires 0 <= i < |rs| => [rs[i]]))
  }

  ghost predicate Pooled(snap: Snapshot, rs: seq<nat>) {
    snap.Valid() && forall i :: 0 <= i < |rs| ==> rs[i] in snap.pool
  }

  lemma SpreadRoots(snap: Snapshot, rs: seq<nat>, v: nat)
    requires Pooled(snap, rs)
    ensures Spread(snap, rs).Root(v) <==> v in rs
  {
    var ranges := Spread(snap, rs).ranges;
    forall i | 0 <= i < |rs| ensures PtrMask(ranges[i][0]) == rs[i] {}
    if v in rs {
      var i :| 0 <= i < |rs| && rs[i] == v;
      assert InWords(ranges[i], v);
    }
  }

  /** Sibling i once it has searched range i. */
  ghost function Searcher(rs: seq<nat>, i: nat): Sibling
    requires i < |rs|
  {
    Sibling(Claim, [rs[i]], false, {}, [], None, [i])
  }

  /** Sibling i about to look its value up. */
  ghost function Looker(rs: seq<nat>, i: nat): Sibling
    requires i < |rs|
  {
    Sibling(Finish, [rs[i]], true, {rs[i]}, [], None, [i])
  }

  /** Sibling i having found its value unmarked. */
  ghost function Holder(rs: seq<nat>, i: nat): Sibling
    requires i < |rs|
  {
    Looker(rs, i).(todo := {}, held := Some(rs[i]))
  }

  ghost function Owners(k: nat): map<nat, nat> {
    map r | r in Below(k) :: r
  }

  /** The first k siblings have searched their ranges. */
  ghost function Searching(rs: seq<nat>, k: nat): State
    requires k <= |rs|
  {
    State(Shared({}, k, 0, Owners(k), {}),
          seq(|rs|, i requires 0 <= i < |rs| => if i < k then Searcher(rs, i) else IDLE))
  }

  /** The first k siblings have found that no range is left. */
  ghost function Flushing(rs: seq<nat>, k: nat): State
    requires k <= |rs|
  {
    State(Shared({}, |rs| + k, 0, Owners(|rs|), {}),
          seq(|rs|, i requires 0 <= i < |rs| => if i < k then Looker(rs, i) else Searcher(rs, i)))
  }

  /** The first k siblings have looked their values up; nothing has been marked. */
  ghost function Holding(rs: seq<nat>, k: nat): State
    requires k <= |rs|
  {
    State(Shared({}, 2 * |rs|, 0, Owners(|rs|), {}),
          seq(|rs|, i requires 0 <= i < |rs| => if i < k then Holder(rs, i) else Looker(rs, i)))
  }

  lemma {:induction false} RunsOn(snap: Snapshot, rec: Recursion, st: State, before: seq<nat>, mid: State,
                                  after: seq<nat>, st': State)
    requires Runs(snap, rec, st, before, mid) && Runs(snap, rec, mid, after, st')
    ensures Runs(snap, rec, st, before + after, st')
    decreases |before|
  {
    if before == [] {
      assert before + after == after;
    } else {
      assert (before + after)[1..] == before[1..] + after;
      RunsOn(snap, rec, Step(snap, rec, st, before[0]), before[1..], mid, after, st');
    }
  }

  lemma RunsOne(snap: Snapshot, rec: Recursion, st: State, s: nat)
    requires Enabled(snap, st, s)
    ensures Runs(snap, rec, st, [s], Step(snap, rec, st, s))
  {
    assert [s][1..] == [];
  }

  /** Sibling k has claimed its range and looked at the first `pos` of its words. */
  ghost function Looking(rs: seq<nat>, k: nat, pos: nat): State
    requires k < |rs|
  {
    var b := IDLE.(task := Examine(k, pos), lookaside := if pos == 0 then [] else [rs[k]]);
    State(Shared({}, k + 1, 0, Owners(k + 1), {}), Searching(rs, k).sibs[k := b])
  }

  ghost predicate StepsTo(sn: Snapshot, rec: Recursion, st: State, s: nat, st': State) {
    Enabled(sn, st, s) && Step(sn, rec, st, s) == st'
  }

  lemma ClaimsOne(snap: Snapshot, rec: Recursion, rs: seq<nat>, k: nat)
    requires Pooled(snap, rs) && k < |rs|
    ensures StepsTo(Spread(snap, rs), rec, Searching(rs, k), k, Looking(rs, k, 0))
  {
    assert Owners(k)[k := k] == Owners(k + 1);
    assert Searching(rs, k).sibs[k] == IDLE;
  }

  lemma LooksAtOne(snap: Snapshot, rec: Recursion, rs: seq<nat>, k: nat)
    requires Pooled(snap, rs) && k < |rs|
    ensures StepsTo(Spread(snap, rs), rec, Looking(rs, k, 0), k, Looking(rs, k, 1))
  {
    var sn := Spread(snap, rs);
    assert PtrMask(sn.ranges[k][0]) == rs[k] && InBounds(sn, rs[k]);
    assert [] + [rs[k]] == [rs[k]];
    assert Looking(rs, k, 0).sibs[k := Looking(rs, k, 1).sibs[k]] == Looking(rs, k, 1).sibs;
  }

  lemma LeavesOne(snap: Snapshot, rec: Recursion, rs: seq<nat>, k: nat)
    requires Pooled(snap, rs) && k < |rs|
    ensures StepsTo(Spread(snap, rs), rec, Looking(rs, k, 1), k, Searching(rs, k + 1))
  {
    assert [] + [k] == [k];
    assert Looking(rs, k, 1).sibs[k := Searcher(rs, k)] == Searching(rs, k + 1).sibs;
  }

  lemma SearchOne(snap: Snapshot, rec: Recursion, rs: seq<nat>, k: nat) returns (three: seq<nat>)
    requires Pooled(snap, rs) && k < |rs|
    ensures Runs(Spread(snap, rs), rec, Searching(rs, k), three, Searching(rs, k + 1))
  {
    var sn := Spread(snap, rs);
    ClaimsOne(snap, rec, rs, k);
    LooksAtOne(snap, rec, rs, k);
    LeavesOne(snap, rec, rs, k);
    RunsOne(sn, rec, Searching(rs, k), k);
    RunsOne(sn, rec, Looking(rs, k, 0), k);
    RunsOne(sn, rec, Looking(rs, k, 1), k);
    RunsOn(sn, rec, Searching(rs, k), [k], Looking(rs, k, 0), [k], Looking(rs, k, 1));
    RunsOn(sn, rec, Searching(rs, k), [k] + [k], Looking(rs, k, 1), [k], Searching(rs, k + 1));
    three := [k] + [k] + [k];
  }

  lemma FlushOne(snap: Snapshot, rec: Recursion, rs: seq<nat>, k: nat)
    requires Pooled(snap, rs) && k < |rs|
    ensures Enabled(Spread(snap, rs), Flushing(rs, k), k)
    ensures Step(Spread(snap, rs), rec, Flushing(rs, k), k) == Flushing(rs, k + 1)
  {
    var st := Flushing(rs, k);
    assert st.sibs[k] == Searcher(rs, k);
    assert Elements([rs[k]]) == {rs[k]};
    assert st.sibs[k := Looker(rs, k)] == Flushing(rs, k + 1).sibs;
  }

  lemma HoldOne(snap: Snapshot, rec: Recursion, rs: seq<nat>, k: nat)
    requires Pooled(snap, rs) && k < |rs|
    ensures Enabled(Spread(snap, rs), Holding(rs, k), k)
    ensures Step(Spread(snap, rs), rec, Holding(rs, k), k) == Holding(rs, k + 1)
  {
    var st := Holding(rs, k);
    assert st.sibs[k] == Looker(rs, k);
    assert {rs[k]} - {rs[k]} == {};
    assert st.sibs[k := Holder(rs, k)] == Holding(rs, k + 1).sibs;
  }

  lemma SearchAll(snap: Snapshot, rec: Recursion, rs: seq<nat>, k: nat) returns (schedule: seq<nat>)
    requires Pooled(snap, rs) && k <= |rs|
    ensures Runs(Spread(snap, rs), rec, Searching(rs, 0), schedule, Searching(rs, k))
  {
    if k == 0 {
      schedule := [];
    } else {
      var before := SearchAll(snap, rec, rs, k - 1);
      var three := SearchOne(snap, rec, rs, k - 1);
      RunsOn(Spread(snap, rs), rec, Searching(rs, 0), before, Searching(rs, k - 1), three, Searching(rs, k));
      schedule := before + three;
    }
  }

  lemma FlushAll(snap: Snapshot, rec: Recursion, rs: seq<nat>, k: nat) returns (schedule: seq<nat>)
    requires Pooled(snap, rs) && k <= |rs|
    ensures Runs(Spread(snap, rs), rec, Searching(rs, 0), schedule, Flushing(rs, k))
  {
    if k == 0 {
      schedule := SearchAll(snap, rec, rs, |rs|);
      assert Searching(rs, |rs|).sibs == Flushing(rs, 0).sibs;
    } else {
      var before := FlushAll(snap, rec, rs, k - 1);
      FlushOne(snap, rec, rs, k - 1);
      RunsOne(Spread(snap, rs), rec, Flushing(rs, k - 1), k - 1);
      RunsOn(Spread(snap, rs), rec, Searching(rs, 0), before, Flushing(rs, k - 1), [k - 1], Flushing(rs, k));
      schedule := before + [k - 1];
    }
  }

  lemma HoldAll(snap: Snapshot, rec: Recursion, rs: seq<nat>, k: nat) returns (schedule: seq<nat>)
    requires Pooled(snap, rs) && k <= |rs|
    ensures Runs(Spread(snap, rs), rec, Searching(rs, 0), schedule, Holding(rs, k))
  {
    if k == 0 {
      schedule := FlushAll(snap, rec, rs, |rs|);
      assert Flushing(rs, |rs|).sibs == Holding(rs, 0).sibs;
    } else {
      var before := HoldAll(snap, rec, rs, k - 1);
      HoldOne(snap, rec, rs, k - 1);
      RunsOne(Spread(snap, rs), rec, Holding(rs, k - 1), k - 1);
      RunsOn(Spread(snap, rs), rec, Searching(rs, 0), before, Holding(rs, k - 1), [k - 1], Holding(rs, k));
      schedule := before + [k - 1];
    }
  }

  lemma SearchingStarts(rs: seq<nat>)
    requires rs != []
    ensures Init(Searching(rs, 0))
  {
    assert Owners(0) == map[];
  }

  // ---------------------------------------------------------------- running one sibling to its end

  /** The sibling has no range left, and nothing it does from here marks v. */
  ghost predicate Avoids(snap: Snapshot, v: nat, marked: set<nat>, b: Sibling) {
    && (b.task.Finish? || b.task.Done?)
    && (!b.flushing ==> b.lookaside == [])
    && (forall j :: 0 <= j < |b.stack| ==> !snap.Hits(b.stack[j].block, v))
    && (b.held.Some? ==> b.held.value != v && (b.stack == [] ==> !snap.Hits(b.held.value, v)))
    && forall w :: b.flushing && w in b.todo && w in snap.pool ==> w != v && (!snap.Hits(w, v) || w in marked)
  }

  lemma WriteAvoids(snap: Snapshot, v: nat, g: Shared, b: Sibling)
    requires Avoids(snap, v, g.marked, b) && v !in g.marked && b.held.Some?
    ensures var (g', b') := Write(OnScannedBlock, g, b); Avoids(snap, v, g'.marked, b') && v !in g'.marked
  {
  }

  lemma ScanAvoids(snap: Snapshot, v: nat, g: Shared, b: Sibling)
    requires Avoids(snap, v, g.marked, b) && v !in g.marked && b.held.None? && b.stack != []
    requires FrameOk(snap, OnScannedBlock, g.marked, Top(b))
    ensures Avoids(snap, v, g.marked, ScanWord(snap, g, b))
  {
    var f := Top(b);
    assert !snap.Hits(b.stack[|b.stack| - 1].block, v);
    if f.next < |snap.words[f.block]| {
      var w := PtrMask(snap.words[f.block][f.next]);
      assert InWords(snap.words[f.block], w);
      assert w in snap.pool ==> snap.Hits(f.block, w);
    }
  }

  lemma LookupAvoids(snap: Snapshot, v: nat, g: Shared, b: Sibling)
    requires Avoids(snap, v, g.marked, b) && v !in g.marked && b.held.None? && b.stack == [] && b.flushing
    ensures Avoids(snap, v, g.marked, Lookup(snap, g, b))
  {
  }

  lemma ActAvoids(snap: Snapshot, v: nat, g: Shared, s: nat, b: Sibling)
    requires SibOk(snap, OnScannedBlock, g, s, b) && CanAct(snap, b)
    requires Avoids(snap, v, g.marked, b) && v !in g.marked
    ensures var (g', b') := Act(snap, OnScannedBlock, g, s, b);
      Avoids(snap, v, g'.marked, b') && v !in g'.marked && g.marked <= g'.marked
  {
    if b.held.Some? {
      WriteAvoids(snap, v, g, b);
    } else if b.stack != [] {
      assert FrameOk(snap, OnScannedBlock, g.marked, b.stack[|b.stack| - 1]);
      ScanAvoids(snap, v, g, b);
    } else if b.flushing {
      LookupAvoids(snap, v, g, b);
    }
  }

  /** What is known before and after each sibling runs. */
  ghost predicate Ready(snap: Snapshot, f: set<nat>, st: State) {
    Inv(snap, OnScannedBlock, st) && WalkInv(snap, f, st) && CounterOk(snap, st)
  }

  lemma StepReady(snap: Snapshot, f: set<nat>, st: State, s: nat)
    requires Ready(snap, f, st) && Enabled(snap, st, s)
    ensures Ready(snap, f + Begun(st, s), Step(snap, OnScannedBlock, st, s))
  {
    StepBoth(snap, f, st, s);
    StepCounts(snap, OnScannedBlock, st, s);
  }

  /** Sibling s can be run and v stays unmarked. */
  ghost predicate Runnable(snap: Snapshot, v: nat, st: State, s: nat) {
    s < |st.sibs| && v !in st.shared.marked && Avoids(snap, v, st.shared.marked, st.sibs[s])
  }

  lemma AloneStep(snap: Snapshot, v: nat, f: set<nat>, st: State, s: nat)
    requires Ready(snap, f, st) && Runnable(snap, v, st, s) && !st.sibs[s].task.Done?
    ensures Enabled(snap, st, s)
    ensures var next := Step(snap, OnScannedBlock, st, s);
      && Ready(snap, f + Begun(st, s), next) && Runnable(snap, v, next, s)
      && |next.sibs| == |st.sibs| && next.sibs == st.sibs[s := next.sibs[s]] && st.shared.marked <= next.shared.marked
      && Measure(snap, Longest(snap), next) < Measure(snap, Longest(snap), st)
  {
    var b := st.sibs[s];
    assert SibOk(snap, OnScannedBlock, st.shared, s, b);
    SibCanAct(snap, OnScannedBlock, st.shared, s, b);
    StepReady(snap, f, st, s);
    ActAvoids(snap, v, st.shared, s, b);
    StepLowers(snap, Longest(snap), OnScannedBlock, st, s);
  }

  lemma DoneHoldsNothing(snap: Snapshot, f: set<nat>, st: State, s: nat)
    requires Ready(snap, f, st) && s < |st.sibs| && st.sibs[s].task.Done?
    ensures Begun(st, s) == {}
  {
    assert SibOk(snap, OnScannedBlock, st.shared, s, st.sibs[s]);
  }

  /** Run sibling s until it has finished. */
  lemma RunAlone(snap: Snapshot, v: nat, f: set<nat>, st: State, s: nat)
      returns (schedule: seq<nat>, f': set<nat>, st': State)
    requires Ready(snap, f, st) && Runnable(snap, v, st, s)
    ensures Runs(snap, OnScannedBlock, st, schedule, st')
    ensures Ready(snap, f', st') && f + Begun(st, s) <= f'
    ensures |st'.sibs| == |st.sibs| && st'.sibs == st.sibs[s := st'.sibs[s]] && st'.sibs[s].task.Done?
    ensures v !in st'.shared.marked
    decreases Measure(snap, Longest(snap), st)
  {
    if st.sibs[s].task.Done? {
      schedule, f', st' := [], f, st;
      DoneHoldsNothing(snap, f, st, s);
    } else {
      AloneStep(snap, v, f, st, s);
      var rest;
      rest, f', st' := RunAlone(snap, v, f + Begun(st, s), Step(snap, OnScannedBlock, st, s), s);
      schedule := [s] + rest;
      assert schedule[1..] == rest;
    }
  }

  // ---------------------------------------------------------------- missing a reachable entry

  /** The values of rs are looked up, the first a of them while nothing is marked.  Those do not refer to v, and each
      of the others is referred to by one of them. */
  ghost predicate Plan(snap: Snapshot, v: nat, rs: seq<nat>, a: nat) {
    && Pooled(snap, rs) && a <= |rs| && v !in rs
    && (forall i :: 0 <= i < a ==> !snap.Hits(rs[i], v))
    && forall j :: a <= j < |rs| ==> HitByFirst(snap, rs, a, rs[j])
  }

  ghost predicate HitByFirst(snap: Snapshot, rs: seq<nat>, a: nat, r: nat) {
    exists i :: 0 <= i < a <= |rs| && snap.Hits(rs[i], r)
  }

  /** The first k siblings have run to their ends; the others have not moved since. */
  ghost predicate Moved(v: nat, rs: seq<nat>, a: nat, k: nat, f: set<nat>, st: State) {
    && a <= |rs| == |st.sibs| && k <= |rs| && v !in st.shared.marked
    && (forall t: nat :: t < k ==> st.sibs[t].task.Done?)
    && (forall t: nat :: k <= t < |rs| ==> st.sibs[t] == if t < a then Holder(rs, t) else Looker(rs, t))
    && forall t: nat :: t < k && t < a ==> rs[t] in f
  }

  ghost predicate Progressed(snap: Snapshot, v: nat, rs: seq<nat>, a: nat, k: nat, f: set<nat>, st: State) {
    Ready(snap, f, st) && Moved(v, rs, a, k, f, st)
  }

  lemma NobodyPending(snap: Snapshot, v: nat, rs: seq<nat>, a: nat, k: nat, f: set<nat>, st: State, w: nat)
    requires Progressed(snap, v, rs, a, k, f, st)
    ensures !PendingSomewhere(st, w)
  {
    forall t: nat | t < |st.sibs| ensures !OnStack(st.sibs[t], w) {
      assert SibOk(snap, OnScannedBlock, st.shared, t, st.sibs[t]);
      assert StackOk(snap, OnScannedBlock, st.shared.marked, st.sibs[t]);
      assert t < k ==> st.sibs[t].stack == [];
    }
  }

  lemma NextAvoids(snap: Snapshot, v: nat, rs: seq<nat>, a: nat, k: nat, f: set<nat>, st: State)
    requires Plan(snap, v, rs, a) && Progressed(Spread(snap, rs), v, rs, a, k, f, st) && k < |rs|
    ensures Avoids(Spread(snap, rs), v, st.shared.marked, st.sibs[k])
  {
    var sn := Spread(snap, rs);
    assert forall b, w :: sn.Hits(b, w) <==> snap.Hits(b, w);
    assert rs[k] in rs;
    if k >= a { NextIsMarked(snap, v, rs, a, k, f, st); }
  }

  /** Beyond the first a roots each is marked before its sibling looks it up. */
  lemma NextIsMarked(snap: Snapshot, v: nat, rs: seq<nat>, a: nat, k: nat, f: set<nat>, st: State)
    requires Plan(snap, v, rs, a) && Progressed(Spread(snap, rs), v, rs, a, k, f, st) && a <= k < |rs|
    ensures rs[k] in st.shared.marked
  {
    var sn := Spread(snap, rs);
    assert HitByFirst(snap, rs, a, rs[k]);
    var i: nat :| i < a && snap.Hits(rs[i], rs[k]);
    assert rs[i] in f && sn.Hits(rs[i], rs[k]);
    NobodyPending(sn, v, rs, a, k, f, st, rs[i]);
    assert Scanned(sn, st.shared.marked, rs[i]);
  }

  lemma HoldingIsReady(snap: Snapshot, rs: seq<nat>, a: nat, schedule: seq<nat>)
    requires Pooled(snap, rs) && a <= |rs| && rs != []
    requires Runs(Spread(snap, rs), OnScannedBlock, Searching(rs, 0), schedule, Holding(rs, a))
    ensures Ready(Spread(snap, rs), {}, Holding(rs, a))
  {
    var sn := Spread(snap, rs);
    SearchingStarts(rs);
    RunFromInit(sn, OnScannedBlock, Searching(rs, 0), schedule, Holding(rs, a));
    HoldingCounts(sn, rs, a);
    HoldingWalks(sn, rs, a);
  }

  lemma HoldingCounts(sn: Snapshot, rs: seq<nat>, a: nat)
    requires a <= |rs| == |sn.ranges| && rs != []
    ensures CounterOk(sn, Holding(rs, a))
  {
  }

  lemma HoldingWalks(sn: Snapshot, rs: seq<nat>, a: nat)
    requires a <= |rs|
    ensures WalkInv(sn, {}, Holding(rs, a))
  {
  }

  lemma HoldingMoved(v: nat, rs: seq<nat>, a: nat)
    requires a <= |rs|
    ensures Moved(v, rs, a, 0, {}, Holding(rs, a))
  {
  }

  lemma NextMoved(v: nat, rs: seq<nat>, a: nat, k: nat, f: set<nat>, st: State, f': set<nat>, st': State)
    requires Moved(v, rs, a, k, f, st) && k < |rs| && |st'.sibs| == |st.sibs|
    requires st'.sibs == st.sibs[k := st'.sibs[k]] && st'.sibs[k].task.Done?
    requires f + Begun(st, k) <= f' && v !in st'.shared.marked
    ensures Moved(v, rs, a, k + 1, f', st')
  {
    assert k < a ==> rs[k] in Begun(st, k);
  }

  lemma RunNext(snap: Snapshot, v: nat, rs: seq<nat>, a: nat, k: nat, f: set<nat>, st: State)
      returns (schedule: seq<nat>, f': set<nat>, st': State)
    requires Plan(snap, v, rs, a) && k < |rs| && Progressed(Spread(snap, rs), v, rs, a, k, f, st)
    ensures Runs(Spread(snap, rs), OnScannedBlock, st, schedule, st')
    ensures Progressed(Spread(snap, rs), v, rs, a, k + 1, f', st')
  {
    NextAvoids(snap, v, rs, a, k, f, st);
    schedule, f', st' := RunAlone(Spread(snap, rs), v, f, st, k);
    NextMoved(v, rs, a, k, f, st, f', st');
  }

  lemma RunToHolding(snap: Snapshot, v: nat, rs: seq<nat>, a: nat) returns (schedule: seq<nat>)
    requires Pooled(snap, rs) && a <= |rs| && rs != []
    ensures Runs(Spread(snap, rs), OnScannedBlock, Searching(rs, 0), schedule, Holding(rs, a))
    ensures Progressed(Spread(snap, rs), v, rs, a, 0, {}, Holding(rs, a))
  {
    schedule := HoldAll(snap, OnScannedBlock, rs, a);
    HoldingIsReady(snap, rs, a, schedule);
    HoldingMoved(v, rs, a);
  }

  /** Run the first k siblings to their ends, one after the other. */
  lemma RunFirst(snap: Snapshot, v: nat, rs: seq<nat>, a: nat, k: nat)
      returns (schedule: seq<nat>, f: set<nat>, st: State)
    requires Plan(snap, v, rs, a) && rs != [] && k <= |rs|
    ensures Runs(Spread(snap, rs), OnScannedBlock, Searching(rs, 0), schedule, st)
    ensures Progressed(Spread(snap, rs), v, rs, a, k, f, st)
  {
    if k == 0 {
      schedule := RunToHolding(snap, v, rs, a);
      f, st := {}, Holding(rs, a);
    } else {
      var before, f0, st0 := RunFirst(snap, v, rs, a, k - 1);
      var mine;
      mine, f, st := RunNext(snap, v, rs, a, k - 1, f0, st0);
      RunsOn(Spread(snap, rs), OnScannedBlock, Searching(rs, 0), before, st0, mine, st);
      schedule := before + mine;
    }
  }

  /** A plan leads to a run that notifies the parent and misses v. */
  lemma PlanMisses(snap: Snapshot, v: nat, rs: seq<nat>, a: nat) returns (schedule: seq<nat>, st: State)
    requires Plan(snap, v, rs, a) && rs != []
    ensures Init(Searching(rs, 0)) && Runs(Spread(snap, rs), OnScannedBlock, Searching(rs, 0), schedule, st)
    ensures Notified(st) && v !in st.shared.marked
  {
    var f;
    schedule, f, st := RunFirst(snap, v, rs, a, |rs|);
    SearchingStarts(rs);
    AllDoneNotified(Spread(snap, rs), OnScannedBlock, st);
  }

  ghost function Roots(snap: Snapshot): set<nat> {
    set v | v in snap.pool && snap.Root(v)
  }

  /** For an entry that is neither a root nor carried by one: first the roots that do not refer to it. */
  lemma UncarriedPlan(snap: Snapshot, v: nat) returns (rs: seq<nat>, a: nat)
    requires snap.Valid() && !Carried(snap, v)
    ensures Plan(snap, v, rs, a) && forall r :: r in rs <==> snap.Root(r)
  {
    var first := ListOf(set r | r in Roots(snap) && !snap.Hits(r, v));
    var second := ListOf(set r | r in Roots(snap) && snap.Hits(r, v));
    rs, a := first + second, |first|;
    forall j | a <= j < |rs| ensures HitByFirst(snap, rs, a, rs[j]) {
      var r := rs[j];
      assert r in second && !Carries(snap, r, v);
      var b :| snap.Root(b) && snap.Hits(b, r) && !snap.Hits(b, v);
      assert b in Roots(snap) && b in first;
      var i :| 0 <= i < |first| && first[i] == b;
      assert rs[i] == b;
    }
    forall i | 0 <= i < a ensures !snap.Hits(rs[i], v) {
      assert rs[i] == first[i] && first[i] in first;
    }
    forall i | 0 <= i < |rs| ensures rs[i] in snap.pool {
      assert rs[i] in rs;
    }
  }

  ghost predicate SameRoots(snap: Snapshot, snap': Snapshot) {
    && snap'.pool == snap.pool && snap'.words == snap.words
    && forall v :: snap'.Root(v) <==> snap.Root(v)
  }

  lemma SameReachable(snap: Snapshot, snap': Snapshot, v: nat)
    requires SameRoots(snap, snap')
    ensures snap'.Reachable(v) <==> snap.Reachable(v)
  {
    forall p ensures snap'.IsPath(p) <==> snap.IsPath(p) {
      forall b, w ensures snap'.Hits(b, w) <==> snap.Hits(b, w) {}
    }
  }

  /** However the words outside the pool are divided into ranges, and whatever the schedule, the code as written has
      marked everything reachable when the parent is notified. */
  ghost predicate AlwaysComplete(snap: Snapshot) {
    forall snap', st0, schedule, st ::
      SameRoots(snap, snap') && Init(st0) && Runs(snap', OnScannedBlock, st0, schedule, st) && Notified(st) ==>
        forall v :: snap.Reachable(v) ==> v in st.shared.marked
  }

  /** A reachable entry that is neither a root nor carried by one: with a one-word range and a sibling for each root,
      some run notifies the parent and misses it. */
  lemma UncarriedIsMissed(snap: Snapshot, v: nat) returns (rs: seq<nat>, schedule: seq<nat>, st: State)
    requires snap.Valid() && snap.Reachable(v) && !Carried(snap, v)
    ensures SameRoots(snap, Spread(snap, rs)) && Init(Searching(rs, 0))
    ensures Runs(Spread(snap, rs), OnScannedBlock, Searching(rs, 0), schedule, st)
    ensures Notified(st) && v !in st.shared.marked
  {
    var a;
    rs, a := UncarriedPlan(snap, v);
    var p :| snap.IsPath(p) && p[|p| - 1] == v;
    assert p[0] in rs;
    schedule, st := PlanMisses(snap, v, rs, a);
    forall w ensures Spread(snap, rs).Root(w) <==> snap.Root(w) {
      SpreadRoots(snap, rs, w);
    }
  }

  /** The recursion as written is complete for every division of the scanned words into ranges and every schedule if
      and only if each reachable entry is a root or is carried by one. */
  lemma MarkedAsWrittenExactly(snap: Snapshot)
    requires snap.Valid()
    ensures AlwaysComplete(snap) <==> AllCarried(snap)
  {
    if !AllCarried(snap) {
      var v :| snap.Reachable(v) && !Carried(snap, v);
      var rs, schedule, st := UncarriedIsMissed(snap, v);
      assert !AlwaysComplete(snap);
    } else {
      forall snap', st0, schedule, st | SameRoots(snap, snap') && Init(st0)
          && Runs(snap', OnScannedBlock, st0, schedule, st) && Notified(st)
        ensures forall v :: snap.Reachable(v) ==> v in st.shared.marked
      {
        CarriedElsewhere(snap, snap', st0, schedule, st);
      }
    }
  }

  lemma CarriedElsewhere(snap: Snapshot, snap': Snapshot, st0: State, schedule: seq<nat>, st: State)
    requires snap.Valid() && AllCarried(snap) && SameRoots(snap, snap') && Init(st0)
    requires Runs(snap', OnScannedBlock, st0, schedule, st) && Notified(st)
    ensures forall v :: snap.Reachable(v) ==> v in st.shared.marked
  {
    forall v | snap'.Reachable(v) ensures Carried(snap', v) {
      SameReachable(snap, snap', v);
      if !snap.Root(v) {
        var r :| Carries(snap, r, v);
        assert Carries(snap', r, v);
      }
    }
    MarkedAsWrittenComplete(snap', st0, schedule, st);
    forall v | snap.Reachable(v) ensures v in st.shared.marked {
      SameReachable(snap, snap', v);
    }
  }
}
