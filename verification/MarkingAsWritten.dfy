/** What the recursion of recursive_mark, as written, marks: exactly the roots and the targets of those roots that
    some sibling looked up before they were marked (child.c 145-228). */
module MarkingAsWritten {
  import opened Snapshots
  import opened Marking

  /** The entry from which this step of sibling s starts a depth-first mark, if it starts one. */
  ghost function Begun(st: State, s: nat): set<nat> {
    if s < |st.sibs| && st.sibs[s].held.Some? && st.sibs[s].stack == [] then {st.sibs[s].held.value} else {}
  }

  /** The entries that a run has started a depth-first mark from: they were looked up and found unmarked. */
  ghost function LookedUp(snap: Snapshot, rec: Recursion, st: State, schedule: seq<nat>): set<nat>
    decreases |schedule|
  {
    if schedule == [] || !Enabled(snap, st, schedule[0]) then {}
    else Begun(st, schedule[0]) + LookedUp(snap, rec, Step(snap, rec, st, schedule[0]), schedule[1..])
  }

  /** Some entry in f refers to v. */
  ghost predicate HitFrom(snap: Snapshot, f: set<nat>, v: nat) {
    exists b :: b in f && snap.Hits(b, v)
  }

  ghost predicate FramesIn(b: Sibling, f: set<nat>) {
    forall j :: 0 <= j < |b.stack| ==> b.stack[j].block in f
  }

  /** f is what has been started from. */
  ghost predicate WalkInv(snap: Snapshot, f: set<nat>, st: State) {
    && (forall v :: v in st.shared.marked ==> v in f || HitFrom(snap, f, v))
    && (forall v :: v in f ==> snap.Root(v) && v in st.shared.marked
                               && (Scanned(snap, st.shared.marked, v) || PendingSomewhere(st, v)))
    && (forall s :: 0 <= s < |st.sibs| ==> FramesIn(st.sibs[s], f))
  }

  /** A step of sibling s, seen from outside. */
  lemma WalkKept(snap: Snapshot, f: set<nat>, f': set<nat>, st: State, st': State, s: nat)
    requires WalkInv(snap, f, st) && f <= f' && s < |st.sibs| && |st'.sibs| == |st.sibs|
    requires st'.sibs == st.sibs[s := st'.sibs[s]] && st.shared.marked <= st'.shared.marked
    requires forall v :: v in st'.shared.marked && v !in st.shared.marked ==> v in f' || HitFrom(snap, f', v)
    requires forall v :: v in f' && v !in f ==> snap.Root(v) && v in st'.shared.marked && OnStack(st'.sibs[s], v)
    requires forall v :: OnStack(st.sibs[s], v) ==> OnStack(st'.sibs[s], v) || Scanned(snap, st'.shared.marked, v)
    requires FramesIn(st'.sibs[s], f')
    ensures WalkInv(snap, f', st')
  {
    forall v | v in st'.shared.marked ensures v in f' || HitFrom(snap, f', v) {
      if v in st.shared.marked && v !in f {
        var b :| b in f && snap.Hits(b, v);
        assert b in f';
      }
    }
    forall v | v in f' ensures Scanned(snap, st'.shared.marked, v) || PendingSomewhere(st', v) {
      if v !in f {
        assert OnStack(st'.sibs[s], v);
      } else if !Scanned(snap, st.shared.marked, v) {
        var t :| 0 <= t < |st.sibs| && OnStack(st.sibs[t], v);
        assert t != s ==> OnStack(st'.sibs[t], v);
      }
    }
    forall t | 0 <= t < |st'.sibs| ensures FramesIn(st'.sibs[t], f') {
      assert FramesIn(st.sibs[t], f);
    }
  }

  /** What the write of a mark does to its sibling. */
  lemma WriteLocal(snap: Snapshot, f: set<nat>, g: Shared, b: Sibling)
    requires b.held.Some? && StackOk(snap, OnScannedBlock, g.marked, b) && FramesIn(b, f)
    ensures var (g', b') := Write(OnScannedBlock, g, b);
      var f' := if b.stack == [] then f + {b.held.value} else f;
      && FramesIn(b', f') && g'.marked == g.marked + {b.held.value}
      && (b.held.value in f' || HitFrom(snap, f', b.held.value))
  {
    if b.stack != [] {
      var top := b.stack[|b.stack| - 1];
      assert FrameOk(snap, OnScannedBlock, g.marked, top) && top.block in f;
      assert snap.Hits(top.block, b.held.value);
    }
  }

  lemma WriteWalks(snap: Snapshot, f: set<nat>, st: State, s: nat)
    requires WalkInv(snap, f, st) && Enabled(snap, st, s) && st.sibs[s].held.Some?
    requires StackOk(snap, OnScannedBlock, st.shared.marked, st.sibs[s])
    ensures WalkInv(snap, f + Begun(st, s), Step(snap, OnScannedBlock, st, s))
  {
    var b := st.sibs[s];
    assert FramesIn(b, f);
    WriteStacks(OnScannedBlock, st.shared, b);
    WriteLocal(snap, f, st.shared, b);
    var (g', b') := Write(OnScannedBlock, st.shared, b);
    WalkKept(snap, f, f + Begun(st, s), st, State(g', st.sibs[s := b']), s);
  }

  /** One word scanned, or a return. */
  lemma ScanWalks(snap: Snapshot, f: set<nat>, st: State, s: nat)
    requires WalkInv(snap, f, st) && Enabled(snap, st, s) && st.sibs[s].held.None? && st.sibs[s].stack != []
    requires FrameOk(snap, OnScannedBlock, st.shared.marked, Top(st.sibs[s]))
    ensures WalkInv(snap, f, Step(snap, OnScannedBlock, st, s))
  {
    var b := st.sibs[s];
    assert FramesIn(b, f);
    ScanStacks(snap, OnScannedBlock, st.shared, b);
    var b' := ScanWord(snap, st.shared, b);
    assert FramesIn(b', f);
    WalkKept(snap, f, f, st, State(st.shared, st.sibs[s := b']), s);
  }

  /** The steps of a sibling that is not in recursive_mark mark nothing and leave its stack empty. */
  lemma IdleLocal(snap: Snapshot, g: Shared, s: nat, b: Sibling)
    requires CanAct(snap, b) && b.held.None? && b.stack == []
    ensures var (g', b') := Act(snap, OnScannedBlock, g, s, b); g'.marked == g.marked && b'.stack == []
  {
  }

  lemma IdleWalks(snap: Snapshot, f: set<nat>, st: State, s: nat)
    requires WalkInv(snap, f, st) && Enabled(snap, st, s) && st.sibs[s].held.None? && st.sibs[s].stack == []
    ensures WalkInv(snap, f, Step(snap, OnScannedBlock, st, s))
  {
    IdleLocal(snap, st.shared, s, st.sibs[s]);
    var (g', b') := Act(snap, OnScannedBlock, st.shared, s, st.sibs[s]);
    WalkKept(snap, f, f, st, State(g', st.sibs[s := b']), s);
  }

  lemma StepWalks(snap: Snapshot, f: set<nat>, st: State, s: nat)
    requires Inv(snap, OnScannedBlock, st) && WalkInv(snap, f, st) && Enabled(snap, st, s)
    ensures WalkInv(snap, f + Begun(st, s), Step(snap, OnScannedBlock, st, s))
  {
    var b := st.sibs[s];
    assert SibOk(snap, OnScannedBlock, st.shared, s, b);
    if b.held.Some? {
      WriteWalks(snap, f, st, s);
    } else {
      assert f + Begun(st, s) == f;
      if b.stack != [] {
        assert FrameOk(snap, OnScannedBlock, st.shared.marked, b.stack[|b.stack| - 1]);
        ScanWalks(snap, f, st, s);
      } else {
        IdleWalks(snap, f, st, s);
      }
    }
  }

  lemma LookedUpUnfolds(snap: Snapshot, f: set<nat>, st: State, schedule: seq<nat>)
    requires schedule != [] && Enabled(snap, st, schedule[0])
    ensures f + LookedUp(snap, OnScannedBlock, st, schedule)
         == f + Begun(st, schedule[0])
            + LookedUp(snap, OnScannedBlock, Step(snap, OnScannedBlock, st, schedule[0]), schedule[1..])
  {
  }

  lemma StepBoth(snap: Snapshot, f: set<nat>, st: State, s: nat)
    requires Inv(snap, OnScannedBlock, st) && WalkInv(snap, f, st) && Enabled(snap, st, s)
    ensures Inv(snap, OnScannedBlock, Step(snap, OnScannedBlock, st, s))
    ensures WalkInv(snap, f + Begun(st, s), Step(snap, OnScannedBlock, st, s))
  {
    StepWalks(snap, f, st, s);
    StepInv(snap, OnScannedBlock, st, s);
  }

  lemma {:induction false} RunWalks(snap: Snapshot, f: set<nat>, st: State, schedule: seq<nat>, st': State)
    requires Inv(snap, OnScannedBlock, st) && WalkInv(snap, f, st) && Runs(snap, OnScannedBlock, st, schedule, st')
    ensures WalkInv(snap, f + LookedUp(snap, OnScannedBlock, st, schedule), st')
    decreases |schedule|
  {
    if schedule == [] {
      assert f + LookedUp(snap, OnScannedBlock, st, schedule) == f;
    } else {
      StepBoth(snap, f, st, schedule[0]);
      LookedUpUnfolds(snap, f, st, schedule);
      RunWalks(snap, f + Begun(st, schedule[0]), Step(snap, OnScannedBlock, st, schedule[0]), schedule[1..], st');
    }
  }

  /** In every run of the code as written that notifies the parent, the marked entries are exactly the roots and the
      targets of those roots that were found unmarked when they were looked up.  So the marks are complete if and
      only if every reachable entry is one of these. */
  lemma MarkedAsWrittenIs(snap: Snapshot, st0: State, schedule: seq<nat>, st: State)
    requires snap.Valid() && Init(st0) && Runs(snap, OnScannedBlock, st0, schedule, st) && Notified(st)
    ensures var f := LookedUp(snap, OnScannedBlock, st0, schedule);
      && (forall v :: v in f ==> snap.Root(v))
      && (forall v :: v in st.shared.marked <==> snap.Root(v) || HitFrom(snap, f, v))
      && ((forall v :: snap.Reachable(v) ==> v in st.shared.marked)
          <==> (forall v :: snap.Reachable(v) ==> snap.Root(v) || HitFrom(snap, f, v)))
  {
    RunWalksFromInit(snap, st0, schedule, st);
    MarkedAtTheTotal(snap, LookedUp(snap, OnScannedBlock, st0, schedule), st);
  }

  lemma RunWalksFromInit(snap: Snapshot, st0: State, schedule: seq<nat>, st: State)
    requires snap.Valid() && Init(st0) && Runs(snap, OnScannedBlock, st0, schedule, st)
    ensures Inv(snap, OnScannedBlock, st)
    ensures WalkInv(snap, LookedUp(snap, OnScannedBlock, st0, schedule), st)
  {
    RunFromInit(snap, OnScannedBlock, st0, schedule, st);
    InitInv(snap, OnScannedBlock, st0);
    RunWalks(snap, {}, st0, schedule, st);
    assert {} + LookedUp(snap, OnScannedBlock, st0, schedule) == LookedUp(snap, OnScannedBlock, st0, schedule);
  }

  lemma MarkedAtTheTotal(snap: Snapshot, f: set<nat>, st: State)
    requires Inv(snap, OnScannedBlock, st) && WalkInv(snap, f, st) && Notified(st)
    ensures forall v :: v in st.shared.marked <==> snap.Root(v) || HitFrom(snap, f, v)
  {
    var s :| 0 <= s < |st.sibs| && st.sibs[s].task == Done(true);
    QuietAtTheTotal(snap, OnScannedBlock, st);
    forall v | snap.Root(v) ensures v in st.shared.marked {
      RootsMarkedAtTheTotal(snap, OnScannedBlock, st, v);
    }
    forall v | HitFrom(snap, f, v) ensures v in st.shared.marked {
      var b :| b in f && snap.Hits(b, v);
      forall t | 0 <= t < |st.sibs| ensures !OnStack(st.sibs[t], b) {
        assert Quiet(st.sibs[t]);
      }
      assert Scanned(snap, st.shared.marked, b);
    }
  }

  // ---------------------------------------------------------------- when the marks are complete

  /** Root r refers to v, and so does every root that refers to r: whichever of them is found unmarked first, v gets
      marked. */
  ghost predicate Carries(snap: Snapshot, r: nat, v: nat) {
    && snap.Root(r) && snap.Hits(r, v)
    && forall a :: snap.Root(a) && snap.Hits(a, r) ==> snap.Hits(a, v)
  }

  ghost predicate Carried(snap: Snapshot, v: nat) {
    snap.Root(v) || exists r :: Carries(snap, r, v)
  }

  ghost predicate AllCarried(snap: Snapshot) {
    forall v :: snap.Reachable(v) ==> Carried(snap, v)
  }

  lemma CarriedIsMarked(snap: Snapshot, f: set<nat>, st: State, v: nat)
    requires Inv(snap, OnScannedBlock, st) && WalkInv(snap, f, st) && Notified(st) && Carried(snap, v)
    ensures v in st.shared.marked
  {
    MarkedAtTheTotal(snap, f, st);
    if !snap.Root(v) {
      var r :| Carries(snap, r, v);
      if r !in f {
        assert r in st.shared.marked;
        var a :| a in f && snap.Hits(a, r);
        assert snap.Root(a) && snap.Hits(a, v);
      }
    }
  }

  lemma CarriedIsEnough(snap: Snapshot, f: set<nat>, st: State)
    requires Inv(snap, OnScannedBlock, st) && WalkInv(snap, f, st) && Notified(st) && AllCarried(snap)
    ensures forall v :: v in st.shared.marked <==> snap.Reachable(v)
  {
    forall v | snap.Reachable(v) ensures v in st.shared.marked {
      CarriedIsMarked(snap, f, st, v);
    }
  }

  /** If every reachable entry is a root or is carried by one, every run of the code as written that notifies the
      parent has marked exactly the reachable entries. */
  lemma MarkedAsWrittenComplete(snap: Snapshot, st0: State, schedule: seq<nat>, st: State)
    requires snap.Valid() && Init(st0) && Runs(snap, OnScannedBlock, st0, schedule, st) && Notified(st)
    requires AllCarried(snap)
    ensures forall v :: v in st.shared.marked <==> snap.Reachable(v)
  {
    RunWalksFromInit(snap, st0, schedule, st);
    CarriedIsEnough(snap, LookedUp(snap, OnScannedBlock, st0, schedule), st);
  }
}
