/** The sibling processes that mark the shared pool (child.c).
    Every sibling runs the same program; a run is any schedule, that is, any sequence of sibling
    numbers.  One step of a sibling makes at most one access to shared state, so reading a mark bit
    and setting it are separate steps, and two siblings may both find an entry unmarked. */
module Marking {
  import opened Words
  import opened Snapshots

  const LOOKASIDE_SZ := 0x4000

  /** The block that recursive_mark hands to its recursive call: OnScannedBlock is what the code
      passes, OnTarget is what its comments describe. */
  datatype Recursion = OnScannedBlock | OnTarget

  /** An activation of recursive_mark: the words of `block` before `next` have been handled. */
  datatype Frame = Frame(block: nat, next: nat)

  datatype Option<T> = None | Some(value: T)

  datatype Task =
    | Claim
    | Examine(range: nat, pos: nat)
    | Finish
    | Done(notified: bool)

  /** `held` is an entry that was found unmarked and that is about to be marked.  `claimed` lists the
      ranges that have been searched; the code keeps only its length. */
  datatype Sibling = Sibling(
    task: Task,
    lookaside: seq<nat>,
    flushing: bool,
    todo: set<nat>,
    stack: seq<Frame>,
    held: Option<nat>,
    claimed: seq<nat>)

  /** `owner` and `finished` record history: who claimed a range, and which ranges were counted into
      `rootsCompleted`. */
  datatype Shared = Shared(
    marked: set<nat>,
    rootCounter: nat,
    rootsCompleted: nat,
    owner: map<nat, nat>,
    finished: set<nat>)

  datatype State = State(shared: Shared, sibs: seq<Sibling>)

  const IDLE := Sibling(Claim, [], false, {}, [], None, [])

  ghost predicate Init(st: State) {
    && st.shared == Shared({}, 0, 0, map[], {})
    && st.sibs != []
    && forall s :: 0 <= s < |st.sibs| ==> st.sibs[s] == IDLE
  }

  /** The trace_stats_t filter: v lies between the lowest and the highest pool entry. */
  ghost predicate InBounds(snap: Snapshot, v: nat) {
    && (exists lo :: lo in snap.pool && lo <= v)
    && (exists hi :: hi in snap.pool && v <= hi)
  }

  lemma {:induction false} LeastExists(s: set<nat>)
    requires s != {}
    ensures exists v :: v in s && forall u :: u in s ==> v <= u
  {
    var x :| x in s;
    var rest := s - {x};
    if rest != {} {
      LeastExists(rest);
      var y :| y in rest && forall u :: u in rest ==> y <= u;
      assert s == rest + {x};
      var z := if x <= y then x else y;
      assert z in s && forall u :: u in s ==> z <= u;
    } else {
      assert s == {x};
    }
  }

  ghost function Least(s: set<nat>): (v: nat)
    requires s != {}
    ensures v in s && forall u :: u in s ==> v <= u
  {
    LeastExists(s);
    var v :| v in s && forall u :: u in s ==> v <= u;
    v
  }

  ghost function Top(b: Sibling): Frame
    requires b.stack != []
  {
    b.stack[|b.stack| - 1]
  }

  ghost function WithTop(b: Sibling, f: Frame): Sibling
    requires b.stack != []
  {
    b.(stack := b.stack[..|b.stack| - 1] + [f])
  }

  /** Set the mark bit of the held entry and call recursive_mark. */
  ghost function Write(rec: Recursion, g: Shared, b: Sibling): (Shared, Sibling)
    requires b.held.Some?
  {
    var w := b.held.value;
    var g' := g.(marked := g.marked + {w});
    if b.stack == [] then
      (g', b.(held := None, stack := [Frame(w, 0)]))
    else
      var f := Top(b);
      var callee := if rec.OnTarget? then w else f.block;
      (g', b.(held := None, stack := b.stack[..|b.stack| - 1] + [f.(next := f.next + 1), Frame(callee, 0)]))
  }

  /** One turn of the loop of recursive_mark, or its return. */
  ghost function ScanWord(snap: Snapshot, g: Shared, b: Sibling): Sibling
    requires b.stack != [] && Top(b).block in snap.words
  {
    var f := Top(b);
    if f.next >= |snap.words[f.block]| then
      b.(stack := b.stack[..|b.stack| - 1])
    else
      var v := PtrMask(snap.words[f.block][f.next]);
      if v in snap.pool && v !in g.marked then
        b.(held := Some(v))
      else
        WithTop(b, f.(next := f.next + 1))
  }

  /** One turn of the loop of lookup_lookaside_list, which visits its values in ascending order. */
  ghost function Lookup(snap: Snapshot, g: Shared, b: Sibling): Sibling {
    if b.todo == {} then
      b.(flushing := false, lookaside := [])
    else
      var v := Least(b.todo);
      var b' := b.(todo := b.todo - {v});
      if v in snap.pool && v !in g.marked then b'.(held := Some(v)) else b'
  }

  ghost function Elements(xs: seq<nat>): (s: set<nat>)
    ensures forall v :: v in s <==> v in xs
  {
    set v | v in xs
  }

  ghost function StartFlush(b: Sibling): Sibling {
    b.(flushing := true, todo := Elements(b.lookaside))
  }

  /** Fetch-and-add on root_counter. */
  ghost function ClaimRange(snap: Snapshot, g: Shared, s: nat, b: Sibling): (Shared, Sibling) {
    var r := g.rootCounter;
    if r < |snap.ranges| then
      (g.(rootCounter := r + 1, owner := g.owner[r := s]), b.(task := Examine(r, 0)))
    else
      var b' := b.(task := Finish);
      (g.(rootCounter := r + 1), if b.lookaside != [] then StartFlush(b') else b')
  }

  /** One word of find_roots, or the end of its range. */
  ghost function ExamineWord(snap: Snapshot, b: Sibling): Sibling
    requires b.task.Examine? && b.task.range < |snap.ranges|
  {
    var r, pos := b.task.range, b.task.pos;
    if pos >= |snap.ranges[r]| then
      b.(task := Claim, claimed := b.claimed + [r])
    else
      var v := PtrMask(snap.ranges[r][pos]);
      var b' := b.(task := Examine(r, pos + 1));
      if !InBounds(snap, v) then b'
      else
        var b'' := b'.(lookaside := b.lookaside + [v]);
        if |b''.lookaside| < LOOKASIDE_SZ then b'' else StartFlush(b'')
  }

  /** Fetch-and-add on roots_completed, and the notification of the parent. */
  ghost function FinishSibling(snap: Snapshot, g: Shared, b: Sibling): (Shared, Sibling) {
    var total := g.rootsCompleted + |b.claimed|;
    (g.(rootsCompleted := total, finished := g.finished + Elements(b.claimed)),
     b.(task := Done(total == |snap.ranges|)))
  }

  ghost predicate CanAct(snap: Snapshot, b: Sibling) {
    && !b.task.Done?
    && (b.stack != [] ==> Top(b).block in snap.words)
    && (b.task.Examine? ==> b.task.range < |snap.ranges|)
  }

  ghost function Act(snap: Snapshot, rec: Recursion, g: Shared, s: nat, b: Sibling): (Shared, Sibling)
    requires CanAct(snap, b)
  {
    if b.held.Some? then Write(rec, g, b)
    else if b.stack != [] then (g, ScanWord(snap, g, b))
    else if b.flushing then (g, Lookup(snap, g, b))
    else match b.task
      case Claim => ClaimRange(snap, g, s, b)
      case Examine(_, _) => (g, ExamineWord(snap, b))
      case Finish => FinishSibling(snap, g, b)
  }

  ghost predicate Enabled(snap: Snapshot, st: State, s: nat) {
    s < |st.sibs| && CanAct(snap, st.sibs[s])
  }

  ghost function Step(snap: Snapshot, rec: Recursion, st: State, s: nat): State
    requires Enabled(snap, st, s)
  {
    var (g, b) := Act(snap, rec, st.shared, s, st.sibs[s]);
    State(g, st.sibs[s := b])
  }

  /** The schedule drives st to st'. */
  ghost predicate Runs(snap: Snapshot, rec: Recursion, st: State, schedule: seq<nat>, st': State)
    decreases |schedule|
  {
    if schedule == [] then st' == st
    else Enabled(snap, st, schedule[0]) && Runs(snap, rec, Step(snap, rec, st, schedule[0]), schedule[1..], st')
  }

  // ---------------------------------------------------------------- invariant of one sibling

  ghost predicate FrameOk(snap: Snapshot, rec: Recursion, marked: set<nat>, f: Frame) {
    && f.block in marked
    && (rec.OnScannedBlock? ==> snap.Root(f.block))
    && f.block in snap.words
    && snap.Reachable(f.block)
    && f.next <= |snap.words[f.block]|
    && forall i | 0 <= i < f.next && PtrMask(snap.words[f.block][i]) in snap.pool ::
         PtrMask(snap.words[f.block][i]) in marked
  }

  ghost predicate StackOk(snap: Snapshot, rec: Recursion, marked: set<nat>, b: Sibling) {
    && (forall j :: 0 <= j < |b.stack| ==> FrameOk(snap, rec, marked, b.stack[j]))
    && (!b.flushing ==> b.stack == [] && b.held.None?)
    && (b.held.Some? ==>
          && snap.Reachable(b.held.value)
          && b.held.value in snap.pool
          && (b.stack == [] ==> snap.Root(b.held.value))
          && (b.stack != [] ==>
                && b.held.value != Top(b).block
                && Top(b).next < |snap.words[Top(b).block]|
                && PtrMask(snap.words[Top(b).block][Top(b).next]) == b.held.value))
  }

  /** Every pool value among the first n words of range r is marked or still put aside. */
  ghost predicate Searched(snap: Snapshot, marked: set<nat>, lookaside: seq<nat>, r: nat, n: nat) {
    && r < |snap.ranges|
    && n <= |snap.ranges[r]|
    && forall i | 0 <= i < n && PtrMask(snap.ranges[r][i]) in snap.pool ::
         PtrMask(snap.ranges[r][i]) in marked || PtrMask(snap.ranges[r][i]) in lookaside
  }

  ghost predicate LookasideOk(snap: Snapshot, marked: set<nat>, b: Sibling) {
    && (forall v :: v in b.lookaside && v in snap.pool ==> snap.Root(v))
    && (b.flushing ==>
          && b.lookaside != []
          && b.todo <= Elements(b.lookaside)
          && forall v :: v in b.lookaside && v in snap.pool ==> v in marked || v in b.todo || b.held == Some(v))
    && (forall k :: 0 <= k < |b.claimed| ==>
          && b.claimed[k] < |snap.ranges|
          && Searched(snap, marked, b.lookaside, b.claimed[k], |snap.ranges[b.claimed[k]]|))
    && (b.task.Examine? ==> Searched(snap, marked, b.lookaside, b.task.range, b.task.pos))
  }

  ghost predicate TaskOk(owner: map<nat, nat>, s: nat, b: Sibling) {
    && (b.task.Finish? ==> b.lookaside == [] || b.flushing)
    && (b.task.Done? ==> b.lookaside == [] && !b.flushing)
    && (b.claimed == [] && !b.task.Examine? ==> b.lookaside == [])
    && (forall k :: 0 <= k < |b.claimed| ==> b.claimed[k] in owner && owner[b.claimed[k]] == s)
    && (forall j, k :: 0 <= j < k < |b.claimed| ==> b.claimed[j] != b.claimed[k])
    && (b.task.Examine? ==> b.task.range in owner && owner[b.task.range] == s && b.task.range !in b.claimed)
  }

  ghost predicate SibOk(snap: Snapshot, rec: Recursion, g: Shared, s: nat, b: Sibling) {
    && StackOk(snap, rec, g.marked, b)
    && LookasideOk(snap, g.marked, b)
    && TaskOk(g.owner, s, b)
  }

  // ---------------------------------------------------------------- global invariant

  ghost predicate Holds(b: Sibling, r: nat) {
    r in b.claimed || (b.task.Examine? && b.task.range == r)
  }

  /** Each range below root_counter has one owner, and nothing else has been claimed. */
  ghost predicate ClaimsOk(snap: Snapshot, st: State) {
    && (forall r: nat :: r in st.shared.owner <==> r < |snap.ranges| && r < st.shared.rootCounter)
    && (forall r: nat :: r in st.shared.owner ==> OwnerHolds(st, r))
    && (forall r: nat :: r in st.shared.finished <==> r in st.shared.owner && OwnerDone(st, r))
    && |st.shared.finished| == st.shared.rootsCompleted
  }

  ghost predicate OwnerHolds(st: State, r: nat)
    requires r in st.shared.owner
  {
    st.shared.owner[r] < |st.sibs| && Holds(st.sibs[st.shared.owner[r]], r)
  }

  ghost predicate OwnerDone(st: State, r: nat)
    requires r in st.shared.owner
  {
    st.shared.owner[r] < |st.sibs| && st.sibs[st.shared.owner[r]].task.Done?
  }

  ghost predicate ClaimerNotified(b: Sibling) {
    b.task == Done(true) && b.claimed != []
  }

  ghost predicate NoticesOk(snap: Snapshot, st: State) {
    && (forall s | 0 <= s < |st.sibs| && st.sibs[s].task == Done(true) ::
          st.shared.rootsCompleted == |snap.ranges|)
    && (forall s, t | 0 <= s < |st.sibs| && 0 <= t < |st.sibs| ::
          ClaimerNotified(st.sibs[s]) && ClaimerNotified(st.sibs[t]) ==> s == t)
    && (st.shared.rootsCompleted == |snap.ranges| && snap.ranges != [] ==>
          exists s :: 0 <= s < |st.sibs| && ClaimerNotified(st.sibs[s]))
  }

  /** v is a root or a root refers to it. */
  ghost predicate WithinTwoLevels(snap: Snapshot, v: nat) {
    snap.Root(v) || exists b :: snap.Root(b) && snap.Hits(b, v)
  }

  ghost predicate Sound(snap: Snapshot, rec: Recursion, g: Shared) {
    && (forall v :: v in g.marked ==> snap.Reachable(v))
    && (rec.OnScannedBlock? ==> forall v :: v in g.marked ==> WithinTwoLevels(snap, v))
  }

  /** Every reference out of block b leads to a marked entry. */
  ghost predicate Scanned(snap: Snapshot, marked: set<nat>, b: nat) {
    forall v :: snap.Hits(b, v) ==> v in marked
  }

  ghost predicate OnStack(b: Sibling, v: nat) {
    exists j :: 0 <= j < |b.stack| && b.stack[j].block == v
  }

  ghost predicate PendingSomewhere(st: State, v: nat) {
    exists s :: 0 <= s < |st.sibs| && OnStack(st.sibs[s], v)
  }

  /** With the recursion on the target, each marked entry is fully scanned or pending on some sibling's stack. */
  ghost predicate Covered(snap: Snapshot, rec: Recursion, st: State) {
    rec.OnTarget? ==>
      forall v | v in st.shared.marked :: Scanned(snap, st.shared.marked, v) || PendingSomewhere(st, v)
  }

  ghost predicate Inv(snap: Snapshot, rec: Recursion, st: State) {
    && snap.Valid()
    && (forall s :: 0 <= s < |st.sibs| ==> SibOk(snap, rec, st.shared, s, st.sibs[s]))
    && ClaimsOk(snap, st)
    && NoticesOk(snap, st)
    && Sound(snap, rec, st.shared)
    && Covered(snap, rec, st)
  }

  lemma InitInv(snap: Snapshot, rec: Recursion, st: State)
    requires snap.Valid() && Init(st)
    ensures Inv(snap, rec, st)
  {
  }

  // ---------------------------------------------------------------- one step, seen by its sibling

  /** What one sibling established survives whatever the others do. */
  lemma SibOkIsStable(snap: Snapshot, rec: Recursion, g: Shared, g': Shared, s: nat, b: Sibling)
    requires SibOk(snap, rec, g, s, b)
    requires g.marked <= g'.marked
    requires forall r :: r in g.owner ==> r in g'.owner && g'.owner[r] == g.owner[r]
    ensures SibOk(snap, rec, g', s, b)
  {
    forall k | 0 <= k < |b.claimed|
      ensures Searched(snap, g'.marked, b.lookaside, b.claimed[k], |snap.ranges[b.claimed[k]]|)
    {
      assert Searched(snap, g.marked, b.lookaside, b.claimed[k], |snap.ranges[b.claimed[k]]|);
    }
  }

  /** Writing a mark takes nothing off the stack. */
  lemma WriteStacks(rec: Recursion, g: Shared, b: Sibling)
    requires b.held.Some?
    ensures var b' := Write(rec, g, b).1;
      && (forall v :: OnStack(b, v) ==> OnStack(b', v))
      && (b.stack == [] || rec.OnTarget? ==> OnStack(b', b.held.value))
  {
    var b' := Write(rec, g, b).1;
    forall v | OnStack(b, v) ensures OnStack(b', v) {
      var j :| 0 <= j < |b.stack| && b.stack[j].block == v;
      assert b'.stack[j].block == v;
    }
    assert b.stack == [] || rec.OnTarget? ==> b'.stack[|b'.stack| - 1].block == b.held.value;
  }

  lemma WriteSibOk(snap: Snapshot, rec: Recursion, g: Shared, s: nat, b: Sibling)
    requires snap.Valid() && SibOk(snap, rec, g, s, b) && b.held.Some?
    ensures var (g', b') := Write(rec, g, b); SibOk(snap, rec, g', s, b')
  {
    var (g', b') := Write(rec, g, b);
    SibOkIsStable(snap, rec, g, g', s, b);
    forall j | 0 <= j < |b'.stack| ensures FrameOk(snap, rec, g'.marked, b'.stack[j]) {
      if j < |b.stack| { assert FrameOk(snap, rec, g'.marked, b.stack[j]); }
      if b.stack != [] { assert FrameOk(snap, rec, g.marked, Top(b)); }
    }
  }

  lemma WriteStep(snap: Snapshot, rec: Recursion, g: Shared, s: nat, b: Sibling)
    requires snap.Valid() && SibOk(snap, rec, g, s, b) && b.held.Some?
    ensures var (g', b') := Write(rec, g, b);
      && SibOk(snap, rec, g', s, b')
      && g' == g.(marked := g.marked + {b.held.value})
      && snap.Reachable(b.held.value)
      && b'.task == b.task && b'.claimed == b.claimed
      && (forall v :: OnStack(b, v) ==> OnStack(b', v))
      && (rec.OnTarget? ==> OnStack(b', b.held.value))
      && (rec.OnScannedBlock? ==> WithinTwoLevels(snap, b.held.value))
  {
    WriteSibOk(snap, rec, g, s, b);
    WriteStacks(rec, g, b);
    if b.stack != [] {
      assert FrameOk(snap, rec, g.marked, b.stack[|b.stack| - 1]);
      assert snap.Hits(Top(b).block, b.held.value);
    }
  }

  lemma ScanHolds(snap: Snapshot, rec: Recursion, g: Shared, s: nat, b: Sibling, v: nat)
    requires snap.Valid() && SibOk(snap, rec, g, s, b) && b.held.None? && b.stack != []
    requires Top(b).next < |snap.words[Top(b).block]|
    requires v == PtrMask(snap.words[Top(b).block][Top(b).next]) && v in snap.pool && v !in g.marked
    ensures SibOk(snap, rec, g, s, b.(held := Some(v)))
  {
    var f := Top(b);
    assert FrameOk(snap, rec, g.marked, f);
    assert InWords(snap.words[f.block], v) && snap.Hits(f.block, v);
    snap.HitIsReachable(f.block, v);
    assert LookasideOk(snap, g.marked, b.(held := Some(v)));
  }

  lemma StackReplaced(snap: Snapshot, rec: Recursion, g: Shared, s: nat, b: Sibling, stack: seq<Frame>)
    requires SibOk(snap, rec, g, s, b) && b.held.None? && b.flushing
    requires forall j :: 0 <= j < |stack| ==> FrameOk(snap, rec, g.marked, stack[j])
    ensures SibOk(snap, rec, g, s, b.(stack := stack))
  {
    assert LookasideOk(snap, g.marked, b.(stack := stack));
  }

  /** Only the top frame can leave the stack. */
  lemma StillOnStack(b: Sibling, b': Sibling, v: nat)
    requires b.stack != [] && OnStack(b, v)
    requires |b'.stack| >= |b.stack| - 1
    requires forall j :: 0 <= j < |b'.stack| && j < |b.stack| ==> b'.stack[j].block == b.stack[j].block
    ensures OnStack(b', v) || (|b'.stack| == |b.stack| - 1 && Top(b).block == v)
  {
    var j :| 0 <= j < |b.stack| && b.stack[j].block == v;
    if j < |b'.stack| { assert b'.stack[j].block == v; }
  }

  lemma ScanSibOk(snap: Snapshot, rec: Recursion, g: Shared, s: nat, b: Sibling)
    requires snap.Valid() && SibOk(snap, rec, g, s, b) && b.held.None? && b.stack != []
    ensures SibOk(snap, rec, g, s, ScanWord(snap, g, b))
  {
    var b' := ScanWord(snap, g, b);
    var f := Top(b);
    assert FrameOk(snap, rec, g.marked, b.stack[|b.stack| - 1]);
    if f.next < |snap.words[f.block]| {
      var v := PtrMask(snap.words[f.block][f.next]);
      if v in snap.pool && v !in g.marked {
        ScanHolds(snap, rec, g, s, b, v);
      } else {
        assert FrameOk(snap, rec, g.marked, f.(next := f.next + 1));
        StackReplaced(snap, rec, g, s, b, b'.stack);
      }
    } else {
      StackReplaced(snap, rec, g, s, b, b'.stack);
    }
  }

  /** Only a block that has been scanned to its end leaves the stack. */
  lemma ScanStacks(snap: Snapshot, rec: Recursion, g: Shared, b: Sibling)
    requires b.stack != [] && FrameOk(snap, rec, g.marked, Top(b))
    ensures forall v :: OnStack(b, v) ==> OnStack(ScanWord(snap, g, b), v) || Scanned(snap, g.marked, v)
  {
    var b' := ScanWord(snap, g, b);
    var f := Top(b);
    assert f.next >= |snap.words[f.block]| ==> Scanned(snap, g.marked, f.block);
    forall v | OnStack(b, v) ensures OnStack(b', v) || Scanned(snap, g.marked, v) {
      StillOnStack(b, b', v);
    }
  }

  lemma ScanStep(snap: Snapshot, rec: Recursion, g: Shared, s: nat, b: Sibling)
    requires snap.Valid() && SibOk(snap, rec, g, s, b) && b.held.None? && b.stack != []
    ensures var b' := ScanWord(snap, g, b);
      && SibOk(snap, rec, g, s, b')
      && b'.task == b.task && b'.claimed == b.claimed
      && (forall v :: OnStack(b, v) ==> OnStack(b', v) || Scanned(snap, g.marked, v))
  {
    ScanSibOk(snap, rec, g, s, b);
    assert FrameOk(snap, rec, g.marked, b.stack[|b.stack| - 1]);
    ScanStacks(snap, rec, g, b);
  }

  lemma LookupStep(snap: Snapshot, rec: Recursion, g: Shared, s: nat, b: Sibling)
    requires snap.Valid() && SibOk(snap, rec, g, s, b) && b.held.None? && b.stack == [] && b.flushing
    ensures var b' := Lookup(snap, g, b);
      && SibOk(snap, rec, g, s, b')
      && b'.task == b.task && b'.claimed == b.claimed && b'.stack == b.stack
  {
    var b' := Lookup(snap, g, b);
    if b.todo == {} {
      forall k | 0 <= k < |b'.claimed|
        ensures Searched(snap, g.marked, b'.lookaside, b'.claimed[k], |snap.ranges[b'.claimed[k]]|)
      {
        assert Searched(snap, g.marked, b.lookaside, b.claimed[k], |snap.ranges[b.claimed[k]]|);
      }
    } else {
      var v := Least(b.todo);
      if v in snap.pool {
        assert snap.Root(v);
        snap.RootIsReachable(v);
      }
    }
  }

  lemma ClaimStep(snap: Snapshot, rec: Recursion, g: Shared, s: nat, b: Sibling)
    requires snap.Valid() && SibOk(snap, rec, g, s, b) && b.held.None? && b.stack == [] && !b.flushing && b.task.Claim?
    requires g.rootCounter !in g.owner
    ensures var (g', b') := ClaimRange(snap, g, s, b);
      && SibOk(snap, rec, g', s, b')
      && b'.claimed == b.claimed && b'.stack == b.stack
  {
    var (g', b') := ClaimRange(snap, g, s, b);
    SibOkIsStable(snap, rec, g, g', s, b);
    forall k | 0 <= k < |b'.claimed|
      ensures Searched(snap, g'.marked, b'.lookaside, b'.claimed[k], |snap.ranges[b'.claimed[k]]|)
    {
      assert Searched(snap, g'.marked, b.lookaside, b.claimed[k], |snap.ranges[b.claimed[k]]|);
    }
  }

  lemma ExamineStep(snap: Snapshot, rec: Recursion, g: Shared, s: nat, b: Sibling)
    requires snap.Valid() && SibOk(snap, rec, g, s, b) && b.held.None? && b.stack == [] && !b.flushing
    requires b.task.Examine?
    requires b.task.range < |snap.ranges|
    ensures var b' := ExamineWord(snap, b);
      && SibOk(snap, rec, g, s, b')
      && b'.stack == b.stack
      && (forall r :: Holds(b, r) <==> Holds(b', r))
      && !b'.task.Done?
  {
    var b' := ExamineWord(snap, b);
    var r, pos := b.task.range, b.task.pos;
    assert Searched(snap, g.marked, b.lookaside, r, pos);
    if pos < |snap.ranges[r]| {
      var v := PtrMask(snap.ranges[r][pos]);
      if v in snap.pool {
        assert InWords(snap.ranges[r], v) && snap.Root(v);
        assert InBounds(snap, v);
      }
      assert forall u :: u in b.lookaside ==> u in b'.lookaside;
      assert Searched(snap, g.marked, b'.lookaside, r, pos + 1);
      forall k | 0 <= k < |b'.claimed|
        ensures Searched(snap, g.marked, b'.lookaside, b'.claimed[k], |snap.ranges[b'.claimed[k]]|)
      {
        assert Searched(snap, g.marked, b.lookaside, b.claimed[k], |snap.ranges[b.claimed[k]]|);
      }
    } else {
      forall k | 0 <= k < |b'.claimed|
        ensures b'.claimed[k] < |snap.ranges|
        ensures Searched(snap, g.marked, b'.lookaside, b'.claimed[k], |snap.ranges[b'.claimed[k]]|)
      {
        if k < |b.claimed| {
          assert Searched(snap, g.marked, b.lookaside, b.claimed[k], |snap.ranges[b.claimed[k]]|);
        }
      }
    }
  }

  // ---------------------------------------------------------------- one step, seen globally

  /** The siblings other than s are untouched, and s keeps the tasks and ranges it had. */
  lemma ClaimsKept(snap: Snapshot, st: State, st': State, s: nat)
    requires s < |st.sibs| && |st'.sibs| == |st.sibs|
    requires st'.sibs == st.sibs[s := st'.sibs[s]]
    requires ClaimsOk(snap, st) && NoticesOk(snap, st)
    requires st'.shared == st.shared.(marked := st'.shared.marked)
    requires !st.sibs[s].task.Done? && !st'.sibs[s].task.Done?
    requires forall r :: Holds(st.sibs[s], r) ==> Holds(st'.sibs[s], r)
    ensures ClaimsOk(snap, st') && NoticesOk(snap, st')
  {
    var g := st.shared;
    forall r: nat | r in g.owner ensures OwnerHolds(st', r) && OwnerDone(st', r) == OwnerDone(st, r) {
      assert OwnerHolds(st, r);
    }
    if g.rootsCompleted == |snap.ranges| && snap.ranges != [] {
      var t :| 0 <= t < |st.sibs| && ClaimerNotified(st.sibs[t]);
      assert ClaimerNotified(st'.sibs[t]);
    }
  }

  lemma CoveredKept(snap: Snapshot, rec: Recursion, st: State, st': State, s: nat)
    requires s < |st.sibs| && |st'.sibs| == |st.sibs|
    requires st'.sibs == st.sibs[s := st'.sibs[s]]
    requires Covered(snap, rec, st)
    requires st.shared.marked <= st'.shared.marked
    requires rec.OnTarget? ==> forall v | v in st'.shared.marked && v !in st.shared.marked :: OnStack(st'.sibs[s], v)
    requires forall v :: OnStack(st.sibs[s], v) ==> OnStack(st'.sibs[s], v) || Scanned(snap, st'.shared.marked, v)
    ensures Covered(snap, rec, st')
  {
    forall v | v in st'.shared.marked && rec.OnTarget?
      ensures Scanned(snap, st'.shared.marked, v) || PendingSomewhere(st', v)
    {
      if v !in st.shared.marked {
        assert OnStack(st'.sibs[s], v);
      } else if !Scanned(snap, st.shared.marked, v) {
        var t :| 0 <= t < |st.sibs| && OnStack(st.sibs[t], v);
        assert t != s ==> OnStack(st'.sibs[t], v);
      }
    }
  }

  lemma SibsKept(snap: Snapshot, rec: Recursion, st: State, st': State, s: nat)
    requires s < |st.sibs| && |st'.sibs| == |st.sibs|
    requires st'.sibs == st.sibs[s := st'.sibs[s]]
    requires forall t :: 0 <= t < |st.sibs| ==> SibOk(snap, rec, st.shared, t, st.sibs[t])
    requires SibOk(snap, rec, st'.shared, s, st'.sibs[s])
    requires st.shared.marked <= st'.shared.marked
    requires forall r :: r in st.shared.owner ==> r in st'.shared.owner && st'.shared.owner[r] == st.shared.owner[r]
    ensures forall t :: 0 <= t < |st'.sibs| ==> SibOk(snap, rec, st'.shared, t, st'.sibs[t])
  {
    forall t | 0 <= t < |st'.sibs| ensures SibOk(snap, rec, st'.shared, t, st'.sibs[t]) {
      if t != s { SibOkIsStable(snap, rec, st.shared, st'.shared, t, st.sibs[t]); }
    }
  }

  lemma ClaimRangeClaims(snap: Snapshot, st: State, s: nat)
    requires ClaimsOk(snap, st) && s < |st.sibs| && st.sibs[s].task.Claim?
    ensures var (g, b) := ClaimRange(snap, st.shared, s, st.sibs[s]);
      ClaimsOk(snap, State(g, st.sibs[s := b]))
  {
    var (g, b) := ClaimRange(snap, st.shared, s, st.sibs[s]);
    var st' := State(g, st.sibs[s := b]);
    assert forall r: nat :: r in g.owner <==> r < |snap.ranges| && r < g.rootCounter;
    forall r: nat | r in g.owner
      ensures OwnerHolds(st', r)
      ensures OwnerDone(st', r) <==> r in g.finished
    {
      if r in st.shared.owner { assert OwnerHolds(st, r); }
    }
  }

  lemma ClaimRangeNotices(snap: Snapshot, st: State, s: nat)
    requires NoticesOk(snap, st) && s < |st.sibs| && st.sibs[s].task.Claim?
    ensures var (g, b) := ClaimRange(snap, st.shared, s, st.sibs[s]);
      NoticesOk(snap, State(g, st.sibs[s := b]))
  {
    var (g, b) := ClaimRange(snap, st.shared, s, st.sibs[s]);
    var st' := State(g, st.sibs[s := b]);
    if g.rootsCompleted == |snap.ranges| && snap.ranges != [] {
      var t :| 0 <= t < |st.sibs| && ClaimerNotified(st.sibs[t]);
      assert ClaimerNotified(st'.sibs[t]);
    }
  }

  lemma {:induction false} DistinctSize(xs: seq<nat>)
    requires forall j, k :: 0 <= j < k < |xs| ==> xs[j] != xs[k]
    ensures |Elements(xs)| == |xs|
  {
    if xs != [] {
      var ys, x := xs[..|xs| - 1], xs[|xs| - 1];
      DistinctSize(ys);
      assert xs == ys + [x];
      assert Elements(xs) == Elements(ys) + {x};
      assert x !in Elements(ys);
    }
  }

  ghost function Below(n: nat): (s: set<nat>)
    ensures forall r: nat :: r in s <==> r < n
    ensures |s| == n
  {
    if n == 0 then {} else Below(n - 1) + {n - 1}
  }

  lemma {:induction false} SubsetSize(a: set<nat>, b: set<nat>)
    requires a <= b
    ensures |a| <= |b|
    ensures |a| == |b| ==> a == b
  {
    if a != {} {
      var x :| x in a;
      SubsetSize(a - {x}, b - {x});
    }
  }

  lemma CountGrows(finished: set<nat>, claimed: seq<nat>)
    requires forall j, k :: 0 <= j < k < |claimed| ==> claimed[j] != claimed[k]
    requires forall r :: r in claimed ==> r !in finished
    ensures |finished + Elements(claimed)| == |finished| + |claimed|
  {
    DistinctSize(claimed);
    assert finished !! Elements(claimed);
  }

  /** The ranges counted by a sibling that finishes are those it owns. */
  lemma FinishOwners(snap: Snapshot, st: State, s: nat, r: nat)
    requires ClaimsOk(snap, st) && s < |st.sibs| && st.sibs[s].task.Finish?
    requires TaskOk(st.shared.owner, s, st.sibs[s])
    requires r in st.shared.owner
    ensures var (g, b) := FinishSibling(snap, st.shared, st.sibs[s]);
      var st' := State(g, st.sibs[s := b]);
      OwnerHolds(st', r) && (r in g.finished <==> OwnerDone(st', r))
  {
    var (g, b) := FinishSibling(snap, st.shared, st.sibs[s]);
    assert OwnerHolds(st, r);
    assert g.owner[r] == s <==> r in b.claimed;
  }

  lemma FinishClaims(snap: Snapshot, st: State, s: nat)
    requires ClaimsOk(snap, st) && s < |st.sibs| && st.sibs[s].task.Finish?
    requires TaskOk(st.shared.owner, s, st.sibs[s])
    ensures var (g, b) := FinishSibling(snap, st.shared, st.sibs[s]);
      ClaimsOk(snap, State(g, st.sibs[s := b]))
  {
    var (g, b) := FinishSibling(snap, st.shared, st.sibs[s]);
    var st' := State(g, st.sibs[s := b]);
    assert g.owner == st.shared.owner && g.rootCounter == st.shared.rootCounter;
    forall r: nat | r in g.owner
      ensures OwnerHolds(st', r) && (r in g.finished <==> OwnerDone(st', r))
    {
      FinishOwners(snap, st, s, r);
    }
    forall r: nat | r in g.finished ensures r in g.owner {
      FinishedOwned(snap, st, s, r);
    }
    FinishTotal(snap, st, s);
  }

  lemma FinishedOwned(snap: Snapshot, st: State, s: nat, r: nat)
    requires ClaimsOk(snap, st) && s < |st.sibs| && TaskOk(st.shared.owner, s, st.sibs[s])
    requires r in st.shared.finished + Elements(st.sibs[s].claimed)
    ensures r in st.shared.owner
  {
  }

  lemma FinishTotal(snap: Snapshot, st: State, s: nat)
    requires ClaimsOk(snap, st) && s < |st.sibs| && st.sibs[s].task.Finish?
    requires TaskOk(st.shared.owner, s, st.sibs[s])
    ensures var (g, b) := FinishSibling(snap, st.shared, st.sibs[s]); |g.finished| == g.rootsCompleted
  {
    var claimed := st.sibs[s].claimed;
    assert forall r :: r in claimed ==> r in st.shared.owner && st.shared.owner[r] == s;
    assert !st.sibs[s].task.Done?;
    CountGrows(st.shared.finished, claimed);
  }

  lemma FinishedBound(snap: Snapshot, st: State)
    requires ClaimsOk(snap, st)
    ensures st.shared.finished <= Below(|snap.ranges|)
    ensures st.shared.rootsCompleted <= |snap.ranges|
    ensures st.shared.rootsCompleted == |snap.ranges| ==> st.shared.finished == Below(|snap.ranges|)
  {
    SubsetSize(st.shared.finished, Below(|snap.ranges|));
  }

  lemma FinishStep(snap: Snapshot, rec: Recursion, g: Shared, s: nat, b: Sibling)
    requires SibOk(snap, rec, g, s, b) && b.held.None? && b.stack == [] && !b.flushing && b.task.Finish?
    ensures var (g', b') := FinishSibling(snap, g, b);
      SibOk(snap, rec, g', s, b') && b'.stack == b.stack
  {
    var (g', b') := FinishSibling(snap, g, b);
    forall k | 0 <= k < |b'.claimed|
      ensures Searched(snap, g'.marked, b'.lookaside, b'.claimed[k], |snap.ranges[b'.claimed[k]]|)
    {
      assert Searched(snap, g.marked, b.lookaside, b.claimed[k], |snap.ranges[b.claimed[k]]|);
    }
  }

  lemma FinishCounts(snap: Snapshot, st: State, s: nat)
    requires ClaimsOk(snap, st) && NoticesOk(snap, st) && s < |st.sibs| && st.sibs[s].task.Finish?
    requires TaskOk(st.shared.owner, s, st.sibs[s])
    ensures var (g, b) := FinishSibling(snap, st.shared, st.sibs[s]);
      var st' := State(g, st.sibs[s := b]);
      ClaimsOk(snap, st') && NoticesOk(snap, st')
  {
    var (g, b) := FinishSibling(snap, st.shared, st.sibs[s]);
    FinishClaims(snap, st, s);
    FinishedBound(snap, State(g, st.sibs[s := b]));
    FinishNotices(snap, st, s);
  }

  /** The invariant after a step of s, from what the step did to s, to the claims and to the count. */
  lemma StepAssembled(snap: Snapshot, rec: Recursion, st: State, st': State, s: nat)
    requires Inv(snap, rec, st) && s < |st.sibs| && |st'.sibs| == |st.sibs|
    requires st'.sibs == st.sibs[s := st'.sibs[s]]
    requires SibOk(snap, rec, st'.shared, s, st'.sibs[s])
    requires st.shared.marked == st'.shared.marked
    requires st'.sibs[s].stack == st.sibs[s].stack
    requires forall r :: r in st.shared.owner ==> r in st'.shared.owner && st'.shared.owner[r] == st.shared.owner[r]
    requires ClaimsOk(snap, st') && NoticesOk(snap, st')
    ensures Inv(snap, rec, st')
  {
    SibsKept(snap, rec, st, st', s);
    CoveredKept(snap, rec, st, st', s);
  }

  lemma FinishGlobal(snap: Snapshot, rec: Recursion, st: State, s: nat)
    requires Inv(snap, rec, st) && Enabled(snap, st, s)
    requires st.sibs[s].held.None? && st.sibs[s].stack == [] && !st.sibs[s].flushing && st.sibs[s].task.Finish?
    ensures Inv(snap, rec, Step(snap, rec, st, s))
  {
    assert SibOk(snap, rec, st.shared, s, st.sibs[s]);
    FinishStep(snap, rec, st.shared, s, st.sibs[s]);
    FinishCounts(snap, st, s);
    StepAssembled(snap, rec, st, Step(snap, rec, st, s), s);
  }

  lemma ClaimRangeGlobal(snap: Snapshot, rec: Recursion, st: State, s: nat)
    requires Inv(snap, rec, st) && Enabled(snap, st, s)
    requires st.sibs[s].held.None? && st.sibs[s].stack == [] && !st.sibs[s].flushing && st.sibs[s].task.Claim?
    ensures Inv(snap, rec, Step(snap, rec, st, s))
  {
    assert SibOk(snap, rec, st.shared, s, st.sibs[s]);
    ClaimStep(snap, rec, st.shared, s, st.sibs[s]);
    ClaimRangeClaims(snap, st, s);
    ClaimRangeNotices(snap, st, s);
    StepAssembled(snap, rec, st, Step(snap, rec, st, s), s);
  }

  /** A sibling that adds ranges and reaches the total is the first to reach it. */
  lemma FinishNotices(snap: Snapshot, st: State, s: nat)
    requires s < |st.sibs| && NoticesOk(snap, st) && st.sibs[s].task.Finish?
    requires st.shared.rootsCompleted + |st.sibs[s].claimed| <= |snap.ranges|
    ensures var (g, b) := FinishSibling(snap, st.shared, st.sibs[s]);
      NoticesOk(snap, State(g, st.sibs[s := b]))
  {
    var (g, b) := FinishSibling(snap, st.shared, st.sibs[s]);
    var st' := State(g, st.sibs[s := b]);
    if g.rootsCompleted == |snap.ranges| && snap.ranges != [] {
      if b.claimed != [] {
        assert ClaimerNotified(st'.sibs[s]);
      } else {
        var t :| 0 <= t < |st.sibs| && ClaimerNotified(st.sibs[t]);
        assert ClaimerNotified(st'.sibs[t]);
      }
    }
    forall t, u | 0 <= t < |st'.sibs| && 0 <= u < |st'.sibs|
                  && ClaimerNotified(st'.sibs[t]) && ClaimerNotified(st'.sibs[u])
      ensures t == u
    {
      if t != s { assert ClaimerNotified(st.sibs[t]); }
      if u != s { assert ClaimerNotified(st.sibs[u]); }
    }
  }

  /** A step of sibling s that claims nothing and counts nothing keeps the invariant. */
  lemma LocalStepKeeps(snap: Snapshot, rec: Recursion, st: State, s: nat, g': Shared, b': Sibling)
    requires Inv(snap, rec, st) && s < |st.sibs|
    requires SibOk(snap, rec, g', s, b')
    requires st.shared.marked <= g'.marked && g' == st.shared.(marked := g'.marked)
    requires Sound(snap, rec, g')
    requires !st.sibs[s].task.Done? && !b'.task.Done?
    requires forall r :: Holds(st.sibs[s], r) ==> Holds(b', r)
    requires rec.OnTarget? ==> forall v | v in g'.marked && v !in st.shared.marked :: OnStack(b', v)
    requires forall v :: OnStack(st.sibs[s], v) ==> OnStack(b', v) || Scanned(snap, g'.marked, v)
    ensures Inv(snap, rec, State(g', st.sibs[s := b']))
  {
    var st' := State(g', st.sibs[s := b']);
    SibsKept(snap, rec, st, st', s);
    ClaimsKept(snap, st, st', s);
    CoveredKept(snap, rec, st, st', s);
  }

  lemma WriteInv(snap: Snapshot, rec: Recursion, st: State, s: nat)
    requires Inv(snap, rec, st) && Enabled(snap, st, s) && st.sibs[s].held.Some?
    ensures Inv(snap, rec, Step(snap, rec, st, s))
  {
    var b := st.sibs[s];
    assert SibOk(snap, rec, st.shared, s, b);
    WriteStep(snap, rec, st.shared, s, b);
    var (g', b') := Write(rec, st.shared, b);
    LocalStepKeeps(snap, rec, st, s, g', b');
  }

  lemma ScanInv(snap: Snapshot, rec: Recursion, st: State, s: nat)
    requires Inv(snap, rec, st) && Enabled(snap, st, s) && st.sibs[s].held.None? && st.sibs[s].stack != []
    ensures Inv(snap, rec, Step(snap, rec, st, s))
  {
    assert SibOk(snap, rec, st.shared, s, st.sibs[s]);
    ScanStep(snap, rec, st.shared, s, st.sibs[s]);
    LocalStepKeeps(snap, rec, st, s, st.shared, ScanWord(snap, st.shared, st.sibs[s]));
  }

  lemma LookupInv(snap: Snapshot, rec: Recursion, st: State, s: nat)
    requires Inv(snap, rec, st) && Enabled(snap, st, s)
    requires st.sibs[s].held.None? && st.sibs[s].stack == [] && st.sibs[s].flushing
    ensures Inv(snap, rec, Step(snap, rec, st, s))
  {
    assert SibOk(snap, rec, st.shared, s, st.sibs[s]);
    LookupStep(snap, rec, st.shared, s, st.sibs[s]);
    LocalStepKeeps(snap, rec, st, s, st.shared, Lookup(snap, st.shared, st.sibs[s]));
  }

  lemma ExamineInv(snap: Snapshot, rec: Recursion, st: State, s: nat)
    requires Inv(snap, rec, st) && Enabled(snap, st, s)
    requires st.sibs[s].held.None? && st.sibs[s].stack == [] && !st.sibs[s].flushing && st.sibs[s].task.Examine?
    ensures Inv(snap, rec, Step(snap, rec, st, s))
  {
    assert SibOk(snap, rec, st.shared, s, st.sibs[s]);
    ExamineStep(snap, rec, st.shared, s, st.sibs[s]);
    LocalStepKeeps(snap, rec, st, s, st.shared, ExamineWord(snap, st.sibs[s]));
  }

  lemma StepInv(snap: Snapshot, rec: Recursion, st: State, s: nat)
    requires Inv(snap, rec, st) && Enabled(snap, st, s)
    ensures Inv(snap, rec, Step(snap, rec, st, s))
  {
    var b := st.sibs[s];
    assert SibOk(snap, rec, st.shared, s, b);
    if b.held.Some? {
      WriteInv(snap, rec, st, s);
    } else if b.stack != [] {
      ScanInv(snap, rec, st, s);
    } else if b.flushing {
      LookupInv(snap, rec, st, s);
    } else if b.task.Examine? {
      ExamineInv(snap, rec, st, s);
    } else if b.task.Claim? {
      ClaimRangeGlobal(snap, rec, st, s);
    } else {
      FinishGlobal(snap, rec, st, s);
    }
  }

  lemma {:induction false} RunInv(snap: Snapshot, rec: Recursion, st: State, schedule: seq<nat>, st': State)
    requires Inv(snap, rec, st) && Runs(snap, rec, st, schedule, st')
    ensures Inv(snap, rec, st')
    decreases |schedule|
  {
    if schedule != [] {
      StepInv(snap, rec, st, schedule[0]);
      RunInv(snap, rec, Step(snap, rec, st, schedule[0]), schedule[1..], st');
    }
  }

  lemma RunFromInit(snap: Snapshot, rec: Recursion, st0: State, schedule: seq<nat>, st: State)
    requires snap.Valid() && Init(st0) && Runs(snap, rec, st0, schedule, st)
    ensures Inv(snap, rec, st)
  {
    InitInv(snap, rec, st0);
    RunInv(snap, rec, st0, schedule, st);
  }

  // ---------------------------------------------------------------- what the parent may rely on

  ghost predicate Notified(st: State) {
    exists s :: 0 <= s < |st.sibs| && st.sibs[s].task == Done(true)
  }

  ghost predicate Quiet(b: Sibling) {
    b.stack == [] && b.lookaside == [] && b.held.None?
  }

  lemma QuietAtTheTotal(snap: Snapshot, rec: Recursion, st: State)
    requires Inv(snap, rec, st) && st.shared.rootsCompleted == |snap.ranges|
    ensures forall s :: 0 <= s < |st.sibs| ==> Quiet(st.sibs[s])
  {
    FinishedBound(snap, st);
    forall s | 0 <= s < |st.sibs| ensures Quiet(st.sibs[s]) {
      var b := st.sibs[s];
      assert SibOk(snap, rec, st.shared, s, b);
      forall r | Holds(b, r) ensures b.task.Done? {
        assert r in st.shared.owner && r in st.shared.finished && OwnerDone(st, r);
      }
      assert b.claimed != [] ==> Holds(b, b.claimed[0]);
      assert b.task.Examine? ==> Holds(b, b.task.range);
    }
  }

  /** The range was searched by a sibling that has counted it. */
  ghost predicate SearchedAndCounted(st: State, r: nat) {
    exists s :: 0 <= s < |st.sibs| && r in st.sibs[s].claimed && st.sibs[s].task.Done?
  }

  lemma CountedAtTheTotal(snap: Snapshot, st: State, r: nat)
    requires ClaimsOk(snap, st) && st.shared.rootsCompleted == |snap.ranges| && r < |snap.ranges|
    ensures SearchedAndCounted(st, r)
  {
    FinishedBound(snap, st);
    assert r in st.shared.finished && OwnerHolds(st, r) && OwnerDone(st, r);
    var t := st.shared.owner[r];
    assert t < |st.sibs| && r in st.sibs[t].claimed;
  }

  lemma RootsMarkedAtTheTotal(snap: Snapshot, rec: Recursion, st: State, v: nat)
    requires Inv(snap, rec, st) && st.shared.rootsCompleted == |snap.ranges|
    requires snap.Root(v)
    ensures v in st.shared.marked
  {
    var r: nat :| r < |snap.ranges| && InWords(snap.ranges[r], v);
    QuietAtTheTotal(snap, rec, st);
    CountedAtTheTotal(snap, st, r);
    var s :| 0 <= s < |st.sibs| && r in st.sibs[s].claimed && st.sibs[s].task.Done?;
    assert SibOk(snap, rec, st.shared, s, st.sibs[s]);
    var k :| 0 <= k < |st.sibs[s].claimed| && st.sibs[s].claimed[k] == r;
    assert Searched(snap, st.shared.marked, st.sibs[s].lookaside, r, |snap.ranges[r]|);
  }

  lemma ScannedAtTheTotal(snap: Snapshot, rec: Recursion, st: State, v: nat)
    requires Inv(snap, rec, st) && st.shared.rootsCompleted == |snap.ranges|
    requires v in st.shared.marked && rec.OnTarget?
    ensures Scanned(snap, st.shared.marked, v)
  {
    QuietAtTheTotal(snap, rec, st);
    forall s | 0 <= s < |st.sibs| ensures !OnStack(st.sibs[s], v) {
      assert Quiet(st.sibs[s]);
    }
  }

  /** As soon as one sibling notifies the parent, in any interleaving of any number of siblings, the
      marked entries are exactly the pool entries reachable from the searched words. */
  lemma MarkedIsReachable(snap: Snapshot, st0: State, schedule: seq<nat>, st: State)
    requires snap.Valid() && Init(st0) && Runs(snap, OnTarget, st0, schedule, st)
    requires Notified(st)
    ensures forall v :: v in st.shared.marked <==> snap.Reachable(v)
  {
    RunFromInit(snap, OnTarget, st0, schedule, st);
    MarkedIsReachableInv(snap, st);
  }

  lemma MarkedIsReachableInv(snap: Snapshot, st: State)
    requires Inv(snap, OnTarget, st) && Notified(st)
    ensures forall v :: v in st.shared.marked <==> snap.Reachable(v)
  {
    var s :| 0 <= s < |st.sibs| && st.sibs[s].task == Done(true);
    forall v | snap.Root(v) ensures v in st.shared.marked {
      RootsMarkedAtTheTotal(snap, OnTarget, st, v);
    }
    forall b, v | b in st.shared.marked && snap.Hits(b, v) ensures v in st.shared.marked {
      ScannedAtTheTotal(snap, OnTarget, st, b);
    }
    snap.ClosedHoldsReachable(st.shared.marked);
  }

  /** In every state of every run, each marked entry is reachable, and it is scanned or pending. */
  lemma EveryMarkIsScannedOrPending(snap: Snapshot, st0: State, schedule: seq<nat>, st: State)
    requires snap.Valid() && Init(st0) && Runs(snap, OnTarget, st0, schedule, st)
    ensures forall v :: v in st.shared.marked ==> snap.Reachable(v)
    ensures forall v :: v in st.shared.marked ==> Scanned(snap, st.shared.marked, v) || PendingSomewhere(st, v)
  {
    RunFromInit(snap, OnTarget, st0, schedule, st);
  }

  /** With the recursion as written, a notification means that every root is marked, and nothing is
      marked, ever, that is not a root or the target of a root. */
  lemma MarkedAsWritten(snap: Snapshot, st0: State, schedule: seq<nat>, st: State)
    requires snap.Valid() && Init(st0) && Runs(snap, OnScannedBlock, st0, schedule, st)
    ensures forall v :: v in st.shared.marked ==> snap.Reachable(v) && WithinTwoLevels(snap, v)
    ensures Notified(st) ==> forall v :: snap.Root(v) ==> v in st.shared.marked
  {
    RunFromInit(snap, OnScannedBlock, st0, schedule, st);
    if Notified(st) {
      var s :| 0 <= s < |st.sibs| && st.sibs[s].task == Done(true);
      forall v | snap.Root(v) ensures v in st.shared.marked {
        RootsMarkedAtTheTotal(snap, OnScannedBlock, st, v);
      }
    }
  }

  /** Each range has one owner; a notification means that every range was searched by its owner, that
      the owner has counted it, and that no sibling has anything left to look up or to scan. */
  lemma NotificationMeansAllSearched(snap: Snapshot, rec: Recursion, st0: State, schedule: seq<nat>, st: State)
    requires snap.Valid() && Init(st0) && Runs(snap, rec, st0, schedule, st)
    requires Notified(st)
    ensures forall s :: 0 <= s < |st.sibs| ==> Quiet(st.sibs[s])
    ensures forall r: nat | r < |snap.ranges| :: SearchedAndCounted(st, r)
  {
    RunFromInit(snap, rec, st0, schedule, st);
    var s :| 0 <= s < |st.sibs| && st.sibs[s].task == Done(true);
    QuietAtTheTotal(snap, rec, st);
    forall r: nat | r < |snap.ranges| ensures SearchedAndCounted(st, r) {
      CountedAtTheTotal(snap, st, r);
    }
  }

  lemma EachRangeHasOneOwner(snap: Snapshot, rec: Recursion, st0: State, schedule: seq<nat>, st: State, s: nat,
                             t: nat, r: nat)
    requires snap.Valid() && Init(st0) && Runs(snap, rec, st0, schedule, st)
    requires s < |st.sibs| && t < |st.sibs|
    requires Holds(st.sibs[s], r) && Holds(st.sibs[t], r)
    ensures s == t && r < |snap.ranges|
  {
    RunFromInit(snap, rec, st0, schedule, st);
    assert SibOk(snap, rec, st.shared, s, st.sibs[s]) && SibOk(snap, rec, st.shared, t, st.sibs[t]);
    assert r in st.shared.owner && st.shared.owner[r] == s;
  }

  lemma AllDoneIsTotal(snap: Snapshot, st: State)
    requires ClaimsOk(snap, st)
    requires forall s :: 0 <= s < |st.sibs| ==> st.sibs[s].task.Done?
    requires |snap.ranges| <= st.shared.rootCounter
    ensures st.shared.rootsCompleted == |snap.ranges|
  {
    forall r: nat | r in Below(|snap.ranges|) ensures r in st.shared.finished {
      assert r in st.shared.owner && OwnerHolds(st, r);
    }
    FinishedBound(snap, st);
    SubsetSize(Below(|snap.ranges|), st.shared.finished);
  }
}
