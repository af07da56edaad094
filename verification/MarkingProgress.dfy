/** The sibling processes always finish: every run is bounded, no sibling is ever stuck, and a run that cannot be
    continued has notified the parent (child.c 145-228, 481-521). */
module MarkingProgress {
  import opened Words
  import opened Sequences
  import opened Snapshots
  import opened Marking

  /** None of the blocks has more than n words. */
  ghost predicate NoneLonger(words: map<nat, seq<nat>>, keys: set<nat>, n: nat) {
    forall b :: b in keys && b in words ==> |words[b]| <= n
  }

  ghost predicate AtMostLong(snap: Snapshot, n: nat) {
    NoneLonger(snap.words, snap.words.Keys, n)
  }

  lemma LongestExists(words: map<nat, seq<nat>>, keys: set<nat>)
    requires keys <= words.Keys
    ensures exists n: nat :: NoneLonger(words, keys, n)
  {
    if keys == {} {
      assert NoneLonger(words, keys, 0);
    } else {
      var b :| b in keys;
      LongestExists(words, keys - {b});
      var n: nat :| NoneLonger(words, keys - {b}, n);
      assert NoneLonger(words, keys, Max(n, |words[b]|));
    }
  }

  /** A bound on the number of words of a block. */
  ghost function Longest(snap: Snapshot): (n: nat)
    ensures AtMostLong(snap, n)
  {
    LongestExists(snap.words, snap.words.Keys);
    var n: nat :| NoneLonger(snap.words, snap.words.Keys, n);
    n
  }

  // ---------------------------------------------------------------- what is left to do

  ghost function HeldBy(b: Sibling): set<nat> {
    if b.held.Some? then {b.held.value} else {}
  }

  /** The pool entries that the sibling might still find unmarked. */
  ghost function Open(snap: Snapshot, marked: set<nat>, b: Sibling): set<nat> {
    snap.pool - marked - HeldBy(b)
  }

  /** For each open entry: the steps that taking it, marking it and scanning it can cost. */
  ghost function OpenCost(long: nat, open: set<nat>): nat {
    (long + 4) * |open|
  }

  ghost function FrameCost(snap: Snapshot, f: Frame): nat {
    if f.block in snap.words && f.next <= |snap.words[f.block]| then |snap.words[f.block]| - f.next + 1 else 0
  }

  ghost function StackCost(snap: Snapshot, stack: seq<Frame>): nat {
    if stack == [] then 0 else StackCost(snap, stack[..|stack| - 1]) + FrameCost(snap, stack[|stack| - 1])
  }

  ghost function ValueCost(b: Sibling): nat {
    if b.flushing then |b.todo| + 1 else 2 * |b.lookaside|
  }

  ghost function TaskCost(snap: Snapshot, task: Task): nat {
    match task
    case Claim => 2
    case Examine(r, pos) =>
      if r < |snap.ranges| && pos <= |snap.ranges[r]| then 4 * (|snap.ranges[r]| - pos) + 3 else 0
    case Finish => 1
    case Done(_) => 0
  }

  ghost function WorkCost(snap: Snapshot, long: nat, b: Sibling): nat {
    (if b.held.Some? then long + 3 else 0) + StackCost(snap, b.stack) + ValueCost(b) + TaskCost(snap, b.task)
  }

  ghost function SibCost(snap: Snapshot, long: nat, marked: set<nat>, b: Sibling): nat {
    OpenCost(long, Open(snap, marked, b)) + WorkCost(snap, long, b)
  }

  /** The ranges that nobody has claimed. */
  ghost function RangeCost(snap: Snapshot, counter: nat): nat
    decreases |snap.ranges| - counter
  {
    if counter >= |snap.ranges| then 0 else 4 * |snap.ranges[counter]| + 2 + RangeCost(snap, counter + 1)
  }

  ghost function Costs(snap: Snapshot, long: nat, marked: set<nat>, sibs: seq<Sibling>): seq<nat> {
    seq(|sibs|, s requires 0 <= s < |sibs| => SibCost(snap, long, marked, sibs[s]))
  }

  ghost function Measure(snap: Snapshot, long: nat, st: State): nat {
    RangeCost(snap, st.shared.rootCounter) + Sum(Costs(snap, long, st.shared.marked, st.sibs))
  }

  // ---------------------------------------------------------------- a step of one sibling

  lemma OpenShrinks(long: nat, open: set<nat>, open': set<nat>)
    requires open' <= open
    ensures OpenCost(long, open') <= OpenCost(long, open)
    ensures open' != open ==> OpenCost(long, open') + long + 4 <= OpenCost(long, open)
  {
    SubsetSize(open', open);
    MulGrows(long + 4, |open'|, |open|);
  }

  lemma {:induction false} MulGrows(a: nat, x: nat, y: nat)
    requires x <= y
    ensures a * x <= a * y
    ensures x < y ==> a * x + a <= a * y
    decreases y - x
  {
    if x < y {
      MulGrows(a, x + 1, y);
      assert a * (x + 1) == a * x + a;
    }
  }

  lemma StackPush(snap: Snapshot, stack: seq<Frame>, f: Frame)
    ensures StackCost(snap, stack + [f]) == StackCost(snap, stack) + FrameCost(snap, f)
  {
    assert (stack + [f])[..|stack|] == stack;
  }

  lemma StackTop(snap: Snapshot, b: Sibling)
    requires b.stack != []
    ensures StackCost(snap, b.stack) == StackCost(snap, b.stack[..|b.stack| - 1]) + FrameCost(snap, Top(b))
  {
  }

  lemma FrameBound(snap: Snapshot, long: nat, block: nat)
    requires AtMostLong(snap, long) && block in snap.words
    ensures FrameCost(snap, Frame(block, 0)) <= long + 1
  {
  }

  /** The frames after the write of a mark. */
  lemma WriteStack(snap: Snapshot, long: nat, rec: Recursion, g: Shared, b: Sibling)
    requires snap.Valid() && AtMostLong(snap, long) && b.held.Some? && b.held.value in snap.words
    requires b.stack != [] ==> FrameOk(snap, rec, g.marked, Top(b)) && Top(b).next < |snap.words[Top(b).block]|
    ensures StackCost(snap, Write(rec, g, b).1.stack) <= StackCost(snap, b.stack) + long + 1
  {
    if b.stack == [] {
      FrameBound(snap, long, b.held.value);
      StackPush(snap, [], Frame(b.held.value, 0));
      assert [] + [Frame(b.held.value, 0)] == [Frame(b.held.value, 0)];
    } else {
      var f := Top(b);
      var rest := b.stack[..|b.stack| - 1];
      var callee := if rec.OnTarget? then b.held.value else f.block;
      FrameBound(snap, long, callee);
      StackTop(snap, b);
      StackPush(snap, rest, f.(next := f.next + 1));
      StackPush(snap, rest + [f.(next := f.next + 1)], Frame(callee, 0));
      assert rest + [f.(next := f.next + 1), Frame(callee, 0)] == rest + [f.(next := f.next + 1)] + [Frame(callee, 0)];
    }
  }

  lemma WriteLowers(snap: Snapshot, long: nat, rec: Recursion, g: Shared, b: Sibling)
    requires snap.Valid() && AtMostLong(snap, long) && b.held.Some? && StackOk(snap, rec, g.marked, b)
    ensures var (g', b') := Write(rec, g, b);
      SibCost(snap, long, g'.marked, b') < SibCost(snap, long, g.marked, b) && g'.rootCounter == g.rootCounter
  {
    var (g', b') := Write(rec, g, b);
    assert Open(snap, g'.marked, b') == Open(snap, g.marked, b);
    if b.stack != [] { assert FrameOk(snap, rec, g.marked, b.stack[|b.stack| - 1]); }
    WriteStack(snap, long, rec, g, b);
  }

  lemma ScanLowers(snap: Snapshot, long: nat, rec: Recursion, g: Shared, b: Sibling)
    requires b.held.None? && b.stack != [] && FrameOk(snap, rec, g.marked, Top(b))
    ensures SibCost(snap, long, g.marked, ScanWord(snap, g, b)) < SibCost(snap, long, g.marked, b)
  {
    var b' := ScanWord(snap, g, b);
    var f := Top(b);
    StackTop(snap, b);
    OpenShrinks(long, Open(snap, g.marked, b), Open(snap, g.marked, b'));
    if f.next < |snap.words[f.block]| {
      var v := PtrMask(snap.words[f.block][f.next]);
      if v in snap.pool && v !in g.marked {
        assert v in Open(snap, g.marked, b) && v !in Open(snap, g.marked, b');
      } else {
        StackPush(snap, b.stack[..|b.stack| - 1], f.(next := f.next + 1));
      }
    }
  }

  lemma LookupLowers(snap: Snapshot, long: nat, g: Shared, b: Sibling)
    requires b.held.None? && b.flushing
    ensures SibCost(snap, long, g.marked, Lookup(snap, g, b)) < SibCost(snap, long, g.marked, b)
  {
    var b' := Lookup(snap, g, b);
    OpenShrinks(long, Open(snap, g.marked, b), Open(snap, g.marked, b'));
    if b.todo != {} {
      var v := Least(b.todo);
      assert |b.todo - {v}| == |b.todo| - 1;
      if v in snap.pool && v !in g.marked {
        assert v in Open(snap, g.marked, b) && v !in Open(snap, g.marked, b');
      }
    }
  }

  lemma ElementsSize(xs: seq<nat>)
    ensures |Elements(xs)| <= |xs|
  {
    if xs != [] {
      var ys, x := xs[..|xs| - 1], xs[|xs| - 1];
      ElementsSize(ys);
      assert xs == ys + [x];
      assert Elements(xs) == Elements(ys) + {x};
    }
  }

  lemma ClaimLowers(snap: Snapshot, long: nat, g: Shared, s: nat, b: Sibling)
    requires b.held.None? && !b.flushing && b.task.Claim?
    ensures var (g', b') := ClaimRange(snap, g, s, b);
      && RangeCost(snap, g'.rootCounter) + SibCost(snap, long, g'.marked, b')
         < RangeCost(snap, g.rootCounter) + SibCost(snap, long, g.marked, b)
      && RangeCost(snap, g'.rootCounter) <= RangeCost(snap, g.rootCounter) && g'.marked == g.marked
  {
    var (g', b') := ClaimRange(snap, g, s, b);
    assert Open(snap, g'.marked, b') == Open(snap, g.marked, b);
    ElementsSize(b.lookaside);
  }

  lemma ExamineLowers(snap: Snapshot, long: nat, g: Shared, b: Sibling)
    requires b.held.None? && !b.flushing && b.task.Examine? && b.task.range < |snap.ranges|
    requires b.task.pos <= |snap.ranges[b.task.range]|
    ensures SibCost(snap, long, g.marked, ExamineWord(snap, b)) < SibCost(snap, long, g.marked, b)
  {
    var b' := ExamineWord(snap, b);
    assert Open(snap, g.marked, b') == Open(snap, g.marked, b);
    if b.task.pos < |snap.ranges[b.task.range]| {
      ElementsSize(b.lookaside + [PtrMask(snap.ranges[b.task.range][b.task.pos])]);
    }
  }

  lemma FinishLowers(snap: Snapshot, long: nat, g: Shared, b: Sibling)
    requires b.task.Finish?
    ensures var (g', b') := FinishSibling(snap, g, b);
      SibCost(snap, long, g'.marked, b') < SibCost(snap, long, g.marked, b)
      && g'.rootCounter == g.rootCounter && g'.marked == g.marked
  {
    var (g', b') := FinishSibling(snap, g, b);
    assert Open(snap, g'.marked, b') == Open(snap, g.marked, b);
  }

  /** Every step of a sibling lowers what it and the unclaimed ranges cost together, and neither unmarks nor
      unclaims anything. */
  lemma ActLowers(snap: Snapshot, long: nat, rec: Recursion, g: Shared, s: nat, b: Sibling)
    requires snap.Valid() && AtMostLong(snap, long) && SibOk(snap, rec, g, s, b) && CanAct(snap, b)
    ensures var (g', b') := Act(snap, rec, g, s, b);
      && RangeCost(snap, g'.rootCounter) + SibCost(snap, long, g'.marked, b')
         < RangeCost(snap, g.rootCounter) + SibCost(snap, long, g.marked, b)
      && RangeCost(snap, g'.rootCounter) <= RangeCost(snap, g.rootCounter)
      && g.marked <= g'.marked
  {
    if b.held.Some? {
      WriteLowers(snap, long, rec, g, b);
    } else if b.stack != [] {
      assert FrameOk(snap, rec, g.marked, b.stack[|b.stack| - 1]);
      ScanLowers(snap, long, rec, g, b);
    } else if b.flushing {
      LookupLowers(snap, long, g, b);
    } else if b.task.Claim? {
      ClaimLowers(snap, long, g, s, b);
    } else if b.task.Examine? {
      assert Searched(snap, g.marked, b.lookaside, b.task.range, b.task.pos);
      ExamineLowers(snap, long, g, b);
    } else {
      FinishLowers(snap, long, g, b);
    }
  }

  // ---------------------------------------------------------------- a step of the system

  /** What a sibling has left to do does not grow when others mark entries. */
  lemma OthersLower(snap: Snapshot, long: nat, marked: set<nat>, marked': set<nat>, b: Sibling)
    requires marked <= marked'
    ensures SibCost(snap, long, marked', b) <= SibCost(snap, long, marked, b)
  {
    OpenShrinks(long, Open(snap, marked, b), Open(snap, marked', b));
  }

  lemma StepLowers(snap: Snapshot, long: nat, rec: Recursion, st: State, s: nat)
    requires snap.Valid() && AtMostLong(snap, long) && Enabled(snap, st, s)
    requires SibOk(snap, rec, st.shared, s, st.sibs[s])
    ensures Measure(snap, long, Step(snap, rec, st, s)) < Measure(snap, long, st)
  {
    var g, b := st.shared, st.sibs[s];
    var (g', b') := Act(snap, rec, g, s, b);
    ActLowers(snap, long, rec, g, s, b);
    var xs, ys := Costs(snap, long, g.marked, st.sibs), Costs(snap, long, g'.marked, st.sibs);
    forall i | 0 <= i < |st.sibs| ensures ys[i] <= xs[i] {
      OthersLower(snap, long, g.marked, g'.marked, st.sibs[i]);
    }
    SumDominated(xs, ys, s);
    SumUpdate(ys, s, SibCost(snap, long, g'.marked, b'));
    assert Costs(snap, long, g'.marked, st.sibs[s := b']) == ys[s := SibCost(snap, long, g'.marked, b')];
  }

  lemma {:induction false} RunLowers(snap: Snapshot, long: nat, rec: Recursion, st: State, schedule: seq<nat>,
                                     st': State)
    requires Inv(snap, rec, st) && AtMostLong(snap, long) && Runs(snap, rec, st, schedule, st')
    ensures |schedule| + Measure(snap, long, st') <= Measure(snap, long, st)
    decreases |schedule|
  {
    if schedule != [] {
      var s := schedule[0];
      assert SibOk(snap, rec, st.shared, s, st.sibs[s]);
      StepLowers(snap, long, rec, st, s);
      StepInv(snap, rec, st, s);
      RunLowers(snap, long, rec, Step(snap, rec, st, s), schedule[1..], st');
    }
  }

  lemma IdleCosts(snap: Snapshot, long: nat, sibs: seq<Sibling>)
    requires forall s :: 0 <= s < |sibs| ==> sibs[s] == IDLE
    ensures Sum(Costs(snap, long, {}, sibs)) == |sibs| * (OpenCost(long, snap.pool) + 2)
  {
    assert Open(snap, {}, IDLE) == snap.pool;
    SumOfSame(Costs(snap, long, {}, sibs), OpenCost(long, snap.pool) + 2);
  }

  /** Every run of n siblings ends within a number of steps that depends only on the snapshot and on n. */
  lemma RunsAreBounded(snap: Snapshot, rec: Recursion, st0: State, schedule: seq<nat>, st: State)
    requires snap.Valid() && Init(st0) && Runs(snap, rec, st0, schedule, st)
    ensures |schedule| <= RangeCost(snap, 0) + |st0.sibs| * (OpenCost(Longest(snap), snap.pool) + 2)
  {
    InitInv(snap, rec, st0);
    IdleCosts(snap, Longest(snap), st0.sibs);
    RunLowers(snap, Longest(snap), rec, st0, schedule, st);
  }

  // ---------------------------------------------------------------- nobody is stuck

  lemma SibCanAct(snap: Snapshot, rec: Recursion, g: Shared, s: nat, b: Sibling)
    requires SibOk(snap, rec, g, s, b) && !b.task.Done?
    ensures CanAct(snap, b)
  {
    if b.stack != [] { assert FrameOk(snap, rec, g.marked, b.stack[|b.stack| - 1]); }
    if b.task.Examine? { assert Searched(snap, g.marked, b.lookaside, b.task.range, b.task.pos); }
  }

  /** A sibling gives up claiming only when every range has been claimed. */
  ghost predicate CounterOk(snap: Snapshot, st: State) {
    && (forall s :: 0 <= s < |st.sibs| && (st.sibs[s].task.Finish? || st.sibs[s].task.Done?) ==>
          st.shared.rootCounter >= |snap.ranges|)
    && (snap.ranges == [] ==> forall s :: 0 <= s < |st.sibs| && st.sibs[s].task.Done? ==> st.sibs[s].task == Done(true))
  }

  lemma ActCounts(snap: Snapshot, rec: Recursion, g: Shared, s: nat, b: Sibling)
    requires CanAct(snap, b)
    ensures var (g', b') := Act(snap, rec, g, s, b);
      && g'.rootCounter >= g.rootCounter
      && (b'.task.Finish? || b'.task.Done? ==> b.task.Finish? || g'.rootCounter >= |snap.ranges|)
      && (b'.task.Done? ==> b'.task == Done(g.rootsCompleted + |b.claimed| == |snap.ranges|))
  {
  }

  /** Without ranges there is nothing to claim and nothing to count. */
  lemma NothingToClaim(snap: Snapshot, rec: Recursion, st: State, s: nat)
    requires Inv(snap, rec, st) && snap.ranges == [] && s < |st.sibs|
    ensures st.shared.rootsCompleted == 0 && st.sibs[s].claimed == []
  {
    FinishedBound(snap, st);
    assert SibOk(snap, rec, st.shared, s, st.sibs[s]);
    NothingOwned(st.sibs[s].claimed, st.shared.owner);
  }

  lemma NothingOwned(claimed: seq<nat>, owner: map<nat, nat>)
    requires forall r :: r !in owner
    requires forall i :: 0 <= i < |claimed| ==> claimed[i] in owner
    ensures claimed == []
  {
    assert forall r :: r !in claimed;
    assert multiset(claimed) == multiset{};
    assert |multiset(claimed)| == |claimed|;
  }

  lemma StepCounts(snap: Snapshot, rec: Recursion, st: State, s: nat)
    requires Inv(snap, rec, st) && CounterOk(snap, st) && Enabled(snap, st, s)
    ensures CounterOk(snap, Step(snap, rec, st, s))
  {
    ActCounts(snap, rec, st.shared, s, st.sibs[s]);
    if snap.ranges == [] { NothingToClaim(snap, rec, st, s); }
  }

  lemma {:induction false} RunCounts(snap: Snapshot, rec: Recursion, st: State, schedule: seq<nat>, st': State)
    requires Inv(snap, rec, st) && CounterOk(snap, st) && Runs(snap, rec, st, schedule, st')
    ensures CounterOk(snap, st')
    decreases |schedule|
  {
    if schedule != [] {
      var s := schedule[0];
      StepCounts(snap, rec, st, s);
      StepInv(snap, rec, st, s);
      RunCounts(snap, rec, Step(snap, rec, st, s), schedule[1..], st');
    }
  }

  lemma AllDoneNotified(snap: Snapshot, rec: Recursion, st: State)
    requires Inv(snap, rec, st) && CounterOk(snap, st) && st.sibs != []
    requires forall s :: 0 <= s < |st.sibs| ==> st.sibs[s].task.Done?
    ensures st.shared.rootsCompleted == |snap.ranges|
    ensures Notified(st)
  {
    assert st.sibs[0].task.Done?;
    AllDoneIsTotal(snap, st);
    if snap.ranges != [] {
      var s :| 0 <= s < |st.sibs| && ClaimerNotified(st.sibs[s]);
    }
  }

  /** A sibling that has not finished can take a step, in every state of every run; so a run that cannot be continued
      has all siblings finished, and the parent has been notified. */
  lemma MaximalRunNotifies(snap: Snapshot, rec: Recursion, st0: State, schedule: seq<nat>, st: State)
    requires snap.Valid() && Init(st0) && Runs(snap, rec, st0, schedule, st)
    ensures forall s: nat :: s < |st.sibs| && !st.sibs[s].task.Done? ==> Enabled(snap, st, s)
    ensures (forall s: nat :: !Enabled(snap, st, s)) ==> Notified(st)
  {
    RunFromInit(snap, rec, st0, schedule, st);
    InitInv(snap, rec, st0);
    RunCounts(snap, rec, st0, schedule, st);
    forall s: nat | s < |st.sibs| && !st.sibs[s].task.Done? ensures Enabled(snap, st, s) {
      assert SibOk(snap, rec, st.shared, s, st.sibs[s]);
      SibCanAct(snap, rec, st.shared, s, st.sibs[s]);
    }
    if forall s: nat :: !Enabled(snap, st, s) {
      SameSiblings(snap, rec, st0, schedule, st);
      AllDoneNotified(snap, rec, st);
    }
  }

  lemma {:induction false} SameSiblings(snap: Snapshot, rec: Recursion, st: State, schedule: seq<nat>, st': State)
    requires Runs(snap, rec, st, schedule, st')
    ensures |st'.sibs| == |st.sibs|
    decreases |schedule|
  {
    if schedule != [] {
      SameSiblings(snap, rec, Step(snap, rec, st, schedule[0]), schedule[1..], st');
    }
  }

  /** Among the siblings that claimed a range at most one notifies, and once all are done exactly one has. */
  lemma OneClaimerNotifies(snap: Snapshot, rec: Recursion, st0: State, schedule: seq<nat>, st: State)
    requires snap.Valid() && Init(st0) && Runs(snap, rec, st0, schedule, st)
    ensures forall s, t | 0 <= s < |st.sibs| && 0 <= t < |st.sibs| ::
              ClaimerNotified(st.sibs[s]) && ClaimerNotified(st.sibs[t]) ==> s == t
    ensures (forall s :: 0 <= s < |st.sibs| ==> st.sibs[s].task.Done?) && snap.ranges != [] ==>
              exists s :: 0 <= s < |st.sibs| && ClaimerNotified(st.sibs[s])
  {
    RunFromInit(snap, rec, st0, schedule, st);
    if (forall s :: 0 <= s < |st.sibs| ==> st.sibs[s].task.Done?) && snap.ranges != [] {
      InitInv(snap, rec, st0);
      RunCounts(snap, rec, st0, schedule, st);
      SameSiblings(snap, rec, st0, schedule, st);
      assert st.sibs[0].task.Done?;
      AllDoneIsTotal(snap, st);
    }
  }

  /** What the length of every run is bounded by. */
  ghost function Bound(snap: Snapshot, siblings: nat): nat {
    RangeCost(snap, 0) + siblings * (OpenCost(Longest(snap), snap.pool) + 2)
  }

  lemma OneMore(snap: Snapshot, rec: Recursion, st: State, schedule: seq<nat>, mid: State, s: nat)
    requires Runs(snap, rec, st, schedule, mid) && Enabled(snap, mid, s)
    ensures Runs(snap, rec, st, schedule + [s], Step(snap, rec, mid, s))
    decreases |schedule|
  {
    if schedule == [] {
      assert schedule + [s] == [s] && ([s])[1..] == [];
    } else {
      assert (schedule + [s])[1..] == schedule[1..] + [s];
      OneMore(snap, rec, Step(snap, rec, st, schedule[0]), schedule[1..], mid, s);
    }
  }

  /** Every run can be continued until the parent is notified. */
  lemma {:induction false} NotificationComes(snap: Snapshot, rec: Recursion, st0: State, schedule: seq<nat>, st: State)
    returns (schedule': seq<nat>, st': State)
    requires snap.Valid() && Init(st0) && Runs(snap, rec, st0, schedule, st)
    ensures Runs(snap, rec, st0, schedule', st') && Notified(st') && schedule <= schedule'
    decreases Bound(snap, |st0.sibs|) - |schedule|
  {
    RunsAreBounded(snap, rec, st0, schedule, st);
    MaximalRunNotifies(snap, rec, st0, schedule, st);
    if Notified(st) { return schedule, st; }
    var s: nat :| Enabled(snap, st, s);
    OneMore(snap, rec, st0, schedule, st, s);
    RunsAreBounded(snap, rec, st0, schedule + [s], Step(snap, rec, st, s));
    schedule', st' := NotificationComes(snap, rec, st0, schedule + [s], Step(snap, rec, st, s));
  }

  // ---------------------------------------------------------------- the lookaside list

  /** The list never overflows, and it is looked up exactly when it is full or when its sibling has nothing left to
      search. */
  ghost predicate ListFits(b: Sibling) {
    && |b.lookaside| <= LOOKASIDE_SZ
    && (b.flushing ==> |b.lookaside| == LOOKASIDE_SZ || b.task.Finish?)
    && (!b.flushing ==> |b.lookaside| < LOOKASIDE_SZ)
    && (!b.flushing && (b.task.Finish? || b.task.Done?) ==> b.lookaside == [])
  }

  ghost predicate ListsFit(st: State) {
    forall s :: 0 <= s < |st.sibs| ==> ListFits(st.sibs[s])
  }

  lemma ActFits(snap: Snapshot, rec: Recursion, g: Shared, s: nat, b: Sibling)
    requires CanAct(snap, b) && ListFits(b)
    ensures ListFits(Act(snap, rec, g, s, b).1)
  {
  }

  lemma {:induction false} RunFits(snap: Snapshot, rec: Recursion, st: State, schedule: seq<nat>, st': State)
    requires ListsFit(st) && Runs(snap, rec, st, schedule, st')
    ensures ListsFit(st')
    decreases |schedule|
  {
    if schedule != [] {
      var s := schedule[0];
      ActFits(snap, rec, st.shared, s, st.sibs[s]);
      RunFits(snap, rec, Step(snap, rec, st, s), schedule[1..], st');
    }
  }

  lemma LookasideFits(snap: Snapshot, rec: Recursion, st0: State, schedule: seq<nat>, st: State)
    requires Init(st0) && Runs(snap, rec, st0, schedule, st)
    ensures ListsFit(st)
  {
    RunFits(snap, rec, st0, schedule, st);
  }
}
