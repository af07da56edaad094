/** The whole collector as one transition system: threads that allocate, load, store, drop and retire
    references, and rounds that snapshot, mark, publish and free, in any interleaving.
    A reference is a word whose masked value is the address of a block. */
module Reclaim {
  import opened Words
  import opened Snapshots
  import M = Marking
  import W = MarkingAsWritten

  /** Live: not retired.  Retired: in a ring buffer or a queued buffer.  Tracked: in the working
      buffer or carried over as a survivor.  Dead: published without a mark, not yet freed. */
  datatype Kind = Live | Retired | Tracked | Dead

  datatype Block = Block(kind: Kind, words: seq<nat>)

  datatype Round = Idle | Round(snap: Snapshot, marking: M.State)

  /** `blocks` are the allocated blocks and `roots` the references that threads hold.  `loose` says that a round has
      published an empty working buffer, which leaves a buffer both pooled and listed; `exposed` are the survivors
      that were copied to such a buffer, where the freeing threads find them (`EmptyRounds`). */
  datatype State = State(
    blocks: map<nat, Block>,
    roots: set<nat>,
    round: Round,
    loose: bool,
    exposed: set<nat>)

  datatype Label =
    | Alloc(a: nat, n: nat)
    | Load(p: nat, i: nat)
    | Store(p: nat, i: nat, w: nat)
    | Drop(a: nat)
    | Retire(a: nat)
    | Fork(batch: set<nat>, snap: Snapshot, siblings: nat)
    | Mark(sibling: nat)
    | Publish
    | Free(a: nat)

  const INITIAL := State(map[], {}, Idle, false, {})

  /** The snapshot's pool is the survivors and the batch.  Its ranges hold at least the threads' words
      and the words of every block outside the pool, except that dead blocks may be skipped; anything
      else in the ranges or in the blocks is data that happens to be searched too. */
  ghost predicate SnapshotOf(st: State, batch: set<nat>, snap: Snapshot) {
    BlocksIn(st.blocks, batch, snap) && forall a :: a in st.roots ==> snap.InRanges(a)
  }

  ghost predicate BlocksIn(blocks: map<nat, Block>, batch: set<nat>, snap: Snapshot) {
    && snap.Valid()
    && (forall a :: a in batch ==> a in blocks && blocks[a].kind.Retired?)
    && (forall a :: a in snap.pool <==> a in batch || (a in blocks && blocks[a].kind.Tracked?))
    && (forall b, v | b in blocks && InWords(blocks[b].words, v) ::
          if b in snap.pool then b in snap.words && InWords(snap.words[b], v)
          else blocks[b].kind.Dead? || snap.InRanges(v))
  }

  ghost predicate Enabled(st: State, l: Label) {
    match l
    case Alloc(a, n) => a !in st.blocks && 0 < a && a % 4 == 0
    case Load(p, i) => p in st.roots && p in st.blocks && i < |st.blocks[p].words|
    case Store(p, i, w) =>
      && p in st.roots && p in st.blocks && i < |st.blocks[p].words|
      && (PtrMask(w) == 0 || PtrMask(w) in st.roots)
    case Drop(a) => a in st.roots
    case Retire(a) => a in st.roots && a in st.blocks && st.blocks[a].kind.Live?
    case Fork(batch, snap, siblings) => st.round.Idle? && siblings > 0 && SnapshotOf(st, batch, snap)
    case Mark(s) => st.round.Round? && M.Enabled(st.round.snap, st.round.marking, s)
    case Publish => st.round.Round? && M.Notified(st.round.marking)
    case Free(a) => a in st.blocks && (st.blocks[a].kind.Dead? || a in st.exposed)
  }

  ghost function FreshMarking(siblings: nat): M.State {
    M.State(M.Shared({}, 0, 0, map[], {}), seq(siblings, _ => M.IDLE))
  }

  ghost function Track(blocks: map<nat, Block>, batch: set<nat>): map<nat, Block> {
    map a | a in blocks :: if a in batch then blocks[a].(kind := Tracked) else blocks[a]
  }

  ghost function Bury(blocks: map<nat, Block>, unmarked: set<nat>): map<nat, Block> {
    map a | a in blocks :: if a in unmarked then blocks[a].(kind := Dead) else blocks[a]
  }

  ghost function Apply(rec: M.Recursion, st: State, l: Label): State
    requires Enabled(st, l)
  {
    match l
    case Alloc(a, n) =>
      st.(blocks := st.blocks[a := Block(Live, seq(n, _ => 0))], roots := st.roots + {a})
    case Load(p, i) =>
      var v := PtrMask(st.blocks[p].words[i]);
      if v == 0 then st else st.(roots := st.roots + {v})
    case Store(p, i, w) =>
      var b := st.blocks[p];
      st.(blocks := st.blocks[p := b.(words := b.words[i := w])])
    case Drop(a) => st.(roots := st.roots - {a})
    case Retire(a) => st.(blocks := st.blocks[a := st.blocks[a].(kind := Retired)])
    case Fork(batch, snap, siblings) =>
      st.(blocks := Track(st.blocks, batch), round := Round(snap, FreshMarking(siblings)))
    case Mark(s) =>
      st.(round := Round(st.round.snap, M.Step(st.round.snap, rec, st.round.marking, s)))
    case Publish =>
      var pool, marked := st.round.snap.pool, st.round.marking.shared.marked;
      st.(blocks := Bury(st.blocks, pool - marked), round := Idle,
          loose := st.loose || pool == {}, exposed := if st.loose then pool * marked else {})
    case Free(a) => st.(blocks := st.blocks - {a})
  }

  ghost predicate Runs(rec: M.Recursion, st: State, labels: seq<Label>, st': State)
    decreases |labels|
  {
    if labels == [] then st' == st
    else Enabled(st, labels[0]) && Runs(rec, Apply(rec, st, labels[0]), labels[1..], st')
  }

  // ---------------------------------------------------------------- what must never happen

  ghost predicate RefersTo(st: State, b: nat, v: nat) {
    v != 0 && b in st.blocks && InWords(st.blocks[b].words, v)
  }

  ghost predicate IsHeapPath(st: State, p: seq<nat>) {
    && p != []
    && p[0] in st.roots
    && forall i | 0 < i < |p| :: RefersTo(st, p[i - 1], p[i])
  }

  /** Some thread holds a reference to a, or can acquire one. */
  ghost predicate HeapReachable(st: State, a: nat) {
    exists p :: IsHeapPath(st, p) && p[|p| - 1] == a
  }

  // ---------------------------------------------------------------- invariant

  /** The marks of the round will be complete: always so when the recursion follows the target, and for the
      recursion as written when every reachable entry is a root or is carried by one. */
  ghost predicate MarksSuffice(rec: M.Recursion, snap: Snapshot) {
    rec.OnTarget? || W.AllCarried(snap)
  }

  ghost predicate Doomed(st: State, a: nat) {
    st.round.Round? && a in st.round.snap.pool && !st.round.snap.Reachable(a)
  }

  /** a is dead, or the round that is under way will find it dead. */
  ghost predicate Gone(st: State, a: nat) {
    Doomed(st, a) || (a in st.blocks && st.blocks[a].kind.Dead?)
  }

  ghost predicate Safe(st: State, v: nat) {
    v in st.blocks && !Gone(st, v)
  }

  /** The round is under way on tracked blocks; f is what it has started a depth-first mark from. */
  ghost predicate RoundBase(rec: M.Recursion, f: set<nat>, st: State) {
    && st.exposed == {}
    && (st.round.Round? ==>
          && M.Inv(st.round.snap, rec, st.round.marking)
          && (rec.OnScannedBlock? ==> W.WalkInv(st.round.snap, f, st.round.marking))
          && forall a :: a in st.round.snap.pool ==> a in st.blocks && st.blocks[a].kind.Tracked?)
  }

  ghost predicate SomeBase(rec: M.Recursion, st: State) {
    exists f :: RoundBase(rec, f, st)
  }

  ghost predicate RoundOk(rec: M.Recursion, st: State) {
    && SomeBase(rec, st)
    && (st.round.Round? ==> MarksSuffice(rec, st.round.snap))
  }

  /** What the round has started from after this step, if it had started from f before. */
  ghost function StartedAfter(st: State, l: Label, f: set<nat>): set<nat> {
    if l.Fork? then {}
    else if l.Mark? && st.round.Round? then f + W.Begun(st.round.marking, l.sibling)
    else f
  }

  lemma MarkBase(rec: M.Recursion, f: set<nat>, st: State, s: nat)
    requires RoundBase(rec, f, st) && Enabled(st, Mark(s))
    ensures RoundBase(rec, StartedAfter(st, Mark(s), f), Apply(rec, st, Mark(s)))
  {
    M.StepInv(st.round.snap, rec, st.round.marking, s);
    if rec.OnScannedBlock? { W.StepWalks(st.round.snap, f, st.round.marking, s); }
  }

  lemma ForkBase(rec: M.Recursion, st: State, batch: set<nat>, snap: Snapshot, siblings: nat)
    requires Enabled(st, Fork(batch, snap, siblings)) && st.exposed == {}
    ensures RoundBase(rec, {}, Apply(rec, st, Fork(batch, snap, siblings)))
  {
    M.InitInv(snap, rec, FreshMarking(siblings));
  }

  /** The other steps leave the round and its blocks alone, or end it. */
  lemma OtherBase(rec: M.Recursion, f: set<nat>, st: State, l: Label)
    requires RoundBase(rec, f, st) && Enabled(st, l) && !l.Mark? && !l.Fork? && !st.loose
    ensures RoundBase(rec, f, Apply(rec, st, l))
  {
  }

  lemma StepBase(rec: M.Recursion, f: set<nat>, st: State, l: Label)
    requires RoundBase(rec, f, st) && Enabled(st, l) && !st.loose
    ensures RoundBase(rec, StartedAfter(st, l, f), Apply(rec, st, l))
  {
    match l
    case Mark(s) => MarkBase(rec, f, st, s);
    case Fork(batch, snap, siblings) => ForkBase(rec, st, batch, snap, siblings);
    case _ => OtherBase(rec, f, st, l);
  }

  /** Blocks that are gone are referred to only by blocks that are gone. */
  ghost predicate Inv(rec: M.Recursion, st: State) {
    && !st.loose
    && (forall a :: a in st.blocks ==> 0 < a && a % 4 == 0)
    && (forall v :: v in st.roots ==> Safe(st, v))
    && (forall b, v | RefersTo(st, b, v) && !Gone(st, b) :: Safe(st, v))
    && RoundOk(rec, st)
  }

  lemma BaseKept(rec: M.Recursion, st: State, l: Label)
    requires SomeBase(rec, st) && Enabled(st, l) && !st.loose
    ensures SomeBase(rec, Apply(rec, st, l))
  {
    var f :| RoundBase(rec, f, st);
    StepBase(rec, f, st, l);
  }

  lemma InitInv(rec: M.Recursion)
    ensures Inv(rec, INITIAL)
  {
    assert RoundBase(rec, {}, INITIAL);
  }

  /** Every fork of the run takes a snapshot on which the marks are complete. */
  ghost predicate ForksSuffice(rec: M.Recursion, labels: seq<Label>) {
    forall k :: 0 <= k < |labels| && labels[k].Fork? ==> MarksSuffice(rec, labels[k].snap)
  }

  lemma StoreInv(rec: M.Recursion, st: State, p: nat, i: nat, w: nat)
    requires Inv(rec, st) && Enabled(st, Store(p, i, w))
    ensures Inv(rec, Apply(rec, st, Store(p, i, w)))
  {
    BaseKept(rec, st, Store(p, i, w));
    var st' := Apply(rec, st, Store(p, i, w));
    forall a ensures Gone(st', a) == Gone(st, a) && (Safe(st, a) ==> Safe(st', a)) {}
    forall b, v | RefersTo(st', b, v) && !Gone(st', b)
      ensures Safe(st', v)
    {
      if b != p {
        assert RefersTo(st, b, v);
      } else {
        var j :| 0 <= j < |st'.blocks[p].words| && PtrMask(st'.blocks[p].words[j]) == v;
        if j != i { assert InWords(st.blocks[p].words, v) && RefersTo(st, p, v); }
      }
    }
  }

  lemma AllocInv(rec: M.Recursion, st: State, a: nat, n: nat)
    requires Inv(rec, st) && Enabled(st, Alloc(a, n))
    ensures Inv(rec, Apply(rec, st, Alloc(a, n)))
  {
    BaseKept(rec, st, Alloc(a, n));
    var st' := Apply(rec, st, Alloc(a, n));
    forall v ensures Gone(st', v) == Gone(st, v) && (Safe(st, v) ==> Safe(st', v)) {}
    forall b, v | RefersTo(st', b, v) && !Gone(st', b) ensures Safe(st', v) {
      assert b != a && RefersTo(st, b, v);
    }
  }

  lemma LoadInv(rec: M.Recursion, st: State, p: nat, i: nat)
    requires Inv(rec, st) && Enabled(st, Load(p, i))
    ensures Inv(rec, Apply(rec, st, Load(p, i)))
  {
    BaseKept(rec, st, Load(p, i));
    var st' := Apply(rec, st, Load(p, i));
    var v := PtrMask(st.blocks[p].words[i]);
    assert InWords(st.blocks[p].words, v);
    assert v != 0 ==> RefersTo(st, p, v) && Safe(st, v);
    forall u ensures Gone(st', u) == Gone(st, u) && Safe(st', u) == Safe(st, u) {}
    forall b, u | RefersTo(st', b, u) && !Gone(st', b) ensures Safe(st', u) {
      assert RefersTo(st, b, u);
    }
  }

  /** Steps that add no reference and no block, and that leave alone or remove what is gone. */
  lemma OtherInv(rec: M.Recursion, st: State, l: Label)
    requires Inv(rec, st) && Enabled(st, l) && (l.Drop? || l.Retire? || l.Free?)
    ensures Inv(rec, Apply(rec, st, l))
  {
    BaseKept(rec, st, l);
    var st' := Apply(rec, st, l);
    forall v | v in st'.blocks ensures Gone(st', v) == Gone(st, v) && st'.blocks[v].words == st.blocks[v].words {}
    forall v | Safe(st, v) ensures Safe(st', v) {}
    forall b, v | RefersTo(st', b, v) && !Gone(st', b) ensures Safe(st', v) {
      assert RefersTo(st, b, v);
    }
  }

  /** Dead blocks stay dead at a fork, and no block changes its words. */
  lemma ForkKeepsGone(rec: M.Recursion, st: State, batch: set<nat>, snap: Snapshot, siblings: nat, b: nat)
    requires Enabled(st, Fork(batch, snap, siblings))
    ensures var st' := Apply(rec, st, Fork(batch, snap, siblings));
      && (Gone(st, b) ==> Gone(st', b))
      && (b in st'.blocks <==> b in st.blocks)
      && (b in st.blocks ==> st'.blocks[b].words == st.blocks[b].words)
  {
  }

  lemma ForkInv(rec: M.Recursion, st: State, batch: set<nat>, snap: Snapshot, siblings: nat)
    requires Inv(rec, st) && Enabled(st, Fork(batch, snap, siblings)) && MarksSuffice(rec, snap)
    ensures Inv(rec, Apply(rec, st, Fork(batch, snap, siblings)))
  {
    var st' := Apply(rec, st, Fork(batch, snap, siblings));
    BaseKept(rec, st, Fork(batch, snap, siblings));
    forall v | Safe(st, v) && snap.InRanges(v) ensures Safe(st', v) {
      if v in snap.pool {
        assert snap.Root(v);
        snap.RootIsReachable(v);
      }
    }
    forall b, v | RefersTo(st', b, v) && !Gone(st', b)
      ensures Safe(st', v)
    {
      ForkKeepsGone(rec, st, batch, snap, siblings, b);
      assert RefersTo(st, b, v);
      assert Safe(st, v);
      if b in snap.pool {
        if v in snap.pool {
          assert snap.Hits(b, v);
          snap.HitIsReachable(b, v);
        }
      }
    }
  }

  /** When the parent has been notified, the unmarked entries are exactly the doomed ones. */
  lemma UnmarkedIsDoomed(rec: M.Recursion, st: State)
    requires Inv(rec, st) && Enabled(st, Publish)
    ensures forall a :: a in st.round.snap.pool - st.round.marking.shared.marked <==> Doomed(st, a)
  {
    var snap, m := st.round.snap, st.round.marking;
    var f :| RoundBase(rec, f, st);
    if rec.OnTarget? {
      M.MarkedIsReachableInv(snap, m);
    } else {
      W.CarriedIsEnough(snap, f, m);
    }
  }

  lemma PublishInv(rec: M.Recursion, st: State)
    requires Inv(rec, st) && Enabled(st, Publish) && st.round.snap.pool != {}
    ensures Inv(rec, Apply(rec, st, Publish))
    ensures forall a :: Gone(Apply(rec, st, Publish), a) <==> Gone(st, a)
  {
    BaseKept(rec, st, Publish);
    UnmarkedIsDoomed(rec, st);
    var st' := Apply(rec, st, Publish);
    forall a ensures Gone(st', a) <==> Gone(st, a) {}
    forall a ensures Safe(st', a) <==> Safe(st, a) {}
    forall b, v | RefersTo(st', b, v) && !Gone(st', b) ensures Safe(st', v) {
      assert RefersTo(st, b, v);
    }
  }

  lemma MarkInv(rec: M.Recursion, st: State, s: nat)
    requires Inv(rec, st) && Enabled(st, Mark(s))
    ensures Inv(rec, Apply(rec, st, Mark(s)))
  {
    BaseKept(rec, st, Mark(s));
    var st' := Apply(rec, st, Mark(s));
    forall a ensures Gone(st', a) == Gone(st, a) && Safe(st', a) == Safe(st, a) {}
    forall b, v | RefersTo(st', b, v) && !Gone(st', b) ensures Safe(st', v) {
      assert RefersTo(st, b, v);
    }
  }

  lemma StepInv(rec: M.Recursion, st: State, l: Label)
    requires Inv(rec, st) && Enabled(st, l)
    requires (l.Fork? ==> MarksSuffice(rec, l.snap)) && !Apply(rec, st, l).loose
    ensures Inv(rec, Apply(rec, st, l))
  {
    match l
    case Alloc(a, n) => AllocInv(rec, st, a, n);
    case Store(p, i, w) => StoreInv(rec, st, p, i, w);
    case Fork(batch, snap, siblings) => ForkInv(rec, st, batch, snap, siblings);
    case Mark(s) => MarkInv(rec, st, s);
    case Publish => PublishInv(rec, st);
    case Load(p, i) => LoadInv(rec, st, p, i);
    case _ => OtherInv(rec, st, l);
  }

  /** Nothing makes up for an empty round. */
  lemma {:induction false} LooseStays(rec: M.Recursion, st: State, labels: seq<Label>, st': State)
    requires Runs(rec, st, labels, st') && st.loose
    ensures st'.loose
    decreases |labels|
  {
    if labels != [] { LooseStays(rec, Apply(rec, st, labels[0]), labels[1..], st'); }
  }

  lemma {:induction false} RunInv(rec: M.Recursion, st: State, labels: seq<Label>, st': State)
    requires Inv(rec, st) && Runs(rec, st, labels, st') && ForksSuffice(rec, labels) && !st'.loose
    ensures Inv(rec, st')
    decreases |labels|
  {
    if labels != [] {
      if Apply(rec, st, labels[0]).loose { LooseStays(rec, Apply(rec, st, labels[0]), labels[1..], st'); }
      StepInv(rec, st, labels[0]);
      RunInv(rec, Apply(rec, st, labels[0]), labels[1..], st');
    }
  }

  lemma PathIsSafe(rec: M.Recursion, st: State, p: seq<nat>, k: nat)
    requires Inv(rec, st) && IsHeapPath(st, p) && k < |p|
    ensures Safe(st, p[k])
  {
    if k > 0 {
      PathIsSafe(rec, st, p, k - 1);
      assert RefersTo(st, p[k - 1], p[k]);
    }
  }

  lemma ReachableIsSafe(rec: M.Recursion, st: State, a: nat)
    requires Inv(rec, st) && HeapReachable(st, a)
    ensures a in st.blocks && !st.blocks[a].kind.Dead? && !Enabled(st, Free(a))
  {
    var p :| IsHeapPath(st, p) && p[|p| - 1] == a;
    PathIsSafe(rec, st, p, |p| - 1);
    assert RoundOk(rec, st);
  }

  /** In every run without an empty round, whatever a thread can reach is allocated, is not dead, and cannot be
      freed. */
  lemma NothingReachableIsFreed(labels: seq<Label>, st: State, a: nat)
    requires Runs(M.OnTarget, INITIAL, labels, st) && !st.loose
    requires HeapReachable(st, a)
    ensures a in st.blocks && !st.blocks[a].kind.Dead?
    ensures !Enabled(st, Free(a))
  {
    InitInv(M.OnTarget);
    RunInv(M.OnTarget, INITIAL, labels, st);
    ReachableIsSafe(M.OnTarget, st, a);
  }

  /** The same for the recursion as written, in runs in all of whose snapshots what is reachable is carried. */
  lemma NothingReachableIsFreedAsWritten(labels: seq<Label>, st: State, a: nat)
    requires Runs(M.OnScannedBlock, INITIAL, labels, st) && ForksSuffice(M.OnScannedBlock, labels) && !st.loose
    requires HeapReachable(st, a)
    ensures a in st.blocks && !st.blocks[a].kind.Dead?
    ensures !Enabled(st, Free(a))
  {
    InitInv(M.OnScannedBlock);
    RunInv(M.OnScannedBlock, INITIAL, labels, st);
    ReachableIsSafe(M.OnScannedBlock, st, a);
  }

  /** Nothing is kept needlessly either: publication makes dead exactly the pool entries that were
      unreachable in the snapshot, whatever the threads have done since. */
  lemma PublishedExactly(labels: seq<Label>, st: State, a: nat)
    requires Runs(M.OnTarget, INITIAL, labels, st) && Enabled(st, Publish) && !st.loose
    requires a in st.round.snap.pool
    ensures var st' := Apply(M.OnTarget, st, Publish);
      a in st'.blocks && st'.blocks[a].kind == if st.round.snap.Reachable(a) then Tracked else Dead
  {
    InitInv(M.OnTarget);
    RunInv(M.OnTarget, INITIAL, labels, st);
    UnmarkedIsDoomed(M.OnTarget, st);
  }

  // ---------------------------------------------------------------- what is published as written

  /** The entries that the current round has looked up and found unmarked. */
  ghost function Started(rec: M.Recursion, st: State, labels: seq<Label>, f: set<nat>): set<nat>
    decreases |labels|
  {
    if labels == [] || !Enabled(st, labels[0]) then f
    else Started(rec, Apply(rec, st, labels[0]), labels[1..], StartedAfter(st, labels[0], f))
  }

  lemma {:induction false} RunBase(rec: M.Recursion, f: set<nat>, st: State, labels: seq<Label>, st': State)
    requires RoundBase(rec, f, st) && Runs(rec, st, labels, st') && !st'.loose
    ensures RoundBase(rec, Started(rec, st, labels, f), st')
    decreases |labels|
  {
    if st.loose { LooseStays(rec, st, labels, st'); }
    if labels != [] {
      StepBase(rec, f, st, labels[0]);
      RunBase(rec, StartedAfter(st, labels[0], f), Apply(rec, st, labels[0]), labels[1..], st');
    }
  }

  /** With the recursion as written, in every run without an empty round, publication makes dead exactly the pool
      entries that are neither roots of the snapshot nor targets of roots that the round found unmarked when it looked
      them up. */
  lemma PublishedAsWritten(labels: seq<Label>, st: State, a: nat)
    requires Runs(M.OnScannedBlock, INITIAL, labels, st) && Enabled(st, Publish) && !st.loose
    requires a in st.round.snap.pool
    ensures var f, st' := Started(M.OnScannedBlock, INITIAL, labels, {}), Apply(M.OnScannedBlock, st, Publish);
      && a in st'.blocks
      && st'.blocks[a].kind == if st.round.snap.Root(a) || W.HitFrom(st.round.snap, f, a) then Tracked else Dead
  {
    var f := Started(M.OnScannedBlock, INITIAL, labels, {});
    RunBase(M.OnScannedBlock, {}, INITIAL, labels, st);
    W.MarkedAtTheTotal(st.round.snap, f, st.round.marking);
  }
}
