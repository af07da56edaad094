/** The ring buffer shared by its owner, which pushes, and the reclaimer, which pops (queue.c 79-185), one memory
    access at a time.  The owner stores values into slots and then advances idx_head; the reclaimer reads idx_head
    once, copies slot by slot, and then stores idx_tail. */
module RingSteps {
  import opened Words
  import opened RingQueue
  import A = Handoff

  datatype Reader = Idle | Reading(limit: nat, out: seq<nat>)

  /** `written` are the values stored but not yet covered by idx_head; `pushed` and `popped` record history. */
  datatype State = State(
    e: seq<nat>,
    head: nat,
    tail: nat,
    written: seq<nat>,
    reader: Reader,
    pushed: seq<nat>,
    popped: seq<nat>)

  datatype Label = Store(value: nat) | Publish | Begin(len: nat) | Copy | Finish

  ghost predicate Init(st: State) {
    |st.e| > 0 && st.head == 0 && st.tail == |st.e| && st.written == [] && st.reader.Idle?
    && st.pushed == [] && st.popped == []
  }

  /** The absolute index of the oldest element. */
  ghost function Oldest(st: State): int {
    st.tail - |st.e|
  }

  /** A store is made only where the owner has seen room; the reclaimer can only have added to it since. */
  ghost predicate Enabled(st: State, l: Label) {
    match l
    case Store(_) => |st.e| > 0 && st.head + |st.written| + 1 < st.tail
    case Publish => st.written != []
    case Begin(_) => st.reader.Idle? && Oldest(st) >= 0
    case Copy => st.reader.Reading? && |st.e| > 0 && Oldest(st) >= 0 && Oldest(st) + |st.reader.out| < st.reader.limit
    case Finish => st.reader.Reading? && Oldest(st) + |st.reader.out| == st.reader.limit
  }

  ghost function Apply(st: State, l: Label): State
    requires Enabled(st, l)
  {
    match l
    case Store(v) => st.(e := st.e[Slot(st.head + |st.written|, |st.e|) := v], written := st.written + [v])
    case Publish => st.(head := st.head + |st.written|, written := [], pushed := st.pushed + st.written)
    case Begin(len) => st.(reader := Reading(Min(st.head, Oldest(st) + len), []))
    case Copy =>
      var i: nat := Oldest(st) + |st.reader.out|;
      st.(reader := st.reader.(out := st.reader.out + [st.e[Slot(i, |st.e|)]]))
    case Finish =>
      st.(tail := st.reader.limit + |st.e|, reader := Idle, popped := st.popped + st.reader.out)
  }

  ghost predicate Runs(st: State, labels: seq<Label>, st': State)
    decreases |labels|
  {
    if labels == [] then st' == st
    else Enabled(st, labels[0]) && Runs(Apply(st, labels[0]), labels[1..], st')
  }

  ghost predicate Bounds(st: State) {
    && |st.e| > 0 && 0 <= Oldest(st) <= st.head
    && st.head + |st.written| < st.tail
  }

  ghost predicate ReaderOk(st: State)
    requires Bounds(st)
  {
    st.reader.Reading? ==>
      && Oldest(st) + |st.reader.out| <= st.reader.limit <= st.head
      && st.reader.out == Window(st.e, Oldest(st), Oldest(st) + |st.reader.out|)
  }

  ghost predicate Inv(st: State) {
    && Bounds(st) && ReaderOk(st)
    && st.popped + Window(st.e, Oldest(st), st.head + |st.written|) == st.pushed + st.written
    && |st.popped| + (st.head - Oldest(st)) == |st.pushed|
  }

  lemma StoreInv(st: State, v: nat)
    requires Inv(st) && Enabled(st, Store(v))
    ensures Inv(Apply(st, Store(v)))
    ensures Window(Apply(st, Store(v)).e, Oldest(st), st.head) == Window(st.e, Oldest(st), st.head)
  {
    var lo, hi := Oldest(st), st.head + |st.written|;
    WindowGrows(st.e, lo, hi, v);
    WindowKept(st.e, lo, st.head, hi, v);
    Regroup(st.popped, Window(st.e, lo, hi), st.pushed, st.written, v);
    if st.reader.Reading? {
      WindowKept(st.e, lo, lo + |st.reader.out|, hi, v);
    }
  }

  lemma Regroup(xs: seq<nat>, ys: seq<nat>, zs: seq<nat>, ws: seq<nat>, v: nat)
    requires xs + ys == zs + ws
    ensures xs + (ys + [v]) == zs + (ws + [v])
  {
    assert xs + (ys + [v]) == xs + ys + [v] && zs + (ws + [v]) == zs + ws + [v];
  }

  lemma CopyInv(st: State)
    requires Inv(st) && Enabled(st, Copy)
    ensures Inv(Apply(st, Copy))
  {
    var lo, n := Oldest(st), |st.reader.out|;
    assert Window(st.e, lo, lo + n + 1) == Window(st.e, lo, lo + n) + [st.e[Slot(lo + n, |st.e|)]];
  }

  lemma FinishInv(st: State)
    requires Inv(st) && Enabled(st, Finish)
    ensures Inv(Apply(st, Finish))
  {
    var st' := Apply(st, Finish);
    var lo, hi := Oldest(st), st.head + |st.written|;
    WindowSplits(st.e, lo, st.reader.limit, hi);
    assert st.popped + (st.reader.out + Window(st.e, st.reader.limit, hi))
        == st'.popped + Window(st'.e, Oldest(st'), hi);
  }

  lemma PublishInv(st: State)
    requires Inv(st) && Enabled(st, Publish)
    ensures Inv(Apply(st, Publish))
  {
    assert st.pushed + st.written + [] == st.pushed + st.written;
  }

  lemma StepInv(st: State, l: Label)
    requires Inv(st) && Enabled(st, l)
    ensures Inv(Apply(st, l))
  {
    match l
    case Store(v) => StoreInv(st, v);
    case Publish => PublishInv(st);
    case Begin(_) =>
    case Copy => CopyInv(st);
    case Finish => FinishInv(st);
  }

  lemma {:induction false} RunInv(st: State, labels: seq<Label>, st': State)
    requires Inv(st) && Runs(st, labels, st')
    ensures Inv(st')
    decreases |labels|
  {
    if labels != [] {
      StepInv(st, labels[0]);
      RunInv(Apply(st, labels[0]), labels[1..], st');
    }
  }

  /** In every run the values popped, followed by those in the buffer, are the values pushed, in order; what the
      reclaimer has copied so far is what it is due next; and one slot is always spare. */
  lemma RingIsFifo(st0: State, labels: seq<Label>, st: State)
    requires Init(st0) && Runs(st0, labels, st)
    ensures Bounds(st)
    ensures st.popped + Window(st.e, Oldest(st), st.head) == st.pushed
    ensures st.reader.Reading? ==> st.popped + st.reader.out <= st.pushed
    ensures st.head - Oldest(st) <= |st.e| - 1
  {
    RunInv(st0, labels, st);
    FifoNow(st);
    if st.reader.Reading? {
      var lo := Oldest(st);
      WindowSplits(st.e, lo, lo + |st.reader.out|, st.head);
    }
  }

  /** No store of the owner touches a slot that the reclaimer has yet to copy, or any other element. */
  lemma StoresSpareElements(st0: State, labels: seq<Label>, st: State, v: nat)
    requires Init(st0) && Runs(st0, labels, st) && Enabled(st, Store(v))
    ensures Bounds(st)
    ensures Window(Apply(st, Store(v)).e, Oldest(st), st.head) == Window(st.e, Oldest(st), st.head)
  {
    RunInv(st0, labels, st);
    StoreInv(st, v);
  }

  // ---------------------------------------------------------------- a bulk pop as one step

  /** The values in the ring, oldest first. */
  ghost function Held(st: State): seq<nat>
    requires Bounds(st)
  {
    Window(st.e, Oldest(st), st.head)
  }

  /** While the reclaimer copies, the owner can only add. */
  ghost predicate Copying(labels: seq<Label>) {
    forall k :: 0 <= k < |labels| ==> !labels[k].Begin? && !labels[k].Finish?
  }

  lemma {:induction false} CopyingKeeps(st: State, labels: seq<Label>, st': State)
    requires Runs(st, labels, st') && Copying(labels) && st.reader.Reading?
    ensures st'.reader.Reading? && st'.reader.limit == st.reader.limit
    ensures st'.tail == st.tail && |st'.e| == |st.e| && st'.popped == st.popped && st.pushed <= st'.pushed
    decreases |labels|
  {
    if labels != [] {
      CopyingKeeps(Apply(st, labels[0]), labels[1..], st');
    }
  }

  /** Both parts of a whole, when another split of a longer whole begins with it. */
  lemma PrefixSplits(xs: seq<nat>, ys: seq<nat>, zs: seq<nat>, ws: seq<nat>, out: seq<nat>, n: nat)
    requires xs + ys <= zs && n <= |ys| && |out| == n && xs + out + ws == zs
    ensures out == ys[..n] && ws == ys[n..] + zs[|xs + ys|..]
  {
    assert out == zs[|xs|..|xs| + n] && ws == zs[|xs| + n..];
    assert ys == zs[|xs|..|xs + ys|];
  }

  /** A bulk pop that begins in b and ends in f, whatever the owner does meanwhile, takes what the ring held when
      idx_head was read, oldest first and as much of it as there is room for.  Afterwards the ring holds the rest of
      that and what the owner has added. */
  lemma BulkPopIsAtomic(st0: State, before: seq<Label>, b: State, len: nat, during: seq<Label>, f: State)
    requires Init(st0) && Runs(st0, before, b) && Enabled(b, Begin(len))
    requires Runs(Apply(b, Begin(len)), during, f) && Copying(during) && Enabled(f, Finish)
    ensures Bounds(b) && Bounds(Apply(f, Finish)) && b.pushed <= f.pushed
    ensures var n, done := Min(len, |Held(b)|), Apply(f, Finish);
      && done.popped == b.popped + Held(b)[..n]
      && Held(done) == Held(b)[n..] + f.pushed[|b.pushed|..]
  {
    var begun, done := Apply(b, Begin(len)), Apply(f, Finish);
    RunInv(st0, before, b);
    StepInv(b, Begin(len));
    RunInv(begun, during, f);
    StepInv(f, Finish);
    CopyingKeeps(begun, during, f);
    FifoNow(b);
    FifoNow(done);
    PrefixSplits(b.popped, Held(b), f.pushed, Held(done), f.reader.out, Min(len, |Held(b)|));
  }

  lemma FifoNow(st: State)
    requires Inv(st)
    ensures st.popped + Held(st) == st.pushed
  {
    var lo, hi := Oldest(st), st.head + |st.written|;
    WindowSplits(st.e, lo, st.head, hi);
    var all := st.popped + Window(st.e, lo, hi);
    assert st.popped + Held(st) == all[..|st.pushed|];
    assert st.pushed == (st.pushed + st.written)[..|st.pushed|];
  }

  /** This is the drain of one ring, in which the reclaimer's buffer gets what the bulk pop has copied. */
  lemma DrainIsBulkPop(c: A.Config, store: A.Store, t: nat, i: nat, st0: State, before: seq<Label>, b: State, len: nat,
                       during: seq<Label>, f: State)
    requires Init(st0) && Runs(st0, before, b) && Enabled(b, Begin(len))
    requires Runs(Apply(b, Begin(len)), during, f) && Copying(during) && Enabled(f, Finish)
    requires t < |store.bufs| && i < |store.rings| && Bounds(b) && store.rings[i] == Held(b)
    requires len == A.MaxPtrs(c) - |store.bufs[t]|
    ensures Bounds(Apply(f, Finish)) && |b.pushed| <= |f.pushed|
    ensures A.DrainRing(c, store, t, i).bufs[t] == store.bufs[t] + f.reader.out
    ensures A.DrainRing(c, store, t, i).rings[i] + f.pushed[|b.pushed|..] == Held(Apply(f, Finish))
  {
    BulkPopIsAtomic(st0, before, b, len, during, f);
    CopyingKeeps(Apply(b, Begin(len)), during, f);
    assert Apply(f, Finish).popped == b.popped + f.reader.out;
    assert f.reader.out == (b.popped + f.reader.out)[|b.popped|..];
  }

  // ---------------------------------------------------------------- what the calls ask for

  /** The values that the owner stores in a run, in order. */
  ghost function Stored(labels: seq<Label>): seq<nat> {
    if labels == [] then []
    else (if labels[0].Store? then [labels[0].value] else []) + Stored(labels[1..])
  }

  lemma {:induction false} StoredIsKept(st: State, labels: seq<Label>, st': State)
    requires Runs(st, labels, st')
    ensures st'.pushed + st'.written == st.pushed + st.written + Stored(labels)
    decreases |labels|
  {
    if labels == [] {
      assert st.pushed + st.written + [] == st.pushed + st.written;
    } else {
      var mid, head := Apply(st, labels[0]), if labels[0].Store? then [labels[0].value] else [];
      StoredIsKept(mid, labels[1..], st');
      assert mid.pushed + mid.written == st.pushed + st.written + head;
      var rest := Stored(labels[1..]);
      assert st.pushed + st.written + head + rest == st.pushed + st.written + (head + rest);
    }
  }

  /** Values popped, values held and values stored behind idx_head are, in this order, all that the owner has ever
      stored. */
  lemma NothingIsLost(st0: State, labels: seq<Label>, st: State)
    requires Init(st0) && Runs(st0, labels, st)
    ensures Bounds(st) && st.popped + Held(st) + st.written == Stored(labels)
  {
    RunInv(st0, labels, st);
    StoredIsKept(st0, labels, st);
    FifoNow(st);
    assert st0.pushed + st0.written + Stored(labels) == Stored(labels);
  }

  /** Advancing idx_head adds what has been stored since the last time to what is held, and takes nothing away. */
  lemma PublishShowsStored(st0: State, labels: seq<Label>, st: State)
    requires Init(st0) && Runs(st0, labels, st) && Enabled(st, Publish)
    ensures var st' := Apply(st, Publish);
      && Bounds(st) && Bounds(st') && Held(st') == Held(st) + st.written && st'.popped == st.popped
      && st'.head == st.head + |st.written| && st'.written == []
  {
    var st' := Apply(st, Publish);
    RunInv(st0, labels, st);
    PublishInv(st);
    FifoNow(st);
    FifoNow(st');
    assert st.popped + (Held(st) + st.written) == st.popped + Held(st) + st.written;
    SuffixIsSame(st.popped, Held(st'), Held(st) + st.written);
  }

  lemma SuffixIsSame(xs: seq<nat>, ys: seq<nat>, zs: seq<nat>)
    requires xs + ys == xs + zs
    ensures ys == zs
  {
    assert ys == (xs + ys)[|xs|..] && zs == (xs + zs)[|xs|..];
  }

  /** The owner may store exactly as long as fewer than capacity - 1 values are held and stored together; the reclaimer
      may always begin. */
  lemma RoomExactly(st0: State, labels: seq<Label>, st: State, v: nat, len: nat)
    requires Init(st0) && Runs(st0, labels, st)
    ensures Bounds(st) && (Enabled(st, Store(v)) <==> |Held(st)| + |st.written| < |st.e| - 1)
    ensures Enabled(st, Begin(len)) <==> st.reader.Idle?
  {
    RunInv(st0, labels, st);
  }

  /** A bulk pop that has begun is finished by copying, and by nothing else: one value a step. */
  lemma {:induction false} PopFinishes(st: State) returns (copies: seq<Label>, st': State)
    requires Inv(st) && st.reader.Reading?
    ensures Runs(st, copies, st') && Copying(copies) && Inv(st') && Enabled(st', Finish)
    ensures |copies| == st.reader.limit - Oldest(st) - |st.reader.out|
    ensures st'.pushed == st.pushed && st'.head == st.head && st'.tail == st.tail && |st'.e| == |st.e|
    ensures st'.reader.limit == st.reader.limit
    decreases st.reader.limit - Oldest(st) - |st.reader.out|
  {
    if Oldest(st) + |st.reader.out| == st.reader.limit { return [], st; }
    CopyInv(st);
    var rest;
    rest, st' := PopFinishes(Apply(st, Copy));
    copies := [Copy] + rest;
    assert copies[1..] == rest;
  }

  /** From every reachable state the ring can be emptied by one bulk pop, once the one under way is finished. */
  lemma RingEmpties(st0: State, labels: seq<Label>, st: State) returns (more: seq<Label>, st': State)
    requires Init(st0) && Runs(st0, labels, st)
    ensures Runs(st, more, st') && Bounds(st') && Held(st') == [] && st'.reader.Idle? && st'.popped == st.pushed
  {
    RunInv(st0, labels, st);
    var first, idle := [], st;
    if st.reader.Reading? { first, idle := PopEnds(st); }
    var begun := Apply(idle, Begin(|Held(idle)|));
    StepInv(idle, Begin(|Held(idle)|));
    var second;
    second, st' := PopEnds(begun);
    FifoNow(idle);
    FifoNow(st');
    assert ([Begin(|Held(idle)|)] + second)[1..] == second;
    RunsJoin(st, first, idle, [Begin(|Held(idle)|)] + second, st');
    more := first + ([Begin(|Held(idle)|)] + second);
  }

  lemma PopEnds(st: State) returns (labels: seq<Label>, st': State)
    requires Inv(st) && st.reader.Reading?
    ensures Runs(st, labels, st') && Inv(st') && st'.reader.Idle?
    ensures st'.pushed == st.pushed && st'.head == st.head && Oldest(st') == st.reader.limit
  {
    var copies, full := PopFinishes(st);
    FinishInv(full);
    st' := Apply(full, Finish);
    assert [Finish][1..] == [] && Runs(full, [Finish], st');
    RunsJoin(st, copies, full, [Finish], st');
    labels := copies + [Finish];
  }

  lemma {:induction false} RunsJoin(st: State, labels: seq<Label>, mid: State, more: seq<Label>, st': State)
    requires Runs(st, labels, mid) && Runs(mid, more, st')
    ensures Runs(st, labels + more, st')
    decreases |labels|
  {
    if labels == [] {
      assert labels + more == more;
    } else {
      RunsJoin(Apply(st, labels[0]), labels[1..], mid, more, st');
      assert (labels + more)[1..] == labels[1..] + more;
    }
  }
}
