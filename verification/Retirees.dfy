/** Cooperative freeing of published buffers (buffer.c, util.c, the end of reclaim_iteration).
    Any number of threads claim ranges of a published buffer and free its unmarked entries while the
    collector thread copies the marked ones.  A publication stands for one use of a buffer. */
module Retirees {
  import opened Words
  import opened Sequences

  const FREE_RANGE_SZ := 1024

  /** What forkscan_util_free_ptrs writes over an entry that it is about to free. */
  const REMOVED := 2

  /** `orig` is what was published and `entries` what it has become.  `claims` are the successful claims,
      `survivors` what the collector thread has copied, and `released` how often the buffer went back to its pool. */
  datatype Pub = Pub(
    orig: seq<nat>,
    entries: seq<nat>,
    freeIdx: nat,
    refCount: int,
    claims: seq<(nat, nat)>,
    survivors: seq<nat>,
    released: nat)

  /** Where a thread is in forkscan_util_free_ptrs. */
  datatype Pc =
    | Outside
    | Loop
    | Check
    | Pop
    | Unref
    | ReadBegin
    | Cas(begin: nat)
    | Take
    | Freeing(idx: nat)

  datatype Held = Nothing | Buffer(pub: nat)

  datatype Thread = Thread(pc: Pc, buf: Held, begin: nat, end: nat)

  datatype Gc = Idle | Copying(pub: nat, pos: nat)

  /** `list` is the retiree list, first to last.  `stale` says that some claim began at the end of its
      buffer, and `overrun` that a thread has looked at an entry behind the end. */
  datatype State = State(
    pubs: seq<Pub>,
    list: seq<nat>,
    threads: seq<Thread>,
    gc: Gc,
    freed: multiset<(nat, nat)>,
    stale: bool,
    overrun: bool)

  datatype Label = Publish(orig: seq<nat>) | GcStep | Enter(t: nat) | Leave(t: nat) | Run(t: nat)

  ghost predicate Init(st: State) {
    && st.pubs == [] && st.list == [] && st.gc.Idle? && st.freed == multiset{} && !st.stale && !st.overrun
    && forall t :: 0 <= t < |st.threads| ==> st.threads[t] == Thread(Outside, Nothing, 0, 0)
  }

  /** The marked entries, unmasked, in order. */
  ghost function MarkedOf(xs: seq<nat>): seq<nat> {
    if xs == [] then []
    else
      var rest := MarkedOf(xs[..|xs| - 1]);
      if IsMarked(xs[|xs| - 1]) then rest + [PtrMask(xs[|xs| - 1])] else rest
  }

  ghost function WithPub(st: State, p: nat, pub: Pub): State
    requires p < |st.pubs|
  {
    st.(pubs := st.pubs[p := pub])
  }

  ghost function WithThread(st: State, t: nat, th: Thread): State
    requires t < |st.threads|
  {
    st.(threads := st.threads[t := th])
  }

  /** forkscan_buffer_unref_buffer. */
  ghost function Dropped(pub: Pub): Pub {
    var pub' := pub.(refCount := pub.refCount - 1);
    if pub'.refCount == 0 && pub'.freeIdx >= |pub'.entries| then pub'.(released := pub'.released + 1) else pub'
  }

  ghost predicate Enabled(st: State, l: Label) {
    !st.overrun &&
    match l
    case Publish(orig) => st.gc.Idle? && forall i :: 0 <= i < |orig| ==> orig[i] % 4 <= 1
    case GcStep => st.gc.Copying? && st.gc.pub < |st.pubs|
    case Enter(t) => t < |st.threads| && st.threads[t].pc.Outside?
    case Leave(t) => t < |st.threads| && st.threads[t].pc.Loop?
    case Run(t) =>
      && t < |st.threads|
      && var th := st.threads[t];
      && !th.pc.Outside?
      && (th.buf.Buffer? ==> th.buf.pub < |st.pubs|)
      && (th.buf.Nothing? ==> th.pc.Loop? && forall i :: 0 <= i < |st.list| ==> st.list[i] < |st.pubs|)
  }

  /** forkscan_buffer_get_retiree_buffer. */
  ghost function GetStep(st: State, t: nat): State
    requires Enabled(st, Run(t)) && st.threads[t].buf.Nothing?
  {
    if st.list == [] then
      WithThread(st, t, st.threads[t].(pc := Outside))
    else
      var p := st.list[0];
      var st' := WithPub(st, p, st.pubs[p].(refCount := st.pubs[p].refCount + 1));
      WithThread(st', t, Thread(Check, Buffer(p), 0, 0))
  }

  /** The compare-and-swap on free_idx, whose first operand was read earlier. */
  ghost function CasStep(st: State, t: nat): State
    requires Enabled(st, Run(t)) && st.threads[t].buf.Buffer? && st.threads[t].pc.Cas?
  {
    var th := st.threads[t];
    var pub := st.pubs[th.buf.pub];
    var begin := th.pc.begin;
    var end := if |pub.entries| < begin + FREE_RANGE_SZ then |pub.entries| else begin + FREE_RANGE_SZ;
    if pub.freeIdx != begin then
      WithThread(st, t, th.(pc := Loop))
    else
      var st' := WithPub(st, th.buf.pub, pub.(freeIdx := end, claims := pub.claims + [(begin, end)]));
      WithThread(st', t, th.(pc := Take, begin := begin, end := end)).(stale := st.stale || begin >= |pub.entries|)
  }

  /** Take one entry of the claimed range. */
  ghost function TakeStep(st: State, t: nat): State
    requires Enabled(st, Run(t)) && st.threads[t].buf.Buffer? && st.threads[t].pc.Take?
  {
    var th := st.threads[t];
    var pub := st.pubs[th.buf.pub];
    if th.begin >= |pub.entries| then
      st.(overrun := true)
    else if IsMarked(pub.entries[th.begin]) then
      WithThread(st, t, th.(pc := Loop, begin := th.begin + 1))
    else
      var st' := WithPub(st, th.buf.pub, pub.(entries := pub.entries[th.begin := REMOVED]));
      WithThread(st', t, th.(pc := Freeing(th.begin), begin := th.begin + 1))
  }

  ghost function RunStep(st: State, t: nat): State
    requires Enabled(st, Run(t))
  {
    var th := st.threads[t];
    if th.buf.Nothing? then GetStep(st, t)
    else
      var p := th.buf.pub;
      var pub := st.pubs[p];
      match th.pc
      case Loop => WithThread(st, t, th.(pc := Check))
      case Check =>
        if th.begin != th.end then WithThread(st, t, th.(pc := Take))
        else if pub.freeIdx >= |pub.entries| then WithThread(st, t, th.(pc := Pop))
        else WithThread(st, t, th.(pc := ReadBegin))
      case Pop => WithThread(st, t, th.(pc := Unref)).(list := Without(st.list, p))
      case Unref => WithThread(WithPub(st, p, Dropped(pub)), t, th.(pc := Loop, buf := Nothing))
      case ReadBegin => WithThread(st, t, th.(pc := Cas(pub.freeIdx)))
      case Cas(_) => CasStep(st, t)
      case Take => TakeStep(st, t)
      case Freeing(i) => WithThread(st, t, th.(pc := Loop)).(freed := st.freed + multiset{(p, i)})
      case Outside => st
  }

  ghost function GcApply(st: State): State
    requires Enabled(st, GcStep)
  {
    var p, i := st.gc.pub, st.gc.pos;
    var pub := st.pubs[p];
    if i >= |pub.entries| then
      WithPub(st, p, Dropped(pub)).(gc := Idle)
    else if IsMarked(pub.entries[i]) then
      WithPub(st, p, pub.(survivors := pub.survivors + [PtrMask(pub.entries[i])])).(gc := Copying(p, i + 1))
    else
      st.(gc := Copying(p, i + 1))
  }

  ghost function Apply(st: State, l: Label): State
    requires Enabled(st, l)
  {
    match l
    case Publish(orig) =>
      var p := |st.pubs|;
      st.(pubs := st.pubs + [Pub(orig, orig, 0, 1, [], [], 0)], list := st.list + [p], gc := Copying(p, 0))
    case GcStep => GcApply(st)
    case Enter(t) => WithThread(st, t, st.threads[t].(pc := Loop))
    case Leave(t) => WithThread(st, t, st.threads[t].(pc := Outside))
    case Run(t) => RunStep(st, t)
  }

  ghost predicate Runs(st: State, labels: seq<Label>, st': State)
    decreases |labels|
  {
    if labels == [] then st' == st
    else Enabled(st, labels[0]) && Runs(Apply(st, labels[0]), labels[1..], st')
  }

  // ---------------------------------------------------------------- invariant

  ghost predicate Holds(th: Thread, p: nat) {
    th.buf == Buffer(p)
  }

  ghost function Holders(threads: seq<Thread>, p: nat): set<nat> {
    set t: nat | t < |threads| && Holds(threads[t], p)
  }

  ghost function GcRef(gc: Gc, p: nat): int {
    if gc.Copying? && gc.pub == p then 1 else 0
  }

  ghost predicate InList(st: State, p: nat) {
    |st.pubs| - |st.list| <= p < |st.pubs|
  }

  /** The list is the most recent publications, oldest first. */
  ghost predicate ListOk(st: State) {
    && |st.list| <= |st.pubs|
    && forall i :: 0 <= i < |st.list| ==> st.list[i] == |st.pubs| - |st.list| + i
  }

  ghost predicate CountOk(st: State, p: nat)
    requires p < |st.pubs|
  {
    var pub := st.pubs[p];
    && pub.freeIdx <= |pub.entries|
    && pub.refCount == |Holders(st.threads, p)| + GcRef(st.gc, p)
    && (!InList(st, p) ==> pub.freeIdx == |pub.entries|)
    && (InList(st, p) && pub.entries != [] && pub.freeIdx == |pub.entries| ==> Holders(st.threads, p) != {})
    && ReleasesOk(pub, InList(st, p), GcRef(st.gc, p))
  }

  /** A buffer off the list is released when nobody refers to it.  An empty one may have been released once before,
      while it was in the list: it was if it is there and nobody refers to it. */
  ghost predicate ReleasesOk(pub: Pub, listed: bool, gcRef: int) {
    var off := if !listed && pub.refCount == 0 then 1 else 0;
    && off <= pub.released <= off + 1
    && (pub.released == off + 1 ==> pub.entries == [] && gcRef == 0)
    && (listed && pub.refCount == 0 && pub.entries == [] ==> pub.released == 1)
  }

  /** A claim is nonempty, or it was made at the end of the buffer, which has n entries. */
  ghost predicate ClaimOk(claim: (nat, nat), n: nat) {
    claim.0 < claim.1 || claim.0 == claim.1 == n
  }

  /** Claims start at 0, each starts where the one before it ended, and the last one ends at free_idx. */
  ghost predicate Tiled(claims: seq<(nat, nat)>, end: nat, n: nat) {
    if claims == [] then end == 0
    else
      var last := claims[|claims| - 1];
      ClaimOk(last, n) && last.1 == end && Tiled(claims[..|claims| - 1], last.0, n)
  }

  ghost predicate PubOk(pub: Pub) {
    && |pub.entries| == |pub.orig|
    && pub.freeIdx <= |pub.entries|
    && Tiled(pub.claims, pub.freeIdx, |pub.entries|)
    && forall i | 0 <= i < |pub.orig| ::
         && pub.orig[i] % 4 <= 1
         && (pub.entries[i] == pub.orig[i] || (pub.entries[i] == REMOVED && !IsMarked(pub.orig[i])))
         && (i >= pub.freeIdx ==> pub.entries[i] == pub.orig[i])
  }

  ghost predicate IsFreeing(th: Thread, p: nat, i: nat) {
    th.buf == Buffer(p) && th.pc == Freeing(i)
  }

  ghost predicate Claimed(th: Thread, p: nat, i: nat) {
    th.buf == Buffer(p) && th.begin <= i < th.end
  }

  ghost predicate SomeFreeing(threads: seq<Thread>, p: nat, i: nat) {
    exists t :: 0 <= t < |threads| && IsFreeing(threads[t], p, i)
  }

  ghost predicate SomeClaimed(threads: seq<Thread>, p: nat, i: nat) {
    exists t :: 0 <= t < |threads| && Claimed(threads[t], p, i)
  }

  ghost predicate ThreadShape(th: Thread) {
    && th.begin <= th.end
    && (th.buf.Nothing? ==> th.pc.Outside? || th.pc.Loop?)
    && (th.pc.Pop? || th.pc.Unref? || th.pc.ReadBegin? || th.pc.Cas? ==> th.begin == th.end)
  }

  /** A buffer that a thread holds is at the front of the list or no longer in it. */
  ghost predicate ThreadList(st: State, th: Thread) {
    th.buf.Buffer? ==>
      var p := th.buf.pub;
      && p < |st.pubs|
      && (InList(st, p) ==> p == |st.pubs| - |st.list|)
      && (th.pc.Pop? || th.pc.Unref? ==> st.pubs[p].freeIdx == |st.pubs[p].entries|)
      && (th.pc.Unref? ==> !InList(st, p))
  }

  /** The entries that a thread has claimed are untouched, and the one it is freeing is taken out. */
  ghost predicate ThreadEntries(pubs: seq<Pub>, th: Thread) {
    && (forall p: nat, i: nat | Claimed(th, p, i) ::
          && p < |pubs| && i < pubs[p].freeIdx && i < |pubs[p].entries| && i < |pubs[p].orig|
          && pubs[p].entries[i] == pubs[p].orig[i])
    && (forall p: nat, i: nat | IsFreeing(th, p, i) ::
          p < |pubs| && i < |pubs[p].entries| && pubs[p].entries[i] == REMOVED)
  }

  /** Two threads have no claimed entry in common and are not freeing the same entry. */
  ghost predicate Apart(a: Thread, b: Thread) {
    && (forall p: nat, i: nat :: Claimed(a, p, i) ==> !Claimed(b, p, i))
    && (forall p: nat, i: nat :: IsFreeing(a, p, i) ==> !IsFreeing(b, p, i))
  }

  /** Entry i of publication p is untouched, in exactly one thread's hands, freed once, or a survivor. */
  ghost predicate EntryOk(pub: Pub, threads: seq<Thread>, p: nat, i: nat, freed: nat) {
    && |pub.entries| == |pub.orig|
    && (i >= |pub.entries| ==> freed == 0)
    && (i < |pub.entries| ==>
          && freed <= 1
          && (freed == 1 ==> pub.entries[i] == REMOVED && !SomeFreeing(threads, p, i))
          && (pub.entries[i] == REMOVED && freed == 0 ==> SomeFreeing(threads, p, i))
          && (i < pub.freeIdx && pub.entries[i] == pub.orig[i] && !IsMarked(pub.orig[i]) ==>
                SomeClaimed(threads, p, i)))
  }

  ghost predicate SurvivorsOk(gc: Gc, pub: Pub, p: nat) {
    if GcRef(gc, p) == 1 then
      gc.pos <= |pub.orig| && pub.survivors == MarkedOf(pub.orig[..gc.pos])
    else
      pub.survivors == MarkedOf(pub.orig)
  }

  /** List, reference counts and releases. */
  ghost predicate CountInv(st: State) {
    && ListOk(st)
    && (st.gc.Copying? ==> st.gc.pub < |st.pubs|)
    && (forall p :: 0 <= p < |st.pubs| ==> CountOk(st, p))
    && (forall t :: 0 <= t < |st.threads| ==> ThreadList(st, st.threads[t]))
  }

  ghost predicate PubsOk(st: State) {
    forall p :: 0 <= p < |st.pubs| ==> PubOk(st.pubs[p]) && SurvivorsOk(st.gc, st.pubs[p], p)
  }

  ghost predicate ThreadsOk(st: State) {
    forall t :: 0 <= t < |st.threads| ==> ThreadShape(st.threads[t]) && ThreadEntries(st.pubs, st.threads[t])
  }

  ghost predicate AllApart(threads: seq<Thread>) {
    forall t, u :: 0 <= t < u < |threads| ==> Apart(threads[t], threads[u])
  }

  ghost predicate EntriesOk(st: State) {
    forall p: nat, i: nat ::
      if p < |st.pubs| then EntryOk(st.pubs[p], st.threads, p, i, st.freed[(p, i)]) else st.freed[(p, i)] == 0
  }

  /** Contents of the publications. */
  ghost predicate EntryInv(st: State) {
    PubsOk(st) && ThreadsOk(st) && AllApart(st.threads) && EntriesOk(st)
  }

  /** A thread that is about to take an entry although it has claimed none stands at the end of its buffer. */
  ghost predicate EmptyAtEnd(pubs: seq<Pub>, th: Thread) {
    th.pc.Take? && th.begin == th.end ==>
      th.buf.Buffer? && th.buf.pub < |pubs| && th.begin >= |pubs[th.buf.pub].entries|
  }

  ghost predicate EndInv(st: State) {
    forall t :: 0 <= t < |st.threads| ==> EmptyAtEnd(st.pubs, st.threads[t])
  }

  ghost predicate Nonempty(claims: seq<(nat, nat)>) {
    forall k :: 0 <= k < |claims| ==> claims[k].0 < claims[k].1
  }

  /** `stale` says whether some claim is empty, and only then can a thread stand or look behind the end. */
  ghost predicate FreshInv(st: State) {
    && (!st.stale <==> forall p :: 0 <= p < |st.pubs| ==> Nonempty(st.pubs[p].claims))
    && (st.overrun ==> st.stale)
    && forall t :: 0 <= t < |st.threads| && st.threads[t].pc.Take? && st.threads[t].begin == st.threads[t].end
         ==> st.stale
  }

  ghost predicate Inv(st: State) {
    CountInv(st) && EntryInv(st) && EndInv(st) && FreshInv(st)
  }

  // ---------------------------------------------------------------- list, counts, releases

  lemma HoldersSame(threads: seq<Thread>, threads': seq<Thread>, p: nat)
    requires |threads| == |threads'|
    requires forall t :: 0 <= t < |threads| ==> (Holds(threads[t], p) <==> Holds(threads'[t], p))
    ensures Holders(threads, p) == Holders(threads', p)
  {
  }

  lemma HoldersGain(threads: seq<Thread>, t: nat, th: Thread, p: nat)
    requires t < |threads| && !Holds(threads[t], p) && Holds(th, p)
    ensures Holders(threads[t := th], p) == Holders(threads, p) + {t}
    ensures |Holders(threads[t := th], p)| == |Holders(threads, p)| + 1
  {
    assert Holders(threads[t := th], p) == Holders(threads, p) + {t};
  }

  lemma HoldersLose(threads: seq<Thread>, t: nat, th: Thread, p: nat)
    requires t < |threads| && Holds(threads[t], p) && !Holds(th, p)
    ensures Holders(threads[t := th], p) == Holders(threads, p) - {t}
    ensures |Holders(threads[t := th], p)| == |Holders(threads, p)| - 1
  {
    assert Holders(threads[t := th], p) == Holders(threads, p) - {t};
  }

  ghost predicate SameCounts(pub: Pub, pub': Pub) {
    && pub'.refCount == pub.refCount && pub'.freeIdx == pub.freeIdx
    && |pub'.entries| == |pub.entries| && pub'.released == pub.released
  }

  /** A step of thread t that changes no list, no count and no claim. */
  lemma CountFrame(st: State, st': State, t: nat)
    requires CountInv(st) && t < |st.threads| && |st'.threads| == |st.threads| && |st'.pubs| == |st.pubs|
    requires st'.threads == st.threads[t := st'.threads[t]]
    requires st'.list == st.list && GcSame(st.gc, st'.gc)
    requires forall p :: 0 <= p < |st.pubs| ==> SameCounts(st.pubs[p], st'.pubs[p])
    requires st'.threads[t].buf == st.threads[t].buf && ThreadList(st', st'.threads[t])
    ensures CountInv(st')
  {
    forall p: nat | p < |st'.pubs| ensures CountOk(st', p) {
      HoldersSame(st.threads, st'.threads, p);
      assert CountOk(st, p) && SameCounts(st.pubs[p], st'.pubs[p]);
    }
    forall u | 0 <= u < |st'.threads| ensures ThreadList(st', st'.threads[u]) {
      if u != t { assert ThreadList(st, st.threads[u]); }
    }
  }

  ghost predicate GcSame(gc: Gc, gc': Gc) {
    (gc.Idle? && gc'.Idle?) || (gc.Copying? && gc'.Copying? && gc.pub == gc'.pub)
  }

  lemma GetCounts(st: State, t: nat)
    requires CountInv(st) && Enabled(st, Run(t)) && st.threads[t].buf.Nothing?
    ensures CountInv(GetStep(st, t))
  {
    var st' := GetStep(st, t);
    if st.list == [] {
      CountFrame(st, st', t);
    } else {
      var p := st.list[0];
      forall q: nat | q < |st'.pubs| ensures CountOk(st', q) {
        assert CountOk(st, q);
        if q == p {
          HoldersGain(st.threads, t, st'.threads[t], p);
        } else {
          HoldersSame(st.threads, st'.threads, q);
        }
      }
      forall u | 0 <= u < |st'.threads| ensures ThreadList(st', st'.threads[u]) {
        if u != t { assert ThreadList(st, st.threads[u]); }
      }
    }
  }

  /** A thread only pops a buffer that is first in the list or absent from it. */
  lemma WithoutHeld(list: seq<nat>, p: nat)
    requires forall i :: 0 < i < |list| ==> list[i] != p
    ensures Without(list, p) == if list != [] && list[0] == p then list[1..] else list
  {
    if list != [] && list[0] != p {
      assert forall i :: 0 < i < |list[1..]| ==> list[1..][i] == list[i + 1];
      assert list[1..] != [] ==> list[1..][0] == list[1];
      WithoutHeld(list[1..], p);
    }
  }

  lemma PopCounts(st: State, t: nat)
    requires CountInv(st) && Enabled(st, Run(t)) && st.threads[t].buf.Buffer? && st.threads[t].pc.Pop?
    ensures CountInv(RunStep(st, t))
    ensures Without(st.list, st.threads[t].buf.pub) == st.list
            || (st.list != [] && st.list[0] == st.threads[t].buf.pub
                 && Without(st.list, st.threads[t].buf.pub) == st.list[1..])
  {
    var st' := RunStep(st, t);
    var p := st.threads[t].buf.pub;
    assert ThreadList(st, st.threads[t]);
    WithoutHeld(st.list, p);
    forall q: nat | q < |st'.pubs| ensures CountOk(st', q) {
      PopCount(st, t, q);
    }
    forall u | 0 <= u < |st'.threads| ensures ThreadList(st', st'.threads[u]) {
      assert ThreadList(st, st.threads[u]);
    }
  }

  lemma PopCount(st: State, t: nat, q: nat)
    requires CountInv(st) && Enabled(st, Run(t)) && st.threads[t].buf.Buffer? && st.threads[t].pc.Pop?
    requires q < |st.pubs|
    ensures q < |RunStep(st, t).pubs| && CountOk(RunStep(st, t), q)
  {
    var p := st.threads[t].buf.pub;
    assert ThreadList(st, st.threads[t]) && CountOk(st, q);
    WithoutHeld(st.list, p);
    HoldersSame(st.threads, RunStep(st, t).threads, q);
    assert t in Holders(st.threads, p);
  }

  lemma UnrefCounts(st: State, t: nat)
    requires CountInv(st) && Enabled(st, Run(t)) && st.threads[t].buf.Buffer? && st.threads[t].pc.Unref?
    ensures CountInv(RunStep(st, t))
  {
    var st' := RunStep(st, t);
    var p := st.threads[t].buf.pub;
    assert ThreadList(st, st.threads[t]);
    forall q: nat | q < |st'.pubs| ensures CountOk(st', q) {
      assert CountOk(st, q);
      if q == p {
        UnrefCount(st, t);
      } else {
        HoldersSame(st.threads, st'.threads, q);
      }
    }
    forall u | 0 <= u < |st'.threads| ensures ThreadList(st', st'.threads[u]) {
      assert ThreadList(st, st.threads[u]);
    }
  }

  /** The count of the buffer that is dropped. */
  lemma UnrefCount(st: State, t: nat)
    requires Enabled(st, Run(t)) && st.threads[t].buf.Buffer? && st.threads[t].pc.Unref?
    requires ThreadList(st, st.threads[t]) && CountOk(st, st.threads[t].buf.pub)
    ensures CountOk(RunStep(st, t), st.threads[t].buf.pub)
  {
    var p := st.threads[t].buf.pub;
    assert t in Holders(st.threads, p);
    HoldersLose(st.threads, t, RunStep(st, t).threads[t], p);
  }

  lemma CasCounts(st: State, t: nat)
    requires CountInv(st) && Enabled(st, Run(t)) && st.threads[t].buf.Buffer? && st.threads[t].pc.Cas?
    requires st.pubs[st.threads[t].buf.pub].freeIdx <= |st.pubs[st.threads[t].buf.pub].entries|
    ensures CountInv(CasStep(st, t))
  {
    var st' := CasStep(st, t);
    var p := st.threads[t].buf.pub;
    assert ThreadList(st, st.threads[t]);
    forall q: nat | q < |st'.pubs| ensures CountOk(st', q) {
      assert CountOk(st, q);
      HoldersSame(st.threads, st'.threads, q);
      if q == p {
        assert t in Holders(st'.threads, p);
      }
    }
    forall u | 0 <= u < |st'.threads| ensures ThreadList(st', st'.threads[u]) {
      assert ThreadList(st, st.threads[u]);
    }
  }

  lemma PublishCounts(st: State, orig: seq<nat>)
    requires CountInv(st) && Enabled(st, Publish(orig))
    ensures CountInv(Apply(st, Publish(orig)))
  {
    var st' := Apply(st, Publish(orig));
    forall q: nat | q < |st'.pubs| ensures CountOk(st', q) {
      if q < |st.pubs| {
        assert CountOk(st, q);
      } else {
        forall t: nat | t < |st.threads| ensures !Holds(st.threads[t], q) {
          assert ThreadList(st, st.threads[t]);
        }
        assert Holders(st'.threads, q) == {};
      }
    }
    forall u | 0 <= u < |st'.threads| ensures ThreadList(st', st'.threads[u]) {
      assert ThreadList(st, st.threads[u]);
    }
  }

  lemma GcCounts(st: State)
    requires CountInv(st) && Enabled(st, GcStep)
    ensures CountInv(Apply(st, GcStep))
  {
    var st' := Apply(st, GcStep);
    forall q: nat | q < |st'.pubs| ensures CountOk(st', q) {
      assert CountOk(st, q);
    }
    forall u | 0 <= u < |st'.threads| ensures ThreadList(st', st'.threads[u]) {
      assert ThreadList(st, st.threads[u]);
    }
  }

  /** The steps of forkscan_util_free_ptrs that touch neither the list nor a count. */
  lemma QuietCounts(st: State, t: nat)
    requires CountInv(st) && Enabled(st, Run(t)) && st.threads[t].buf.Buffer?
    requires !st.threads[t].pc.Pop? && !st.threads[t].pc.Unref? && !st.threads[t].pc.Cas?
    ensures CountInv(RunStep(st, t))
  {
    assert ThreadList(st, st.threads[t]);
    assert CountOk(st, st.threads[t].buf.pub);
    RunMovesOne(st, t);
    QuietMoves(st, t);
    CountFrame(st, RunStep(st, t), t);
  }

  lemma QuietMoves(st: State, t: nat)
    requires Enabled(st, Run(t)) && st.threads[t].buf.Buffer?
    requires !st.threads[t].pc.Pop? && !st.threads[t].pc.Unref? && !st.threads[t].pc.Cas?
    requires ThreadList(st, st.threads[t]) && CountOk(st, st.threads[t].buf.pub)
    ensures var st' := RunStep(st, t);
      && st'.list == st.list && st'.gc == st.gc && |st'.pubs| == |st.pubs| && |st'.threads| == |st.threads|
      && (forall p :: 0 <= p < |st.pubs| ==> SameCounts(st.pubs[p], st'.pubs[p]))
      && st'.threads[t].buf == st.threads[t].buf && ThreadList(st', st'.threads[t])
  {
  }

  lemma RunCounts(st: State, t: nat)
    requires CountInv(st) && Enabled(st, Run(t))
    ensures CountInv(RunStep(st, t))
  {
    var th := st.threads[t];
    if th.buf.Nothing? {
      GetCounts(st, t);
    } else {
      assert CountOk(st, th.buf.pub);
      if th.pc.Pop? { PopCounts(st, t); }
      else if th.pc.Unref? { UnrefCounts(st, t); }
      else if th.pc.Cas? { CasCounts(st, t); }
      else { QuietCounts(st, t); }
    }
  }

  lemma StepCounts(st: State, l: Label)
    requires CountInv(st) && Enabled(st, l)
    ensures CountInv(Apply(st, l))
  {
    match l
    case Publish(orig) => PublishCounts(st, orig);
    case GcStep => GcCounts(st);
    case Enter(t) => assert ThreadList(st, st.threads[t]); CountFrame(st, Apply(st, l), t);
    case Leave(t) => assert ThreadList(st, st.threads[t]); CountFrame(st, Apply(st, l), t);
    case Run(t) => RunCounts(st, t);
  }

  // ---------------------------------------------------------------- entries

  ghost predicate OtherFreeing(threads: seq<Thread>, t: nat, p: nat, i: nat) {
    exists u :: 0 <= u < |threads| && u != t && IsFreeing(threads[u], p, i)
  }

  ghost predicate OtherClaimed(threads: seq<Thread>, t: nat, p: nat, i: nat) {
    exists u :: 0 <= u < |threads| && u != t && Claimed(threads[u], p, i)
  }

  lemma SomeFreeingKept(threads: seq<Thread>, t: nat, th: Thread, p: nat, i: nat)
    requires t < |threads|
    ensures SomeFreeing(threads[t := th], p, i) <==> IsFreeing(th, p, i) || OtherFreeing(threads, t, p, i)
  {
    if OtherFreeing(threads, t, p, i) {
      var u :| 0 <= u < |threads| && u != t && IsFreeing(threads[u], p, i);
      assert IsFreeing(threads[t := th][u], p, i);
    }
    if IsFreeing(th, p, i) { assert IsFreeing(threads[t := th][t], p, i); }
  }

  lemma SomeClaimedKept(threads: seq<Thread>, t: nat, th: Thread, p: nat, i: nat)
    requires t < |threads|
    ensures SomeClaimed(threads[t := th], p, i) <==> Claimed(th, p, i) || OtherClaimed(threads, t, p, i)
  {
    if OtherClaimed(threads, t, p, i) {
      var u :| 0 <= u < |threads| && u != t && Claimed(threads[u], p, i);
      assert Claimed(threads[t := th][u], p, i);
    }
    if Claimed(th, p, i) { assert Claimed(threads[t := th][t], p, i); }
  }

  ghost predicate SameEntries(pub: Pub, pub': Pub) {
    pub' == pub.(refCount := pub'.refCount, released := pub'.released)
  }

  /** A step of thread t that leaves its claims and the entries as they were. */
  lemma EntryFrame(st: State, st': State, t: nat)
    requires EntryInv(st) && t < |st.threads| && |st'.threads| == |st.threads| && |st'.pubs| == |st.pubs|
    requires st'.threads == st.threads[t := st'.threads[t]]
    requires forall p :: 0 <= p < |st.pubs| ==> SameEntries(st.pubs[p], st'.pubs[p])
    requires st'.freed == st.freed && st'.gc == st.gc
    requires ThreadShape(st'.threads[t])
    requires forall p: nat, i: nat :: Claimed(st'.threads[t], p, i) <==> Claimed(st.threads[t], p, i)
    requires forall p: nat, i: nat :: IsFreeing(st'.threads[t], p, i) <==> IsFreeing(st.threads[t], p, i)
    ensures EntryInv(st')
  {
    forall p: nat | p < |st'.pubs| ensures PubOk(st'.pubs[p]) && SurvivorsOk(st'.gc, st'.pubs[p], p) {
      assert SameEntries(st.pubs[p], st'.pubs[p]);
    }
    forall u | 0 <= u < |st'.threads| ensures ThreadShape(st'.threads[u]) && ThreadEntries(st'.pubs, st'.threads[u]) {
      assert ThreadEntries(st.pubs, st.threads[u]);
    }
    forall u, v | 0 <= u < v < |st'.threads| ensures Apart(st'.threads[u], st'.threads[v]) {
      assert Apart(st.threads[u], st.threads[v]);
    }
    forall p: nat, i: nat | p < |st'.pubs| ensures EntryOk(st'.pubs[p], st'.threads, p, i, st'.freed[(p, i)]) {
      assert EntryOk(st.pubs[p], st.threads, p, i, st.freed[(p, i)]) && SameEntries(st.pubs[p], st'.pubs[p]);
      SomeSame(st.threads, t, st'.threads[t], p, i);
    }
  }

  lemma SomeSame(threads: seq<Thread>, t: nat, th: Thread, p: nat, i: nat)
    requires t < |threads|
    requires Claimed(th, p, i) <==> Claimed(threads[t], p, i)
    requires IsFreeing(th, p, i) <==> IsFreeing(threads[t], p, i)
    ensures SomeClaimed(threads[t := th], p, i) <==> SomeClaimed(threads, p, i)
    ensures SomeFreeing(threads[t := th], p, i) <==> SomeFreeing(threads, p, i)
  {
    SomeSplit(threads, t, th, p, i);
  }

  /** What the threads together claim and free, when thread t becomes th. */
  lemma SomeSplit(threads: seq<Thread>, t: nat, th: Thread, p: nat, i: nat)
    requires t < |threads|
    ensures SomeFreeing(threads[t := th], p, i) <==> IsFreeing(th, p, i) || OtherFreeing(threads, t, p, i)
    ensures SomeClaimed(threads[t := th], p, i) <==> Claimed(th, p, i) || OtherClaimed(threads, t, p, i)
    ensures SomeFreeing(threads, p, i) <==> IsFreeing(threads[t], p, i) || OtherFreeing(threads, t, p, i)
    ensures SomeClaimed(threads, p, i) <==> Claimed(threads[t], p, i) || OtherClaimed(threads, t, p, i)
  {
    SomeFreeingKept(threads, t, th, p, i);
    SomeClaimedKept(threads, t, th, p, i);
    SomeFreeingKept(threads, t, threads[t], p, i);
    SomeClaimedKept(threads, t, threads[t], p, i);
    assert threads[t := threads[t]] == threads;
  }

  lemma ApartEitherWay(threads: seq<Thread>, u: nat, v: nat)
    requires u < |threads| && v < |threads| && u != v && AllApart(threads)
    ensures Apart(threads[u], threads[v])
  {
    if u > v { assert Apart(threads[v], threads[u]); }
  }

  lemma StillApart(threads: seq<Thread>, t: nat, th: Thread)
    requires t < |threads| && AllApart(threads)
    requires forall u :: 0 <= u < |threads| && u != t ==> Apart(threads[u], th)
    ensures AllApart(threads[t := th])
  {
    var threads' := threads[t := th];
    forall u, v | 0 <= u < v < |threads| ensures Apart(threads'[u], threads'[v]) {
      assert Apart(threads[u], threads[v]);
    }
  }

  // The compare-and-swap.

  ghost predicate Wins(st: State, t: nat) {
    && EntryInv(st) && Enabled(st, Run(t)) && st.threads[t].buf.Buffer? && st.threads[t].pc.Cas?
    && st.pubs[st.threads[t].buf.pub].freeIdx == st.threads[t].pc.begin
  }

  /** The claimed entries are the next ones, and no thread has claimed any of them. */
  lemma NewClaim(st: State, t: nat)
    requires Wins(st, t)
    ensures var p, th' := st.threads[t].buf.pub, CasStep(st, t).threads[t];
      && th'.begin == st.pubs[p].freeIdx <= th'.end == CasStep(st, t).pubs[p].freeIdx <= |st.pubs[p].entries|
      && forall u :: 0 <= u < |st.threads| && u != t ==> Apart(st.threads[u], th')
  {
    var th, th' := st.threads[t], CasStep(st, t).threads[t];
    assert ThreadShape(th) && PubOk(st.pubs[th.buf.pub]);
    forall u | 0 <= u < |st.threads| && u != t ensures Apart(st.threads[u], th') {
      assert ThreadEntries(st.pubs, st.threads[u]);
    }
  }

  lemma CasPubs(st: State, t: nat)
    requires Wins(st, t)
    ensures PubsOk(CasStep(st, t))
  {
    var st' := CasStep(st, t);
    var p := st.threads[t].buf.pub;
    NewClaim(st, t);
    assert PubOk(st.pubs[p]);
    var cs := st'.pubs[p].claims;
    assert cs[..|cs| - 1] == st.pubs[p].claims;
    assert PubOk(st'.pubs[p]);
  }

  lemma CasThreads(st: State, t: nat)
    requires Wins(st, t)
    ensures ThreadsOk(CasStep(st, t))
  {
    var st' := CasStep(st, t);
    NewClaim(st, t);
    assert PubOk(st.pubs[st.threads[t].buf.pub]);
    forall u | 0 <= u < |st'.threads| ensures ThreadShape(st'.threads[u]) && ThreadEntries(st'.pubs, st'.threads[u]) {
      assert ThreadEntries(st.pubs, st.threads[u]);
    }
  }

  lemma CasEntryOk(st: State, t: nat, q: nat, i: nat)
    requires Wins(st, t) && q < |st.pubs|
    ensures var st' := CasStep(st, t); EntryOk(st'.pubs[q], st'.threads, q, i, st'.freed[(q, i)])
  {
    NewClaim(st, t);
    assert ThreadShape(st.threads[t]);
    assert EntryOk(st.pubs[q], st.threads, q, i, st.freed[(q, i)]);
    SomeSplit(st.threads, t, CasStep(st, t).threads[t], q, i);
  }

  lemma CasEntries(st: State, t: nat)
    requires EntryInv(st) && Enabled(st, Run(t)) && st.threads[t].buf.Buffer? && st.threads[t].pc.Cas?
    ensures EntryInv(CasStep(st, t))
  {
    assert ThreadShape(st.threads[t]);
    if st.pubs[st.threads[t].buf.pub].freeIdx != st.threads[t].pc.begin {
      EntryFrame(st, CasStep(st, t), t);
    } else {
      CasPubs(st, t);
      CasThreads(st, t);
      NewClaim(st, t);
      StillApart(st.threads, t, CasStep(st, t).threads[t]);
      forall q: nat, i: nat | q < |st.pubs|
        ensures var st' := CasStep(st, t); EntryOk(st'.pubs[q], st'.threads, q, i, st'.freed[(q, i)])
      {
        CasEntryOk(st, t, q, i);
      }
    }
  }

  // Taking an entry.

  ghost predicate Takes(st: State, t: nat) {
    && EntryInv(st) && Enabled(st, Run(t)) && st.threads[t].buf.Buffer? && st.threads[t].pc.Take?
    && st.threads[t].begin < st.threads[t].end
  }

  /** The entry that is taken was claimed by this thread and is untouched. */
  lemma TakenEntry(st: State, t: nat)
    requires Takes(st, t)
    ensures var th := st.threads[t]; var pub := st.pubs[th.buf.pub];
      && th.begin < |pub.entries| == |pub.orig|
      && th.begin < pub.freeIdx
      && pub.entries[th.begin] == pub.orig[th.begin]
      && pub.orig[th.begin] % 4 <= 1
      && !TakeStep(st, t).overrun
  {
    var th := st.threads[t];
    assert ThreadShape(th) && ThreadEntries(st.pubs, th) && Claimed(th, th.buf.pub, th.begin);
    assert PubOk(st.pubs[th.buf.pub]);
  }

  /** Nobody else has it, and it has not been freed. */
  lemma TakenOnce(st: State, t: nat)
    requires Takes(st, t)
    ensures var th := st.threads[t];
      && st.freed[(th.buf.pub, th.begin)] == 0
      && (forall u :: 0 <= u < |st.threads| ==> !IsFreeing(st.threads[u], th.buf.pub, th.begin))
      && (forall u :: 0 <= u < |st.threads| && u != t ==> !Claimed(st.threads[u], th.buf.pub, th.begin))
  {
    var th := st.threads[t];
    TakenEntry(st, t);
    assert Claimed(th, th.buf.pub, th.begin);
    NotBeingFreed(st, th.buf.pub, th.begin);
    NotYetFreed(st, th.buf.pub, th.begin);
    forall u | 0 <= u < |st.threads| && u != t ensures !Claimed(st.threads[u], th.buf.pub, th.begin) {
      ApartEitherWay(st.threads, u, t);
    }
  }

  lemma NotYetFreed(st: State, p: nat, i: nat)
    requires EntriesOk(st) && p < |st.pubs| && i < |st.pubs[p].entries| && st.pubs[p].entries[i] != REMOVED
    ensures st.freed[(p, i)] == 0
  {
    assert EntryOk(st.pubs[p], st.threads, p, i, st.freed[(p, i)]);
  }

  /** An entry that is as it was published is in nobody's hands. */
  lemma NotBeingFreed(st: State, p: nat, i: nat)
    requires ThreadsOk(st) && p < |st.pubs| && i < |st.pubs[p].entries| && st.pubs[p].entries[i] != REMOVED
    ensures forall u :: 0 <= u < |st.threads| ==> !IsFreeing(st.threads[u], p, i)
  {
    forall u | 0 <= u < |st.threads| ensures !IsFreeing(st.threads[u], p, i) {
      assert ThreadEntries(st.pubs, st.threads[u]);
    }
  }

  lemma TakerMoves(st: State, t: nat)
    requires Takes(st, t)
    ensures var th, st' := st.threads[t], TakeStep(st, t);
      && |st'.threads| == |st.threads| && st'.threads[t].buf == th.buf
      && st'.threads[t].begin == th.begin + 1 && st'.threads[t].end == th.end
  {
    TakenEntry(st, t);
  }

  /** Of what the thread has claimed, this entry is the one that it gives up. */
  lemma TakerClaims(st: State, t: nat)
    requires Takes(st, t)
    ensures var th := st.threads[t]; forall q: nat, i: nat ::
      Claimed(TakeStep(st, t).threads[t], q, i) <==> Claimed(th, q, i) && (q, i) != (th.buf.pub, th.begin)
  {
    TakerMoves(st, t);
  }

  lemma TakePubs(st: State, t: nat)
    requires Takes(st, t)
    ensures PubsOk(TakeStep(st, t))
  {
    var st' := TakeStep(st, t);
    var p := st.threads[t].buf.pub;
    TakenEntry(st, t);
    assert PubOk(st.pubs[p]) && SurvivorsOk(st.gc, st.pubs[p], p);
    assert PubOk(st'.pubs[p]);
  }

  lemma TakeApart(st: State, t: nat)
    requires Takes(st, t)
    ensures AllApart(TakeStep(st, t).threads)
  {
    var th' := TakeStep(st, t).threads[t];
    TakenEntry(st, t);
    TakenOnce(st, t);
    TakerClaims(st, t);
    forall u | 0 <= u < |st.threads| && u != t ensures Apart(st.threads[u], th') {
      ApartEitherWay(st.threads, u, t);
    }
    StillApart(st.threads, t, th');
  }

  lemma TakeThreads(st: State, t: nat)
    requires Takes(st, t)
    ensures ThreadsOk(TakeStep(st, t))
  {
    var st' := TakeStep(st, t);
    TakerShape(st, t);
    forall u: nat | u < |st.threads| ensures ThreadShape(st'.threads[u]) && ThreadEntries(st'.pubs, st'.threads[u]) {
      TakeThread(st, t, u);
    }
  }

  lemma TakerShape(st: State, t: nat)
    requires Takes(st, t)
    ensures |TakeStep(st, t).threads| == |st.threads|
    ensures forall u: nat :: u < |st.threads| ==> ThreadShape(TakeStep(st, t).threads[u])
  {
    TakenEntry(st, t);
    assert ThreadShape(st.threads[t]);
  }

  lemma TakeThread(st: State, t: nat, u: nat)
    requires Takes(st, t) && u < |st.threads|
    ensures ThreadEntries(TakeStep(st, t).pubs, TakeStep(st, t).threads[u])
  {
    TakenEntry(st, t);
    TakenOnce(st, t);
    TakerClaims(st, t);
    assert ThreadEntries(st.pubs, st.threads[u]);
  }

  lemma TakeEntryOk(st: State, t: nat, q: nat, i: nat)
    requires Takes(st, t) && q < |st.pubs|
    ensures var st' := TakeStep(st, t); EntryOk(st'.pubs[q], st'.threads, q, i, st'.freed[(q, i)])
  {
    TakenEntry(st, t);
    TakenOnce(st, t);
    TakerClaims(st, t);
    assert EntryOk(st.pubs[q], st.threads, q, i, st.freed[(q, i)]);
    SomeSplit(st.threads, t, TakeStep(st, t).threads[t], q, i);
  }

  lemma TakeEntries(st: State, t: nat)
    requires Takes(st, t)
    ensures EntryInv(TakeStep(st, t)) && !TakeStep(st, t).overrun
  {
    TakenEntry(st, t);
    TakePubs(st, t);
    TakeThreads(st, t);
    TakeApart(st, t);
    forall q: nat, i: nat | q < |st.pubs|
      ensures var st' := TakeStep(st, t); EntryOk(st'.pubs[q], st'.threads, q, i, st'.freed[(q, i)])
    {
      TakeEntryOk(st, t, q, i);
    }
  }

  // Freeing it.

  ghost predicate Frees(st: State, t: nat) {
    EntryInv(st) && Enabled(st, Run(t)) && st.threads[t].buf.Buffer? && st.threads[t].pc.Freeing?
  }

  lemma FreeThreads(st: State, t: nat)
    requires Frees(st, t)
    ensures ThreadsOk(RunStep(st, t)) && AllApart(RunStep(st, t).threads)
  {
    var st' := RunStep(st, t);
    assert ThreadShape(st.threads[t]) && ThreadEntries(st.pubs, st.threads[t]);
    forall p: nat, i: nat ensures Claimed(st'.threads[t], p, i) <==> Claimed(st.threads[t], p, i) {}
    forall u | 0 <= u < |st.threads| && u != t ensures Apart(st.threads[u], st'.threads[t]) {
      ApartEitherWay(st.threads, u, t);
    }
    StillApart(st.threads, t, st'.threads[t]);
    assert ThreadEntries(st'.pubs, st'.threads[t]);
  }

  lemma FreeEntryOk(st: State, t: nat, q: nat, i: nat)
    requires Frees(st, t) && q < |st.pubs|
    ensures var st' := RunStep(st, t); EntryOk(st'.pubs[q], st'.threads, q, i, st'.freed[(q, i)])
  {
    var th := st.threads[t];
    assert ThreadEntries(st.pubs, th) && IsFreeing(th, th.buf.pub, th.pc.idx);
    assert EntryOk(st.pubs[q], st.threads, q, i, st.freed[(q, i)]);
    SomeSplit(st.threads, t, RunStep(st, t).threads[t], q, i);
    if IsFreeing(th, q, i) {
      forall u | 0 <= u < |st.threads| && u != t ensures !IsFreeing(st.threads[u], q, i) {
        ApartEitherWay(st.threads, u, t);
      }
    }
  }

  lemma FreeEntries(st: State, t: nat)
    requires Frees(st, t)
    ensures EntryInv(RunStep(st, t))
  {
    FreeThreads(st, t);
    assert ThreadEntries(st.pubs, st.threads[t]);
    assert IsFreeing(st.threads[t], st.threads[t].buf.pub, st.threads[t].pc.idx);
    forall q: nat, i: nat | q < |st.pubs|
      ensures var st' := RunStep(st, t); EntryOk(st'.pubs[q], st'.threads, q, i, st'.freed[(q, i)])
    {
      FreeEntryOk(st, t, q, i);
    }
  }

  // The collector thread.

  /** A thread's claims do not concern a new publication. */
  lemma PublishThread(st: State, orig: seq<nat>, u: nat)
    requires EntryInv(st) && Enabled(st, Publish(orig)) && u < |st.threads|
    ensures ThreadEntries(Apply(st, Publish(orig)).pubs, st.threads[u])
  {
    assert ThreadEntries(st.pubs, st.threads[u]);
  }

  lemma PublishEntries(st: State, orig: seq<nat>)
    requires EntryInv(st) && Enabled(st, Publish(orig))
    ensures EntryInv(Apply(st, Publish(orig)))
  {
    var st' := Apply(st, Publish(orig));
    var p := |st.pubs|;
    assert orig[..0] == [];
    forall q: nat | q < |st'.pubs| ensures PubOk(st'.pubs[q]) && SurvivorsOk(st'.gc, st'.pubs[q], q) {
      if q < p { assert PubOk(st.pubs[q]) && SurvivorsOk(st.gc, st.pubs[q], q); }
    }
    forall u | 0 <= u < |st'.threads| ensures ThreadShape(st'.threads[u]) && ThreadEntries(st'.pubs, st'.threads[u]) {
      PublishThread(st, orig, u);
    }
    forall q: nat, i: nat | q < |st'.pubs| ensures EntryOk(st'.pubs[q], st'.threads, q, i, st'.freed[(q, i)]) {
      if q < p { assert EntryOk(st.pubs[q], st.threads, q, i, st.freed[(q, i)]); }
    }
  }

  lemma MarkedGrows(orig: seq<nat>, i: nat)
    requires i < |orig|
    ensures MarkedOf(orig[..i + 1]) == MarkedOf(orig[..i]) + if IsMarked(orig[i]) then [PtrMask(orig[i])] else []
  {
    assert orig[..i + 1][..i] == orig[..i];
  }

  /** The collector thread's own step, on the publication it is copying from. */
  lemma GcPub(st: State)
    requires PubsOk(st) && Enabled(st, GcStep)
    ensures var st', p := GcApply(st), st.gc.pub;
      p < |st'.pubs| && PubOk(st'.pubs[p]) && SurvivorsOk(st'.gc, st'.pubs[p], p)
  {
    var p := st.gc.pub;
    assert PubOk(st.pubs[p]) && SurvivorsOk(st.gc, st.pubs[p], p);
    GcKeepsPub(st);
    GcSurvivors(st);
  }

  lemma GcKeepsPub(st: State)
    requires Enabled(st, GcStep) && PubOk(st.pubs[st.gc.pub])
    ensures PubOk(GcApply(st).pubs[st.gc.pub])
  {
  }

  lemma GcSurvivors(st: State)
    requires Enabled(st, GcStep) && PubOk(st.pubs[st.gc.pub]) && SurvivorsOk(st.gc, st.pubs[st.gc.pub], st.gc.pub)
    ensures SurvivorsOk(GcApply(st).gc, GcApply(st).pubs[st.gc.pub], st.gc.pub)
  {
    var i, pub := st.gc.pos, st.pubs[st.gc.pub];
    if i < |pub.entries| {
      MarkedGrows(pub.orig, i);
    } else {
      assert pub.orig[..i] == pub.orig;
    }
  }

  lemma GcPubs(st: State)
    requires PubsOk(st) && Enabled(st, GcStep)
    ensures PubsOk(GcApply(st))
  {
    var st' := GcApply(st);
    GcPub(st);
    forall q: nat | q < |st'.pubs| && q != st.gc.pub
      ensures PubOk(st'.pubs[q]) && SurvivorsOk(st'.gc, st'.pubs[q], q)
    {
      assert PubOk(st.pubs[q]) && SurvivorsOk(st.gc, st.pubs[q], q);
    }
  }

  /** The collector thread changes nothing that the freeing threads look at. */
  lemma GcView(st: State, q: nat)
    requires Enabled(st, GcStep) && q < |st.pubs|
    ensures var pub, pub' := st.pubs[q], GcApply(st).pubs[q];
      pub'.orig == pub.orig && pub'.entries == pub.entries && pub'.freeIdx == pub.freeIdx
  {
  }

  lemma GcEntries(st: State)
    requires EntryInv(st) && Enabled(st, GcStep)
    ensures EntryInv(GcApply(st))
  {
    var pubs, pubs' := st.pubs, GcApply(st).pubs;
    GcPubs(st);
    forall q: nat | q < |pubs|
      ensures pubs'[q].orig == pubs[q].orig && pubs'[q].entries == pubs[q].entries
      ensures pubs'[q].freeIdx == pubs[q].freeIdx
    {
      GcView(st, q);
    }
    forall u | 0 <= u < |st.threads| ensures ThreadShape(st.threads[u]) && ThreadEntries(pubs', st.threads[u]) {
      assert ThreadEntries(pubs, st.threads[u]);
    }
    forall q: nat, j: nat | q < |pubs| ensures EntryOk(pubs'[q], st.threads, q, j, st.freed[(q, j)]) {
      assert EntryOk(pubs[q], st.threads, q, j, st.freed[(q, j)]);
    }
  }

  /** A thread that stands at the end of its buffer reads behind it and changes nothing. */
  lemma OverrunEntries(st: State, t: nat)
    requires EntryInv(st) && Enabled(st, Run(t)) && st.threads[t].buf.Buffer? && st.threads[t].pc.Take?
    requires st.threads[t].begin >= |st.pubs[st.threads[t].buf.pub].entries|
    ensures RunStep(st, t) == st.(overrun := true) && EntryInv(RunStep(st, t))
  {
    OverrunStep(st, t);
    OverrunKeeps(st);
  }

  lemma OverrunStep(st: State, t: nat)
    requires Enabled(st, Run(t)) && st.threads[t].buf.Buffer? && st.threads[t].pc.Take?
    requires st.threads[t].begin >= |st.pubs[st.threads[t].buf.pub].entries|
    ensures RunStep(st, t) == st.(overrun := true)
  {
  }

  lemma OverrunKeeps(st: State)
    requires EntryInv(st)
    ensures EntryInv(st.(overrun := true))
  {
    var st' := st.(overrun := true);
    assert st'.pubs == st.pubs && st'.threads == st.threads && st'.gc == st.gc && st'.freed == st.freed;
    forall p: nat | p < |st'.pubs| ensures PubOk(st'.pubs[p]) && SurvivorsOk(st'.gc, st'.pubs[p], p) {}
    forall u | 0 <= u < |st'.threads| ensures ThreadShape(st'.threads[u]) && ThreadEntries(st'.pubs, st'.threads[u]) {}
    forall p: nat, i: nat | p < |st'.pubs| ensures EntryOk(st'.pubs[p], st'.threads, p, i, st'.freed[(p, i)]) {}
  }

  lemma RunEntries(st: State, t: nat)
    requires CountInv(st) && EntryInv(st) && EndInv(st) && Enabled(st, Run(t))
    ensures EntryInv(RunStep(st, t))
  {
    var th := st.threads[t];
    assert ThreadShape(th);
    if th.buf.Buffer? && th.pc.Cas? { CasEntries(st, t); }
    else if th.buf.Buffer? && th.pc.Take? {
      assert EmptyAtEnd(st.pubs, th);
      if th.begin < th.end { TakeEntries(st, t); } else { OverrunEntries(st, t); }
    }
    else if th.buf.Buffer? && th.pc.Freeing? { FreeEntries(st, t); }
    else { QuietEntries(st, t); }
  }

  /** A step that neither claims nor takes nor frees. */
  lemma QuietEntries(st: State, t: nat)
    requires CountInv(st) && EntryInv(st) && Enabled(st, Run(t))
    requires !(st.threads[t].buf.Buffer?
               && (st.threads[t].pc.Cas? || st.threads[t].pc.Take? || st.threads[t].pc.Freeing?))
    ensures EntryInv(RunStep(st, t))
  {
    assert ThreadShape(st.threads[t]);
    QuietThread(st, t);
    EntryFrame(st, RunStep(st, t), t);
  }

  /** What such a step does to the thread that makes it. */
  lemma QuietThread(st: State, t: nat)
    requires Enabled(st, Run(t)) && ThreadShape(st.threads[t])
    requires !(st.threads[t].buf.Buffer?
               && (st.threads[t].pc.Cas? || st.threads[t].pc.Take? || st.threads[t].pc.Freeing?))
    ensures var st' := RunStep(st, t);
      && |st'.threads| == |st.threads| && st'.threads == st.threads[t := st'.threads[t]]
      && ThreadShape(st'.threads[t])
      && (forall p: nat, i: nat :: Claimed(st'.threads[t], p, i) <==> Claimed(st.threads[t], p, i))
      && (forall p: nat, i: nat :: IsFreeing(st'.threads[t], p, i) <==> IsFreeing(st.threads[t], p, i))
  {
  }

  lemma StepEntries(st: State, l: Label)
    requires CountInv(st) && EntryInv(st) && EndInv(st) && Enabled(st, l)
    ensures EntryInv(Apply(st, l))
  {
    match l
    case Publish(orig) => PublishEntries(st, orig);
    case GcStep => GcEntries(st);
    case Enter(t) => assert ThreadShape(st.threads[t]); EntryFrame(st, Apply(st, l), t);
    case Leave(t) => assert ThreadShape(st.threads[t]); EntryFrame(st, Apply(st, l), t);
    case Run(t) => RunEntries(st, t);
  }

  /** No step changes the length of a buffer. */
  lemma LengthsStay(st: State, l: Label, p: nat)
    requires Enabled(st, l) && p < |st.pubs|
    ensures p < |Apply(st, l).pubs| && |Apply(st, l).pubs[p].entries| == |st.pubs[p].entries|
  {
    if l.Run? { RunKeepsPub(st, l.t, p); }
  }

  lemma RunKeepsPub(st: State, t: nat, p: nat)
    requires Enabled(st, Run(t)) && p < |st.pubs|
    ensures p < |RunStep(st, t).pubs| && |RunStep(st, t).pubs[p].entries| == |st.pubs[p].entries|
    ensures RunStep(st, t).pubs[p].orig == st.pubs[p].orig
  {
  }

  lemma OneThreadMoves(st: State, l: Label, u: nat)
    requires Enabled(st, l) && u < |st.threads| && !((l.Run? || l.Enter? || l.Leave?) && l.t == u)
    ensures u < |Apply(st, l).threads| == |st.threads| && Apply(st, l).threads[u] == st.threads[u]
  {
    if l.Run? { RunMovesOne(st, l.t); }
  }

  lemma RunMovesOne(st: State, t: nat)
    requires Enabled(st, Run(t))
    ensures |RunStep(st, t).threads| == |st.threads|
    ensures RunStep(st, t).threads == st.threads[t := RunStep(st, t).threads[t]]
  {
  }

  /** A claim that begins where it ends begins at the end of the buffer. */
  lemma CasAtEnd(st: State, t: nat)
    requires Enabled(st, Run(t)) && st.threads[t].buf.Buffer? && st.threads[t].pc.Cas?
    ensures EmptyAtEnd(CasStep(st, t).pubs, CasStep(st, t).threads[t])
  {
  }

  lemma RunAtEnd(st: State, t: nat)
    requires EndInv(st) && Enabled(st, Run(t))
    ensures t < |RunStep(st, t).threads| && EmptyAtEnd(RunStep(st, t).pubs, RunStep(st, t).threads[t])
  {
    assert EmptyAtEnd(st.pubs, st.threads[t]);
    if st.threads[t].buf.Buffer? && st.threads[t].pc.Cas? { CasAtEnd(st, t); }
  }

  lemma StepAtEnd(st: State, l: Label)
    requires EndInv(st) && Enabled(st, l)
    ensures EndInv(Apply(st, l))
  {
    var st' := Apply(st, l);
    forall u: nat | u < |st'.threads| ensures EmptyAtEnd(st'.pubs, st'.threads[u]) {
      if u < |st.threads| && !((l.Run? || l.Enter? || l.Leave?) && l.t == u) {
        OneThreadMoves(st, l, u);
        assert EmptyAtEnd(st.pubs, st.threads[u]);
        if st.threads[u].buf.Buffer? && st.threads[u].buf.pub < |st.pubs| { LengthsStay(st, l, st.threads[u].buf.pub); }
      } else if l.Run? {
        RunAtEnd(st, l.t);
      }
    }
  }

  lemma NonemptyGrows(claims: seq<(nat, nat)>, claim: (nat, nat))
    ensures Nonempty(claims + [claim]) <==> Nonempty(claims) && claim.0 < claim.1
  {
    var all := claims + [claim];
    assert all[|claims|] == claim;
    assert forall k :: 0 <= k < |claims| ==> all[k] == claims[k];
  }

  lemma CasFresh(st: State, t: nat)
    requires Inv(st) && Enabled(st, Run(t)) && st.threads[t].buf.Buffer? && st.threads[t].pc.Cas?
    ensures FreshInv(CasStep(st, t))
  {
    var th := st.threads[t];
    var p, begin := th.buf.pub, th.pc.begin;
    var pub, st' := st.pubs[p], CasStep(st, t);
    assert PubOk(pub);
    if pub.freeIdx == begin {
      var claim := (begin, st'.pubs[p].freeIdx);
      NonemptyGrows(pub.claims, claim);
      assert claim.0 < claim.1 <==> begin < |pub.entries|;
      forall q | 0 <= q < |st.pubs| && q != p ensures st'.pubs[q] == st.pubs[q] {}
      if st'.stale && (forall q :: 0 <= q < |st'.pubs| ==> Nonempty(st'.pubs[q].claims)) {
        forall q | 0 <= q < |st.pubs| ensures Nonempty(st.pubs[q].claims) {
          assert Nonempty(st'.pubs[q].claims);
        }
      }
    }
  }

  lemma TakeFresh(st: State, t: nat)
    requires Inv(st) && Enabled(st, Run(t)) && st.threads[t].buf.Buffer? && st.threads[t].pc.Take?
    ensures FreshInv(TakeStep(st, t))
  {
    var th := st.threads[t];
    assert ThreadShape(th) && ThreadEntries(st.pubs, th);
    assert th.begin < th.end ==> Claimed(th, th.buf.pub, th.begin);
    SameClaimsFresh(st, TakeStep(st, t), t);
  }

  /** A step of thread t that records no claim. */
  lemma SameClaimsFresh(st: State, st': State, t: nat)
    requires FreshInv(st) && |st'.pubs| == |st.pubs| && st'.stale == st.stale && |st'.threads| == |st.threads|
    requires forall p :: 0 <= p < |st.pubs| ==> st'.pubs[p].claims == st.pubs[p].claims
    requires st'.overrun ==> st.stale
    requires t < |st.threads| && st'.threads == st.threads[t := st'.threads[t]]
    requires st'.threads[t].pc.Take? && st'.threads[t].begin == st'.threads[t].end ==> st.stale
    ensures FreshInv(st')
  {
  }

  /** The other steps record no claim, and move on to taking an entry only when there is one to take. */
  lemma QuietClaims(st: State, t: nat)
    requires Enabled(st, Run(t)) && !st.threads[t].pc.Cas? && !st.threads[t].pc.Take?
    ensures var st' := RunStep(st, t);
      && |st'.pubs| == |st.pubs| && st'.stale == st.stale && !st'.overrun && |st'.threads| == |st.threads|
      && st'.threads == st.threads[t := st'.threads[t]]
      && !(st'.threads[t].pc.Take? && st'.threads[t].begin == st'.threads[t].end)
  {
  }

  lemma QuietPubs(st: State, t: nat, p: nat)
    requires Enabled(st, Run(t)) && !st.threads[t].pc.Cas? && !st.threads[t].pc.Take? && p < |st.pubs|
    ensures p < |RunStep(st, t).pubs| && RunStep(st, t).pubs[p].claims == st.pubs[p].claims
  {
  }

  lemma RunFresh(st: State, t: nat)
    requires Inv(st) && Enabled(st, Run(t))
    ensures FreshInv(RunStep(st, t))
  {
    var th := st.threads[t];
    assert ThreadShape(th);
    if th.pc.Cas? { CasFresh(st, t); }
    else if th.pc.Take? { TakeFresh(st, t); }
    else {
      QuietClaims(st, t);
      forall p: nat | p < |st.pubs| ensures RunStep(st, t).pubs[p].claims == st.pubs[p].claims { QuietPubs(st, t, p); }
      SameClaimsFresh(st, RunStep(st, t), t);
    }
  }

  lemma PublishFresh(st: State, orig: seq<nat>)
    requires FreshInv(st) && Enabled(st, Publish(orig))
    ensures FreshInv(Apply(st, Publish(orig)))
  {
    var st' := Apply(st, Publish(orig));
    assert forall p :: 0 <= p < |st.pubs| ==> st'.pubs[p] == st.pubs[p];
  }

  lemma StepFresh(st: State, l: Label)
    requires Inv(st) && Enabled(st, l)
    ensures FreshInv(Apply(st, l))
  {
    match l
    case Run(t) => RunFresh(st, t);
    case Publish(orig) => PublishFresh(st, orig);
    case Enter(t) => SameClaimsFresh(st, Apply(st, l), t);
    case Leave(t) => SameClaimsFresh(st, Apply(st, l), t);
    case GcStep => assert forall p :: 0 <= p < |st.pubs| ==> Apply(st, l).pubs[p].claims == st.pubs[p].claims;
  }

  lemma StepInv(st: State, l: Label)
    requires Inv(st) && Enabled(st, l)
    ensures Inv(Apply(st, l))
  {
    StepEntries(st, l);
    StepCounts(st, l);
    StepAtEnd(st, l);
    StepFresh(st, l);
  }

  lemma {:induction false} RunInv(st: State, labels: seq<Label>, st': State)
    requires Inv(st) && Runs(st, labels, st')
    ensures Inv(st')
    decreases |labels|
  {
    if labels != [] {
      StepInv(st, labels[0]);
      RunInv(Apply(st, labels[0]), labels[1..], st');
    }
  }

  lemma RunFromInit(st0: State, labels: seq<Label>, st: State)
    requires Init(st0) && Runs(st0, labels, st)
    ensures Inv(st)
  {
    assert ListOk(st0);
    RunInv(st0, labels, st);
  }

  // ---------------------------------------------------------------- results

  /** No entry is freed twice, no survivor is freed, and what was not freed is as it was published or
      is in the hands of exactly one thread. */
  lemma FreedAtMostOnce(st0: State, labels: seq<Label>, st: State, p: nat, i: nat)
    requires Init(st0) && Runs(st0, labels, st)
    requires p < |st.pubs| && i < |st.pubs[p].orig|
    ensures st.freed[(p, i)] <= 1
    ensures IsMarked(st.pubs[p].orig[i]) ==>
              && st.freed[(p, i)] == 0 && i < |st.pubs[p].entries| && st.pubs[p].entries[i] == st.pubs[p].orig[i]
    ensures forall t, u | 0 <= t < |st.threads| && 0 <= u < |st.threads| ::
              IsFreeing(st.threads[t], p, i) && IsFreeing(st.threads[u], p, i) ==> t == u && st.freed[(p, i)] == 0
  {
    RunFromInit(st0, labels, st);
    assert PubOk(st.pubs[p]) && EntryOk(st.pubs[p], st.threads, p, i, st.freed[(p, i)]);
    forall t, u | 0 <= t < |st.threads| && 0 <= u < |st.threads|
                  && IsFreeing(st.threads[t], p, i) && IsFreeing(st.threads[u], p, i)
      ensures t == u
    {
      assert t < u ==> Apart(st.threads[t], st.threads[u]);
      assert u < t ==> Apart(st.threads[u], st.threads[t]);
    }
  }

  /** When a buffer goes back to its pool, each unmarked entry has been freed exactly once and the marked
      entries, in order, are exactly what was carried over to the next round. */
  lemma ReleasedBufferIsSpent(st0: State, labels: seq<Label>, st: State, p: nat)
    requires Init(st0) && Runs(st0, labels, st)
    requires p < |st.pubs| && st.pubs[p].released > 0
    ensures forall i | 0 <= i < |st.pubs[p].orig| :: st.freed[(p, i)] == if IsMarked(st.pubs[p].orig[i]) then 0 else 1
    ensures st.pubs[p].survivors == MarkedOf(st.pubs[p].orig)
  {
    RunFromInit(st0, labels, st);
    NobodyRefers(st, p);
    assert PubOk(st.pubs[p]) && SurvivorsOk(st.gc, st.pubs[p], p);
    forall i: nat | i < |st.pubs[p].orig| ensures st.freed[(p, i)] == if IsMarked(st.pubs[p].orig[i]) then 0 else 1 {
      assert EntryOk(st.pubs[p], st.threads, p, i, st.freed[(p, i)]);
      SpentEntry(st.pubs[p], st.threads, p, i, st.freed[(p, i)]);
    }
  }

  /** An entry of a buffer that is claimed entirely and in nobody's hands. */
  lemma SpentEntry(pub: Pub, threads: seq<Thread>, p: nat, i: nat, freed: nat)
    requires PubOk(pub) && EntryOk(pub, threads, p, i, freed) && i < |pub.orig| == pub.freeIdx
    requires forall t: nat :: t < |threads| ==> !Holds(threads[t], p)
    ensures freed == if IsMarked(pub.orig[i]) then 0 else 1
  {
    assert !SomeFreeing(threads, p, i) && !SomeClaimed(threads, p, i);
  }

  lemma NobodyRefers(st: State, p: nat)
    requires CountInv(st) && p < |st.pubs| && st.pubs[p].released > 0
    ensures st.pubs[p].entries != [] ==> forall t: nat :: t < |st.threads| ==> !Holds(st.threads[t], p)
    ensures st.pubs[p].freeIdx == |st.pubs[p].entries| && GcRef(st.gc, p) == 0
  {
    assert CountOk(st, p);
    if st.pubs[p].entries != [] {
      assert |Holders(st.threads, p)| == 0;
      forall t: nat | t < |st.threads| ensures !Holds(st.threads[t], p) { assert t !in Holders(st.threads, p); }
    }
  }

  /** Publication p has gone back to its pool at most once, and only when nobody could get hold of it any more. */
  ghost predicate ReleasedWell(st: State, p: nat) {
    p < |st.pubs| &&
    var pub := st.pubs[p];
    && pub.released <= 1
    && (pub.released == 1 ==> p !in st.list && Holders(st.threads, p) == {} && GcRef(st.gc, p) == 0)
  }

  /** A buffer that has entries is released at most once, and then it is not in the list and nobody refers to it; it is
      released as soon as nobody refers to it and all of it has been claimed.  A buffer without entries is released
      twice at most. */
  lemma ReleasedOnceWhenUnused(st0: State, labels: seq<Label>, st: State, p: nat)
    requires Init(st0) && Runs(st0, labels, st) && p < |st.pubs|
    ensures st.pubs[p].orig != [] ==>
              && ReleasedWell(st, p)
              && (st.pubs[p].released == 1 <==> st.pubs[p].refCount == 0 && st.pubs[p].freeIdx == |st.pubs[p].orig|)
    ensures st.pubs[p].orig == [] ==> st.pubs[p].released <= 2
  {
    RunFromInit(st0, labels, st);
    if st.pubs[p].orig != [] {
      NonemptyIsWell(st, p);
    } else {
      assert CountOk(st, p);
    }
  }

  /** A held buffer is the first of the list or has left it, so a pop removes the first node or nothing;
      the last node never leaves before the others. */
  lemma PopTakesTheFront(st0: State, labels: seq<Label>, st: State, t: nat)
    requires Init(st0) && Runs(st0, labels, st)
    requires t < |st.threads| && st.threads[t].buf.Buffer?
    ensures var p := st.threads[t].buf.pub;
      && (p in st.list ==> p == st.list[0])
      && Without(st.list, p) == if p in st.list then st.list[1..] else st.list
  {
    RunFromInit(st0, labels, st);
    var p := st.threads[t].buf.pub;
    assert ThreadList(st, st.threads[t]);
    if p in st.list {
      var k :| 0 <= k < |st.list| && st.list[k] == p;
      assert k == 0;
    }
    WithoutHeld(st.list, p);
  }

  lemma TiledUnfolds(claims: seq<(nat, nat)>, end: nat, n: nat)
    requires Tiled(claims, end, n)
    ensures forall k :: 0 <= k < |claims| ==> ClaimOk(claims[k], n)
    ensures forall k :: 0 < k < |claims| ==> claims[k].0 == claims[k - 1].1
    ensures if claims == [] then end == 0 else claims[0].0 == 0 && claims[|claims| - 1].1 == end
  {
    if claims != [] {
      var last, rest := claims[|claims| - 1], claims[..|claims| - 1];
      TiledUnfolds(rest, last.0, n);
      assert claims == rest + [last];
    }
  }

  /** The claimed ranges tile [0, free_idx) in the order of the claims.  All are nonempty but those made at the end of
      the buffer, and `stale` says whether there are any of these. */
  lemma ClaimsTile(st0: State, labels: seq<Label>, st: State, p: nat)
    requires Init(st0) && Runs(st0, labels, st) && p < |st.pubs|
    ensures var cs := st.pubs[p].claims;
      && (forall k :: 0 <= k < |cs| ==> cs[k].0 < cs[k].1 || cs[k].0 == cs[k].1 == |st.pubs[p].orig|)
      && (!st.stale ==> Nonempty(cs))
      && (forall k :: 0 < k < |cs| ==> cs[k].0 == cs[k - 1].1)
      && (cs == [] ==> st.pubs[p].freeIdx == 0)
      && (cs != [] ==> cs[0].0 == 0 && cs[|cs| - 1].1 == st.pubs[p].freeIdx <= |st.pubs[p].orig|)
  {
    RunFromInit(st0, labels, st);
    assert PubOk(st.pubs[p]);
    TiledUnfolds(st.pubs[p].claims, st.pubs[p].freeIdx, |st.pubs[p].entries|);
  }

  // ---------------------------------------------------------------- publications without entries

  /** What was published is not forgotten. */
  lemma {:induction false} OrigStays(st: State, labels: seq<Label>, st': State, p: nat)
    requires Runs(st, labels, st') && p < |st.pubs|
    ensures p < |st'.pubs| && st'.pubs[p].orig == st.pubs[p].orig
    decreases |labels|
  {
    if labels != [] {
      OrigStep(st, labels[0], p);
      OrigStays(Apply(st, labels[0]), labels[1..], st', p);
    }
  }

  lemma OrigStep(st: State, l: Label, p: nat)
    requires Enabled(st, l) && p < |st.pubs|
    ensures p < |Apply(st, l).pubs| && Apply(st, l).pubs[p].orig == st.pubs[p].orig
  {
    if l.Run? { RunKeepsPub(st, l.t, p); }
  }

  lemma RunsOn(st: State, l: Label, labels: seq<Label>, st': State)
    requires Enabled(st, l) && Runs(Apply(st, l), labels, st')
    ensures Runs(st, [l] + labels, st')
  {
    assert ([l] + labels)[1..] == labels;
  }

  /** The collector thread releases an empty buffer that nobody has got hold of, and leaves it in the list. */
  lemma EmptyIsReleasedInList(st: State) returns (st': State)
    requires CountInv(st) && Enabled(st, Publish([]))
    ensures Runs(Apply(st, Publish([])), [GcStep], st')
    ensures st' == st.(pubs := st.pubs + [Pub([], [], 0, 0, [], [], 1)], list := st.list + [|st.pubs|], gc := Idle)
    ensures !ReleasedWell(st', |st.pubs|)
  {
    var published := Apply(st, Publish([]));
    st' := Apply(published, GcStep);
    assert st'.list[|st.list|] == |st.pubs|;
    assert Runs(st', [], st');
    RunsOn(published, GcStep, [], st');
    assert [GcStep] + [] == [GcStep];
  }

  /** A publication is released at most once and only off the list, whatever happens afterwards, if and only if it has
      entries (the assertion of aggregate_addrs). */
  lemma PublicationIsSafeExactly(st0: State, labels: seq<Label>, st: State, orig: seq<nat>)
    requires Init(st0) && Runs(st0, labels, st) && Enabled(st, Publish(orig))
    ensures orig != [] <==> AlwaysReleasedWell(Apply(st, Publish(orig)), |st.pubs|)
  {
    RunFromInit(st0, labels, st);
    if orig == [] {
      var st' := EmptyIsReleasedInList(st);
      assert Runs(Apply(st, Publish(orig)), [GcStep], st');
    } else {
      StepInv(st, Publish(orig));
      NonemptyStaysWell(Apply(st, Publish(orig)), |st.pubs|);
    }
  }

  /** Publication p is released well in every continuation. */
  ghost predicate AlwaysReleasedWell(st: State, p: nat) {
    forall labels, st' :: Runs(st, labels, st') ==> ReleasedWell(st', p)
  }

  lemma NonemptyStaysWell(st: State, p: nat)
    requires Inv(st) && p < |st.pubs| && st.pubs[p].orig != []
    ensures AlwaysReleasedWell(st, p)
  {
    forall labels, st' | Runs(st, labels, st') ensures ReleasedWell(st', p) {
      OrigStays(st, labels, st', p);
      RunInv(st, labels, st');
      NonemptyIsWell(st', p);
    }
  }

  lemma NonemptyIsWell(st: State, p: nat)
    requires Inv(st) && p < |st.pubs| && st.pubs[p].orig != []
    ensures ReleasedWell(st, p)
    ensures st.pubs[p].released == 1 <==> st.pubs[p].refCount == 0 && st.pubs[p].freeIdx == |st.pubs[p].orig|
  {
    assert CountOk(st, p) && PubOk(st.pubs[p]);
    if st.pubs[p].released == 1 {
      assert |Holders(st.threads, p)| == 0;
    }
  }

  // ---------------------------------------------------------------- dead references

  ghost function ListedEntries(pubs: seq<Pub>, list: seq<nat>): seq<seq<nat>>
    requires forall k :: 0 <= k < |list| ==> list[k] < |pubs|
  {
    seq(|list|, k requires 0 <= k < |list| => pubs[list[k]].entries)
  }

  /** forkscan_buffer_get_dead_references: cut off when `capacity` of them have been found. */
  ghost function DeadReferences(pubs: seq<Pub>, list: seq<nat>, capacity: nat): seq<nat>
    requires forall k :: 0 <= k < |list| ==> list[k] < |pubs|
  {
    Cut(UnmarkedOfAll(ListedEntries(pubs, list)), capacity)
  }

  /** Entry i of buffer p was published without a mark and has not been freed. */
  ghost predicate Unfreed(st: State, p: nat, i: nat) {
    && p < |st.pubs| && i < |st.pubs[p].orig|
    && !IsMarked(st.pubs[p].orig[i])
    && st.freed[(p, i)] == 0
  }

  lemma UnmarkedOfHas(xs: seq<nat>, a: nat)
    ensures a in UnmarkedOf(xs) <==> exists i :: 0 <= i < |xs| && xs[i] == a && a % 4 == 0
  {
    if xs != [] {
      var ys := xs[..|xs| - 1];
      UnmarkedOfHas(ys, a);
      assert forall i :: 0 <= i < |ys| ==> ys[i] == xs[i];
      if a in UnmarkedOf(ys) {
        var i :| 0 <= i < |ys| && ys[i] == a;
        assert xs[i] == a;
      }
      if exists i :: 0 <= i < |xs| && xs[i] == a && a % 4 == 0 {
        var i :| 0 <= i < |xs| && xs[i] == a && a % 4 == 0;
        assert i < |ys| ==> ys[i] == a;
      }
    }
  }

  lemma {:induction false} UnmarkedOfAllHas(contents: seq<seq<nat>>, a: nat)
    ensures a in UnmarkedOfAll(contents) <==> exists xs :: xs in contents && a in UnmarkedOf(xs)
  {
    if contents != [] {
      var front, last := contents[..|contents| - 1], contents[|contents| - 1];
      UnmarkedOfAllHas(front, a);
      assert contents == front + [last];
      assert forall xs :: xs in contents <==> xs in front || xs == last;
      if a in UnmarkedOfAll(contents) {
        if a in UnmarkedOf(last) {
          assert last in contents;
        } else {
          var xs :| xs in front && a in UnmarkedOf(xs);
          assert xs in contents;
        }
      }
    }
  }

  lemma ListedHas(pubs: seq<Pub>, list: seq<nat>, a: nat)
    requires forall k :: 0 <= k < |list| ==> list[k] < |pubs|
    ensures a in UnmarkedOfAll(ListedEntries(pubs, list)) <==> exists p :: p in list && a in UnmarkedOf(pubs[p].entries)
  {
    var contents := ListedEntries(pubs, list);
    UnmarkedOfAllHas(contents, a);
    forall p | p in list ensures pubs[p].entries in contents {
      var k :| 0 <= k < |list| && list[k] == p;
      assert contents[k] == pubs[p].entries;
    }
    forall xs | xs in contents ensures exists p :: p in list && pubs[p].entries == xs {
      var k :| 0 <= k < |contents| && contents[k] == xs;
      assert list[k] in list;
    }
  }

  ghost predicate AllOutside(threads: seq<Thread>) {
    forall t :: 0 <= t < |threads| ==> threads[t].pc.Outside?
  }

  /** While every thread is outside forkscan_util_free_ptrs, an entry of a buffer has clear low bits
      exactly when it was published unmarked and has not been freed. */
  lemma ClearMeansUnfreed(pub: Pub, threads: seq<Thread>, p: nat, i: nat, freed: nat)
    requires PubOk(pub) && EntryOk(pub, threads, p, i, freed) && AllOutside(threads) && i < |pub.orig|
    ensures pub.entries[i] % 4 == 0 <==> !IsMarked(pub.orig[i]) && freed == 0
  {
    assert !SomeFreeing(threads, p, i);
  }

  lemma BufferClear(st: State, p: nat, a: nat)
    requires EntryInv(st) && AllOutside(st.threads) && p < |st.pubs|
    ensures a in UnmarkedOf(st.pubs[p].entries) <==> exists i: nat :: Unfreed(st, p, i) && st.pubs[p].orig[i] == a
  {
    var pub := st.pubs[p];
    assert PubOk(pub);
    UnmarkedOfHas(pub.entries, a);
    forall i: nat | i < |pub.orig| ensures pub.entries[i] % 4 == 0 <==> Unfreed(st, p, i) {
      assert EntryOk(pub, st.threads, p, i, st.freed[(p, i)]);
      ClearMeansUnfreed(pub, st.threads, p, i, st.freed[(p, i)]);
    }
    if a in UnmarkedOf(pub.entries) {
      var i :| 0 <= i < |pub.entries| && pub.entries[i] == a && a % 4 == 0;
      assert Unfreed(st, p, i);
    }
  }

  /** a is the address of an unfreed entry of buffer p. */
  ghost predicate UnfreedIn(st: State, p: nat, a: nat) {
    p < |st.pubs| && exists i: nat :: Unfreed(st, p, i) && st.pubs[p].orig[i] == a
  }

  /** Every address gathered as a dead reference is still unfreed, and unless the capacity cut the
      gathering short, every unfreed entry of a listed buffer has been gathered. */
  lemma DeadReferencesAreUnfreed(st0: State, labels: seq<Label>, st: State, capacity: nat, a: nat)
    requires Init(st0) && Runs(st0, labels, st) && AllOutside(st.threads)
    ensures forall k :: 0 <= k < |st.list| ==> st.list[k] < |st.pubs|
    ensures a in DeadReferences(st.pubs, st.list, capacity) ==> exists p :: p in st.list && UnfreedIn(st, p, a)
    ensures |UnmarkedOfAll(ListedEntries(st.pubs, st.list))| <= capacity ==>
              forall p :: p in st.list && UnfreedIn(st, p, a) ==> a in DeadReferences(st.pubs, st.list, capacity)
  {
    RunFromInit(st0, labels, st);
    ListedHas(st.pubs, st.list, a);
    forall p | p in st.list ensures UnfreedIn(st, p, a) <==> a in UnmarkedOf(st.pubs[p].entries) {
      BufferClear(st, p, a);
    }
  }

  // ---------------------------------------------------------------- stale claims

  /** A thread looks behind the end of a buffer only in runs in which some claim was stale ... */
  lemma OverrunNeedsStaleClaim(st0: State, labels: seq<Label>, st: State)
    requires Init(st0) && Runs(st0, labels, st) && st.overrun
    ensures st.stale && exists p :: 0 <= p < |st.pubs| && !Nonempty(st.pubs[p].claims)
  {
    RunFromInit(st0, labels, st);
  }

  /** ... and a compare-and-swap that succeeds at the end of the buffer makes the thread do so next:
      a successful claim is sound exactly when free_idx was below n_addrs when it was read again. */
  lemma StaleClaimOverruns(st: State, t: nat)
    requires Enabled(st, Run(t)) && st.threads[t].buf.Buffer? && st.threads[t].pc.Cas?
    requires var pub := st.pubs[st.threads[t].buf.pub];
             pub.freeIdx == st.threads[t].pc.begin <= |pub.entries|
    ensures var next := Apply(st, Run(t));
      && Enabled(next, Run(t))
      && (Apply(next, Run(t)).overrun <==> st.threads[t].pc.begin == |st.pubs[st.threads[t].buf.pub].entries|)
  {
  }
}
