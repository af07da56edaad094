/** The freeing gets done: in every reachable state all publications that have entries can still be released, unless a
    thread is bound to read behind the end of one (util.c 223-270, buffer.c 184-227). */
module RetireesProgress {
  import opened Words
  import opened Sequences
  import opened Retirees

  lemma Then(st: State, l: Label, rest: seq<Label>, st': State) returns (labels: seq<Label>)
    requires Enabled(st, l) && Runs(Apply(st, l), rest, st')
    ensures Runs(st, labels, st')
  {
    labels := [l] + rest;
    RunsOn(st, l, rest, st');
  }

  lemma {:induction false} RunsJoin(st: State, first: seq<Label>, mid: State, second: seq<Label>, st': State)
    requires Runs(st, first, mid) && Runs(mid, second, st')
    ensures Runs(st, first + second, st')
    decreases |first|
  {
    if first == [] {
      assert first + second == second;
    } else {
      RunsJoin(Apply(st, first[0]), first[1..], mid, second, st');
      SplitsFirst(first, second);
    }
  }

  lemma SplitsFirst(first: seq<Label>, second: seq<Label>)
    requires first != []
    ensures first + second != [] && (first + second)[0] == first[0] && (first + second)[1..] == first[1..] + second
  {
  }

  lemma Joined(st: State, first: seq<Label>, mid: State, second: seq<Label>, st': State) returns (labels: seq<Label>)
    requires Runs(st, first, mid) && Runs(mid, second, st')
    ensures Runs(st, labels, st')
  {
    labels := first + second;
    RunsJoin(st, first, mid, second, st');
  }

  // ---------------------------------------------------------------- threads that are bound to go wrong

  /** Thread t stands at the end of its buffer and is about to claim there, or has done so. */
  ghost predicate Doomed(st: State, t: nat)
    requires t < |st.threads|
  {
    var th := st.threads[t];
    && th.buf.Buffer? && th.buf.pub < |st.pubs|
    && var pub := st.pubs[th.buf.pub];
    && pub.entries != []
    && (|| (th.pc.ReadBegin? && pub.freeIdx == |pub.entries|)
        || (th.pc.Cas? && th.pc.begin == |pub.entries|)
        || (th.pc.Take? && th.begin == th.end))
  }

  ghost predicate NoneDoomed(st: State) {
    forall t: nat :: t < |st.threads| ==> !Doomed(st, t)
  }

  /** A thread reads free_idx only of a buffer that has entries, and what it has read was never too much. */
  ghost predicate ReadOk(pubs: seq<Pub>, th: Thread) {
    th.buf.Buffer? && th.buf.pub < |pubs| ==>
      var pub := pubs[th.buf.pub];
      && (th.pc.ReadBegin? || th.pc.Cas? || th.pc.Take? || th.pc.Freeing? ==> pub.entries != [])
      && (th.pc.Cas? ==> th.pc.begin <= pub.freeIdx)
      && (th.begin < th.end ==> pub.entries != [])
  }

  ghost predicate ReadsOk(st: State) {
    forall t: nat :: t < |st.threads| ==> ReadOk(st.pubs, st.threads[t])
  }

  lemma ReadOfMover(st: State, t: nat)
    requires Inv(st) && ReadsOk(st) && Enabled(st, Run(t))
    ensures t < |RunStep(st, t).threads| && ReadOk(RunStep(st, t).pubs, RunStep(st, t).threads[t])
  {
    var th := st.threads[t];
    assert ReadOk(st.pubs, th);
    if th.buf.Nothing? {
      ReadOfGetter(st, t);
    } else {
      assert PubOk(st.pubs[th.buf.pub]) && ThreadShape(th);
      if th.pc.Cas? { ReadOfClaimer(st, t); } else if th.pc.Take? { ReadOfTaker(st, t); } else { ReadOfOther(st, t); }
    }
  }

  lemma ReadOfGetter(st: State, t: nat)
    requires Enabled(st, Run(t)) && st.threads[t].buf.Nothing?
    ensures t < |RunStep(st, t).threads| && ReadOk(RunStep(st, t).pubs, RunStep(st, t).threads[t])
  {
  }

  lemma ReadOfClaimer(st: State, t: nat)
    requires Enabled(st, Run(t)) && st.threads[t].buf.Buffer? && st.threads[t].pc.Cas? && ReadOk(st.pubs, st.threads[t])
    ensures t < |RunStep(st, t).threads| && ReadOk(RunStep(st, t).pubs, RunStep(st, t).threads[t])
  {
  }

  lemma ReadOfTaker(st: State, t: nat)
    requires Enabled(st, Run(t)) && st.threads[t].buf.Buffer? && st.threads[t].pc.Take?
    requires ReadOk(st.pubs, st.threads[t])
    ensures t < |RunStep(st, t).threads| && ReadOk(RunStep(st, t).pubs, RunStep(st, t).threads[t])
  {
  }

  lemma ReadOfOther(st: State, t: nat)
    requires Enabled(st, Run(t)) && st.threads[t].buf.Buffer? && ReadOk(st.pubs, st.threads[t])
    requires !st.threads[t].pc.Cas? && !st.threads[t].pc.Take?
    requires st.threads[t].begin <= st.threads[t].end
    ensures t < |RunStep(st, t).threads| && ReadOk(RunStep(st, t).pubs, RunStep(st, t).threads[t])
  {
  }

  /** What has been claimed of a buffer only grows. */
  lemma FreeIdxGrows(st: State, l: Label, p: nat)
    requires Inv(st) && Enabled(st, l) && p < |st.pubs|
    ensures p < |Apply(st, l).pubs| && st.pubs[p].freeIdx <= Apply(st, l).pubs[p].freeIdx
  {
    assert PubOk(st.pubs[p]);
    if l.Run? { FreeIdxOfRun(st, l.t, p); }
  }

  lemma FreeIdxOfRun(st: State, t: nat, p: nat)
    requires Enabled(st, Run(t)) && p < |st.pubs| && st.pubs[p].freeIdx <= |st.pubs[p].entries|
    ensures p < |RunStep(st, t).pubs| && st.pubs[p].freeIdx <= RunStep(st, t).pubs[p].freeIdx
  {
  }

  lemma ReadsStep(st: State, l: Label)
    requires Inv(st) && ReadsOk(st) && Enabled(st, l)
    ensures ReadsOk(Apply(st, l))
  {
    var st' := Apply(st, l);
    forall u: nat | u < |st'.threads| ensures ReadOk(st'.pubs, st'.threads[u]) {
      ReadStep(st, l, u);
    }
  }

  lemma ReadStep(st: State, l: Label, u: nat)
    requires Inv(st) && ReadsOk(st) && Enabled(st, l) && u < |Apply(st, l).threads|
    ensures ReadOk(Apply(st, l).pubs, Apply(st, l).threads[u])
  {
    SameThreads(st, l);
    assert ReadOk(st.pubs, st.threads[u]);
    if (l.Run? || l.Enter? || l.Leave?) && l.t == u {
      if l.Run? { ReadOfMover(st, u); } else { PubsStay(st, l); }
    } else {
      OneThreadMoves(st, l, u);
      ReadStays(st, l, u);
    }
  }

  lemma SameThreads(st: State, l: Label)
    requires Enabled(st, l)
    ensures |Apply(st, l).threads| == |st.threads|
  {
  }

  lemma PubsStay(st: State, l: Label)
    requires Enabled(st, l) && (l.Enter? || l.Leave?)
    ensures Apply(st, l).pubs == st.pubs && l.t < |Apply(st, l).threads|
    ensures Apply(st, l).threads[l.t] == st.threads[l.t].(pc := Apply(st, l).threads[l.t].pc)
    ensures Apply(st, l).threads[l.t].pc.Loop? || Apply(st, l).threads[l.t].pc.Outside?
  {
  }

  lemma ReadStays(st: State, l: Label, u: nat)
    requires Inv(st) && ReadsOk(st) && Enabled(st, l) && u < |st.threads|
    ensures ReadOk(Apply(st, l).pubs, st.threads[u])
  {
    assert ReadOk(st.pubs, st.threads[u]) && ThreadList(st, st.threads[u]);
    if st.threads[u].buf.Buffer? {
      LengthsStay(st, l, st.threads[u].buf.pub);
      FreeIdxGrows(st, l, st.threads[u].buf.pub);
    }
  }

  lemma {:induction false} ReadsRun(st: State, labels: seq<Label>, st': State)
    requires Inv(st) && ReadsOk(st) && Runs(st, labels, st')
    ensures ReadsOk(st')
    decreases |labels|
  {
    if labels != [] {
      ReadsStep(st, labels[0]);
      StepInv(st, labels[0]);
      ReadsRun(Apply(st, labels[0]), labels[1..], st');
    }
  }

  /** Nobody can save such a thread. */
  lemma DoomStays(st: State, l: Label, t: nat)
    requires Inv(st) && ReadsOk(st) && Enabled(st, l) && t < |st.threads| && Doomed(st, t)
    ensures t < |Apply(st, l).threads| && Doomed(Apply(st, l), t)
    ensures Apply(st, l).threads[t].buf == st.threads[t].buf
  {
    var p := st.threads[t].buf.pub;
    assert PubOk(st.pubs[p]) && ReadOk(st.pubs, st.threads[t]) && EmptyAtEnd(st.pubs, st.threads[t]);
    LengthsStay(st, l, p);
    FreeIdxGrows(st, l, p);
    StepInv(st, l);
    assert PubOk(Apply(st, l).pubs[p]);
    if l.Run? && l.t == t { DoomedRuns(st, t); } else { DoomedWaits(st, l, t); }
  }

  lemma DoomedRuns(st: State, t: nat)
    requires Enabled(st, Run(t)) && t < |st.threads| && Doomed(st, t)
    requires st.pubs[st.threads[t].buf.pub].freeIdx <= |st.pubs[st.threads[t].buf.pub].entries|
    requires ReadOk(st.pubs, st.threads[t]) && EmptyAtEnd(st.pubs, st.threads[t])
    ensures t < |RunStep(st, t).threads| && Doomed(RunStep(st, t), t)
    ensures RunStep(st, t).threads[t].buf == st.threads[t].buf
  {
  }

  lemma DoomedWaits(st: State, l: Label, t: nat)
    requires Inv(st) && Enabled(st, l) && t < |st.threads| && Doomed(st, t) && !(l.Run? && l.t == t)
    requires var p := st.threads[t].buf.pub; var st' := Apply(st, l);
      p < |st'.pubs| && |st'.pubs[p].entries| == |st.pubs[p].entries|
      && st.pubs[p].freeIdx <= st'.pubs[p].freeIdx <= |st'.pubs[p].entries|
    ensures t < |Apply(st, l).threads| && Doomed(Apply(st, l), t)
    ensures Apply(st, l).threads[t].buf == st.threads[t].buf
  {
    assert ThreadShape(st.threads[t]);
    OneThreadMoves(st, l, t);
  }

  lemma {:induction false} DoomedForEver(st: State, labels: seq<Label>, st': State, t: nat)
    requires Inv(st) && ReadsOk(st) && Runs(st, labels, st') && t < |st.threads| && Doomed(st, t)
    ensures t < |st'.threads| && Doomed(st', t) && st'.threads[t].buf == st.threads[t].buf && Inv(st')
    decreases |labels|
  {
    if labels != [] {
      DoomStays(st, labels[0], t);
      ReadsStep(st, labels[0]);
      StepInv(st, labels[0]);
      DoomedForEver(Apply(st, labels[0]), labels[1..], st', t);
    }
  }

  // ---------------------------------------------------------------- one thread on its own

  /** A good state in which the threads can be let run one after the other. */
  ghost predicate Good(st: State) {
    Inv(st) && ReadsOk(st) && !st.overrun && NoneDoomed(st)
  }

  ghost predicate NoneReading(st: State, t: nat) {
    forall u: nat :: u < |st.threads| && u != t ==> !st.threads[u].pc.ReadBegin?
  }

  ghost function Move(st: State, t: nat): Label
    requires t < |st.threads|
  {
    if st.threads[t].pc.Outside? then Enter(t) else Run(t)
  }

  ghost function Stage(th: Thread, pub: Pub): nat {
    match th.pc
    case Outside => 6
    case Freeing(_) => 5
    case Loop => 4
    case Check => 3
    case Take => 2
    case ReadBegin => 2
    case Pop => 2
    case Unref => 1
    case Cas(begin) => if begin == pub.freeIdx then 1 else 5
  }

  /** How far a thread is from letting go of its buffer, if it frees alone. */
  ghost function Rank(th: Thread, pub: Pub): nat {
    (if pub.freeIdx <= |pub.entries| then 16 * (|pub.entries| - pub.freeIdx) else 0)
    + (if th.begin <= th.end then 8 * (th.end - th.begin) else 0) + Stage(th, pub)
  }

  /** What a step of thread t may do while it frees publication p. */
  ghost predicate Progressed(st: State, st': State, t: nat, p: nat)
    requires t < |st.threads| && p < |st.pubs|
  {
    && |st'.threads| == |st.threads| && st'.threads == st.threads[t := st'.threads[t]]
    && |st'.pubs| == |st.pubs| && st'.gc == st.gc && !st'.overrun
    && (|| (st'.threads[t].buf.Nothing? && st'.threads[t].pc.Loop?)
        || (st'.threads[t].buf == Buffer(p) && Rank(st'.threads[t], st'.pubs[p]) < Rank(st.threads[t], st.pubs[p])))
  }

  lemma MoveProgresses(st: State, t: nat)
    requires Good(st) && t < |st.threads| && st.threads[t].buf.Buffer?
    ensures st.threads[t].buf.pub < |st.pubs| && Enabled(st, Move(st, t))
    ensures Progressed(st, Apply(st, Move(st, t)), t, st.threads[t].buf.pub)
  {
    var th := st.threads[t];
    assert ThreadList(st, th) && ThreadShape(th) && ReadOk(st.pubs, th) && !Doomed(st, t) && EmptyAtEnd(st.pubs, th);
    assert PubOk(st.pubs[th.buf.pub]);
    if th.begin < th.end { assert ThreadEntries(st.pubs, th) && Claimed(th, th.buf.pub, th.begin); }
    MoveLocal(st, t);
  }

  lemma MoveLocal(st: State, t: nat)
    requires t < |st.threads| && st.threads[t].buf.Buffer? && st.threads[t].buf.pub < |st.pubs| && !st.overrun
    requires var th := st.threads[t]; var pub := st.pubs[th.buf.pub];
      && th.begin <= th.end && pub.freeIdx <= |pub.entries| && ReadOk(st.pubs, th) && !Doomed(st, t)
      && ThreadShape(th) && (th.begin < th.end ==> th.begin < |pub.entries|)
    ensures Enabled(st, Move(st, t)) && Progressed(st, Apply(st, Move(st, t)), t, st.threads[t].buf.pub)
  {
    if st.threads[t].pc.Take? {
      TakeProgresses(st, t);
    } else if st.threads[t].pc.Cas? {
      CasProgresses(st, t);
    }
  }

  lemma TakeProgresses(st: State, t: nat)
    requires Enabled(st, Run(t)) && st.threads[t].buf.Buffer? && st.threads[t].pc.Take?
    requires st.threads[t].begin < st.threads[t].end
    requires st.threads[t].begin < |st.pubs[st.threads[t].buf.pub].entries|
    ensures Progressed(st, RunStep(st, t), t, st.threads[t].buf.pub)
  {
  }

  lemma CasProgresses(st: State, t: nat)
    requires Enabled(st, Run(t)) && st.threads[t].buf.Buffer? && st.threads[t].pc.Cas?
    requires st.threads[t].begin == st.threads[t].end
    requires var pub := st.pubs[st.threads[t].buf.pub]; st.threads[t].pc.begin <= pub.freeIdx <= |pub.entries|
    requires st.threads[t].pc.begin < |st.pubs[st.threads[t].buf.pub].entries|
    ensures Progressed(st, RunStep(st, t), t, st.threads[t].buf.pub)
  {
  }

  /** A thread's step dooms nobody when no other thread is about to read free_idx. */
  lemma MoveDoomsNone(st: State, t: nat)
    requires Good(st) && NoneReading(st, t) && t < |st.threads| && st.threads[t].buf.Buffer?
    requires Enabled(st, Move(st, t)) && Progressed(st, Apply(st, Move(st, t)), t, st.threads[t].buf.pub)
    ensures NoneDoomed(Apply(st, Move(st, t)))
  {
    var st' := Apply(st, Move(st, t));
    assert ReadOk(st.pubs, st.threads[t]) && !Doomed(st, t) && ThreadShape(st.threads[t]);
    assert PubOk(st.pubs[st.threads[t].buf.pub]) && EmptyAtEnd(st.pubs, st.threads[t]);
    forall u: nat | u < |st'.threads| ensures !Doomed(st', u) {
      if u == t { MoverIsFine(st, t); } else { OtherIsFine(st, t, u); }
    }
  }

  lemma MoverIsFine(st: State, t: nat)
    requires t < |st.threads| && st.threads[t].buf.Buffer? && st.threads[t].buf.pub < |st.pubs|
    requires Enabled(st, Move(st, t)) && !Doomed(st, t) && t < |Apply(st, Move(st, t)).threads|
    requires var th := st.threads[t]; var pub := st.pubs[th.buf.pub];
      ReadOk(st.pubs, th) && ThreadShape(th) && pub.freeIdx <= |pub.entries|
    ensures !Doomed(Apply(st, Move(st, t)), t)
  {
    if st.threads[t].pc.Cas? { ClaimerIsFine(st, t); } else if st.threads[t].pc.Take? { TakerIsFine(st, t); }
  }

  lemma ClaimerIsFine(st: State, t: nat)
    requires Enabled(st, Run(t)) && st.threads[t].buf.Buffer? && st.threads[t].pc.Cas? && !Doomed(st, t)
    requires st.pubs[st.threads[t].buf.pub].freeIdx <= |st.pubs[st.threads[t].buf.pub].entries|
    requires st.pubs[st.threads[t].buf.pub].entries != []
    ensures t < |RunStep(st, t).threads| && !Doomed(RunStep(st, t), t)
  {
  }

  lemma TakerIsFine(st: State, t: nat)
    requires Enabled(st, Run(t)) && st.threads[t].buf.Buffer? && st.threads[t].pc.Take? && !Doomed(st, t)
    requires st.pubs[st.threads[t].buf.pub].entries != []
    ensures t < |RunStep(st, t).threads| && !Doomed(RunStep(st, t), t)
  {
  }

  lemma OtherIsFine(st: State, t: nat, u: nat)
    requires Good(st) && NoneReading(st, t) && t < |st.threads| && u < |st.threads| && u != t
    requires Enabled(st, Move(st, t))
    ensures u < |Apply(st, Move(st, t)).threads| && !Doomed(Apply(st, Move(st, t)), u)
  {
    var l := Move(st, t);
    assert !Doomed(st, u) && ReadOk(st.pubs, st.threads[u]) && ThreadList(st, st.threads[u]);
    OneThreadMoves(st, l, u);
    if st.threads[u].buf.Buffer? { LengthsStay(st, l, st.threads[u].buf.pub); }
  }

  /** A thread that frees alone lets go of its buffer in the end. */
  lemma {:induction false} LetsGo(st: State, t: nat) returns (labels: seq<Label>, st': State)
    requires Good(st) && NoneReading(st, t) && t < |st.threads| && st.threads[t].buf.Buffer?
    requires st.threads[t].buf.pub < |st.pubs|
    ensures Runs(st, labels, st') && Good(st') && LetGo(st, st', t) && |st'.list| <= |st.list|
    ensures !InList(st', st.threads[t].buf.pub)
    decreases Rank(st.threads[t], st.pubs[st.threads[t].buf.pub])
  {
    var l := Move(st, t);
    MoveProgresses(st, t);
    MoveDoomsNone(st, t);
    StepInv(st, l);
    ReadsStep(st, l);
    ListShrinks(st, t);
    var mid := Apply(st, l);
    var rest;
    if mid.threads[t].buf.Nothing? {
      rest, st' := [], mid;
    } else {
      rest, st' := LetsGo(mid, t);
    }
    labels := Then(st, l, rest, st');
  }

  /** Thread t has no buffer any more, and nothing else has happened to the other threads. */
  ghost predicate LetGo(st: State, st': State, t: nat)
    requires t < |st.threads|
  {
    && |st'.threads| == |st.threads| && st'.threads[t].buf.Nothing? && st'.threads[t].pc.Loop?
    && (forall u :: 0 <= u < |st.threads| && u != t ==> st'.threads[u] == st.threads[u])
    && |st'.pubs| == |st.pubs| && st'.gc == st.gc
  }

  lemma ListShrinks(st: State, t: nat)
    requires CountInv(st) && t < |st.threads| && st.threads[t].buf.Buffer? && Enabled(st, Move(st, t))
    ensures var st' := Apply(st, Move(st, t));
      && |st'.list| <= |st.list| && |st'.pubs| == |st.pubs| && t < |st'.threads|
      && (st'.threads[t].buf.Nothing? ==> !InList(st', st.threads[t].buf.pub))
  {
    assert ThreadList(st, st.threads[t]);
    if !st.threads[t].pc.Outside? && st.threads[t].pc.Pop? { PopCounts(st, t); }
  }

  // ---------------------------------------------------------------- all of them, one after the other

  ghost function Reading(st: State): set<nat> {
    set t: nat | t < |st.threads| && st.threads[t].pc.ReadBegin?
  }

  lemma ReadStepIsFine(st: State, t: nat)
    requires Good(st) && t < |st.threads| && st.threads[t].pc.ReadBegin?
    ensures Enabled(st, Run(t)) && Good(Apply(st, Run(t)))
    ensures var st' := Apply(st, Run(t));
      && |st'.threads| == |st.threads| && st'.threads == st.threads[t := st'.threads[t]] && st'.threads[t].pc.Cas?
      && |st'.pubs| == |st.pubs|
  {
    var th := st.threads[t];
    assert ThreadShape(th) && ThreadList(st, th) && ReadOk(st.pubs, th) && !Doomed(st, t);
    assert PubOk(st.pubs[th.buf.pub]);
    StepInv(st, Run(t));
    ReadsStep(st, Run(t));
    MoverIsFine(st, t);
    var st' := Apply(st, Run(t));
    forall u: nat | u < |st'.threads| ensures !Doomed(st', u) {
      if u != t { assert !Doomed(st, u); }
    }
  }

  /** First every thread that is about to read free_idx does so. */
  lemma {:induction false} ReadersRead(st: State) returns (labels: seq<Label>, st': State)
    requires Good(st)
    ensures Runs(st, labels, st') && Good(st') && |st'.threads| == |st.threads| && Reading(st') == {}
    decreases Reading(st)
  {
    if Reading(st) == {} { return [], st; }
    var t :| t in Reading(st);
    ReadStepIsFine(st, t);
    var mid := Apply(st, Run(t));
    assert Reading(mid) == Reading(st) - {t};
    var rest;
    rest, st' := ReadersRead(mid);
    labels := Then(st, Run(t), rest, st');
  }

  ghost function Holding(st: State): set<nat> {
    set t: nat | t < |st.threads| && st.threads[t].buf.Buffer?
  }

  /** Then every thread frees what it can of its buffer and lets go of it. */
  lemma {:induction false} HoldersLetGo(st: State) returns (labels: seq<Label>, st': State)
    requires Good(st) && Reading(st) == {}
    ensures Runs(st, labels, st') && Good(st') && |st'.threads| == |st.threads|
    ensures Reading(st') == {} && Holding(st') == {}
    decreases Holding(st)
  {
    if Holding(st) == {} { return [], st; }
    var t :| t in Holding(st);
    NobodyReads(st, t);
    assert ThreadList(st, st.threads[t]);
    var first, mid := LetsGo(st, t);
    assert Holding(mid) == Holding(st) - {t};
    NobodyReadsNow(st, mid, t);
    var second;
    second, st' := HoldersLetGo(mid);
    labels := Joined(st, first, mid, second, st');
  }

  lemma NobodyReads(st: State, t: nat)
    requires Reading(st) == {}
    ensures NoneReading(st, t)
  {
    forall u: nat | u < |st.threads| ensures !st.threads[u].pc.ReadBegin? { assert u !in Reading(st); }
  }

  lemma NobodyReadsNow(st: State, st': State, t: nat)
    requires Reading(st) == {} && t < |st.threads| && LetGo(st, st', t)
    ensures Reading(st') == {}
  {
    NobodyReads(st, t);
  }

  /** The collector thread copies the survivors and drops its reference. */
  lemma {:induction false} CopyingEnds(st: State) returns (labels: seq<Label>, st': State)
    requires Good(st) && Holding(st) == {}
    ensures Runs(st, labels, st') && Good(st') && st'.gc.Idle? && st'.threads == st.threads
    decreases if st.gc.Copying? && st.gc.pub < |st.pubs| && st.gc.pos <= |st.pubs[st.gc.pub].entries|
              then |st.pubs[st.gc.pub].entries| - st.gc.pos + 1 else 0
  {
    if st.gc.Idle? { return [], st; }
    assert SurvivorsOk(st.gc, st.pubs[st.gc.pub], st.gc.pub) && PubOk(st.pubs[st.gc.pub]);
    CopyStepIsFine(st);
    var rest;
    rest, st' := CopyingEnds(Apply(st, GcStep));
    labels := Then(st, GcStep, rest, st');
  }

  lemma CopyStepIsFine(st: State)
    requires Good(st) && Holding(st) == {} && st.gc.Copying? && st.gc.pub < |st.pubs|
    ensures Enabled(st, GcStep) && Good(Apply(st, GcStep)) && Apply(st, GcStep).threads == st.threads
    ensures Holding(Apply(st, GcStep)) == {}
  {
    StepInv(st, GcStep);
    ReadsStep(st, GcStep);
    forall t: nat | t < |st.threads| ensures !Doomed(Apply(st, GcStep), t) { assert t !in Holding(st); }
  }

  /** A thread without a buffer takes the first one of the list. */
  lemma FirstIsTaken(st: State, t: nat) returns (labels: seq<Label>, st': State)
    requires Good(st) && Holding(st) == {} && st.list != [] && t < |st.threads|
    ensures Runs(st, labels, st') && Good(st') && |st'.threads| == |st.threads| && Reading(st') == {}
    ensures st'.threads[t].buf == Buffer(st.list[0]) && Holding(st') == {t} && st'.list == st.list
    ensures st'.gc == st.gc && |st'.pubs| == |st.pubs|
  {
    assert t !in Holding(st) && ThreadShape(st.threads[t]);
    var first, looping := [], st;
    if st.threads[t].pc.Outside? {
      looping := Apply(st, Enter(t));
      LooperIsFine(st, Enter(t), t);
      first := Then(st, Enter(t), [], looping);
    }
    st' := Apply(looping, Run(t));
    LooperIsFine(looping, Run(t), t);
    var second := Then(looping, Run(t), [], st');
    labels := Joined(st, first, looping, second, st');
  }

  lemma LooperIsFine(st: State, l: Label, t: nat)
    requires Good(st) && Holding(st) == {} && st.list != [] && t < |st.threads|
    requires if st.threads[t].pc.Outside? then l == Enter(t) else st.threads[t].pc.Loop? && l == Run(t)
    ensures Enabled(st, l) && Good(Apply(st, l)) && Runs(Apply(st, l), [], Apply(st, l))
    ensures var st' := Apply(st, l);
      && |st'.threads| == |st.threads| && st'.list == st.list && st'.gc == st.gc && |st'.pubs| == |st.pubs|
      && Reading(st') == {}
      && if l.Run? then st'.threads[t].buf == Buffer(st.list[0]) && Holding(st') == {t}
         else Holding(st') == {} && st'.threads[t].pc.Loop?
  {
    var st' := Apply(st, l);
    assert t !in Holding(st);
    StepInv(st, l);
    ReadsStep(st, l);
    forall u: nat | u < |st.threads| ensures st.threads[u].buf.Nothing? && !st.threads[u].pc.ReadBegin? {
      assert u !in Holding(st) && ThreadShape(st.threads[u]);
    }
    forall u: nat | u < |st'.threads| ensures !Doomed(st', u) {}
  }

  /** One buffer after the other is freed, popped and released. */
  lemma {:induction false} ListEmpties(st: State) returns (labels: seq<Label>, st': State)
    requires Good(st) && Holding(st) == {} && st.threads != [] && st.gc.Idle?
    ensures Runs(st, labels, st') && Good(st') && Holding(st') == {} && st'.list == [] && st'.gc.Idle?
    decreases |st.list|
  {
    if st.list == [] { return [], st; }
    var first, freed := FirstIsFreed(st);
    var second;
    second, st' := ListEmpties(freed);
    labels := Joined(st, first, freed, second, st');
  }

  lemma FirstIsFreed(st: State) returns (labels: seq<Label>, st': State)
    requires Good(st) && Holding(st) == {} && st.threads != [] && st.gc.Idle? && st.list != []
    ensures Runs(st, labels, st') && Good(st') && Holding(st') == {} && st'.threads != [] && st'.gc.Idle?
    ensures |st'.list| < |st.list|
  {
    var first, taken := FirstIsTaken(st, 0);
    NobodyReads(taken, 0);
    FirstInList(st);
    var second;
    second, st' := LetsGo(taken, 0);
    LastLetsGo(taken, st', 0);
    labels := Joined(st, first, taken, second, st');
  }

  lemma FirstInList(st: State)
    requires Inv(st) && st.list != []
    ensures st.list[0] == |st.pubs| - |st.list| && st.list[0] < |st.pubs|
  {
    assert ListOk(st);
  }

  lemma LastLetsGo(st: State, st': State, t: nat)
    requires t < |st.threads| && Holding(st) == {t} && LetGo(st, st', t)
    ensures Holding(st') == {}
  {
    forall u: nat | u < |st'.threads| ensures !st'.threads[u].buf.Buffer? { assert u != t ==> u !in Holding(st); }
  }

  ghost predicate AllReleased(st: State) {
    forall p :: 0 <= p < |st.pubs| && st.pubs[p].orig != [] ==> st.pubs[p].released == 1
  }

  lemma NothingLeft(st: State)
    requires Inv(st) && Holding(st) == {} && st.list == [] && st.gc.Idle?
    ensures AllReleased(st)
  {
    forall p: nat | p < |st.pubs| && st.pubs[p].orig != [] ensures st.pubs[p].released == 1 {
      NonemptyIsWell(st, p);
      assert CountOk(st, p) && PubOk(st.pubs[p]);
      assert Holders(st.threads, p) <= Holding(st);
    }
  }

  /** Every publication with entries can still be released, and there is somebody to do it. */
  ghost predicate ReleasesAhead(st: State) {
    exists labels, st' :: Runs(st, labels, st') && AllReleased(st')
  }

  /** In every reachable state without a read behind the end, all publications that have entries can still be released,
      all their unmarked entries having been freed, if and only if no thread is bound to read behind the end. */
  lemma ReleasesComeExactly(st0: State, before: seq<Label>, st: State)
    requires Init(st0) && Runs(st0, before, st) && st.threads != [] && !st.overrun
    ensures ReleasesAhead(st) <==> NoneDoomed(st)
  {
    RunFromInit(st0, before, st);
    assert ListOk(st0) && ReadsOk(st0) && Inv(st0);
    ReadsRun(st0, before, st);
    if NoneDoomed(st) {
      var labels, st' := ReleasesCome(st);
    } else {
      var t: nat :| t < |st.threads| && Doomed(st, t);
      forall labels, st' | Runs(st, labels, st') ensures !AllReleased(st') {
        DoomedForEver(st, labels, st', t);
        DoomedHolds(st', t);
      }
    }
  }

  lemma DoomedHolds(st: State, t: nat)
    requires Inv(st) && t < |st.threads| && Doomed(st, t)
    ensures !AllReleased(st)
  {
    var p := st.threads[t].buf.pub;
    assert PubOk(st.pubs[p]);
    NonemptyIsWell(st, p);
    assert t in Holders(st.threads, p);
  }

  lemma ReleasesCome(st: State) returns (labels: seq<Label>, st': State)
    requires Good(st) && st.threads != []
    ensures Runs(st, labels, st') && Good(st') && AllReleased(st')
  {
    var first, read := ReadersRead(st);
    var second, alone := HoldersLetGo(read);
    var third, copied := CopyingEnds(alone);
    var fourth;
    fourth, st' := ListEmpties(copied);
    NothingLeft(st');
    var last := Joined(alone, third, copied, fourth, st');
    var rest := Joined(read, second, alone, last, st');
    labels := Joined(st, first, read, rest, st');
  }

  // ---------------------------------------------------------------- one claim

  /** A thread alone that has nothing claimed and finds free_idx below n_addrs claims the next range: FREE_RANGE_SZ
      entries, or as many as are left. */
  lemma NextRangeIsClaimed(st: State, t: nat) returns (st': State)
    requires !st.overrun && t < |st.threads| && st.threads[t].buf.Buffer? && st.threads[t].buf.pub < |st.pubs|
    requires st.threads[t].pc.Check? && st.threads[t].begin == st.threads[t].end
    requires var pub := st.pubs[st.threads[t].buf.pub]; pub.freeIdx < |pub.entries|
    ensures Runs(st, [Run(t), Run(t), Run(t)], st')
    ensures var p := st.threads[t].buf.pub;
      var begin, end := st.pubs[p].freeIdx, Min(|st.pubs[p].entries|, st.pubs[p].freeIdx + FREE_RANGE_SZ);
      && st'.threads == st.threads[t := Thread(Take, Buffer(p), begin, end)]
      && st'.pubs == st.pubs[p := st.pubs[p].(freeIdx := end, claims := st.pubs[p].claims + [(begin, end)])]
  {
    var reading := Apply(st, Run(t));
    var claiming := Apply(reading, Run(t));
    st' := Apply(claiming, Run(t));
    assert Runs(st', [], st');
    RunsOn(claiming, Run(t), [], st');
    RunsOn(reading, Run(t), [Run(t)] + [], st');
    RunsOn(st, Run(t), [Run(t)] + ([Run(t)] + []), st');
    assert [Run(t)] + ([Run(t)] + ([Run(t)] + [])) == [Run(t), Run(t), Run(t)];
  }

  /** A thread without a buffer takes the first one of the list, with one more reference, or leaves if there is none. */
  lemma BufferIsTakenOrNone(st: State, t: nat)
    requires Enabled(st, Run(t)) && st.threads[t].buf.Nothing?
    ensures var st' := Apply(st, Run(t));
      && |st'.threads| == |st.threads| && st'.list == st.list && st'.freed == st.freed && st'.gc == st.gc
      && (st.list == [] ==> st'.pubs == st.pubs && st'.threads[t] == st.threads[t].(pc := Outside))
      && (st.list != [] ==>
            && st'.threads[t] == Thread(Check, Buffer(st.list[0]), 0, 0) && |st'.pubs| == |st.pubs|
            && st'.pubs[st.list[0]].refCount == st.pubs[st.list[0]].refCount + 1)
  {
  }
}
