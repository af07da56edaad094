/** What the threads can get hold of, what their steps do to that, and that the collector can free exactly what neither
    they nor a block that has not been retired lead to (forkscan.c 161-245, frontend.c 142-156 and 191-240). */
module Garbage {
  import opened Words
  import opened Sequences
  import opened Snapshots
  import M = Marking
  import P = MarkingProgress
  import opened Reclaim
  import L = LooseRounds

  // ---------------------------------------------------------------- what a thread can get hold of

  lemma ReachableOn(st: State, b: nat, v: nat)
    requires HeapReachable(st, b) && RefersTo(st, b, v)
    ensures HeapReachable(st, v)
  {
    var p :| IsHeapPath(st, p) && p[|p| - 1] == b;
    assert IsHeapPath(st, p + [v]) && (p + [v])[|p|] == v;
  }

  ghost predicate OnlyLoads(labels: seq<Label>) {
    forall k :: 0 <= k < |labels| ==> labels[k].Load?
  }

  lemma RunsThen(rec: M.Recursion, st: State, labels: seq<Label>, mid: State, l: Label)
    requires Runs(rec, st, labels, mid) && Enabled(mid, l)
    ensures Runs(rec, st, labels + [l], Apply(rec, mid, l))
    decreases |labels|
  {
    if labels == [] {
      assert labels + [l] == [l] && ([l])[1..] == [];
    } else {
      assert (labels + [l])[1..] == labels[1..] + [l];
      RunsThen(rec, Apply(rec, st, labels[0]), labels[1..], mid, l);
    }
  }

  /** A thread follows a path by loading word after word. */
  lemma {:induction false} LoadsFollow(rec: M.Recursion, st: State, p: seq<nat>, k: nat)
    returns (labels: seq<Label>, st': State)
    requires IsHeapPath(st, p) && k < |p|
    ensures Runs(rec, st, labels, st') && OnlyLoads(labels)
    ensures p[k] in st'.roots && st' == st.(roots := st'.roots) && st.roots <= st'.roots
  {
    if k == 0 { return [], st; }
    var before, mid := LoadsFollow(rec, st, p, k - 1);
    assert RefersTo(st, p[k - 1], p[k]);
    var words := st.blocks[p[k - 1]].words;
    var i: nat :| i < |words| && PtrMask(words[i]) == p[k];
    RunsThen(rec, st, before, mid, Load(p[k - 1], i));
    labels, st' := before + [Load(p[k - 1], i)], Apply(rec, mid, Load(p[k - 1], i));
  }

  /** Loading gives a thread nothing that it could not reach before. */
  lemma {:induction false} LoadsStayReachable(rec: M.Recursion, st: State, labels: seq<Label>, st': State)
    requires Runs(rec, st, labels, st') && OnlyLoads(labels)
    ensures st' == st.(roots := st'.roots) && forall a :: a in st'.roots ==> HeapReachable(st, a)
    decreases |labels|
  {
    if labels == [] {
      forall a | a in st.roots ensures HeapReachable(st, a) { L.HeldIsReachable(st, a); }
    } else {
      var l := labels[0];
      var mid := Apply(rec, st, l);
      LoadsStayReachable(rec, mid, labels[1..], st');
      forall a | a in st'.roots ensures HeapReachable(st, a) {
        LoadReaches(rec, st, l.p, l.i, a);
      }
    }
  }

  lemma LoadReaches(rec: M.Recursion, st: State, p: nat, i: nat, a: nat)
    requires Enabled(st, Load(p, i)) && HeapReachable(Apply(rec, st, Load(p, i)), a)
    ensures HeapReachable(st, a)
  {
    var mid, v := Apply(rec, st, Load(p, i)), PtrMask(st.blocks[p].words[i]);
    L.HeldIsReachable(st, p);
    assert InWords(st.blocks[p].words, v);
    if v != 0 { ReachableOn(st, p, v); }
    var q :| IsHeapPath(mid, q) && q[|q| - 1] == a;
    if q[0] in st.roots { L.HeldIsReachable(st, q[0]); }
    PathReaches(st, mid, q, |q| - 1);
  }

  /** What a path of another state with the same references leads to, from a place that can be reached here. */
  lemma {:induction false} PathReaches(st: State, mid: State, q: seq<nat>, k: nat)
    requires IsHeapPath(mid, q) && k < |q| && HeapReachable(st, q[0])
    requires forall b, v :: RefersTo(mid, b, v) ==> RefersTo(st, b, v)
    ensures HeapReachable(st, q[k])
  {
    if k > 0 {
      PathReaches(st, mid, q, k - 1);
      assert RefersTo(mid, q[k - 1], q[k]);
      ReachableOn(st, q[k - 1], q[k]);
    }
  }

  /** A thread can get hold of exactly what is reachable: by loads alone, which change nothing else. */
  lemma AcquiredExactly(rec: M.Recursion, st: State, a: nat)
    ensures HeapReachable(st, a) <==>
            exists labels, st' :: Runs(rec, st, labels, st') && OnlyLoads(labels) && a in st'.roots
  {
    if HeapReachable(st, a) {
      var p :| IsHeapPath(st, p) && p[|p| - 1] == a;
      var labels, st' := LoadsFollow(rec, st, p, |p| - 1);
    } else {
      forall labels, st' | Runs(rec, st, labels, st') && OnlyLoads(labels) ensures a !in st'.roots {
        LoadsStayReachable(rec, st, labels, st');
      }
    }
  }

  // ---------------------------------------------------------------- what the other steps of a thread do

  /** Word j of block b refers to v, for some j other than i. */
  ghost predicate RefersElsewhere(st: State, b: nat, i: nat, v: nat) {
    b in st.blocks && exists j :: 0 <= j < |st.blocks[b].words| && j != i && PtrMask(st.blocks[b].words[j]) == v
  }

  /** A store replaces one reference: the block refers to the new one, and to the old one only if another of its words
      does.  It makes nothing reachable that was not. */
  lemma StoreReplaces(rec: M.Recursion, st: State, p: nat, i: nat, w: nat)
    requires Enabled(st, Store(p, i, w))
    ensures var st' := Apply(rec, st, Store(p, i, w));
      && st'.roots == st.roots && p in st'.blocks && i < |st'.blocks[p].words| && st'.blocks[p].words[i] == w
      && (forall b, v :: RefersTo(st', b, v) <==>
            if b != p then RefersTo(st, b, v) else v != 0 && (v == PtrMask(w) || RefersElsewhere(st, p, i, v)))
      && (forall a :: HeapReachable(st', a) ==> HeapReachable(st, a))
  {
    var st' := Apply(rec, st, Store(p, i, w));
    var words, words' := st.blocks[p].words, st'.blocks[p].words;
    forall b, v
      ensures RefersTo(st', b, v) <==>
              if b != p then RefersTo(st, b, v) else v != 0 && (v == PtrMask(w) || RefersElsewhere(st, p, i, v))
    {
      if b == p {
        assert PtrMask(words'[i]) == PtrMask(w);
        assert forall j :: 0 <= j < |words| && j != i ==> words'[j] == words[j];
      }
    }
    forall a | HeapReachable(st', a) ensures HeapReachable(st, a) {
      var q :| IsHeapPath(st', q) && q[|q| - 1] == a;
      StorePath(rec, st, p, i, w, q, |q| - 1);
    }
  }

  lemma {:induction false} StorePath(rec: M.Recursion, st: State, p: nat, i: nat, w: nat, q: seq<nat>, k: nat)
    requires Enabled(st, Store(p, i, w)) && IsHeapPath(Apply(rec, st, Store(p, i, w)), q) && k < |q|
    requires forall b, v :: RefersTo(Apply(rec, st, Store(p, i, w)), b, v) ==>
               RefersTo(st, b, v) || v == PtrMask(w) != 0
    ensures HeapReachable(st, q[k])
  {
    if k == 0 {
      L.HeldIsReachable(st, q[0]);
    } else {
      StorePath(rec, st, p, i, w, q, k - 1);
      assert RefersTo(Apply(rec, st, Store(p, i, w)), q[k - 1], q[k]);
      if RefersTo(st, q[k - 1], q[k]) {
        ReachableOn(st, q[k - 1], q[k]);
      } else {
        L.HeldIsReachable(st, q[k]);
      }
    }
  }

  /** A new block is held, is not retired, and refers to nothing. */
  lemma AllocAdds(rec: M.Recursion, st: State, a: nat, n: nat)
    requires Enabled(st, Alloc(a, n))
    ensures var st' := Apply(rec, st, Alloc(a, n));
      && HeapReachable(st', a) && a in st'.blocks && st'.blocks[a].kind.Live? && |st'.blocks[a].words| == n
      && (forall v :: !RefersTo(st', a, v))
      && (forall b, v :: b != a ==> (RefersTo(st', b, v) <==> RefersTo(st, b, v)))
      && st'.roots == st.roots + {a}
  {
    L.HeldIsReachable(Apply(rec, st, Alloc(a, n)), a);
  }

  /** Once a reference is dropped, what can be reached is what the other references lead to. */
  lemma DropForgets(rec: M.Recursion, st: State, a: nat, v: nat)
    requires Enabled(st, Drop(a))
    ensures HeapReachable(Apply(rec, st, Drop(a)), v) <==>
            exists p :: IsHeapPath(st, p) && p[0] != a && p[|p| - 1] == v
  {
    var st' := Apply(rec, st, Drop(a));
    assert forall b, u :: RefersTo(st', b, u) <==> RefersTo(st, b, u);
    if HeapReachable(st', v) {
      var p :| IsHeapPath(st', p) && p[|p| - 1] == v;
      assert IsHeapPath(st, p) && p[0] != a;
    }
    if exists p :: IsHeapPath(st, p) && p[0] != a && p[|p| - 1] == v {
      var p :| IsHeapPath(st, p) && p[0] != a && p[|p| - 1] == v;
      assert IsHeapPath(st', p);
    }
  }

  /** To retire a block changes nothing for the threads, and the next round may take it. */
  lemma RetireHandsOver(rec: M.Recursion, st: State, a: nat, v: nat)
    requires Enabled(st, Retire(a))
    ensures var st' := Apply(rec, st, Retire(a));
      && st'.blocks[a] == Block(Retired, st.blocks[a].words)
      && (forall b :: b in st.blocks && b != a ==> b in st'.blocks && st'.blocks[b] == st.blocks[b])
      && (HeapReachable(st', v) <==> HeapReachable(st, v))
  {
    var st' := Apply(rec, st, Retire(a));
    assert forall b, u :: RefersTo(st', b, u) <==> RefersTo(st, b, u);
    if HeapReachable(st', v) {
      var p :| IsHeapPath(st', p) && p[|p| - 1] == v;
      assert IsHeapPath(st, p);
    }
    if HeapReachable(st, v) {
      var p :| IsHeapPath(st, p) && p[|p| - 1] == v;
      assert IsHeapPath(st', p);
    }
  }
}
