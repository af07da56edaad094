/** The depth-first mark and the lookaside pass of one sibling, on the shared array, while the other siblings
    mark entries of their own (child.c 119-228). */
module Tracing {
  import opened Words
  import opened Buffers
  import opened Snapshots
  import opened Search
  import Marking

  /** The pool of the snapshot is what the buffer lists. */
  ghost predicate Lists(base: seq<nat>, snap: Snapshot) {
    && snap.Valid()
    && forall v: nat :: v in base <==> v in snap.pool
  }

  /** The entry for v carries a mark. */
  ghost predicate Marked(base: seq<nat>, s: seq<nat>, v: nat) {
    exists i :: MarkedAt(base, s, i) && base[i] == v
  }

  lemma MarksStay(base: seq<nat>, s: seq<nat>, t: seq<nat>, m: set<nat>, v: nat)
    requires Later(base, s, t, m) && Marked(base, s, v)
    ensures Marked(base, t, v)
  {
    var i :| MarkedAt(base, s, i) && base[i] == v;
    assert MarkedAt(base, t, i);
  }

  /** Every entry that the first k words of block b refer to is marked. */
  ghost predicate CoveredTo(base: seq<nat>, s: seq<nat>, snap: Snapshot, b: nat, k: int) {
    b in snap.words && forall j :: 0 <= j < k <= |snap.words[b]| && PtrMask(snap.words[b][j]) in snap.pool
                               ==> Marked(base, s, PtrMask(snap.words[b][j]))
  }

  /** Every entry that block b refers to is marked. */
  ghost predicate Covered(base: seq<nat>, s: seq<nat>, snap: Snapshot, b: nat) {
    forall v :: snap.Hits(b, v) ==> Marked(base, s, v)
  }

  ghost predicate AllCovered(base: seq<nat>, s: seq<nat>, snap: Snapshot, bs: set<nat>) {
    forall b :: b in bs ==> Covered(base, s, snap, b)
  }

  lemma CoveredAll(base: seq<nat>, s: seq<nat>, snap: Snapshot, b: nat)
    requires b in snap.words && CoveredTo(base, s, snap, b, |snap.words[b]|)
    ensures Covered(base, s, snap, b)
  {
  }

  lemma CoveredToStays(base: seq<nat>, s: seq<nat>, t: seq<nat>, m: set<nat>, snap: Snapshot, b: nat, k: int)
    requires Later(base, s, t, m) && CoveredTo(base, s, snap, b, k)
    ensures CoveredTo(base, t, snap, b, k)
  {
    forall j | 0 <= j < k <= |snap.words[b]| && PtrMask(snap.words[b][j]) in snap.pool
      ensures Marked(base, t, PtrMask(snap.words[b][j]))
    {
      MarksStay(base, s, t, m, PtrMask(snap.words[b][j]));
    }
  }

  lemma AllCoveredStays(base: seq<nat>, s: seq<nat>, t: seq<nat>, m: set<nat>, snap: Snapshot, bs: set<nat>)
    requires Later(base, s, t, m) && AllCovered(base, s, snap, bs)
    ensures AllCovered(base, t, snap, bs)
  {
    forall b, v | b in bs && snap.Hits(b, v) ensures Marked(base, t, v) {
      MarksStay(base, s, t, m, v);
    }
  }

  /** A chain of references leads from block a to pool entry v. */
  ghost predicate Leads(snap: Snapshot, a: nat, v: nat) {
    exists p: seq<nat> :: Chain(snap, p) && p[0] == a && p[|p| - 1] == v
  }

  ghost predicate Chain(snap: Snapshot, p: seq<nat>) {
    |p| > 1 && forall i :: 0 < i < |p| ==> snap.Hits(p[i - 1], p[i])
  }

  lemma HitLeads(snap: Snapshot, a: nat, v: nat)
    requires snap.Hits(a, v)
    ensures Leads(snap, a, v)
  {
    assert Chain(snap, [a, v]);
  }

  lemma LeadsOn(snap: Snapshot, a: nat, b: nat, v: nat)
    requires snap.Hits(a, b) && Leads(snap, b, v)
    ensures Leads(snap, a, v)
  {
    var p :| Chain(snap, p) && p[0] == b && p[|p| - 1] == v;
    var q := [a] + p;
    forall i | 0 < i < |q| ensures snap.Hits(q[i - 1], q[i]) {
      assert i > 1 ==> snap.Hits(p[i - 2], p[i - 1]);
    }
    assert Chain(snap, q) && q[|q| - 1] == v;
  }

  lemma LeadsFromReachable(snap: Snapshot, a: nat, v: nat)
    requires snap.Reachable(a) && Leads(snap, a, v)
    ensures snap.Reachable(v)
  {
    var p :| Chain(snap, p) && p[0] == a && p[|p| - 1] == v;
    ChainFromReachable(snap, p, |p| - 1);
  }

  lemma {:induction false} ChainFromReachable(snap: Snapshot, p: seq<nat>, k: nat)
    requires Chain(snap, p) && snap.Reachable(p[0]) && k < |p|
    ensures snap.Reachable(p[k])
  {
    if k > 0 {
      ChainFromReachable(snap, p, k - 1);
      snap.HitIsReachable(p[k - 1], p[k]);
    }
  }

  /** The entries without a mark: what bounds the depth of the recursion. */
  ghost function Unmarked(base: seq<nat>, s: seq<nat>): set<nat> {
    set i: nat | i < |base| && !MarkedAt(base, s, i)
  }

  lemma UnmarkedShrinks(base: seq<nat>, s: seq<nat>, t: seq<nat>, m: set<nat>)
    requires Later(base, s, t, m)
    ensures |Unmarked(base, t)| <= |Unmarked(base, s)|
  {
    assert Unmarked(base, t) <= Unmarked(base, s);
    Marking.SubsetSize(Unmarked(base, t), Unmarked(base, s));
  }

  lemma MarkShrinks(base: seq<nat>, s: seq<nat>, t: seq<nat>, m: set<nat>, i: nat)
    requires Later(base, s, t, m) && i < |base| && !MarkedAt(base, s, i) && MarkedAt(base, t, i)
    ensures |Unmarked(base, t)| < |Unmarked(base, s)|
  {
    assert Unmarked(base, t) <= Unmarked(base, s) - {i};
    Marking.SubsetSize(Unmarked(base, t), Unmarked(base, s) - {i});
  }

  /** What a marking pass that starts at block a does: it adds the marks `mine`, all of them new and all of them
      reached from a; with the recursion on the target it leaves nothing that those refer to unmarked. */
  ghost predicate Traced(base: seq<nat>, s: seq<nat>, t: seq<nat>, snap: Snapshot, rec: Marking.Recursion, a: nat,
                         others: set<nat>, mine: set<nat>)
  {
    && Later(base, s, t, others + mine)
    && forall v :: v in mine ==> Marked(base, t, v) && !Marked(base, s, v) && Leads(snap, a, v)
                                 && (rec.OnScannedBlock? ==> snap.Hits(a, v))
  }

  ghost predicate Closed(base: seq<nat>, t: seq<nat>, snap: Snapshot, rec: Marking.Recursion, mine: set<nat>) {
    rec.OnTarget? ==> AllCovered(base, t, snap, mine)
  }

  lemma TracedTwice(base: seq<nat>, s: seq<nat>, t: seq<nat>, u: seq<nat>, snap: Snapshot, rec: Marking.Recursion,
                    a: nat, others: set<nat>, mine: set<nat>, more: set<nat>)
    requires Traced(base, s, t, snap, rec, a, others, mine) && Traced(base, t, u, snap, rec, a, others, more)
    ensures Traced(base, s, u, snap, rec, a, others, mine + more)
  {
    LaterTrans(base, s, t, u, others + mine, others + more);
    assert others + mine + (others + more) == others + (mine + more);
    forall v | v in mine + more ensures Marked(base, u, v) && !Marked(base, s, v) {
      if Marked(base, s, v) { MarksStay(base, s, t, others + mine, v); }
      if v in mine { MarksStay(base, t, u, others + more, v); }
    }
  }

  lemma MarkedIsAt(base: seq<nat>, s: seq<nat>, i: nat)
    requires Spread(base) && i < |base|
    ensures Marked(base, s, base[i]) <==> MarkedAt(base, s, i)
  {
    forall j | MarkedAt(base, s, j) && base[j] == base[i] ensures j == i {}
  }

  /** is_ref and the test of the mark bit.  A value of the pool that is not reported is marked already. */
  method Probe(val: nat, loc: nat, ab: Buffer, others: set<nat>, ghost base: seq<nat>) returns (found: bool)
    requires Prepared(ab, base) && loc < ab.nAddrs && Finds(base, ab.addrs[..], val, loc)
    modifies ab.addrs
    ensures Prepared(ab, base) && Later(base, old(ab.addrs[..]), ab.addrs[..], others)
    ensures found ==> base[loc] == val && !Marked(base, ab.addrs[..], val)
    ensures !found && val in base ==> Marked(base, ab.addrs[..], val)
  {
    ghost var s := ab.addrs[..];
    var entry := Read(ab.addrs, loc, ab.nAddrs, others, base);
    ghost var t := ab.addrs[..];
    MaskShowsBase(base, t, loc);
    if PtrMask(entry) != val {
      if val in base {
        var j :| 0 <= j < |base| && base[j] == val;
        assert MarkedAt(base, t, j);
      }
      return false;
    }
    var target := Read(ab.addrs, loc, ab.nAddrs, others, base);
    LaterOnly(base, s, t, ab.addrs[..], others);
    MaskShowsBase(base, ab.addrs[..], loc);
    MarkedIsAt(base, ab.addrs[..], loc);
    return !IsMarked(target);
  }

  /** The plain write of a mark.  Whoever else marks the entry in the meantime writes the same value. */
  method SetMark(loc: nat, target: nat, ab: Buffer, others: set<nat>, ghost base: seq<nat>)
    requires Prepared(ab, base) && loc < ab.nAddrs && target == base[loc]
    modifies ab.addrs
    ensures Prepared(ab, base) && Later(base, old(ab.addrs[..]), ab.addrs[..], others + {target})
    ensures MarkedAt(base, ab.addrs[..], loc)
  {
    Interfere(ab.addrs, ab.nAddrs, others, base);
    ab.addrs[loc] := target + 1;
  }

  datatype TraceStats = TraceStats(min: nat, max: nat)

  ghost predicate StatsOf(base: seq<nat>, ts: TraceStats) {
    |base| > 0 && ts.min == base[0] && ts.max == base[|base| - 1]
  }

  lemma OutsideIsAbsent(base: seq<nat>, ts: TraceStats, val: nat)
    requires Spread(base) && StatsOf(base, ts) && (val < ts.min || val > ts.max)
    ensures val !in base
  {
  }

  /** A first mark, of an entry that addr refers to. */
  lemma FirstMark(base: seq<nat>, s: seq<nat>, t: seq<nat>, u: seq<nat>, snap: Snapshot, rec: Marking.Recursion,
                  addr: nat, others: set<nat>, loc: nat, val: nat)
    requires Spread(base) && Later(base, s, t, others) && Later(base, t, u, others + {val})
    requires loc < |base| && base[loc] == val && MarkedAt(base, u, loc) && !Marked(base, s, val)
    requires snap.Hits(addr, val)
    ensures Traced(base, s, u, snap, rec, addr, others, {val})
    ensures |Unmarked(base, u)| < |Unmarked(base, s)|
  {
    LaterTrans(base, s, t, u, others, others + {val});
    assert others + (others + {val}) == others + {val};
    HitLeads(snap, addr, val);
    MarkedIsAt(base, s, loc);
    MarkShrinks(base, s, u, others + {val}, loc);
  }

  /** What a trace from the entry val does, it does from the block that refers to val. */
  lemma TracedFrom(base: seq<nat>, s: seq<nat>, t: seq<nat>, snap: Snapshot, rec: Marking.Recursion, addr: nat,
                   val: nat, others: set<nat>, mine: set<nat>)
    requires rec.OnTarget? && snap.Hits(addr, val) && Traced(base, s, t, snap, rec, val, others, mine)
    ensures Traced(base, s, t, snap, rec, addr, others, mine)
  {
    forall v | v in mine ensures Leads(snap, addr, v) {
      LeadsOn(snap, addr, val, v);
    }
  }

  /** The word in front of ab->addrs: the last one of the page that holds the buffer's header, which nobody writes
      after it has been mapped. */
  const WORD_BEFORE := 0

  /** An answer of -1 makes is_ref look at the word in front of the addresses.  It is no reference to the value, whose
      entry has been marked. */
  lemma BeforeIsNoReference(base: seq<nat>, s: seq<nat>, val: nat)
    requires Spread(base) && base != [] && base[0] > 0 && base[0] == val && MarkedAt(base, s, 0)
    ensures PtrMask(WORD_BEFORE) != val && Marked(base, s, val)
  {
  }

  /** The filter, the search and the test of one turn of the loop of recursive_mark. */
  method LookUp(val: nat, ab: Buffer, ts: TraceStats, others: set<nat>, ghost base: seq<nat>)
    returns (found: bool, loc: nat)
    requires Prepared(ab, base) && StatsOf(base, ts) && val % 4 == 0 && base[0] > 0
    modifies ab.addrs, ab.minimap
    ensures Prepared(ab, base) && ab.minimap[..] == old(ab.minimap[..])
    ensures Later(base, old(ab.addrs[..]), ab.addrs[..], others)
    ensures found ==> loc < ab.nAddrs && base[loc] == val && !Marked(base, old(ab.addrs[..]), val)
    ensures !found && val in base ==> Marked(base, ab.addrs[..], val)
  {
    ghost var s := ab.addrs[..];
    loc := 0;
    if val < ts.min || val > ts.max {
      OutsideIsAbsent(base, ts, val);
      return false, loc;
    }
    var at;
    ghost var first, looks;
    at, first, looks := AddrFind(val, ab, others, base);
    ghost var t := ab.addrs[..];
    if at == -1 {
      BeforeIsNoReference(base, t, val);
      found := PtrMask(WORD_BEFORE) == val;
      return;
    }
    LandsFinds(base, t, val, at);
    loc := at;
    found := Probe(val, loc, ab, others, base);
    LaterOnly(base, s, t, ab.addrs[..], others);
    if found { UnmarkedBefore(base, s, ab.addrs[..], val, others); }
  }

  lemma FirstIsPositive(base: seq<nat>, snap: Snapshot)
    requires Lists(base, snap) && base != []
    ensures base[0] > 0
  {
    assert base[0] in base;
  }

  /** One turn of the loop of recursive_mark: look the word up, mark its entry, and go down. */
  method MarkWord(word: nat, addr: nat, ab: Buffer, ts: TraceStats, snap: Snapshot, rec: Marking.Recursion,
                  others: set<nat>, ghost base: seq<nat>)
    returns (ghost mine: set<nat>)
    requires Prepared(ab, base) && Lists(base, snap) && StatsOf(base, ts) && addr in base
    requires PtrMask(word) in snap.pool ==> snap.Hits(addr, PtrMask(word))
    modifies ab.addrs, ab.minimap
    ensures Prepared(ab, base) && ab.minimap[..] == old(ab.minimap[..])
    ensures Traced(base, old(ab.addrs[..]), ab.addrs[..], snap, rec, addr, others, mine)
    ensures PtrMask(word) in snap.pool ==> Marked(base, ab.addrs[..], PtrMask(word))
    ensures Closed(base, ab.addrs[..], snap, rec, mine)
    decreases |Unmarked(base, ab.addrs[..])|, 0
  {
    ghost var s := ab.addrs[..];
    var val := PtrMask(word);
    mine := {};
    assert others + mine == others;
    FirstIsPositive(base, snap);
    var found, loc := LookUp(val, ab, ts, others, base);
    if !found {
      return mine;
    }
    ghost var t := ab.addrs[..];
    SetMark(loc, val, ab, others, base);
    ghost var u := ab.addrs[..];
    FirstMark(base, s, t, u, snap, rec, addr, others, loc, val);
    var callee := if rec.OnTarget? then val else addr;
    ghost var more := RecursiveMark(callee, ab, ts, snap, rec, others, base);
    mine := {val} + more;
    MarkedBelow(base, s, u, ab.addrs[..], snap, rec, addr, callee, others, val, more);
  }

  lemma UnmarkedBefore(base: seq<nat>, s: seq<nat>, t: seq<nat>, v: nat, m: set<nat>)
    requires Later(base, s, t, m) && !Marked(base, t, v)
    ensures !Marked(base, s, v)
  {
    if Marked(base, s, v) { MarksStay(base, s, t, m, v); }
  }

  /** The first mark and the recursive call together. */
  lemma MarkedBelow(base: seq<nat>, s: seq<nat>, u: seq<nat>, w: seq<nat>, snap: Snapshot, rec: Marking.Recursion,
                    addr: nat, callee: nat, others: set<nat>, val: nat, more: set<nat>)
    requires Traced(base, s, u, snap, rec, addr, others, {val}) && snap.Hits(addr, val)
    requires callee == if rec.OnTarget? then val else addr
    requires Traced(base, u, w, snap, rec, callee, others, more)
    ensures Traced(base, s, w, snap, rec, addr, others, {val} + more)
    ensures Marked(base, w, val)
  {
    if rec.OnTarget? { TracedFrom(base, u, w, snap, rec, addr, val, others, more); }
    TracedTwice(base, s, u, w, snap, rec, addr, others, {val}, more);
    assert val in {val} + more;
  }

  /** recursive_mark.  When it returns, every entry that block addr refers to is marked; with the recursion on the
      target the same holds of every entry that it has marked itself. */
  method RecursiveMark(addr: nat, ab: Buffer, ts: TraceStats, snap: Snapshot, rec: Marking.Recursion,
                       others: set<nat>, ghost base: seq<nat>)
    returns (ghost mine: set<nat>)
    requires Prepared(ab, base) && Lists(base, snap) && StatsOf(base, ts) && addr in base
    modifies ab.addrs, ab.minimap
    ensures Prepared(ab, base) && ab.minimap[..] == old(ab.minimap[..])
    ensures Traced(base, old(ab.addrs[..]), ab.addrs[..], snap, rec, addr, others, mine)
    ensures Covered(base, ab.addrs[..], snap, addr) && Closed(base, ab.addrs[..], snap, rec, mine)
    decreases |Unmarked(base, ab.addrs[..])|, 1
  {
    var words := snap.words[addr];
    ghost var s := ab.addrs[..];
    mine := {};
    for i := 0 to |words|
      invariant Prepared(ab, base) && ab.minimap[..] == old(ab.minimap[..])
      invariant Traced(base, s, ab.addrs[..], snap, rec, addr, others, mine)
      invariant CoveredTo(base, ab.addrs[..], snap, addr, i) && Closed(base, ab.addrs[..], snap, rec, mine)
    {
      ghost var t := ab.addrs[..];
      UnmarkedShrinks(base, s, t, others + mine);
      assert InWords(words, PtrMask(words[i]));
      ghost var more := MarkWord(words[i], addr, ab, ts, snap, rec, others, base);
      TracedTwice(base, s, t, ab.addrs[..], snap, rec, addr, others, mine, more);
      NextWord(base, t, ab.addrs[..], snap, rec, addr, i, others, mine, more);
      mine := mine + more;
    }
    CoveredAll(base, ab.addrs[..], snap, addr);
  }

  lemma NextWord(base: seq<nat>, t: seq<nat>, u: seq<nat>, snap: Snapshot, rec: Marking.Recursion, addr: nat,
                 i: nat, others: set<nat>, mine: set<nat>, more: set<nat>)
    requires Later(base, t, u, others + more) && addr in snap.words && i < |snap.words[addr]|
    requires CoveredTo(base, t, snap, addr, i) && Closed(base, t, snap, rec, mine) && Closed(base, u, snap, rec, more)
    requires PtrMask(snap.words[addr][i]) in snap.pool ==> Marked(base, u, PtrMask(snap.words[addr][i]))
    ensures CoveredTo(base, u, snap, addr, i + 1) && Closed(base, u, snap, rec, mine + more)
  {
    CoveredToStays(base, t, u, others + more, snap, addr, i);
    if rec.OnTarget? { AllCoveredStays(base, t, u, others + more, snap, mine); }
  }
}
