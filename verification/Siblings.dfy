/** The search of one sibling over all the ranges that it claims, on the shared array, and what the siblings leave
    there together (child.c 446-520). */
module Siblings {
  import opened Buffers
  import opened Snapshots
  import opened Search
  import opened Tracing
  import opened Lookasides
  import opened Roots
  import AllocMap
  import Marking

  /** The word addresses of a range that find_roots examines. */
  ghost function Examined(base: seq<nat>, dead: seq<nat>, usable: map<nat, nat>, range: AllocMap.Range): seq<nat> {
    Outside(base, dead, usable, range.low, range.high)
  }

  /** The ranges of the snapshot are what can be read of the ranges of g_ranges. */
  ghost predicate Reads(base: seq<nat>, dead: seq<nat>, usable: map<nat, nat>, mem: map<nat, nat>,
                        ranges: seq<AllocMap.Range>, snap: Snapshot)
  {
    && Lists(base, snap) && Laid(base, dead, usable)
    && |snap.ranges| == |ranges|
    && (forall r :: 0 <= r < |ranges| ==> Readable(mem, ranges[r]))
    && forall r :: 0 <= r < |ranges| ==> snap.ranges[r] == WordsAt(mem, Examined(base, dead, usable, ranges[r]))
  }

  ghost predicate Readable(mem: map<nat, nat>, range: AllocMap.Range) {
    && range.low % 8 == 0 && range.high % 8 == 0 && range.low < SENTINEL && range.high < SENTINEL
    && forall x: nat :: range.low <= x < range.high && x % 8 == 0 ==> x in mem
  }

  /** Every root of range r is marked or put aside. */
  ghost predicate RangeDone(base: seq<nat>, t: seq<nat>, snap: Snapshot, values: seq<nat>, r: nat) {
    r < |snap.ranges|
    && forall v :: v in snap.pool && InWords(snap.ranges[r], v) ==> Marked(base, t, v) || v in values
  }

  /** What a sibling has done when the ranges in `claims` are behind it and `values` is put aside. */
  ghost predicate Searched(base: seq<nat>, s: seq<nat>, t: seq<nat>, snap: Snapshot, rec: Marking.Recursion,
                           claims: seq<nat>, values: seq<nat>, others: set<nat>, mine: set<nat>)
  {
    && Later(base, s, t, others + mine)
    && (forall v :: v in mine ==> Marked(base, t, v) && snap.Reachable(v))
    && Closed(base, t, snap, rec, mine)
    && (forall v :: v in values && v in snap.pool ==> snap.Root(v))
    && forall i :: 0 <= i < |claims| ==> RangeDone(base, t, snap, values, claims[i])
  }

  lemma RangeStaysDone(base: seq<nat>, t: seq<nat>, u: seq<nat>, m: set<nat>, snap: Snapshot, values: seq<nat>,
                       values': seq<nat>, r: nat)
    requires RangeDone(base, t, snap, values, r) && Later(base, t, u, m)
    requires forall x :: x in values && x in snap.pool ==> Marked(base, u, x) || x in values'
    ensures RangeDone(base, u, snap, values', r)
  {
    forall v | v in snap.pool && InWords(snap.ranges[r], v) ensures Marked(base, u, v) || v in values' {
      if Marked(base, t, v) { MarksStay(base, t, u, m, v); }
    }
  }

  /** The marks of a further step of the search. */
  lemma MarksJoin(base: seq<nat>, s: seq<nat>, t: seq<nat>, u: seq<nat>, snap: Snapshot, rec: Marking.Recursion,
                  others: set<nat>, mine: set<nat>, more: set<nat>)
    requires Later(base, s, t, others + mine) && Later(base, t, u, others + more)
    requires forall v :: v in mine ==> Marked(base, t, v) && snap.Reachable(v)
    requires forall v :: v in more ==> Marked(base, u, v) && snap.Reachable(v)
    requires Closed(base, t, snap, rec, mine) && Closed(base, u, snap, rec, more)
    ensures Later(base, s, u, others + (mine + more))
    ensures forall v :: v in mine + more ==> Marked(base, u, v) && snap.Reachable(v)
    ensures Closed(base, u, snap, rec, mine + more)
  {
    LaterTrans(base, s, t, u, others + mine, others + more);
    assert others + mine + (others + more) == others + (mine + more);
    forall v | v in mine ensures Marked(base, u, v) { MarksStay(base, t, u, others + more, v); }
    if rec.OnTarget? { AllCoveredStays(base, t, u, others + more, snap, mine); }
  }

  /** find_roots on one more range. */
  lemma RangeJoins(base: seq<nat>, s: seq<nat>, t: seq<nat>, u: seq<nat>, snap: Snapshot, rec: Marking.Recursion,
                   ts: TraceStats, mem: map<nat, nat>, r: nat, xs: seq<nat>, claims: seq<nat>, values: seq<nat>,
                   values': seq<nat>, others: set<nat>, mine: set<nat>, more: set<nat>)
    requires Lists(base, snap) && r < |snap.ranges| && snap.ranges[r] == WordsAt(mem, xs)
    requires Searched(base, s, t, snap, rec, claims, values, others, mine)
    requires Progress(base, t, u, snap, rec, ts, values + Refs(mem, xs), values', others, more)
    ensures Searched(base, s, u, snap, rec, claims + [r], values', others, mine + more)
  {
    ScanMarksReachable(base, t, u, snap, mem, r, xs, values, others, more);
    MarksJoin(base, s, t, u, snap, rec, others, mine, more);
    forall v | v in snap.pool && InWords(snap.ranges[r], v) ensures Marked(base, u, v) || v in values' {
      ScanMissesNoRoot(base, t, u, snap, rec, ts, mem, r, xs, values, values', others, more, v);
    }
    forall i | 0 <= i < |claims + [r]| ensures RangeDone(base, u, snap, values', (claims + [r])[i]) {
      if i < |claims| {
        assert RangeDone(base, t, snap, values, claims[i]);
        RangeStaysDone(base, t, u, others + more, snap, values, values', claims[i]);
      }
    }
  }

  /** The last look at the lookaside list. */
  lemma FlushJoins(base: seq<nat>, s: seq<nat>, t: seq<nat>, u: seq<nat>, snap: Snapshot, rec: Marking.Recursion,
                   claims: seq<nat>, values: seq<nat>, others: set<nat>, mine: set<nat>, more: set<nat>)
    requires Lists(base, snap) && Searched(base, s, t, snap, rec, claims, values, others, mine)
    requires Fed(base, t, u, snap, values, others, more) && Settled(base, u, values) && Closed(base, u, snap, rec, more)
    ensures Searched(base, s, u, snap, rec, claims, [], others, mine + more)
  {
    forall v | v in more ensures snap.Reachable(v) {
      var i :| 0 <= i < |values| && values[i] in snap.pool && (values[i] == v || Leads(snap, values[i], v));
      snap.RootIsReachable(values[i]);
      if values[i] != v { LeadsFromReachable(snap, values[i], v); }
    }
    MarksJoin(base, s, t, u, snap, rec, others, mine, more);
    forall i | 0 <= i < |claims| ensures RangeDone(base, u, snap, [], claims[i]) {
      assert RangeDone(base, t, snap, values, claims[i]);
      forall x | x in values && x in snap.pool ensures Marked(base, u, x) {
        var k :| 0 <= k < |values| && values[k] == x;
        assert values[k] in base;
      }
      RangeStaysDone(base, t, u, others + more, snap, values, [], claims[i]);
    }
  }

  lemma SearchStarts(base: seq<nat>, s: seq<nat>, snap: Snapshot, rec: Marking.Recursion, others: set<nat>)
    requires |base| <= |s|
    ensures Searched(base, s, s, snap, rec, [], [], others, {})
  {
  }

  /** One turn of the loop over the ranges. */
  method SearchRange(r: nat, range: AllocMap.Range, mem: map<nat, nat>, usable: map<nat, nat>, nullSize: nat,
                     list: Lookaside, ab: Buffer, deadrefs: Buffer, ts: TraceStats, snap: Snapshot,
                     rec: Marking.Recursion, others: set<nat>, ghost base: seq<nat>, ghost dead: seq<nat>,
                     ghost s: seq<nat>, ghost claims: seq<nat>, ghost mine: set<nat>)
    returns (ok: bool, ghost mine': set<nat>)
    requires Prepared(ab, base) && Lists(base, snap) && Laid(base, dead, usable) && StatsOf(base, ts)
    requires list.Valid() && list.count < Marking.LOOKASIDE_SZ && Separate(list, ab, deadrefs) && Holds(deadrefs, dead)
    requires Readable(mem, range) && r < |snap.ranges|
    requires snap.ranges[r] == WordsAt(mem, Examined(base, dead, usable, range))
    requires Filtered(list.Values(), ts)
    requires Searched(base, s, ab.addrs[..], snap, rec, claims, list.Values(), others, mine)
    modifies list`count, list.list, ab.addrs, ab.minimap, deadrefs.addrs
    ensures Prepared(ab, base) && ab.minimap[..] == old(ab.minimap[..])
    ensures list.Valid() && list.count < Marking.LOOKASIDE_SZ && Holds(deadrefs, dead)
    ensures Filtered(list.Values(), ts)
    ensures ok ==> Searched(base, s, ab.addrs[..], snap, rec, claims + [r], list.Values(), others, mine')
    ensures !ok ==> base[0] == range.low && base[0] in others && nullSize > base[0]
  {
    ghost var t, values := ab.addrs[..], list.Values();
    ghost var examined, more, first, looks;
    ok, examined, more, first, looks :=
      FindRoots(range.low, range.high, mem, usable, nullSize, list, ab, deadrefs, snap, rec, others, base, dead);
    mine' := mine + more;
    if ok {
      RangeJoins(base, s, t, ab.addrs[..], snap, rec, ts, mem, r, examined, claims, values, list.Values(), others,
                 mine, more);
    }
  }

  /** What a sibling does between the fork and the count of its ranges: find_roots on each range that the counter
      gives it, and a last look at the lookaside list.  Afterwards every root of those ranges is marked, and with the
      recursion on the target so is everything that its own marks refer to. */
  method SearchClaims(claims: seq<nat>, ranges: seq<AllocMap.Range>, mem: map<nat, nat>, usable: map<nat, nat>,
                      nullSize: nat, list: Lookaside, ab: Buffer, deadrefs: Buffer, ts: TraceStats, snap: Snapshot,
                      rec: Marking.Recursion, others: set<nat>, ghost base: seq<nat>, ghost dead: seq<nat>)
    returns (ok: bool, completed: nat, ghost mine: set<nat>)
    requires Prepared(ab, base) && Reads(base, dead, usable, mem, ranges, snap) && StatsOf(base, ts)
    requires list.Valid() && list.count == 0 && Separate(list, ab, deadrefs) && Holds(deadrefs, dead)
    requires forall i :: 0 <= i < |claims| ==> claims[i] < |ranges|
    modifies list`count, list.list, ab.addrs, ab.minimap, deadrefs.addrs
    ensures Prepared(ab, base) && ab.minimap[..] == old(ab.minimap[..])
    ensures ok ==> completed == |claims| && list.count == 0
    ensures ok ==> Searched(base, old(ab.addrs[..]), ab.addrs[..], snap, rec, claims, [], others, mine)
    ensures !ok ==> base[0] in others && nullSize > base[0] && completed < |claims|
                    && ranges[claims[completed]].low == base[0]
  {
    ghost var s := ab.addrs[..];
    ok, completed, mine := true, 0, {};
    assert list.Values() == [] && claims[..0] == [];
    SearchStarts(base, s, snap, rec, others);
    while completed < |claims|
      invariant Prepared(ab, base) && ab.minimap[..] == old(ab.minimap[..])
      invariant list.Valid() && list.count < Marking.LOOKASIDE_SZ && Holds(deadrefs, dead)
      invariant completed <= |claims| && Filtered(list.Values(), ts)
      invariant Searched(base, s, ab.addrs[..], snap, rec, claims[..completed], list.Values(), others, mine)
    {
      var r := claims[completed];
      ok, mine := SearchRange(r, ranges[r], mem, usable, nullSize, list, ab, deadrefs, ts, snap, rec, others,
                              base, dead, s, claims[..completed], mine);
      if !ok {
        return;
      }
      assert claims[..completed + 1] == claims[..completed] + [r];
      completed := completed + 1;
    }
    assert claims[..completed] == claims;
    ghost var t, values := ab.addrs[..], list.Values();
    if list.count > 0 {
      ghost var more := list.Flush(ab, ts, snap, rec, others, base);
      FlushJoins(base, s, t, ab.addrs[..], snap, rec, claims, values, others, mine, more);
      mine := mine + more;
    } else {
      assert values == [];
    }
  }

  /** What one sibling has done by the time it has finished: from the array `start` to the array `end`. */
  datatype Share = Share(claims: seq<nat>, start: seq<nat>, end: seq<nat>, mine: set<nat>)

  /** The marks of all siblings but number i. */
  ghost function OthersOf(shares: seq<Share>, i: nat): set<nat> {
    set j, v | 0 <= j < |shares| && j != i && v in shares[j].mine :: v
  }

  ghost function AllMarks(shares: seq<Share>): set<nat> {
    set j, v | 0 <= j < |shares| && v in shares[j].mine :: v
  }

  /** Sibling i has searched its claims while the others set their marks, and they went on to t. */
  ghost predicate ShareDone(base: seq<nat>, t: seq<nat>, snap: Snapshot, rec: Marking.Recursion, shares: seq<Share>,
                            i: nat)
  {
    && i < |shares|
    && var share := shares[i];
    && Searched(base, share.start, share.end, snap, rec, share.claims, [], OthersOf(shares, i), share.mine)
    && Later(base, share.end, t, OthersOf(shares, i))
  }

  /** The siblings have gone from the unmarked array s to t, and every range has been claimed. */
  ghost predicate Together(base: seq<nat>, s: seq<nat>, t: seq<nat>, snap: Snapshot, rec: Marking.Recursion,
                           shares: seq<Share>)
  {
    && Lists(base, snap) && (forall v :: !Marked(base, s, v))
    && Later(base, s, t, AllMarks(shares))
    && (forall i: nat :: i < |shares| ==> ShareDone(base, t, snap, rec, shares, i))
    && forall r: nat :: r < |snap.ranges| ==> Claimed(shares, r)
  }

  ghost predicate Claimed(shares: seq<Share>, r: nat) {
    exists i :: 0 <= i < |shares| && r in shares[i].claims
  }

  /** A mark in the final array was set by one of the siblings. */
  lemma MarkHasOwner(base: seq<nat>, s: seq<nat>, t: seq<nat>, snap: Snapshot, rec: Marking.Recursion,
                     shares: seq<Share>, v: nat)
    returns (i: nat)
    requires Together(base, s, t, snap, rec, shares) && Marked(base, t, v)
    ensures i < |shares| && v in shares[i].mine
  {
    var k :| MarkedAt(base, t, k) && base[k] == v;
    assert !Marked(base, s, v);
    assert !MarkedAt(base, s, k);
    assert v in AllMarks(shares);
    i :| i < |shares| && v in shares[i].mine;
  }

  /** The marks that the siblings leave in the array are sound and include every root; with the recursion on the
      target they are exactly the reachable entries of the pool. */
  lemma MarksTogether(base: seq<nat>, s: seq<nat>, t: seq<nat>, snap: Snapshot, rec: Marking.Recursion,
                      shares: seq<Share>)
    requires Together(base, s, t, snap, rec, shares)
    ensures forall v :: Marked(base, t, v) ==> snap.Reachable(v)
    ensures forall v :: snap.Root(v) ==> Marked(base, t, v)
    ensures rec.OnTarget? ==> forall v :: Marked(base, t, v) <==> snap.Reachable(v)
  {
    forall v | Marked(base, t, v) ensures snap.Reachable(v) {
      var i := MarkHasOwner(base, s, t, snap, rec, shares, v);
      assert ShareDone(base, t, snap, rec, shares, i);
    }
    forall v | snap.Root(v) ensures Marked(base, t, v) {
      RootIsMarked(base, s, t, snap, rec, shares, v);
    }
    if rec.OnTarget? {
      var marks := set v | v in snap.pool && Marked(base, t, v);
      forall b, v | b in marks && snap.Hits(b, v) ensures v in marks {
        HitIsMarked(base, s, t, snap, rec, shares, b, v);
      }
      snap.ClosedHoldsReachable(marks);
    }
  }

  lemma RootIsMarked(base: seq<nat>, s: seq<nat>, t: seq<nat>, snap: Snapshot, rec: Marking.Recursion,
                     shares: seq<Share>, v: nat)
    requires Together(base, s, t, snap, rec, shares) && snap.Root(v)
    ensures Marked(base, t, v)
  {
    var r: nat :| r < |snap.ranges| && InWords(snap.ranges[r], v);
    assert Claimed(shares, r);
    var i: nat :| i < |shares| && r in shares[i].claims;
    assert ShareDone(base, t, snap, rec, shares, i);
    var share := shares[i];
    var k :| 0 <= k < |share.claims| && share.claims[k] == r;
    assert RangeDone(base, share.end, snap, [], share.claims[k]);
    MarksStay(base, share.end, t, OthersOf(shares, i), v);
  }

  lemma HitIsMarked(base: seq<nat>, s: seq<nat>, t: seq<nat>, snap: Snapshot, rec: Marking.Recursion,
                    shares: seq<Share>, b: nat, v: nat)
    requires Together(base, s, t, snap, rec, shares) && rec.OnTarget? && Marked(base, t, b) && snap.Hits(b, v)
    ensures Marked(base, t, v)
  {
    var i := MarkHasOwner(base, s, t, snap, rec, shares, b);
    assert ShareDone(base, t, snap, rec, shares, i);
    assert Covered(base, shares[i].end, snap, b);
    MarksStay(base, shares[i].end, t, OthersOf(shares, i), v);
  }

  // ---------------------------------------------------------------- one shared array, step by step

  /** The array after each write, and which sibling made it. */
  datatype Trace = Trace(arrays: seq<seq<nat>>, writers: seq<nat>)

  /** Each write adds marks of the sibling that makes it, and nothing else. */
  ghost predicate Written(base: seq<nat>, trace: Trace, shares: seq<Share>) {
    && |trace.arrays| == |trace.writers| + 1
    && (forall k :: 0 <= k < |trace.writers| ==> trace.writers[k] < |shares|)
    && forall k :: 0 <= k < |trace.writers| ==>
         Later(base, trace.arrays[k], trace.arrays[k + 1], shares[trace.writers[k]].mine)
  }

  /** Sibling i is at work from `lo` to `hi`: it writes at no other time. */
  ghost predicate AtWork(trace: Trace, share: Share, i: nat, lo: nat, hi: nat) {
    && lo <= hi < |trace.arrays| && share.start == trace.arrays[lo] && share.end == trace.arrays[hi]
    && forall k :: 0 <= k < |trace.writers| && trace.writers[k] == i ==> lo <= k < hi
  }

  lemma {:induction false} LaterAlong(base: seq<nat>, trace: Trace, lo: nat, hi: nat, m: set<nat>, shares: seq<Share>)
    requires Written(base, trace, shares) && lo <= hi < |trace.arrays| && |base| <= |trace.arrays[lo]|
    requires forall k :: lo <= k < hi ==> shares[trace.writers[k]].mine <= m
    ensures Later(base, trace.arrays[lo], trace.arrays[hi], m)
    decreases hi
  {
    if lo < hi {
      LaterAlong(base, trace, lo, hi - 1, m, shares);
      var written := shares[trace.writers[hi - 1]].mine;
      LaterTrans(base, trace.arrays[lo], trace.arrays[hi - 1], trace.arrays[hi], m, written);
      assert m + written == m;
    }
  }

  /** Siblings that each keep what SearchClaims promises, in any interleaving of their writes, from an unmarked array
      and with every range claimed by one of them: the last array has exactly the marks that it should. */
  lemma MarksOfATrace(base: seq<nat>, snap: Snapshot, rec: Marking.Recursion, trace: Trace, shares: seq<Share>,
                      spans: seq<(nat, nat)>)
    requires Lists(base, snap) && Written(base, trace, shares) && |spans| == |shares|
    requires |base| <= |trace.arrays[0]| && forall v :: !Marked(base, trace.arrays[0], v)
    requires forall i: nat :: i < |shares| ==> AtWork(trace, shares[i], i, spans[i].0, spans[i].1)
    requires forall i: nat :: i < |shares| ==>
               Searched(base, shares[i].start, shares[i].end, snap, rec, shares[i].claims, [], OthersOf(shares, i),
                        shares[i].mine)
    requires forall r: nat :: r < |snap.ranges| ==> Claimed(shares, r)
    ensures var t := trace.arrays[|trace.writers|];
      && (forall v :: Marked(base, t, v) ==> snap.Reachable(v))
      && (forall v :: snap.Root(v) ==> Marked(base, t, v))
      && (rec.OnTarget? ==> forall v :: Marked(base, t, v) <==> snap.Reachable(v))
  {
    var s, t, n := trace.arrays[0], trace.arrays[|trace.writers|], |trace.writers|;
    forall k | 0 <= k < n ensures shares[trace.writers[k]].mine <= AllMarks(shares) {}
    LaterAlong(base, trace, 0, n, AllMarks(shares), shares);
    forall i: nat | i < |shares| ensures ShareDone(base, t, snap, rec, shares, i) {
      assert AtWork(trace, shares[i], i, spans[i].0, spans[i].1);
      forall k | spans[i].1 <= k < n ensures shares[trace.writers[k]].mine <= OthersOf(shares, i) {}
      LaterAlong(base, trace, spans[i].1, n, OthersOf(shares, i), shares);
    }
    MarksTogether(base, s, t, snap, rec, shares);
  }
}
