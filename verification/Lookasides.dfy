/** The list of values a sibling puts aside and looks up in one go (child.c 173-228). */
module Lookasides {
  import opened Buffers
  import opened Snapshots
  import opened Search
  import opened Sorting
  import opened Tracing
  import Marking

  /** v is a source in the pool, or a chain of references leads to it from one. */
  ghost predicate From(snap: Snapshot, sources: seq<nat>, v: nat) {
    exists i :: 0 <= i < |sources| && sources[i] in snap.pool && (sources[i] == v || Leads(snap, sources[i], v))
  }

  /** From s to t the marks `mine` were added by this sibling; each is new and goes back to a source. */
  ghost predicate Fed(base: seq<nat>, s: seq<nat>, t: seq<nat>, snap: Snapshot, sources: seq<nat>,
                      others: set<nat>, mine: set<nat>)
  {
    && Later(base, s, t, others + mine)
    && forall v :: v in mine ==> Marked(base, t, v) && !Marked(base, s, v) && From(snap, sources, v)
  }

  lemma FedTwice(base: seq<nat>, s: seq<nat>, t: seq<nat>, u: seq<nat>, snap: Snapshot, sources: seq<nat>,
                 others: set<nat>, mine: set<nat>, more: set<nat>)
    requires Fed(base, s, t, snap, sources, others, mine) && Fed(base, t, u, snap, sources, others, more)
    ensures Fed(base, s, u, snap, sources, others, mine + more)
  {
    LaterTrans(base, s, t, u, others + mine, others + more);
    assert others + mine + (others + more) == others + (mine + more);
    forall v | v in mine + more ensures Marked(base, u, v) && !Marked(base, s, v) {
      if Marked(base, s, v) { MarksStay(base, s, t, others + mine, v); }
      if v in mine { MarksStay(base, t, u, others + more, v); }
    }
  }

  lemma FedByMore(base: seq<nat>, s: seq<nat>, t: seq<nat>, snap: Snapshot, sources: seq<nat>, wider: seq<nat>,
                  others: set<nat>, mine: set<nat>)
    requires Fed(base, s, t, snap, sources, others, mine) && forall x :: x in sources ==> x in wider
    ensures Fed(base, s, t, snap, wider, others, mine)
  {
    forall v | v in mine ensures From(snap, wider, v) {
      var i :| 0 <= i < |sources| && sources[i] in snap.pool && (sources[i] == v || Leads(snap, sources[i], v));
      assert sources[i] in wider;
      var j :| 0 <= j < |wider| && wider[j] == sources[i];
    }
  }

  /** Each of the values that is in the pool is marked. */
  ghost predicate Settled(base: seq<nat>, s: seq<nat>, values: seq<nat>) {
    forall i :: 0 <= i < |values| && values[i] in base ==> Marked(base, s, values[i])
  }

  lemma SettledStays(base: seq<nat>, s: seq<nat>, t: seq<nat>, m: set<nat>, values: seq<nat>)
    requires Later(base, s, t, m) && Settled(base, s, values)
    ensures Settled(base, t, values)
  {
    forall i | 0 <= i < |values| && values[i] in base ensures Marked(base, t, values[i]) {
      MarksStay(base, s, t, m, values[i]);
    }
  }

  /** The values are aligned and lie between the lowest and the highest pool entry. */
  ghost predicate Filtered(values: seq<nat>, ts: TraceStats) {
    forall i :: 0 <= i < |values| ==> values[i] % 4 == 0 && ts.min <= values[i] <= ts.max
  }

  /** The mark of a value put aside, and the depth-first mark from it. */
  method MarkRoot(loc: nat, val: nat, ab: Buffer, ts: TraceStats, snap: Snapshot, rec: Marking.Recursion,
                  others: set<nat>, ghost base: seq<nat>)
    returns (ghost mine: set<nat>)
    requires Prepared(ab, base) && Lists(base, snap) && StatsOf(base, ts)
    requires loc < ab.nAddrs && base[loc] == val && !Marked(base, ab.addrs[..], val)
    modifies ab.addrs, ab.minimap
    ensures Prepared(ab, base) && ab.minimap[..] == old(ab.minimap[..])
    ensures Fed(base, old(ab.addrs[..]), ab.addrs[..], snap, [val], others, mine)
    ensures Marked(base, ab.addrs[..], val)
    ensures Closed(base, ab.addrs[..], snap, rec, mine)
  {
    ghost var s := ab.addrs[..];
    SetMark(loc, val, ab, others, base);
    ghost var t := ab.addrs[..];
    ghost var more := RecursiveMark(val, ab, ts, snap, rec, others, base);
    MarksStay(base, t, ab.addrs[..], others + more, val);
    mine := {val} + more;
    RootAndBelow(base, s, t, ab.addrs[..], snap, rec, others, val, more);
  }

  lemma RootAndBelow(base: seq<nat>, s: seq<nat>, t: seq<nat>, u: seq<nat>, snap: Snapshot, rec: Marking.Recursion,
                     others: set<nat>, val: nat, more: set<nat>)
    requires val in snap.pool && Later(base, s, t, others + {val}) && !Marked(base, s, val) && Marked(base, t, val)
    requires Traced(base, t, u, snap, rec, val, others, more)
    ensures Fed(base, s, u, snap, [val], others, {val} + more)
  {
    assert [val][0] == val;
    assert Fed(base, s, t, snap, [val], others, {val});
    assert Fed(base, t, u, snap, [val], others, more);
    FedTwice(base, s, t, u, snap, [val], others, {val}, more);
  }

  /** One turn of the loop of lookup_lookaside_list. */
  method LookUpNext(val: nat, cached: nat, ab: Buffer, ts: TraceStats, snap: Snapshot, rec: Marking.Recursion,
                    others: set<nat>, ghost base: seq<nat>)
    returns (loc: nat, ghost mine: set<nat>)
    requires Prepared(ab, base) && Lists(base, snap) && StatsOf(base, ts) && Filtered([val], ts)
    requires cached < ab.nAddrs && forall i :: 0 <= i < cached ==> base[i] < val
    modifies ab.addrs, ab.minimap
    ensures Prepared(ab, base) && ab.minimap[..] == old(ab.minimap[..])
    ensures Fed(base, old(ab.addrs[..]), ab.addrs[..], snap, [val], others, mine)
    ensures loc < ab.nAddrs && forall i :: 0 <= i < loc ==> base[i] < val
    ensures Settled(base, ab.addrs[..], [val])
    ensures Closed(base, ab.addrs[..], snap, rec, mine)
  {
    assert [val][0] == val;
    ghost var s := ab.addrs[..];
    mine := {};
    assert others + mine == others;
    var line: nat := *;
    loc := AddrFindHint(val, ab, cached, line, others, base);
    ghost var t := ab.addrs[..];
    var found := Probe(val, loc, ab, others, base);
    LaterOnly(base, s, t, ab.addrs[..], others);
    if found {
      ghost var u := ab.addrs[..];
      mine := MarkRoot(loc, val, ab, ts, snap, rec, others, base);
      FedTwice(base, s, u, ab.addrs[..], snap, [val], others, {}, mine);
      assert {} + mine == mine;
    }
  }

  class Lookaside {
    const list: array<nat>
    var count: nat

    constructor ()
      ensures Valid() && count == 0 && fresh(list)
    {
      list := new nat[Marking.LOOKASIDE_SZ];
      count := 0;
    }

    ghost predicate Valid()
      reads this
    {
      list.Length == Marking.LOOKASIDE_SZ && count <= list.Length
    }

    ghost function Values(): seq<nat>
      reads this, list
      requires Valid()
    {
      list[..count]
    }

    /** Sort the values and drop the duplicates. */
    method Tidy()
      requires Valid()
      modifies this`count, list
      ensures Valid() && StrictlySorted(Values())
      ensures forall x :: x in Values() <==> x in old(Values())
    {
      ghost var values := Values();
      Sort(list, count);
      ghost var sorted := Values();
      assert forall x :: x in sorted <==> x in multiset(sorted);
      assert forall x :: x in values <==> x in multiset(values);
      var savings := Compact(list, count);
      count := count - savings;
      DedupIsStrict(sorted);
      forall x ensures x in Values() <==> x in values {
        DedupKeepsElements(sorted, x);
      }
    }

    /** lookup_lookaside_list: afterwards every value put aside that is in the pool is marked, just as if each
        had been looked up on its own.  The hint is sound because all entries below it are smaller than the
        value of the next turn. */
    method Flush(ab: Buffer, ts: TraceStats, snap: Snapshot, rec: Marking.Recursion, others: set<nat>,
                 ghost base: seq<nat>)
      returns (ghost mine: set<nat>)
      requires Valid() && Filtered(Values(), ts) && list != ab.addrs && list != ab.minimap
      requires Prepared(ab, base) && Lists(base, snap) && StatsOf(base, ts)
      modifies this`count, list, ab.addrs, ab.minimap
      ensures Valid() && Prepared(ab, base) && ab.minimap[..] == old(ab.minimap[..])
      ensures Fed(base, old(ab.addrs[..]), ab.addrs[..], snap, old(Values()), others, mine)
      ensures count == 0
      ensures Settled(base, ab.addrs[..], old(Values())) && Closed(base, ab.addrs[..], snap, rec, mine)
    {
      ghost var s, values := ab.addrs[..], Values();
      Tidy();
      ghost var d := Values();
      FilteredToo(values, d, ts);
      mine := {};
      var cached: nat := 0;
      for i := 0 to count
        invariant Valid() && Prepared(ab, base) && ab.minimap[..] == old(ab.minimap[..]) && Values() == d
        invariant cached < ab.nAddrs && (i < |d| ==> forall k :: 0 <= k < cached ==> base[k] < d[i])
        invariant Turned(base, s, ab.addrs[..], snap, rec, d, i, others, mine)
      {
        cached, mine := Turn(list[i], cached, ab, ts, snap, rec, others, base, s, d, i, mine);
      }
      AllTurned(base, s, ab.addrs[..], snap, rec, d, values, others, mine);
      count := 0;
    }
  }

  /** After the last turn. */
  lemma AllTurned(base: seq<nat>, s: seq<nat>, t: seq<nat>, snap: Snapshot, rec: Marking.Recursion, d: seq<nat>,
                  values: seq<nat>, others: set<nat>, mine: set<nat>)
    requires Turned(base, s, t, snap, rec, d, |d|, others, mine) && forall x :: x in d <==> x in values
    ensures Fed(base, s, t, snap, values, others, mine) && Settled(base, t, values) && Closed(base, t, snap, rec, mine)
  {
    assert d[..|d|] == d;
    SettledAll(base, t, d, values);
    FedByMore(base, s, t, snap, d, values, others, mine);
  }

  /** Turn i of the loop of lookup_lookaside_list. */
  method Turn(val: nat, cached: nat, ab: Buffer, ts: TraceStats, snap: Snapshot, rec: Marking.Recursion,
              others: set<nat>, ghost base: seq<nat>, ghost s: seq<nat>, ghost d: seq<nat>, ghost i: nat,
              ghost mine: set<nat>)
    returns (loc: nat, ghost mine': set<nat>)
    requires Prepared(ab, base) && Lists(base, snap) && StatsOf(base, ts) && Filtered([val], ts)
    requires cached < ab.nAddrs && forall k :: 0 <= k < cached ==> base[k] < val
    requires i < |d| && d[i] == val && Turned(base, s, ab.addrs[..], snap, rec, d, i, others, mine)
    modifies ab.addrs, ab.minimap
    ensures Prepared(ab, base) && ab.minimap[..] == old(ab.minimap[..])
    ensures loc < ab.nAddrs && forall k :: 0 <= k < loc ==> base[k] < val
    ensures Turned(base, s, ab.addrs[..], snap, rec, d, i + 1, others, mine')
  {
    ghost var t := ab.addrs[..];
    ghost var more;
    loc, more := LookUpNext(val, cached, ab, ts, snap, rec, others, base);
    FedByMore(base, t, ab.addrs[..], snap, [d[i]], d, others, more);
    FedTwice(base, s, t, ab.addrs[..], snap, d, others, mine, more);
    mine' := mine + more;
    TurnedAgain(base, s, t, ab.addrs[..], snap, rec, d, i, others, mine, more);
  }

  lemma FilteredToo(values: seq<nat>, d: seq<nat>, ts: TraceStats)
    requires Filtered(values, ts) && forall x :: x in d ==> x in values
    ensures Filtered(d, ts)
  {
    forall i | 0 <= i < |d| ensures d[i] % 4 == 0 && ts.min <= d[i] <= ts.max {
      assert d[i] in values;
    }
  }

  lemma SettledAll(base: seq<nat>, s: seq<nat>, d: seq<nat>, values: seq<nat>)
    requires Settled(base, s, d) && forall x :: x in values ==> x in d
    ensures Settled(base, s, values)
  {
    forall i | 0 <= i < |values| && values[i] in base ensures Marked(base, s, values[i]) {
      assert values[i] in d;
    }
  }

  /** The state of the loop of lookup_lookaside_list before turn i. */
  ghost predicate Turned(base: seq<nat>, s: seq<nat>, t: seq<nat>, snap: Snapshot, rec: Marking.Recursion,
                         d: seq<nat>, i: nat, others: set<nat>, mine: set<nat>)
  {
    && i <= |d|
    && Fed(base, s, t, snap, d, others, mine)
    && Settled(base, t, d[..i])
    && Closed(base, t, snap, rec, mine)
  }

  lemma TurnedAgain(base: seq<nat>, s: seq<nat>, t: seq<nat>, u: seq<nat>, snap: Snapshot, rec: Marking.Recursion,
                    d: seq<nat>, i: nat, others: set<nat>, mine: set<nat>, more: set<nat>)
    requires Turned(base, s, t, snap, rec, d, i, others, mine) && i < |d|
    requires Fed(base, s, u, snap, d, others, mine + more) && Later(base, t, u, others + more)
    requires Settled(base, u, [d[i]]) && Closed(base, u, snap, rec, more)
    ensures Turned(base, s, u, snap, rec, d, i + 1, others, mine + more)
  {
    SettledStays(base, t, u, others + more, d[..i]);
    assert [d[i]][0] == d[i];
    if rec.OnTarget? { AllCoveredStays(base, t, u, others + more, snap, mine); }
  }
}
