/** The scan of a memory range for references into the pool, past the blocks that are tracked or already
    dead (child.c 236-321). */
module Roots {
  import opened Words
  import opened Buffers
  import opened Snapshots
  import opened Search
  import opened Tracing
  import opened Lookasides
  import Marking

  /** (size_t)-1 */
  const SENTINEL := 0xFFFF_FFFF_FFFF_FFFF

  /** One past the last byte of the block at b. */
  function End(usable: map<nat, nat>, b: nat): nat
    requires b in usable
  {
    b + usable[b]
  }

  /** Word-aligned blocks of positive size, in address order, none overlapping the next. */
  ghost predicate Row(blocks: seq<nat>, usable: map<nat, nat>) {
    && (forall i :: 0 <= i < |blocks| ==>
          && blocks[i] in usable && blocks[i] % 8 == 0 && usable[blocks[i]] % 8 == 0
          && 0 < usable[blocks[i]] && End(usable, blocks[i]) < SENTINEL)
    && forall i, j :: 0 <= i < j < |blocks| ==> End(usable, blocks[i]) <= blocks[j]
  }

  /** The tracked blocks and the dead blocks do not overlap. */
  ghost predicate Laid(base: seq<nat>, dead: seq<nat>, usable: map<nat, nat>) {
    && Row(base, usable) && Row(dead, usable)
    && Clear(base, dead, usable)
  }

  ghost predicate Clear(bs: seq<nat>, ds: seq<nat>, usable: map<nat, nat>)
    requires Row(bs, usable) && Row(ds, usable)
  {
    forall i, j :: 0 <= i < |bs| && 0 <= j < |ds| ==>
      End(usable, bs[i]) <= ds[j] || End(usable, ds[j]) <= bs[i]
  }

  ghost predicate Within(blocks: seq<nat>, usable: map<nat, nat>, x: nat) {
    exists i :: 0 <= i < |blocks| && blocks[i] in usable && blocks[i] <= x < End(usable, blocks[i])
  }

  /** Address x belongs to a tracked or to a dead block. */
  ghost predicate Blocked(base: seq<nat>, dead: seq<nat>, usable: map<nat, nat>, x: nat) {
    Within(base, usable, x) || Within(dead, usable, x)
  }

  /** The word addresses of [low, high) that belong to no block, in order. */
  ghost function Outside(base: seq<nat>, dead: seq<nat>, usable: map<nat, nat>, low: nat, high: nat): seq<nat>
    decreases high - low
  {
    if low >= high then []
    else
      var rest := Outside(base, dead, usable, low + WORD_SIZE, high);
      if Blocked(base, dead, usable, low) then rest else [low] + rest
  }

  /** Where a cursor stands: the next block to keep out of, or the sentinel. */
  ghost function AddrAt(blocks: seq<nat>, idx: int): nat {
    if 0 <= idx < |blocks| then blocks[idx] else SENTINEL
  }

  /** The blocks before the cursor end at or before low, and the others start at or after it. */
  ghost predicate Cursor(blocks: seq<nat>, usable: map<nat, nat>, idx: int, addr: nat, low: nat) {
    && 0 <= idx <= |blocks| && addr == AddrAt(blocks, idx)
    && (forall i :: 0 <= i < idx ==> blocks[i] in usable && End(usable, blocks[i]) <= low)
    && low <= addr
  }

  /** low has been moved up to low', if at all, over words of one block. */
  ghost predicate MovedOver(blocks: seq<nat>, usable: map<nat, nat>, low: nat, low': nat) {
    || low' == low
    || exists i :: 0 <= i < |blocks| && blocks[i] in usable && blocks[i] <= low < low' == End(usable, blocks[i])
  }

  /** An address between the cursors' positions is in no block. */
  lemma FreeWord(base: seq<nat>, dead: seq<nat>, usable: map<nat, nat>, i: int, p: nat, j: int, d: nat, low: nat,
                 x: nat)
    requires Laid(base, dead, usable) && Cursor(base, usable, i, p, low) && Cursor(dead, usable, j, d, low)
    requires low <= x < p && x < d
    ensures !Blocked(base, dead, usable, x)
  {
    NotWithin(base, usable, i, p, low, x);
    NotWithin(dead, usable, j, d, low, x);
  }

  lemma NotWithin(blocks: seq<nat>, usable: map<nat, nat>, idx: int, addr: nat, low: nat, x: nat)
    requires Row(blocks, usable) && Cursor(blocks, usable, idx, addr, low) && low <= x < addr
    ensures !Within(blocks, usable, x)
  {
    forall k | 0 <= k < |blocks| ensures !(blocks[k] <= x < End(usable, blocks[k])) {
      if k > idx { assert End(usable, blocks[idx]) <= blocks[k]; }
    }
  }

  /** Nothing is examined inside a block. */
  lemma {:induction false} OutsideSkips(base: seq<nat>, dead: seq<nat>, usable: map<nat, nat>, low: nat, low': nat,
                                        high: nat)
    requires low <= low' && (low' - low) % 8 == 0
    requires forall x: nat :: low <= x < low' ==> Blocked(base, dead, usable, x)
    ensures Outside(base, dead, usable, low, high) == Outside(base, dead, usable, low', high)
    decreases low' - low
  {
    if low < low' {
      OutsideSkips(base, dead, usable, low + WORD_SIZE, low', high);
    }
  }

  lemma SkipBlock(base: seq<nat>, dead: seq<nat>, usable: map<nat, nat>, low: nat, low': nat, high: nat)
    requires Laid(base, dead, usable) && low % 8 == 0
    requires MovedOver(base, usable, low, low') || MovedOver(dead, usable, low, low')
    ensures low <= low' && low' % 8 == 0
    ensures Outside(base, dead, usable, low, high) == Outside(base, dead, usable, low', high)
  {
    if low' != low {
      if MovedOver(base, usable, low, low') {
        BlockCovers(base, usable, low, low');
      } else {
        BlockCovers(dead, usable, low, low');
      }
      OutsideSkips(base, dead, usable, low, low', high);
    }
  }

  lemma BlockCovers(blocks: seq<nat>, usable: map<nat, nat>, low: nat, low': nat)
    requires Row(blocks, usable) && low' != low && MovedOver(blocks, usable, low, low')
    ensures low < low' && low' % 8 == 0 && forall x: nat :: low <= x < low' ==> Within(blocks, usable, x)
  {
    var i :| 0 <= i < |blocks| && blocks[i] <= low < low' == End(usable, blocks[i]);
  }

  /** The word at low is examined when it is in no block. */
  lemma OutsideTakes(base: seq<nat>, dead: seq<nat>, usable: map<nat, nat>, low: nat, high: nat)
    requires low < high && !Blocked(base, dead, usable, low)
    ensures Outside(base, dead, usable, low, high) == [low] + Outside(base, dead, usable, low + WORD_SIZE, high)
  {
  }

  /** The cursor after the first search: at the block found, or behind it if it starts at or before low. */
  lemma Placed(blocks: seq<nat>, s: seq<nat>, usable: map<nat, nat>, low: nat, loc: nat)
    requires Row(blocks, usable) && Spread(blocks) && Lands(blocks, s, low, 0, |blocks|, loc) && low < SENTINEL
    ensures loc < |blocks|
    ensures blocks[loc] > low ==> Cursor(blocks, usable, loc, blocks[loc], low)
    ensures blocks[loc] <= low ==>
              && Cursor(blocks, usable, loc + 1, AddrAt(blocks, loc + 1), Max(low, End(usable, blocks[loc])))
              && MovedOver(blocks, usable, low, Max(low, End(usable, blocks[loc])))
  {
    forall i | 0 <= i < loc ensures End(usable, blocks[i]) <= blocks[loc] {}
    if loc + 1 < |blocks| { assert End(usable, blocks[loc]) <= blocks[loc + 1]; }
  }

  /** Moving low over a block of the other kind does not carry it past the next block. */
  lemma CursorKept(blocks: seq<nat>, others: seq<nat>, usable: map<nat, nat>, idx: int, addr: nat, low: nat, low': nat)
    requires Row(blocks, usable) && Row(others, usable) && Cursor(blocks, usable, idx, addr, low)
    requires Clear(blocks, others, usable) || Clear(others, blocks, usable)
    requires MovedOver(others, usable, low, low')
    ensures Cursor(blocks, usable, idx, addr, low')
  {
    if low' != low {
      var j :| 0 <= j < |others| && others[j] <= low < low' == End(usable, others[j]);
      if idx < |blocks| {
        assert End(usable, blocks[idx]) <= others[j] || End(usable, others[j]) <= blocks[idx];
      }
    }
  }

  /** The values that the words at the given addresses may refer to. */
  ghost function Refs(mem: map<nat, nat>, xs: seq<nat>): seq<nat> {
    if xs == [] then []
    else
      var x := xs[|xs| - 1];
      Refs(mem, xs[..|xs| - 1]) + if x in mem then [PtrMask(mem[x])] else []
  }

  /** Every source that is in the pool is marked or put aside; nothing but sources is put aside; and every mark
      goes back to a source. */
  ghost predicate Progress(base: seq<nat>, s: seq<nat>, t: seq<nat>, snap: Snapshot, rec: Marking.Recursion,
                           ts: TraceStats, sources: seq<nat>, values: seq<nat>, others: set<nat>, mine: set<nat>)
  {
    && Fed(base, s, t, snap, sources, others, mine)
    && Closed(base, t, snap, rec, mine)
    && Filtered(values, ts)
    && (forall x :: x in values ==> x in sources)
    && forall x :: x in sources && x in base ==> Marked(base, t, x) || x in values
  }

  lemma ProgressPastOther(base: seq<nat>, s: seq<nat>, t: seq<nat>, snap: Snapshot, rec: Marking.Recursion,
                          ts: TraceStats, sources: seq<nat>, values: seq<nat>, others: set<nat>, mine: set<nat>, v: nat)
    requires Progress(base, s, t, snap, rec, ts, sources, values, others, mine) && v !in base
    ensures Progress(base, s, t, snap, rec, ts, sources + [v], values, others, mine)
  {
    FedByMore(base, s, t, snap, sources, sources + [v], others, mine);
  }

  lemma ProgressAside(base: seq<nat>, s: seq<nat>, t: seq<nat>, snap: Snapshot, rec: Marking.Recursion,
                      ts: TraceStats, sources: seq<nat>, values: seq<nat>, others: set<nat>, mine: set<nat>, v: nat)
    requires Progress(base, s, t, snap, rec, ts, sources, values, others, mine)
    requires v % 4 == 0 && ts.min <= v <= ts.max
    ensures Progress(base, s, t, snap, rec, ts, sources + [v], values + [v], others, mine)
  {
    FedByMore(base, s, t, snap, sources, sources + [v], others, mine);
  }

  lemma ProgressFlushed(base: seq<nat>, s: seq<nat>, t: seq<nat>, u: seq<nat>, snap: Snapshot, rec: Marking.Recursion,
                        ts: TraceStats, sources: seq<nat>, values: seq<nat>, others: set<nat>, mine: set<nat>,
                        more: set<nat>)
    requires Progress(base, s, t, snap, rec, ts, sources, values, others, mine)
    requires Fed(base, t, u, snap, values, others, more) && Closed(base, u, snap, rec, more) && Settled(base, u, values)
    ensures Progress(base, s, u, snap, rec, ts, sources, [], others, mine + more)
  {
    FedByMore(base, t, u, snap, values, sources, others, more);
    FedTwice(base, s, t, u, snap, sources, others, mine, more);
    if rec.OnTarget? { AllCoveredStays(base, t, u, others + more, snap, mine); }
    forall x | x in sources && x in base ensures Marked(base, u, x) {
      if x in values {
        var i :| 0 <= i < |values| && values[i] == x;
      } else {
        MarksStay(base, t, u, others + more, x);
      }
    }
  }

  /** One word outside all blocks. */
  method ExamineWord(word: nat, list: Lookaside, ab: Buffer, ts: TraceStats, snap: Snapshot, rec: Marking.Recursion,
                     others: set<nat>, ghost base: seq<nat>, ghost s: seq<nat>, ghost sources: seq<nat>,
                     ghost mine: set<nat>)
    returns (ghost mine': set<nat>)
    requires Prepared(ab, base) && Lists(base, snap) && StatsOf(base, ts)
    requires list.Valid() && list.list != ab.addrs && list.list != ab.minimap && list.count < Marking.LOOKASIDE_SZ
    requires Progress(base, s, ab.addrs[..], snap, rec, ts, sources, list.Values(), others, mine)
    modifies list`count, list.list, ab.addrs, ab.minimap
    ensures Prepared(ab, base) && ab.minimap[..] == old(ab.minimap[..])
    ensures list.Valid() && list.count < Marking.LOOKASIDE_SZ
    ensures Progress(base, s, ab.addrs[..], snap, rec, ts, sources + [PtrMask(word)], list.Values(), others, mine')
  {
    var cmp := PtrMask(word);
    mine' := mine;
    ghost var t, values := ab.addrs[..], list.Values();
    if cmp < ts.min || cmp > ts.max {
      OutsideIsAbsent(base, ts, cmp);
      ProgressPastOther(base, s, t, snap, rec, ts, sources, values, others, mine, cmp);
      return;
    }
    list.list[list.count] := cmp;
    list.count := list.count + 1;
    assert list.Values() == values + [cmp];
    ProgressAside(base, s, t, snap, rec, ts, sources, values, others, mine, cmp);
    if list.count < Marking.LOOKASIDE_SZ {
      return;
    }
    ghost var more := list.Flush(ab, ts, snap, rec, others, base);
    mine' := mine + more;
    ProgressFlushed(base, s, t, ab.addrs[..], snap, rec, ts, sources + [cmp], values + [cmp], others, mine, more);
    assert list.Values() == [];
  }

  lemma RefsAppend(mem: map<nat, nat>, xs: seq<nat>, x: nat)
    requires x in mem
    ensures Refs(mem, xs + [x]) == Refs(mem, xs) + [PtrMask(mem[x])]
  {
    assert (xs + [x])[..|xs|] == xs;
  }

  /** The inner loop: examine the words from low to the next stopping point, none of which is in a block. */
  method ScanWords(start: nat, stop: nat, mem: map<nat, nat>, list: Lookaside, ab: Buffer, ts: TraceStats,
                   snap: Snapshot, rec: Marking.Recursion, others: set<nat>, ghost base: seq<nat>, ghost s: seq<nat>,
                   ghost before: seq<nat>, ghost xs: seq<nat>, ghost mine: set<nat>)
    returns (low: nat, ghost xs': seq<nat>, ghost mine': set<nat>)
    requires Prepared(ab, base) && Lists(base, snap) && StatsOf(base, ts)
    requires list.Valid() && list.list != ab.addrs && list.list != ab.minimap && list.count < Marking.LOOKASIDE_SZ
    requires Progress(base, s, ab.addrs[..], snap, rec, ts, before + Refs(mem, xs), list.Values(), others, mine)
    requires start <= stop && start % 8 == 0 && stop % 8 == 0
    requires forall x: nat :: start <= x < stop && x % 8 == 0 ==> x in mem
    modifies list`count, list.list, ab.addrs, ab.minimap
    ensures Prepared(ab, base) && ab.minimap[..] == old(ab.minimap[..])
    ensures low == stop && xs' == xs + Stretch(start, stop)
    ensures list.Valid() && list.count < Marking.LOOKASIDE_SZ
    ensures Progress(base, s, ab.addrs[..], snap, rec, ts, before + Refs(mem, xs'), list.Values(), others, mine')
  {
    low, xs', mine' := start, xs, mine;
    while low < stop
      invariant start <= low <= stop && low % 8 == 0
      invariant xs' + Stretch(low, stop) == xs + Stretch(start, stop)
      invariant Prepared(ab, base) && ab.minimap[..] == old(ab.minimap[..])
      invariant list.Valid() && list.count < Marking.LOOKASIDE_SZ
      invariant Progress(base, s, ab.addrs[..], snap, rec, ts, before + Refs(mem, xs'), list.Values(), others, mine')
    {
      ghost var sources := before + Refs(mem, xs');
      mine' := ExamineWord(mem[low], list, ab, ts, snap, rec, others, base, s, sources, mine');
      RefsAppend(mem, xs', low);
      assert sources + [PtrMask(mem[low])] == before + Refs(mem, xs' + [low]);
      StretchUnfold(xs', low, stop);
      xs' := xs' + [low];
      low := low + WORD_SIZE;
    }
  }

  /** Every word address from low up to high. */
  ghost function Stretch(low: nat, high: nat): seq<nat>
    decreases high - low
  {
    if low >= high then [] else [low] + Stretch(low + WORD_SIZE, high)
  }

  lemma StretchUnfold(xs: seq<nat>, low: nat, high: nat)
    requires low < high
    ensures xs + Stretch(low, high) == xs + [low] + Stretch(low + WORD_SIZE, high)
  {
  }

  /** Between the cursors nothing is left out. */
  lemma {:induction false} OutsideIsStretch(base: seq<nat>, dead: seq<nat>, usable: map<nat, nat>, low: nat,
                                            stop: nat, high: nat)
    requires low <= stop <= high && low % 8 == 0 && stop % 8 == 0
    requires forall x: nat :: low <= x < stop ==> !Blocked(base, dead, usable, x)
    ensures Outside(base, dead, usable, low, high) == Stretch(low, stop) + Outside(base, dead, usable, stop, high)
    decreases stop - low
  {
    if low < stop {
      OutsideTakes(base, dead, usable, low, high);
      OutsideIsStretch(base, dead, usable, low + WORD_SIZE, stop, high);
    }
  }

  lemma RowIsSpread(blocks: seq<nat>, usable: map<nat, nat>)
    requires Row(blocks, usable)
    ensures Spread(blocks)
  {
    forall i | 0 <= i < |blocks| ensures blocks[i] % 4 == 0 {
      EightIsFour(blocks[i]);
    }
    forall i, j | 0 <= i < j < |blocks| ensures blocks[i] + 4 <= blocks[j] {
      EightIsLarge(usable[blocks[i]]);
      assert End(usable, blocks[i]) <= blocks[j];
    }
  }

  lemma EightIsFour(x: nat)
    requires x % 8 == 0
    ensures x % 4 == 0
  {
  }

  lemma EightIsLarge(x: nat)
    requires x % 8 == 0 && x > 0
    ensures x >= 8
  {
  }

  /** update_addr_loc */
  method UpdateAddrLoc(idx: nat, buf: Buffer, others: set<nat>, ghost base: seq<nat>) returns (addr: nat)
    requires buf.Valid() && |base| == buf.nAddrs && Spread(base) && Shows(base, buf.addrs[..])
    modifies buf.addrs
    ensures Shows(base, buf.addrs[..]) && Later(base, old(buf.addrs[..]), buf.addrs[..], others)
    ensures addr == AddrAt(base, idx)
  {
    if buf.nAddrs > idx {
      var entry := Read(buf.addrs, idx, buf.nAddrs, others, base);
      MaskShowsBase(base, buf.addrs[..], idx);
      addr := PtrMask(entry);
    } else {
      addr := SENTINEL;
    }
  }

  /** Where the scan starts with respect to the pool.  `nullSize` is what MALLOC_USABLE_SIZE answers for NULL: after
      an answer of -1 the word in front of the addresses is taken for a block, and low may move past the first one. */
  method StartPool(start: nat, usable: map<nat, nat>, nullSize: nat, ab: Buffer, others: set<nat>, ghost base: seq<nat>)
    returns (ok: bool, low: nat, idx: nat, addr: nat, ghost first: nat, ghost looks: seq<nat>)
    requires Prepared(ab, base) && Row(base, usable) && start < SENTINEL && start % 8 == 0
    modifies ab.addrs, ab.minimap
    ensures Prepared(ab, base) && ab.minimap[..] == old(ab.minimap[..])
    ensures Later(base, old(ab.addrs[..]), ab.addrs[..], others)
    ensures ok ==> Cursor(base, usable, idx, addr, low) && MovedOver(base, usable, start, low)
    ensures !ok <==> base[0] == start && Raced(start, first, looks) && nullSize > start
    ensures !ok ==> start in others && low == nullSize && idx == 0 && addr == start
  {
    low := start;
    var loc;
    loc, first, looks := AddrFind(low, ab, others, base);
    ghost var t := ab.addrs[..];
    if loc == -1 {
      ok := PtrMask(WORD_BEFORE) + nullSize <= low;
      if !ok { low := PtrMask(WORD_BEFORE) + nullSize; }
      idx := 0;
      addr := UpdateAddrLoc(idx, ab, others, base);
    } else {
      ok, idx := true, loc;
      low, idx, addr := PastBlock(low, idx, usable, ab, others, base);
    }
    LaterOnly(base, old(ab.addrs[..]), t, ab.addrs[..], others);
  }

  /** The block that the search has found, if it starts at or before low, is stepped over. */
  method PastBlock(start: nat, loc: nat, usable: map<nat, nat>, ab: Buffer, others: set<nat>, ghost base: seq<nat>)
    returns (low: nat, idx: nat, addr: nat)
    requires Prepared(ab, base) && Row(base, usable) && start < SENTINEL
    requires Lands(base, ab.addrs[..], start, 0, |base|, loc)
    modifies ab.addrs
    ensures Prepared(ab, base) && Later(base, old(ab.addrs[..]), ab.addrs[..], others)
    ensures Cursor(base, usable, idx, addr, low) && MovedOver(base, usable, start, low)
  {
    low, idx := start, loc;
    Placed(base, ab.addrs[..], usable, low, idx);
    var entry := Read(ab.addrs, idx, ab.nAddrs, others, base);
    MaskShowsBase(base, ab.addrs[..], idx);
    addr := PtrMask(entry);
    if addr <= low {
      var end := End(usable, addr);
      if end > low { low := end; }
      idx := idx + 1;
      ghost var t := ab.addrs[..];
      addr := UpdateAddrLoc(idx, ab, others, base);
      LaterOnly(base, old(ab.addrs[..]), t, ab.addrs[..], others);
    }
  }

  ghost predicate Holds(deadrefs: Buffer, dead: seq<nat>)
    reads deadrefs, deadrefs.addrs
  {
    deadrefs.Valid() && deadrefs.nAddrs == |dead| && deadrefs.Contents() == dead
  }

  lemma NobodyMarks(base: seq<nat>, s: seq<nat>, t: seq<nat>)
    requires Later(base, s, t, {})
    ensures s == t
  {
  }

  /** Where the scan starts with respect to the dead blocks, which nobody marks. */
  method StartDead(start: nat, usable: map<nat, nat>, deadrefs: Buffer, ghost dead: seq<nat>)
    returns (low: nat, idx: nat, addr: nat)
    requires Holds(deadrefs, dead) && Row(dead, usable) && start < SENTINEL && start % 8 == 0
    modifies deadrefs.addrs
    ensures Holds(deadrefs, dead)
    ensures Cursor(dead, usable, idx, addr, low) && MovedOver(dead, usable, start, low)
  {
    low, idx, addr := start, 0, SENTINEL;
    if deadrefs.nAddrs > 0 {
      RowIsSpread(dead, usable);
      AlignedIsApart(dead, low);
      ghost var s := deadrefs.addrs[..];
      var loc;
      ghost var first, looks;
      loc, first, looks := BinarySearch(low, deadrefs.addrs, 0, deadrefs.nAddrs, deadrefs.nAddrs, {}, dead);
      NobodyMarks(dead, s, deadrefs.addrs[..]);
      idx := loc;
      Placed(dead, s, usable, low, idx);
      addr := deadrefs.addrs[idx];
      if addr <= low {
        var end := End(usable, addr);
        if end > low { low := end; }
        idx := idx + 1;
        addr := UpdateAddrLoc(idx, deadrefs, {}, dead);
        NobodyMarks(dead, s, deadrefs.addrs[..]);
      }
    }
  }

  /** The two cursors of find_roots at low. */
  ghost predicate Cursors(base: seq<nat>, dead: seq<nat>, usable: map<nat, nat>, i: nat, p: nat, j: nat, d: nat,
                          low: nat)
  {
    && Laid(base, dead, usable) && low % 8 == 0
    && Cursor(base, usable, i, p, low) && Cursor(dead, usable, j, d, low)
  }

  /** The cursors never stand on the same block. */
  lemma CursorsDiffer(base: seq<nat>, dead: seq<nat>, usable: map<nat, nat>, i: nat, p: nat, j: nat, d: nat, low: nat)
    requires Cursors(base, dead, usable, i, p, j, d, low)
    ensures p != d || p == SENTINEL
  {
    if i < |base| && j < |dead| {
      assert End(usable, base[i]) <= dead[j] || End(usable, dead[j]) <= base[i];
    }
  }

  lemma CursorPassed(blocks: seq<nat>, usable: map<nat, nat>, idx: nat, low: nat)
    requires Row(blocks, usable) && idx < |blocks| && Cursor(blocks, usable, idx, blocks[idx], low)
    requires low == blocks[idx]
    ensures Cursor(blocks, usable, idx + 1, AddrAt(blocks, idx + 1), End(usable, low))
    ensures MovedOver(blocks, usable, low, End(usable, low))
  {
    assert blocks[idx] <= low < End(usable, blocks[idx]);
  }

  /** Both searches that set the cursors up. */
  method Start(start: nat, usable: map<nat, nat>, nullSize: nat, ab: Buffer, deadrefs: Buffer, others: set<nat>,
               ghost base: seq<nat>, ghost dead: seq<nat>, ghost high: nat)
    returns (ok: bool, low: nat, i: nat, p: nat, j: nat, d: nat, ghost first: nat, ghost looks: seq<nat>)
    requires Prepared(ab, base) && Laid(base, dead, usable) && start < SENTINEL && start % 8 == 0
    requires Holds(deadrefs, dead) && deadrefs.addrs != ab.addrs && deadrefs.addrs != ab.minimap && deadrefs != ab
    modifies ab.addrs, ab.minimap, deadrefs.addrs
    ensures Prepared(ab, base) && ab.minimap[..] == old(ab.minimap[..]) && Holds(deadrefs, dead)
    ensures Later(base, old(ab.addrs[..]), ab.addrs[..], others)
    ensures ok ==> Cursors(base, dead, usable, i, p, j, d, low)
    ensures ok ==> start <= low && Outside(base, dead, usable, low, high) == Outside(base, dead, usable, start, high)
    ensures !ok <==> base[0] == start && Raced(start, first, looks) && nullSize > start
    ensures !ok ==> start in others && low == nullSize && i == 0 && p == start
    ensures ok <==> low <= p
  {
    j, d := 0, SENTINEL;
    ok, low, i, p, first, looks := StartPool(start, usable, nullSize, ab, others, base);
    if !ok {
      return;
    }
    SkipBlock(base, dead, usable, start, low, high);
    ghost var middle := low;
    low, j, d := StartDead(low, usable, deadrefs, dead);
    SkipBlock(base, dead, usable, middle, low, high);
    CursorKept(base, dead, usable, i, p, middle, low);
    assert low <= p;
  }

  /** Step over the block that the scan has run into. */
  method PassBlock(at: nat, usable: map<nat, nat>, ab: Buffer, deadrefs: Buffer, others: set<nat>,
                   i: nat, p: nat, j: nat, d: nat, ghost base: seq<nat>, ghost dead: seq<nat>, ghost high: nat)
    returns (low: nat, i': nat, p': nat, j': nat, d': nat)
    requires Prepared(ab, base) && Cursors(base, dead, usable, i, p, j, d, at)
    requires at == Min(p, d) < SENTINEL
    requires Holds(deadrefs, dead) && deadrefs.addrs != ab.addrs && deadrefs.addrs != ab.minimap && deadrefs != ab
    modifies ab.addrs, deadrefs.addrs
    ensures Prepared(ab, base) && Holds(deadrefs, dead)
    ensures Later(base, old(ab.addrs[..]), ab.addrs[..], others)
    ensures Cursors(base, dead, usable, i', p', j', d', low) && at < low
    ensures Outside(base, dead, usable, low, high) == Outside(base, dead, usable, at, high)
  {
    CursorsDiffer(base, dead, usable, i, p, j, d, at);
    low, i', p', j', d' := at + usable[at], i, p, j, d;
    if at == p {
      CursorPassed(base, usable, i, at);
      CursorKept(dead, base, usable, j, d, at, low);
      i' := i + 1;
      p' := UpdateAddrLoc(i', ab, others, base);
    } else {
      CursorPassed(dead, usable, j, at);
      CursorKept(base, dead, usable, i, p, at, low);
      j' := j + 1;
      ghost var s := deadrefs.addrs[..];
      RowIsSpread(dead, usable);
      d' := UpdateAddrLoc(j', deadrefs, {}, dead);
      NobodyMarks(dead, s, deadrefs.addrs[..]);
    }
    SkipBlock(base, dead, usable, at, low, high);
  }

  lemma ProgressStays(base: seq<nat>, s: seq<nat>, t: seq<nat>, u: seq<nat>, snap: Snapshot, rec: Marking.Recursion,
                      ts: TraceStats, sources: seq<nat>, values: seq<nat>, others: set<nat>, mine: set<nat>)
    requires Progress(base, s, t, snap, rec, ts, sources, values, others, mine) && Later(base, t, u, others)
    ensures Progress(base, s, u, snap, rec, ts, sources, values, others, mine)
  {
    assert others + {} == others && mine + {} == mine;
    FedTwice(base, s, t, u, snap, sources, others, mine, {});
    if rec.OnTarget? { AllCoveredStays(base, t, u, others, snap, mine); }
    forall x | x in sources && x in base && Marked(base, t, x) ensures Marked(base, u, x) {
      MarksStay(base, t, u, others, x);
    }
  }

  lemma ProgressStarts(base: seq<nat>, s: seq<nat>, t: seq<nat>, snap: Snapshot, rec: Marking.Recursion,
                       ts: TraceStats, values: seq<nat>, others: set<nat>)
    requires Later(base, s, t, others) && Filtered(values, ts)
    ensures Progress(base, s, t, snap, rec, ts, values, values, others, {})
  {
    assert others + {} == others;
  }

  /** What is left to examine before the next stopping point. */
  lemma UpToStop(base: seq<nat>, dead: seq<nat>, usable: map<nat, nat>, i: nat, p: nat, j: nat, d: nat, low: nat,
                 stop: nat, high: nat)
    requires Cursors(base, dead, usable, i, p, j, d, low) && low < high < SENTINEL && high % 8 == 0
    requires stop == Min(Min(p, d), high)
    ensures low <= stop && stop % 8 == 0
    ensures Outside(base, dead, usable, low, high) == Stretch(low, stop) + Outside(base, dead, usable, stop, high)
  {
    forall x: nat | low <= x < stop ensures !Blocked(base, dead, usable, x) {
      FreeWord(base, dead, usable, i, p, j, d, low, x);
    }
    OutsideIsStretch(base, dead, usable, low, stop, high);
  }

  /** One turn of the outer loop. */
  method Turn(start: nat, high: nat, mem: map<nat, nat>, usable: map<nat, nat>, list: Lookaside, ab: Buffer,
              deadrefs: Buffer, ts: TraceStats, snap: Snapshot, rec: Marking.Recursion, others: set<nat>,
              i: nat, p: nat, j: nat, d: nat, ghost base: seq<nat>, ghost dead: seq<nat>, ghost s: seq<nat>,
              ghost before: seq<nat>, ghost xs: seq<nat>, ghost mine: set<nat>)
    returns (low: nat, i': nat, p': nat, j': nat, d': nat, ghost xs': seq<nat>, ghost mine': set<nat>)
    requires Prepared(ab, base) && Lists(base, snap) && StatsOf(base, ts)
    requires list.Valid() && list.count < Marking.LOOKASIDE_SZ && Separate(list, ab, deadrefs) && Holds(deadrefs, dead)
    requires Cursors(base, dead, usable, i, p, j, d, start) && start < high < SENTINEL && high % 8 == 0
    requires forall x: nat :: start <= x < high && x % 8 == 0 ==> x in mem
    requires Progress(base, s, ab.addrs[..], snap, rec, ts, before + Refs(mem, xs), list.Values(), others, mine)
    modifies list`count, list.list, ab.addrs, ab.minimap, deadrefs.addrs
    ensures Prepared(ab, base) && ab.minimap[..] == old(ab.minimap[..])
    ensures list.Valid() && list.count < Marking.LOOKASIDE_SZ && Holds(deadrefs, dead)
    ensures Cursors(base, dead, usable, i', p', j', d', low) && start < low
    ensures xs' + Outside(base, dead, usable, low, high) == xs + Outside(base, dead, usable, start, high)
    ensures Progress(base, s, ab.addrs[..], snap, rec, ts, before + Refs(mem, xs'), list.Values(), others, mine')
  {
    i', p', j', d' := i, p, j, d;
    var stop: nat := Min(Min(p, d), high);
    UpToStop(base, dead, usable, i, p, j, d, start, stop, high);
    low, xs', mine' := ScanWords(start, stop, mem, list, ab, ts, snap, rec, others, base, s, before, xs, mine);
    CursorsLater(base, dead, usable, i, p, j, d, start, stop);
    low, i', p', j', d' := AtStop(start, stop, high, usable, ab, deadrefs, ts, snap, rec, others, i, p, j, d,
                                  base, dead, s, before + Refs(mem, xs'), list.Values(), mine');
    Regroup(xs, Stretch(start, stop), Outside(base, dead, usable, stop, high));
  }

  lemma Regroup(xs: seq<nat>, ys: seq<nat>, zs: seq<nat>)
    ensures xs + ys + zs == xs + (ys + zs)
  {
  }

  /** The end of a turn: if the scan has stopped at a block, step over it. */
  method AtStop(ghost start: nat, stop: nat, high: nat, usable: map<nat, nat>, ab: Buffer, deadrefs: Buffer,
                ghost ts: TraceStats, ghost snap: Snapshot, ghost rec: Marking.Recursion, others: set<nat>,
                i: nat, p: nat, j: nat, d: nat, ghost base: seq<nat>, ghost dead: seq<nat>, ghost s: seq<nat>,
                ghost sources: seq<nat>, ghost values: seq<nat>, ghost mine: set<nat>)
    returns (low: nat, i': nat, p': nat, j': nat, d': nat)
    requires Prepared(ab, base) && Cursors(base, dead, usable, i, p, j, d, stop)
    requires start <= stop == Min(Min(p, d), high) && start < high < SENTINEL
    requires Holds(deadrefs, dead) && deadrefs.addrs != ab.addrs && deadrefs.addrs != ab.minimap && deadrefs != ab
    requires Progress(base, s, ab.addrs[..], snap, rec, ts, sources, values, others, mine)
    modifies ab.addrs, deadrefs.addrs
    ensures Prepared(ab, base) && Holds(deadrefs, dead)
    ensures Cursors(base, dead, usable, i', p', j', d', low) && start < low
    ensures Outside(base, dead, usable, low, high) == Outside(base, dead, usable, stop, high)
    ensures Progress(base, s, ab.addrs[..], snap, rec, ts, sources, values, others, mine)
  {
    low, i', p', j', d' := stop, i, p, j, d;
    if stop == Min(p, d) {
      ghost var t := ab.addrs[..];
      low, i', p', j', d' := PassBlock(stop, usable, ab, deadrefs, others, i, p, j, d, base, dead, high);
      ProgressStays(base, s, t, ab.addrs[..], snap, rec, ts, sources, values, others, mine);
    }
  }

  lemma CursorsLater(base: seq<nat>, dead: seq<nat>, usable: map<nat, nat>, i: nat, p: nat, j: nat, d: nat, low: nat,
                     stop: nat)
    requires Cursors(base, dead, usable, i, p, j, d, low) && low <= stop <= Min(p, d) && stop % 8 == 0
    ensures Cursors(base, dead, usable, i, p, j, d, stop)
  {
  }

  /** No two of the arrays that the scan writes are the same. */
  ghost predicate Separate(list: Lookaside, ab: Buffer, deadrefs: Buffer) {
    && list.list != ab.addrs && list.list != ab.minimap && list.list != deadrefs.addrs
    && deadrefs != ab && deadrefs.addrs != ab.addrs && deadrefs.addrs != ab.minimap
  }

  /** find_roots.  It examines exactly the words outside all blocks, each once and in order; every pool entry that
      one of them refers to ends up marked or put aside.  It goes wrong if and only if the range starts at the lowest
      pool entry, the first search reads that entry without its mark and then with it, and the allocator gives NULL a
      usable size that reaches into the range. */
  method FindRoots(start: nat, high: nat, mem: map<nat, nat>, usable: map<nat, nat>, nullSize: nat, list: Lookaside,
                   ab: Buffer, deadrefs: Buffer, snap: Snapshot, rec: Marking.Recursion, others: set<nat>,
                   ghost base: seq<nat>, ghost dead: seq<nat>)
    returns (ok: bool, ghost examined: seq<nat>, ghost mine: set<nat>, ghost first: nat, ghost looks: seq<nat>)
    requires Prepared(ab, base) && Lists(base, snap) && Laid(base, dead, usable)
    requires list.Valid() && list.count < Marking.LOOKASIDE_SZ && Separate(list, ab, deadrefs) && Holds(deadrefs, dead)
    requires Filtered(list.Values(), TraceStats(base[0], base[|base| - 1]))
    requires start % 8 == 0 && high % 8 == 0 && start < SENTINEL && high < SENTINEL
    requires forall x: nat :: start <= x < high && x % 8 == 0 ==> x in mem
    modifies list`count, list.list, ab.addrs, ab.minimap, deadrefs.addrs
    ensures Prepared(ab, base) && ab.minimap[..] == old(ab.minimap[..])
    ensures list.Valid() && list.count < Marking.LOOKASIDE_SZ && Holds(deadrefs, dead)
    ensures ok ==> examined == Outside(base, dead, usable, start, high)
    ensures Progress(base, old(ab.addrs[..]), ab.addrs[..], snap, rec, TraceStats(base[0], base[|base| - 1]),
                     old(list.Values()) + Refs(mem, examined), list.Values(), others, mine)
    ensures !ok <==> base[0] == start && Raced(start, first, looks) && nullSize > start
    ensures !ok ==> start in others && examined == []
  {
    ghost var s, before := ab.addrs[..], list.Values();
    var lowest, highest := ReadEnds(ab, others, base);
    var ts := TraceStats(PtrMask(lowest), PtrMask(highest));
    examined, mine := [], {};
    var low, i, p, j, d;
    ghost var t := ab.addrs[..];
    ok, low, i, p, j, d, first, looks := Start(start, usable, nullSize, ab, deadrefs, others, base, dead, high);
    LaterOnly(base, s, t, ab.addrs[..], others);
    ProgressStarts(base, s, ab.addrs[..], snap, rec, ts, before, others);
    assert before + Refs(mem, []) == before;
    if !ok {
      return;
    }
    while low < high
      invariant Prepared(ab, base) && ab.minimap[..] == old(ab.minimap[..])
      invariant list.Valid() && list.count < Marking.LOOKASIDE_SZ && Holds(deadrefs, dead)
      invariant start <= low && Cursors(base, dead, usable, i, p, j, d, low)
      invariant examined + Outside(base, dead, usable, low, high) == Outside(base, dead, usable, start, high)
      invariant Progress(base, s, ab.addrs[..], snap, rec, ts, before + Refs(mem, examined), list.Values(), others,
                         mine)
      decreases high - low
    {
      low, i, p, j, d, examined, mine :=
        Turn(low, high, mem, usable, list, ab, deadrefs, ts, snap, rec, others, i, p, j, d, base, dead, s, before,
             examined, mine);
    }
  }

  /** The lowest and the highest pool entry. */
  method ReadEnds(ab: Buffer, others: set<nat>, ghost base: seq<nat>) returns (first: nat, last: nat)
    requires Prepared(ab, base)
    modifies ab.addrs
    ensures Prepared(ab, base) && Later(base, old(ab.addrs[..]), ab.addrs[..], others)
    ensures PtrMask(first) == base[0] && PtrMask(last) == base[|base| - 1]
  {
    first := Read(ab.addrs, 0, ab.nAddrs, others, base);
    MaskShowsBase(base, ab.addrs[..], 0);
    ghost var t := ab.addrs[..];
    last := Read(ab.addrs, ab.nAddrs - 1, ab.nAddrs, others, base);
    LaterOnly(base, old(ab.addrs[..]), t, ab.addrs[..], others);
    MaskShowsBase(base, ab.addrs[..], ab.nAddrs - 1);
  }

  /** The words of the range that find_roots examines. */
  ghost function WordsAt(mem: map<nat, nat>, xs: seq<nat>): seq<nat> {
    if xs == [] then []
    else
      var x := xs[|xs| - 1];
      WordsAt(mem, xs[..|xs| - 1]) + if x in mem then [mem[x]] else []
  }

  lemma {:induction false} RefsOfWords(mem: map<nat, nat>, xs: seq<nat>)
    ensures |Refs(mem, xs)| == |WordsAt(mem, xs)|
    ensures forall i :: 0 <= i < |Refs(mem, xs)| ==> Refs(mem, xs)[i] == PtrMask(WordsAt(mem, xs)[i])
  {
    if xs != [] {
      RefsOfWords(mem, xs[..|xs| - 1]);
    }
  }

  /** With the range of the snapshot being the words that are examined, find_roots marks only reachable entries,
      and puts only roots aside (besides values outside the pool). */
  lemma ScanMarksReachable(base: seq<nat>, s: seq<nat>, t: seq<nat>, snap: Snapshot, mem: map<nat, nat>, r: nat,
                           xs: seq<nat>, before: seq<nat>, others: set<nat>, mine: set<nat>)
    requires Lists(base, snap) && r < |snap.ranges| && snap.ranges[r] == WordsAt(mem, xs)
    requires forall x :: x in before && x in snap.pool ==> snap.Root(x)
    requires Fed(base, s, t, snap, before + Refs(mem, xs), others, mine)
    ensures forall x :: x in Refs(mem, xs) && x in snap.pool ==> snap.Root(x)
    ensures forall v :: v in mine ==> snap.Reachable(v)
  {
    RefsOfWords(mem, xs);
    forall x | x in Refs(mem, xs) && x in snap.pool ensures snap.Root(x) {
      var i :| 0 <= i < |Refs(mem, xs)| && Refs(mem, xs)[i] == x;
      assert PtrMask(snap.ranges[r][i]) == x;
      assert InWords(snap.ranges[r], x);
    }
    var sources := before + Refs(mem, xs);
    forall v | v in mine ensures snap.Reachable(v) {
      var i :| 0 <= i < |sources| && sources[i] in snap.pool && (sources[i] == v || Leads(snap, sources[i], v));
      assert sources[i] in before || sources[i] in Refs(mem, xs);
      snap.RootIsReachable(sources[i]);
      if sources[i] != v { LeadsFromReachable(snap, sources[i], v); }
    }
  }

  /** Every root among the words examined is marked or put aside. */
  lemma ScanMissesNoRoot(base: seq<nat>, s: seq<nat>, t: seq<nat>, snap: Snapshot, rec: Marking.Recursion,
                         ts: TraceStats, mem: map<nat, nat>, r: nat, xs: seq<nat>, before: seq<nat>,
                         values: seq<nat>, others: set<nat>, mine: set<nat>, v: nat)
    requires Lists(base, snap) && r < |snap.ranges| && snap.ranges[r] == WordsAt(mem, xs)
    requires Progress(base, s, t, snap, rec, ts, before + Refs(mem, xs), values, others, mine)
    requires v in snap.pool && InWords(snap.ranges[r], v)
    ensures Marked(base, t, v) || v in values
  {
    RefsOfWords(mem, xs);
    var i :| 0 <= i < |snap.ranges[r]| && PtrMask(snap.ranges[r][i]) == v;
    assert Refs(mem, xs)[i] == v && v in before + Refs(mem, xs);
  }
}
