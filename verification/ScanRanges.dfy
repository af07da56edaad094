/** How a child breaks the memory map into ranges to scan (child.c 404-421, 428-443). */
module ScanRanges {
  import opened AllocMap

  const MAX_RANGE_SIZE := 8 * 1024 * 1024

  ghost predicate InSome(rs: seq<Range>, x: nat) {
    exists i :: 0 <= i < |rs| && Holds(rs[i], x)
  }

  ghost function Total(rs: seq<Range>): nat {
    if rs == [] then 0
    else
      var r := rs[|rs| - 1];
      Total(rs[..|rs| - 1]) + if r.low <= r.high then r.high - r.low else 0
  }

  /** The number of addresses in [low, high) that Forkscan does not own. */
  ghost function FreeBytes(spans: seq<Range>, low: nat, high: nat): nat
    decreases high - low
  {
    if low >= high then 0
    else FreeBytes(spans, low, high - 1) + if Owned(spans, high - 1) then 0 else 1
  }

  lemma {:induction false} FreeBytesSplit(spans: seq<Range>, low: nat, mid: nat, high: nat)
    requires low <= mid <= high
    ensures FreeBytes(spans, low, high) == FreeBytes(spans, low, mid) + FreeBytes(spans, mid, high)
    decreases high - mid
  {
    if mid < high {
      FreeBytesSplit(spans, low, mid, high - 1);
    }
  }

  lemma {:induction false} FreeBytesOf(spans: seq<Range>, low: nat, mid: nat, high: nat)
    requires low <= mid <= high
    requires forall x: nat :: low <= x < high ==> (Owned(spans, x) <==> x < mid)
    ensures FreeBytes(spans, low, high) == high - mid
    decreases high - low
  {
    if low < high {
      FreeBytesOf(spans, low, if mid < high then mid else high - 1, high - 1);
    }
  }

  /** Nonempty ranges in [low, at), ascending and apart, none longer than a sibling scans at a time. */
  ghost predicate Pieces(rs: seq<Range>, low: nat, at: nat) {
    && Ordered(rs)
    && forall i :: 0 <= i < |rs| ==> low <= rs[i].low && rs[i].high <= at && rs[i].high - rs[i].low <= MAX_RANGE_SIZE
  }

  /** Together the ranges are all addresses of [low, at) that Forkscan does not own. */
  ghost predicate Covers(spans: seq<Range>, rs: seq<Range>, low: nat, at: nat) {
    forall x: nat :: low <= x < at ==> (InSome(rs, x) <==> !Owned(spans, x))
  }

  /** The ranges that have been cut out of [low, at) partition what Forkscan does not own of it. */
  ghost predicate CutUpTo(spans: seq<Range>, rs: seq<Range>, low: nat, at: nat) {
    Pieces(rs, low, at) && Covers(spans, rs, low, at) && Total(rs) == FreeBytes(spans, low, at)
  }

  lemma TotalAppend(rs: seq<Range>, r: Range)
    requires r.low <= r.high
    ensures Total(rs + [r]) == Total(rs) + (r.high - r.low)
  {
    assert (rs + [r])[..|rs|] == rs;
  }

  lemma InSomeAppend(rs: seq<Range>, r: Range)
    ensures forall x: nat :: InSome(rs + [r], x) <==> InSome(rs, x) || Holds(r, x)
  {
    var t := rs + [r];
    forall x: nat ensures InSome(t, x) <==> InSome(rs, x) || Holds(r, x) {
      if InSome(rs, x) {
        var i :| 0 <= i < |rs| && Holds(rs[i], x);
        assert t[i] == rs[i];
      }
      if Holds(r, x) { assert t[|rs|] == r; }
    }
  }

  /** An owned stretch adds nothing. */
  lemma CutPastOwned(spans: seq<Range>, rs: seq<Range>, low: nat, at: nat, at': nat)
    requires CutUpTo(spans, rs, low, at) && low <= at <= at'
    requires forall x: nat :: at <= x < at' ==> Owned(spans, x)
    ensures CutUpTo(spans, rs, low, at')
  {
    FreeBytesSplit(spans, low, at, at');
    FreeBytesOf(spans, at, at', at');
    forall x: nat | at <= x < at' ensures !InSome(rs, x) {}
  }

  lemma PiecesAppend(rs: seq<Range>, low: nat, at: nat, at': nat)
    requires Pieces(rs, low, at) && low <= at < at' <= at + MAX_RANGE_SIZE
    ensures Pieces(rs + [Range(at, at')], low, at')
  {
  }

  lemma CoversAppend(spans: seq<Range>, rs: seq<Range>, low: nat, at: nat, at': nat)
    requires Pieces(rs, low, at) && Covers(spans, rs, low, at) && low <= at < at'
    requires forall x: nat :: at <= x < at' ==> !Owned(spans, x)
    ensures Covers(spans, rs + [Range(at, at')], low, at')
  {
    var r := Range(at, at');
    InSomeAppend(rs, r);
    forall x: nat | low <= x < at' ensures InSome(rs + [r], x) <==> !Owned(spans, x) {
      assert Holds(r, x) <==> at <= x;
    }
  }

  /** A stretch that is not owned becomes a range. */
  lemma CutPiece(spans: seq<Range>, rs: seq<Range>, low: nat, r: Range)
    requires CutUpTo(spans, rs, low, r.low) && low <= r.low < r.high <= r.low + MAX_RANGE_SIZE
    requires forall x: nat :: r.low <= x < r.high ==> !Owned(spans, x)
    ensures CutUpTo(spans, rs + [r], low, r.high)
  {
    var at, at' := r.low, r.high;
    assert r == Range(at, at');
    PiecesAppend(rs, low, at, at');
    CoversAppend(spans, rs, low, at, at');
    FreeBytesSplit(spans, low, at, at');
    FreeBytesOf(spans, at, at, at');
    TotalAppend(rs, r);
  }

  /** The pieces from number k on are those of one chunk, one behind the other, and all but the last are as long as a
      sibling scans at a time. */
  ghost predicate ChunkFrom(rs: seq<Range>, k: nat, chunk: Range) {
    && k < |rs| && rs[k].low == chunk.low && rs[|rs| - 1].high == chunk.high
    && forall i :: k <= i < |rs| - 1 ==> rs[i].high - rs[i].low == MAX_RANGE_SIZE && rs[i + 1].low == rs[i].high
  }

  ghost predicate IsFull(r: Range) {
    r.high - r.low == MAX_RANGE_SIZE
  }

  /** From cut to rs only full pieces were added, up to `at`. */
  ghost predicate CutFull(cut: seq<Range>, rs: seq<Range>, low: nat, at: nat) {
    && |cut| <= |rs| && rs[..|cut|] == cut
    && if |rs| == |cut| then at == low else ChunkFrom(rs, |cut|, Range(low, at)) && IsFull(rs[|rs| - 1])
  }

  lemma CutGrows(cut: seq<Range>, rs: seq<Range>, low: nat, r: Range)
    requires CutFull(cut, rs, low, r.low)
    ensures |cut| < |rs + [r]| && (rs + [r])[..|cut|] == cut && ChunkFrom(rs + [r], |cut|, Range(low, r.high))
    ensures IsFull(r) ==> CutFull(cut, rs + [r], low, r.high)
  {
    var all := rs + [r];
    assert all[..|cut|] == rs[..|cut|];
    forall i | |cut| <= i < |all| - 1 ensures IsFull(all[i]) && all[i + 1].low == all[i].high {
      assert all[i] == rs[i];
    }
  }

  /** So there are no more of them than the length of the chunk calls for. */
  lemma {:induction false} ChunkCount(rs: seq<Range>, k: nat, chunk: Range)
    requires ChunkFrom(rs, k, chunk) && rs[|rs| - 1].low < rs[|rs| - 1].high <= rs[|rs| - 1].low + MAX_RANGE_SIZE
    ensures (|rs| - k - 1) * MAX_RANGE_SIZE < chunk.high - chunk.low <= (|rs| - k) * MAX_RANGE_SIZE
    decreases |rs| - k
  {
    if k + 1 < |rs| {
      ChunkCount(rs, k + 1, Range(rs[k + 1].low, chunk.high));
    }
  }

  /** Each range is as long as a sibling scans at a time, or ends where the mapping ends or owned memory begins. */
  ghost predicate NoneCutShort(spans: seq<Range>, rs: seq<Range>, high: nat) {
    forall i :: 0 <= i < |rs| ==>
      rs[i].high - rs[i].low == MAX_RANGE_SIZE || rs[i].high == high || Owned(spans, rs[i].high)
  }

  lemma ChunkNoneCutShort(spans: seq<Range>, rs: seq<Range>, k: nat, chunk: Range, high: nat)
    requires k <= |rs| && NoneCutShort(spans, rs[..k], high) && ChunkFrom(rs, k, chunk)
    requires chunk.high == high || Owned(spans, chunk.high)
    ensures NoneCutShort(spans, rs, high)
  {
    forall i | 0 <= i < |rs|
      ensures rs[i].high - rs[i].low == MAX_RANGE_SIZE || rs[i].high == high || Owned(spans, rs[i].high)
    {
      if i < k { assert rs[..k][i] == rs[i]; }
    }
  }

  datatype Stack = Stack(ours: bool, low: nat, high: nat)

  ghost function Ours(stacks: seq<Stack>): seq<Range> {
    if stacks == [] then []
    else
      var s := stacks[|stacks| - 1];
      Ours(stacks[..|stacks| - 1]) + if s.ours then [Range(s.low, s.high)] else []
  }

  /** g_ranges and g_bytes_to_scan. */
  class Table {
    var ranges: seq<Range>
    var bytesToScan: nat

    constructor ()
      ensures ranges == [] && bytesToScan == 0
    {
      ranges, bytesToScan := [], 0;
    }

    /** The chopping of one chunk. */
    method AddChunk(chunk: Range, ghost spans: seq<Range>, ghost before: seq<Range>, ghost low: nat,
                    ghost cut: seq<Range>)
      returns (ghost cut': seq<Range>)
      requires low <= chunk.low < chunk.high && CutUpTo(spans, cut, low, chunk.low)
      requires forall x: nat :: chunk.low <= x < chunk.high ==> !Owned(spans, x)
      requires ranges == before + cut
      modifies this
      ensures ranges == before + cut' && CutUpTo(spans, cut', low, chunk.high)
      ensures |cut| < |cut'| && cut'[..|cut|] == cut && ChunkFrom(cut', |cut|, chunk)
      ensures bytesToScan == old(bytesToScan) + (chunk.high - chunk.low)
    {
      var next := chunk;
      cut' := cut;
      assert cut[..|cut|] == cut;
      bytesToScan := bytesToScan + (next.high - next.low);
      while next.low + MAX_RANGE_SIZE < next.high
        invariant chunk.low <= next.low < next.high == chunk.high
        invariant ranges == before + cut' && CutUpTo(spans, cut', low, next.low)
        invariant CutFull(cut, cut', chunk.low, next.low)
        invariant bytesToScan == old(bytesToScan) + (chunk.high - chunk.low)
      {
        var piece := next.(high := next.low + MAX_RANGE_SIZE);
        cut' := Append(piece, spans, before, low, cut', cut, chunk.low);
        next := next.(low := next.low + MAX_RANGE_SIZE);
      }
      cut' := Append(next, spans, before, low, cut', cut, chunk.low);
      assert Range(chunk.low, next.high) == chunk;
    }

    /** One entry of g_ranges. */
    method Append(piece: Range, ghost spans: seq<Range>, ghost before: seq<Range>, ghost low: nat,
                  ghost cut: seq<Range>, ghost first: seq<Range>, ghost start: nat)
      returns (ghost cut': seq<Range>)
      requires CutUpTo(spans, cut, low, piece.low) && low <= piece.low < piece.high <= piece.low + MAX_RANGE_SIZE
      requires forall x: nat :: piece.low <= x < piece.high ==> !Owned(spans, x)
      requires ranges == before + cut && CutFull(first, cut, start, piece.low)
      modifies this`ranges
      ensures ranges == before + cut' && CutUpTo(spans, cut', low, piece.high)
      ensures |first| < |cut'| && cut'[..|first|] == first && ChunkFrom(cut', |first|, Range(start, piece.high))
      ensures IsFull(piece) ==> CutFull(first, cut', start, piece.high)
    {
      ranges := ranges + [piece];
      cut' := cut + [piece];
      assert ranges == before + cut';
      CutGrows(first, cut, start, piece);
      CutPiece(spans, cut, low, piece);
    }

    /** The range loop of collect_ranges: the ranges added partition what Forkscan does not own of [low, high),
        and the number of bytes to scan grows by the size of that. */
    method CollectRanges(low: nat, high: nat, owned: Map) returns (ghost added: seq<Range>)
      requires owned.Mapped() && owned.nodes != [] && low <= high
      modifies this
      ensures ranges == old(ranges) + added && CutUpTo(owned.spans, added, low, high)
      ensures NoneCutShort(owned.spans, added, high)
      ensures bytesToScan == old(bytesToScan) + Total(added)
    {
      var big := Range(low, high);
      added := [];
      while big.low != big.high
        invariant low <= big.low <= big.high == high
        invariant ranges == old(ranges) + added && CutUpTo(owned.spans, added, low, big.low)
        invariant NoneCutShort(owned.spans, added, high)
        invariant bytesToScan == old(bytesToScan) + Total(added)
        decreases big.high - big.low
      {
        var next, rest := owned.BreakRange(big);
        CutPastOwned(owned.spans, added, low, big.low, next.low);
        if next.low != next.high {
          ghost var before := added;
          FreeBytesSplit(owned.spans, low, next.low, next.high);
          FreeBytesOf(owned.spans, next.low, next.low, next.high);
          ghost var sofar := |added|;
          added := AddChunk(next, owned.spans, old(ranges), low, added);
          ChunkNoneCutShort(owned.spans, added, sofar, next, high);
        }
        big := rest;
      }
    }

    /** add_stack_ranges: each stack that is ours becomes one range, whatever its size. */
    method AddStackRanges(stacks: seq<Stack>)
      requires forall i :: 0 <= i < |stacks| ==> stacks[i].low <= stacks[i].high
      modifies this
      ensures ranges == old(ranges) + Ours(stacks)
      ensures bytesToScan == old(bytesToScan) + Total(Ours(stacks))
    {
      for i := 0 to |stacks|
        invariant ranges == old(ranges) + Ours(stacks[..i])
        invariant bytesToScan == old(bytesToScan) + Total(Ours(stacks[..i]))
      {
        assert stacks[..i + 1][..i] == stacks[..i] && stacks[..i + 1][i] == stacks[i];
        assert Ours(stacks[..i]) + [] == Ours(stacks[..i]);
        if stacks[i].ours {
          TotalAppend(Ours(stacks[..i]), Range(stacks[i].low, stacks[i].high));
          bytesToScan := bytesToScan + (stacks[i].high - stacks[i].low);
          ranges := ranges + [Range(stacks[i].low, stacks[i].high)];
        }
      }
      assert stacks[..|stacks|] == stacks;
    }
  }
}
