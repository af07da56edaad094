/** Searching the sorted pool while other siblings set mark bits in it (child.c 66-143, forkscan.c 99-112).

    A sibling reads ab->addrs without any lock.  Before every such read the model lets the other siblings mark
    any entries whose values are in `others`; `base` is what the entries are without their marks. */
module Search {
  import opened Words
  import opened Buffers

  const BINARY_THRESHOLD := 32

  /** Strictly increasing aligned addresses.  Alignment leaves a gap of 4 between any two of them. */
  ghost predicate Spread(base: seq<nat>) {
    && (forall i :: 0 <= i < |base| ==> base[i] % 4 == 0)
    && forall i, j :: 0 <= i < j < |base| ==> base[i] + 4 <= base[j]
  }

  /** No entry lies within less than 4 of val without being equal to it. */
  ghost predicate Apart(base: seq<nat>, val: nat) {
    forall i :: 0 <= i < |base| ==> base[i] == val || base[i] + 4 <= val || val + 4 <= base[i]
  }

  lemma AlignedIsApart(base: seq<nat>, val: nat)
    requires Spread(base) && val % 4 == 0
    ensures Apart(base, val)
  {
    forall i | 0 <= i < |base| ensures base[i] == val || base[i] + 4 <= val || val + 4 <= base[i] {
      assert base[i] % 4 == 0;
    }
  }

  /** The entries s are those of base, some of them marked. */
  ghost predicate Shows(base: seq<nat>, s: seq<nat>) {
    |base| <= |s| && forall i :: 0 <= i < |base| ==> s[i] == base[i] || s[i] == base[i] + 1
  }

  ghost predicate MarkedAt(base: seq<nat>, s: seq<nat>, i: int) {
    0 <= i < |base| <= |s| && s[i] == base[i] + 1
  }

  /** From s to t nothing but marks was added, and only to values in `marks`. */
  ghost predicate Later(base: seq<nat>, s: seq<nat>, t: seq<nat>, marks: set<nat>) {
    && |base| <= |s| == |t|
    && (forall i :: 0 <= i < |base| ==> s[i] == t[i] || (s[i] == base[i] && MarkedAt(base, t, i) && base[i] in marks))
    && forall i :: |base| <= i < |s| ==> s[i] == t[i]
  }

  lemma LaterTrans(base: seq<nat>, s: seq<nat>, t: seq<nat>, u: seq<nat>, m: set<nat>, m': set<nat>)
    requires Later(base, s, t, m) && Later(base, t, u, m')
    ensures Later(base, s, u, m + m')
  {
  }

  lemma LaterOnly(base: seq<nat>, s: seq<nat>, t: seq<nat>, u: seq<nat>, m: set<nat>)
    requires Later(base, s, t, m) && Later(base, t, u, m)
    ensures Later(base, s, u, m)
  {
  }

  lemma MaskDropsTheMark(b: nat)
    requires b % 4 == 0
    ensures PtrMask(b) == b && PtrMask(b + 1) == b && !IsMarked(b) && IsMarked(b + 1)
  {
  }

  /** Whether an entry refers to val does not depend on its mark. */
  lemma MaskShowsBase(base: seq<nat>, s: seq<nat>, i: nat)
    requires Spread(base) && Shows(base, s) && i < |base|
    ensures PtrMask(s[i]) == base[i]
    ensures IsMarked(s[i]) <==> MarkedAt(base, s, i)
  {
    MaskDropsTheMark(base[i]);
  }

  /** Other siblings mark some of the entries. */
  method Interfere(a: array<nat>, n: nat, others: set<nat>, ghost base: seq<nat>)
    requires |base| == n <= a.Length && Spread(base) && Shows(base, a[..])
    modifies a
    ensures Shows(base, a[..]) && Later(base, old(a[..]), a[..], others)
  {
    for i := 0 to n
      invariant Shows(base, a[..]) && Later(base, old(a[..]), a[..], others)
    {
      var now: bool := *;
      if now && a[i] in others && !IsMarked(a[i]) {
        MaskShowsBase(base, a[..], i);
        a[i] := a[i] + 1;
      }
    }
  }

  /** A read of an entry that other siblings may be marking. */
  method Read(a: array<nat>, i: nat, n: nat, others: set<nat>, ghost base: seq<nat>) returns (entry: nat)
    requires |base| == n <= a.Length && i < n && Spread(base) && Shows(base, a[..])
    modifies a
    ensures Shows(base, a[..]) && Later(base, old(a[..]), a[..], others)
    ensures entry == a[i]
  {
    Interfere(a, n, others, base);
    entry := a[i];
  }

  /** r is the last place in [min, max) whose value is at most val, or min if there is none. */
  ghost predicate Closest(base: seq<nat>, val: nat, min: int, max: int, r: int) {
    && 0 <= min <= r < max <= |base|
    && (base[r] <= val || r == min)
    && (r + 1 < max ==> val < base[r + 1])
  }

  /** r is the closest place, or the one just before the entry for val, which is marked. */
  ghost predicate Lands(base: seq<nat>, s: seq<nat>, val: nat, min: int, max: int, r: int) {
    || Closest(base, val, min, max, r)
    || (0 <= min <= r + 1 < max <= |base| && base[r + 1] == val && MarkedAt(base, s, r + 1))
  }

  /** A value that is present is found, unless its entry is already marked. */
  lemma FoundOrMarked(base: seq<nat>, s: seq<nat>, val: nat, r: int, j: nat)
    requires Spread(base) && Lands(base, s, val, 0, |base|, r) && j < |base| && base[j] == val
    ensures r == j || (r == j - 1 && MarkedAt(base, s, j))
  {
  }

  /** What the loop of iterative_search makes of its reads of a[min], a[min + 1], and so on. */
  function Scan(val: nat, looks: seq<nat>, min: int): (r: int)
    ensures min - 1 <= r < min + |looks|
    ensures r == min - 1 <==> looks == [] || looks[0] > val
  {
    if looks == [] then min - 1
    else if looks[0] == val then min
    else if looks[0] > val then min - 1
    else Scan(val, looks[1..], min + 1)
  }

  /** What iterative_search makes of all its reads: a[min] is read twice. */
  function IterativeResult(val: nat, first: nat, looks: seq<nat>, min: int): int {
    if first > val then min else Scan(val, looks, min)
  }

  /** iterative_search answers min - 1 exactly when the entry for val is at min and is marked by somebody else
      between the two reads of it. */
  lemma UnderflowsExactly(val: nat, b: nat, first: nat, looks: seq<nat>, min: int)
    requires val % 4 == 0 && b % 4 == 0 && looks != []
    requires first == b || first == b + 1
    requires looks[0] == first || looks[0] == b + 1
    ensures IterativeResult(val, first, looks, min) == min - 1 <==> b == val && first == b && looks[0] == b + 1
  {
    if first > val {
      assert IterativeResult(val, first, looks, min) == min;
    } else {
      assert looks[0] > val <==> b == val && first == b && looks[0] == b + 1;
    }
  }

  /** The entry for val was read without its mark and then, by the next read, with it. */
  ghost predicate Raced(val: nat, first: nat, looks: seq<nat>) {
    first == val && looks != [] && looks[0] == val + 1
  }

  /** Reads of a pool with the one entry 8, which is marked between the first two of them: the answer is -1, and
      is_ref then reads in front of the array. */
  lemma UnderflowAtZero()
    ensures Spread([8]) && AreReads([8], 8, [9], 0)
    ensures IterativeResult(8, 8, [9], 0) == -1
  {
  }

  lemma {:induction false} ScanGoesOn(val: nat, looks: seq<nat>, last: nat, min: int)
    requires forall i :: 0 <= i < |looks| ==> looks[i] < val
    ensures Scan(val, looks + [last], min)
         == if last > val then min + |looks| - 1 else min + |looks|
    ensures Scan(val, looks, min) == min + |looks| - 1
  {
    if looks == [] {
      assert [last][1..] == [];
    } else {
      ScanGoesOn(val, looks[1..], last, min + 1);
      assert (looks + [last])[1..] == looks[1..] + [last];
    }
  }

  /** The reads of an array that only gains marks: the first read of a[min], and those of a[min], a[min + 1], ... */
  ghost predicate AreReads(base: seq<nat>, first: nat, looks: seq<nat>, min: nat) {
    && min + |looks| <= |base| && min < |base|
    && (first == base[min] || first == base[min] + 1)
    && (forall i :: 0 <= i < |looks| ==> looks[i] == base[min + i] || looks[i] == base[min + i] + 1)
    && (looks != [] ==> first <= looks[0])
  }

  /** All that has been read so far was smaller than val. */
  ghost predicate SoFar(base: seq<nat>, s: seq<nat>, val: nat, first: nat, looks: seq<nat>, min: nat) {
    && AreReads(base, first, looks, min) && min < |s| && first <= s[min] && first <= val
    && (forall i :: 0 <= i < |looks| ==> looks[i] < val)
    && Scan(val, looks, min) == min + |looks| - 1
  }

  lemma NextRead(base: seq<nat>, s: seq<nat>, t: seq<nat>, val: nat, first: nat, looks: seq<nat>, min: nat, m: set<nat>)
    requires SoFar(base, s, val, first, looks, min) && min + |looks| < |base|
    requires Later(base, s, t, m) && Shows(base, t)
    ensures var lo := min + |looks|; var cmp := t[lo];
      && AreReads(base, first, looks + [cmp], min)
      && Scan(val, looks + [cmp], min) == (if cmp > val then lo - 1 else lo)
      && (cmp < val ==> SoFar(base, t, val, first, looks + [cmp], min))
  {
    var cmp := t[min + |looks|];
    ScanGoesOn(val, looks, cmp, min);
    if cmp < val { ScanGoesOn(val, looks + [cmp], 0, min); }
  }

  lemma SoFarStays(base: seq<nat>, s: seq<nat>, t: seq<nat>, val: nat, first: nat, looks: seq<nat>, min: nat,
                   m: set<nat>)
    requires SoFar(base, s, val, first, looks, min) && Later(base, s, t, m)
    ensures SoFar(base, t, val, first, looks, min)
  {
  }

  /** A read that equals val found it. */
  lemma LandsOnVal(base: seq<nat>, s: seq<nat>, val: nat, min: nat, max: nat, lo: nat)
    requires Spread(base) && Apart(base, val) && Shows(base, s) && min <= lo < max <= |base| && s[lo] == val
    ensures Lands(base, s, val, min, max, lo)
  {
  }

  /** Where the loop of iterative_search ends without having found val. */
  lemma LandsBefore(base: seq<nat>, s: seq<nat>, val: nat, first: nat, looks: seq<nat>, min: nat, max: nat)
    requires Spread(base) && Apart(base, val) && Shows(base, s) && SoFar(base, s, val, first, looks, min)
    requires min < max <= |base| && min + |looks| <= max && (min + |looks| < max ==> s[min + |looks|] > val)
    ensures Lands(base, s, val, min, max, min + |looks| - 1)
    ensures looks == [] ==> base[min] == val && MarkedAt(base, s, min)
  {
    var lo := min + |looks|;
    if looks != [] { assert looks[|looks| - 1] < val && base[lo - 1] < val; }
  }

  /** One look of iterative_search. */
  method ReadNext(a: array<nat>, lo: nat, n: nat, others: set<nat>, ghost base: seq<nat>, ghost start: seq<nat>,
                  ghost val: nat, ghost first: nat, ghost looks: seq<nat>, ghost min: nat)
    returns (cmp: nat)
    requires |base| == n <= a.Length && lo < n && Spread(base) && Shows(base, a[..])
    requires Later(base, start, a[..], others)
    requires lo == min + |looks| && SoFar(base, a[..], val, first, looks, min)
    modifies a
    ensures Shows(base, a[..]) && Later(base, start, a[..], others) && Later(base, old(a[..]), a[..], others)
    ensures cmp == a[lo] && AreReads(base, first, looks + [cmp], min)
    ensures Scan(val, looks + [cmp], min) == if cmp > val then lo - 1 else lo
    ensures cmp < val ==> SoFar(base, a[..], val, first, looks + [cmp], min)
  {
    ghost var s := a[..];
    cmp := Read(a, lo, n, others, base);
    LaterOnly(base, start, s, a[..], others);
    NextRead(base, s, a[..], val, first, looks, min, others);
  }

  /** iterative_search.  The result is where val belongs; it is min - 1 only if the entry for val is at min and
      was marked by another sibling during the search. */
  method IterativeSearch(val: nat, a: array<nat>, min: nat, max: nat, n: nat, others: set<nat>, ghost base: seq<nat>)
    returns (r: int, ghost first: nat, ghost looks: seq<nat>)
    requires min < max <= |base| == n <= a.Length && Spread(base) && Apart(base, val) && Shows(base, a[..])
    modifies a
    ensures Shows(base, a[..]) && Later(base, old(a[..]), a[..], others)
    ensures Lands(base, a[..], val, min, max, r)
    ensures r == IterativeResult(val, first, looks, min) && AreReads(base, first, looks, min)
    ensures looks == [] ==> first > val
    ensures r == min - 1 ==> old(a[min]) == val && MarkedAt(base, a[..], min) && val in others
  {
    var lo := min;
    var cmp := Read(a, lo, n, others, base);
    first, looks := cmp, [];
    if cmp > val || lo == max {
      return min, first, looks;
    }
    while lo < max
      invariant min <= lo <= max && lo == min + |looks|
      invariant Shows(base, a[..]) && Later(base, old(a[..]), a[..], others)
      invariant SoFar(base, a[..], val, first, looks, min)
    {
      ghost var s, before := a[..], looks;
      cmp := ReadNext(a, lo, n, others, base, old(a[..]), val, first, looks, min);
      looks := looks + [cmp];
      if cmp == val {
        LandsOnVal(base, a[..], val, min, max, lo);
        return lo, first, looks;
      }
      if cmp > val {
        SoFarStays(base, s, a[..], val, first, before, min, others);
        LandsBefore(base, a[..], val, first, before, min, max);
        return lo - 1, first, looks;
      }
      lo := lo + 1;
    }
    LandsBefore(base, a[..], val, first, looks, min, max);
    return lo - 1, first, looks;
  }

  /** The part of the window a binary search has not excluded yet. */
  ghost predicate Narrowed(base: seq<nat>, s: seq<nat>, val: nat, min: int, max: int, lo: int, hi: int) {
    && 0 <= min <= lo < hi <= max <= |base|
    && (lo == min || base[lo] < val)
    && (hi == max || val < base[hi] || (val == base[hi] && MarkedAt(base, s, hi)))
  }

  lemma LandsWider(base: seq<nat>, s: seq<nat>, val: nat, min: int, max: int, lo: int, hi: int, r: int)
    requires Spread(base) && Narrowed(base, s, val, min, max, lo, hi) && Lands(base, s, val, lo, hi, r)
    ensures Lands(base, s, val, min, max, r)
  {
  }

  method BinarySearch(val: nat, a: array<nat>, min: nat, max: nat, n: nat, others: set<nat>, ghost base: seq<nat>)
    returns (r: int, ghost first: nat, ghost looks: seq<nat>)
    requires min < max <= |base| == n <= a.Length && Spread(base) && Apart(base, val) && Shows(base, a[..])
    modifies a
    ensures Shows(base, a[..]) && Later(base, old(a[..]), a[..], others)
    ensures Lands(base, a[..], val, min, max, r)
    ensures r == min - 1 ==> base[min] == val && MarkedAt(base, a[..], min) && val in others
    ensures r == min - 1 <==> base[min] == val && Raced(val, first, looks)
  {
    first, looks := 0, [];
    var lo, hi := min, max;
    while hi - lo >= BINARY_THRESHOLD
      invariant Narrowed(base, a[..], val, min, max, lo, hi)
      invariant Shows(base, a[..]) && Later(base, old(a[..]), a[..], others)
    {
      var mid := (hi + lo) / 2;
      ghost var s := a[..];
      var cmp := Read(a, mid, n, others, base);
      LaterOnly(base, old(a[..]), s, a[..], others);
      if cmp == val {
        return mid, first, looks;
      }
      if cmp > val {
        hi := mid;
      } else {
        lo := mid;
      }
    }
    ghost var s := a[..];
    r, first, looks := IterativeSearch(val, a, lo, hi, n, others, base);
    LaterOnly(base, old(a[..]), s, a[..], others);
    LandsWider(base, a[..], val, min, max, lo, hi, r);
    UnderflowsAt(base, val, min, lo, first, looks);
  }

  /** Only a window that starts at the entry for val can be left at its start. */
  lemma UnderflowsAt(base: seq<nat>, val: nat, min: nat, lo: nat, first: nat, looks: seq<nat>)
    requires Spread(base) && min <= lo < |base| && AreReads(base, first, looks, lo)
    requires looks == [] ==> first > val
    ensures IterativeResult(val, first, looks, lo) == min - 1 <==> base[min] == val && Raced(val, first, looks)
  {
  }

  function PageStart(k: nat): nat {
    k * WORDS_PER_PAGE
  }

  /** The minimap has the first value of each page of addresses. */
  ghost predicate MinimapOf(base: seq<nat>, minimap: seq<nat>) {
    && |base| <= PageStart(|minimap|) < |base| + WORDS_PER_PAGE
    && forall k: nat :: k < |minimap| ==> minimap[k] == base[PageStart(k)]
  }

  /** generate_minimap.  The entries fit, because the buffer was sized for its capacity. */
  method GenerateMinimap(ab: Buffer)
    requires ab.Valid() && ab.isAggregate
    modifies ab`nMinimap, ab.minimap
    ensures ab.Valid() && ab.nMinimap <= ab.minimap.Length
    ensures MinimapOf(ab.Contents(), ab.minimap[..ab.nMinimap])
  {
    ab.nMinimap := 0;
    var i := 0;
    while i < ab.nAddrs
      invariant i == PageStart(ab.nMinimap)
      invariant ab.Valid() && ab.nMinimap <= ab.minimap.Length
      invariant i < ab.nAddrs + WORDS_PER_PAGE
      invariant forall k: nat :: k < ab.nMinimap ==> PageStart(k) < ab.nAddrs && ab.minimap[k] == ab.addrs[PageStart(k)]
    {
      ab.minimap[ab.nMinimap] := ab.addrs[i];
      ab.nMinimap := ab.nMinimap + 1;
      i := i + WORDS_PER_PAGE;
    }
  }

  lemma MinimapIsSpread(base: seq<nat>, minimap: seq<nat>)
    requires Spread(base) && MinimapOf(base, minimap)
    ensures Spread(minimap)
  {
    forall i, j | 0 <= i < j < |minimap| ensures minimap[i] + 4 <= minimap[j] {
      assert PageStart(i) < PageStart(j) < |base|;
    }
  }

  lemma MinimapIsApart(base: seq<nat>, minimap: seq<nat>, val: nat)
    requires Apart(base, val) && MinimapOf(base, minimap)
    ensures Apart(minimap, val)
  {
    forall i | 0 <= i < |minimap|
      ensures minimap[i] == val || minimap[i] + 4 <= val || val + 4 <= minimap[i]
    {
      assert PageStart(i) < |base|;
    }
  }

  /** The buffer of a sibling: sorted addresses, some of them marked, and their minimap. */
  ghost predicate Prepared(ab: Buffer, base: seq<nat>)
    reads ab, ab.addrs, ab.minimap
  {
    && ab.Valid() && ab.nMinimap <= ab.minimap.Length
    && 0 < |base| == ab.nAddrs
    && Spread(base) && Shows(base, ab.addrs[..])
    && MinimapOf(base, ab.minimap[..ab.nMinimap])
  }

  /** The page of addresses that level 1 of the search has picked. */
  ghost predicate Page(base: seq<nat>, val: nat, min: int, max: int) {
    && 0 <= min < max <= |base|
    && (min == 0 || base[min] <= val)
    && (max == |base| || val < base[max])
  }

  lemma LandsInPage(base: seq<nat>, s: seq<nat>, val: nat, min: int, max: int, r: int)
    requires Spread(base) && Page(base, val, min, max) && Lands(base, s, val, min, max, r)
    ensures Lands(base, s, val, 0, |base|, r) || r == -1
  {
  }

  /** Level 1 of addr_find: nobody writes the minimap. */
  method FindPage(val: nat, ab: Buffer, ghost base: seq<nat>) returns (min: nat, max: nat)
    requires Prepared(ab, base) && Apart(base, val)
    modifies ab.minimap
    ensures Prepared(ab, base) && ab.minimap[..] == old(ab.minimap[..])
    ensures Page(base, val, min, max)
  {
    ghost var mm := ab.minimap[..ab.nMinimap];
    MinimapIsSpread(base, mm);
    MinimapIsApart(base, mm, val);
    ghost var first, looks;
    var v;
    v, first, looks := BinarySearch(val, ab.minimap, 0, ab.nMinimap, ab.nMinimap, {}, mm);
    assert ab.minimap[..ab.nMinimap] == mm;
    min := PageStart(v);
    max := if v == ab.nMinimap - 1 then ab.nAddrs else PageStart(v + 1);
  }

  /** addr_find: where val is, or would be.  A value that is present is found at its index, unless its entry is
      already marked.  The result is -1 only if the first entry is val and was marked during the search. */
  method AddrFind(val: nat, ab: Buffer, others: set<nat>, ghost base: seq<nat>)
    returns (loc: int, ghost first: nat, ghost looks: seq<nat>)
    requires Prepared(ab, base) && val % 4 == 0
    modifies ab.addrs, ab.minimap
    ensures Prepared(ab, base) && ab.minimap[..] == old(ab.minimap[..])
    ensures Later(base, old(ab.addrs[..]), ab.addrs[..], others)
    ensures -1 <= loc < ab.nAddrs
    ensures loc >= 0 ==> Lands(base, ab.addrs[..], val, 0, |base|, loc)
    ensures loc == -1 ==> MarkedAt(base, ab.addrs[..], 0) && val in others
    ensures loc == -1 <==> base[0] == val && Raced(val, first, looks)
  {
    AlignedIsApart(base, val);
    var min, max := FindPage(val, ab, base);
    loc, first, looks := BinarySearch(val, ab.addrs, min, max, ab.nAddrs, others, base);
    LandsInPage(base, ab.addrs[..], val, min, max, loc);
  }

  /** loc is the index of val if val is present, or the index before it if the entry for val is marked already;
      everything below loc is smaller than val. */
  ghost predicate Finds(base: seq<nat>, s: seq<nat>, val: nat, loc: int) {
    && 0 <= loc < |base| <= |s|
    && (forall i :: 0 <= i < loc ==> base[i] < val)
    && forall j :: 0 <= j < |base| && base[j] == val ==> loc == j || (loc == j - 1 && MarkedAt(base, s, j))
  }

  lemma LandsFinds(base: seq<nat>, s: seq<nat>, val: nat, loc: int)
    requires Spread(base) && Shows(base, s) && 0 <= loc && Lands(base, s, val, 0, |base|, loc)
    ensures Finds(base, s, val, loc)
  {
    forall i | 0 <= i < loc ensures base[i] < val {
      assert base[i] < base[loc];
    }
    forall j | 0 <= j < |base| && base[j] == val ensures loc == j || (loc == j - 1 && MarkedAt(base, s, j)) {
      FoundOrMarked(base, s, val, loc, j);
    }
  }

  lemma StopsAt(base: seq<nat>, s: seq<nat>, val: nat, at: nat)
    requires Spread(base) && Apart(base, val) && Shows(base, s) && at < |base| && val <= s[at]
    requires forall i :: 0 <= i < at ==> base[i] < val
    ensures Finds(base, s, val, at)
  {
  }

  /** addr_find_hint: try the hint and the entries after it, `line` of them, before searching the whole array.
      For a value that is at most the last entry the hint never leaves the array, and the answer is never -1. */
  method AddrFindHint(val: nat, ab: Buffer, hint: nat, line: nat, others: set<nat>, ghost base: seq<nat>)
    returns (loc: nat)
    requires Prepared(ab, base) && val % 4 == 0 && val <= base[|base| - 1]
    requires hint < ab.nAddrs && forall i :: 0 <= i < hint ==> base[i] < val
    modifies ab.addrs, ab.minimap
    ensures Prepared(ab, base) && ab.minimap[..] == old(ab.minimap[..])
    ensures Later(base, old(ab.addrs[..]), ab.addrs[..], others)
    ensures loc < ab.nAddrs && Finds(base, ab.addrs[..], val, loc)
  {
    AlignedIsApart(base, val);
    var at: nat := hint;
    var cmp := Read(ab.addrs, at, ab.nAddrs, others, base);
    if val <= cmp {
      StopsAt(base, ab.addrs[..], val, at);
      return at;
    }
    for i := 0 to line
      invariant at < ab.nAddrs && base[at] < val && Prepared(ab, base)
      invariant ab.minimap[..] == old(ab.minimap[..])
      invariant Later(base, old(ab.addrs[..]), ab.addrs[..], others)
    {
      ghost var s := ab.addrs[..];
      at := Min(ab.nAddrs, at + 1);
      assert at < ab.nAddrs;
      cmp := Read(ab.addrs, at, ab.nAddrs, others, base);
      LaterOnly(base, old(ab.addrs[..]), s, ab.addrs[..], others);
      if val <= cmp {
        StopsAt(base, ab.addrs[..], val, at);
        return at;
      }
    }
    ghost var s := ab.addrs[..];
    ghost var first, looks;
    loc, first, looks := AddrFind(val, ab, others, base);
    LaterOnly(base, old(ab.addrs[..]), s, ab.addrs[..], others);
    LandsFinds(base, ab.addrs[..], val, loc);
  }
}
