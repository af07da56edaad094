/** The end of an iteration on the buffers themselves, and what it does to them when there was nothing to collect
    (forkscan.c 229-244). */
module EmptyRounds {
  import opened Words
  import opened Sequences
  import opened Buffers
  import R = Retirees

  /** The copying loop: the marked entries, without their marks, go into the buffer for the next round. */
  method CopySurvivors(working: Buffer, uncollected: Buffer)
    requires working.Valid() && uncollected.Valid() && uncollected.Contents() == []
    requires working != uncollected && working.addrs != uncollected.addrs && working.nAddrs <= uncollected.capacity
    modifies uncollected`nAddrs, uncollected.addrs
    ensures uncollected.Valid() && uncollected.Contents() == R.MarkedOf(working.Contents())
  {
    for i := 0 to working.nAddrs
      invariant working.Valid() && uncollected.Valid() && uncollected.nAddrs <= i
      invariant uncollected.Contents() == R.MarkedOf(working.addrs[..i])
    {
      assert working.addrs[..i + 1][..i] == working.addrs[..i];
      var entry := working.addrs[i];
      if IsMarked(entry) {
        ghost var before := uncollected.Contents();
        uncollected.addrs[uncollected.nAddrs] := PtrMask(entry);
        uncollected.nAddrs := uncollected.nAddrs + 1;
        assert uncollected.Contents() == before + [PtrMask(entry)];
      }
    }
    assert working.addrs[..working.nAddrs] == working.Contents();
  }

  /** The pooled aggregates are neither listed nor the working buffer, and share no memory with it. */
  ghost predicate PoolApart(list: RetireeList, working: Buffer, aggregates: Pool)
    reads list, aggregates, aggregates.items
  {
    forall b :: b in aggregates.items ==>
      b.Valid() && b.isAggregate && b != working && b.addrs != working.addrs && b !in list.nodes
  }

  ghost predicate ReclaimersApart(list: RetireeList, working: Buffer, reclaimers: Pool, aggregates: Pool)
    reads list, reclaimers, aggregates
  {
    && reclaimers != aggregates && working !in reclaimers.items
    && forall b :: b in reclaimers.items ==> b !in list.nodes && b !in aggregates.items
  }

  ghost predicate Pooled(aggregates: Pool)
    reads aggregates, aggregates.items
  {
    aggregates.Valid() && forall b :: b in aggregates.items ==> b.Valid() && b.isAggregate
  }

  /** The survivors' buffer is as large as the working buffer, and no larger than it has to be if it is new. */
  ghost predicate RoomFor(working: Buffer, uncollected: Buffer, isNew: bool) {
    && working.capacity <= uncollected.capacity && uncollected != working && uncollected.addrs != working.addrs
    && (isNew ==>
          uncollected.capacity < working.capacity + WORDS_PER_PAGE && uncollected.capacity % WORDS_PER_PAGE == 0)
  }

  /** forkscan_make_aggregate_buffer, as far as it matters which buffers it touches. */
  method TakeApart(requested: nat, aggregates: Pool) returns (ab: Buffer)
    requires Pooled(aggregates)
    modifies aggregates, aggregates.items`next, aggregates.items`nAddrs
    ensures Pooled(aggregates) && (old(aggregates.items) == [] ==> aggregates.items == [])
    ensures forall b :: b in aggregates.items ==> b in old(aggregates.items)
    ensures ab.Valid() && ab.isAggregate && ab.Contents() == [] && requested <= ab.capacity
    ensures fresh(ab) ==> ab.capacity < requested + WORDS_PER_PAGE && ab.capacity % WORDS_PER_PAGE == 0
    ensures (fresh(ab) && fresh(ab.addrs)) || ab in old(aggregates.items)
    ensures ab !in aggregates.items
  {
    ghost var dropped, items := 0, aggregates.items;
    ab, dropped := MakeAggregate(requested, aggregates);
    assert dropped < |items| ==> ab == items[dropped] && ab in items;
    assert forall b :: b in aggregates.items ==> b in items;
  }

  /** A buffer for the survivors that has nothing to do with the listed ones. */
  method TakeBuffer(working: Buffer, list: RetireeList, ghost reclaimers: Pool, aggregates: Pool)
    returns (uncollected: Buffer)
    requires list.Valid() && reclaimers.Valid() && aggregates.Valid()
    requires PoolApart(list, working, aggregates) && ReclaimersApart(list, working, reclaimers, aggregates)
    modifies aggregates, aggregates.items`next, aggregates.items`nAddrs
    ensures list.Valid() && reclaimers.Valid() && aggregates.Valid()
    ensures uncollected.Valid() && uncollected.isAggregate && uncollected.Contents() == []
    ensures RoomFor(working, uncollected, fresh(uncollected))
    ensures old(aggregates.items) == [] ==> aggregates.items == []
    ensures (fresh(uncollected) && fresh(uncollected.addrs)) || uncollected in old(aggregates.items)
    ensures uncollected !in aggregates.items && uncollected !in list.nodes && uncollected !in reclaimers.items
    ensures PoolApart(list, working, aggregates) && ReclaimersApart(list, working, reclaimers, aggregates)
    ensures uncollected != working && uncollected.addrs != working.addrs
  {
    uncollected := TakeApart(working.capacity, aggregates);
    assert forall i :: 0 <= i < |list.nodes| ==> list.nodes[i] in list.nodes;
    assert forall i :: 0 <= i < |reclaimers.items| ==> reclaimers.items[i] in reclaimers.items;
  }

  /** The survivors move to a buffer of their own. */
  method CarryOver(working: Buffer, list: RetireeList, ghost reclaimers: Pool, aggregates: Pool)
    returns (uncollected: Buffer)
    requires list.Valid() && reclaimers.Valid() && aggregates.Valid() && working.Valid() && working in list.nodes
    requires PoolApart(list, working, aggregates) && ReclaimersApart(list, working, reclaimers, aggregates)
    modifies aggregates, aggregates.items`next, aggregates.items`nAddrs, set b | b in aggregates.items :: b.addrs
    ensures list.Valid() && reclaimers.Valid() && aggregates.Valid()
    ensures PoolApart(list, working, aggregates) && ReclaimersApart(list, working, reclaimers, aggregates)
    ensures working.Contents() == old(working.Contents())
    ensures uncollected.Valid() && uncollected.Contents() == R.MarkedOf(working.Contents())
    ensures RoomFor(working, uncollected, fresh(uncollected))
    ensures old(aggregates.items) == [] ==> aggregates.items == []
    ensures uncollected.isAggregate && uncollected !in aggregates.items && uncollected !in list.nodes
    ensures (fresh(uncollected) && fresh(uncollected.addrs)) || uncollected in old(aggregates.items)
  {
    ghost var arrays := set b | b in aggregates.items :: b.addrs;
    uncollected := TakeBuffer(working, list, reclaimers, aggregates);
    assert uncollected.addrs in arrays || fresh(uncollected.addrs);
    ghost var contents := working.Contents();
    CopySurvivors(working, uncollected);
    assert list.Valid() && reclaimers.Valid() && aggregates.Valid();
    assert working.Contents() == contents;
  }

  /** The last reference.  It is dropped by the collector thread itself, with nothing claimed. */
  method DropReference(working: Buffer, list: RetireeList, reclaimers: Pool, aggregates: Pool) returns (released: bool)
    requires list.Valid() && reclaimers.Valid() && aggregates.Valid() && working in list.nodes
    requires PoolApart(list, working, aggregates) && ReclaimersApart(list, working, reclaimers, aggregates)
    requires working.refCount == 1 && working.freeIdx == 0 && working.isAggregate
    modifies working`refCount, working`next, reclaimers, aggregates
    ensures reclaimers.Valid() && aggregates.Valid() && list.LastIsLast() && reclaimers.items == old(reclaimers.items)
    ensures working.refCount == 0
    ensures released <==> working.nAddrs == 0
    ensures !released ==> list.Valid() && aggregates.items == old(aggregates.items)
    ensures released ==> aggregates.items == [working] + old(aggregates.items)
    ensures (exists b :: b in list.nodes && b in aggregates.items) <==> released
  {
    released := list.Unref(working, reclaimers, aggregates);
    assert released ==> working in list.nodes && working in aggregates.items;
  }

  /** The end of reclaim_iteration, with no thread freeing meanwhile: publish the working buffer, copy the survivors to
      a pooled or new one, and drop the reference.  The working buffer goes back to its pool here, so that it is both
      listed and pooled, if and only if it is empty. */
  method FinishIteration(working: Buffer, list: RetireeList, reclaimers: Pool, aggregates: Pool)
    returns (uncollected: Buffer, released: bool)
    requires list.Valid() && reclaimers.Valid() && aggregates.Valid() && working.Valid() && working.isAggregate
    requires working !in list.nodes
    requires PoolApart(list, working, aggregates) && ReclaimersApart(list, working, reclaimers, aggregates)
    modifies list, list.nodes`next, working`refCount, working`freeIdx, working`next, reclaimers
    modifies aggregates, aggregates.items`next, aggregates.items`nAddrs, set b | b in aggregates.items :: b.addrs
    ensures list.nodes == old(list.nodes) + [working] && list.first == list.nodes[0] && list.LastIsLast()
    ensures uncollected.Valid() && uncollected.Contents() == R.MarkedOf(old(working.Contents()))
    ensures RoomFor(working, uncollected, fresh(uncollected))
    ensures old(aggregates.items) == [] ==> aggregates.items == if released then [working] else []
    ensures uncollected.isAggregate && uncollected !in aggregates.items && uncollected !in list.nodes
    ensures (fresh(uncollected) && fresh(uncollected.addrs)) || uncollected in old(aggregates.items)
    ensures working.Contents() == old(working.Contents()) && working.refCount == 0 && working.freeIdx == 0
    ensures reclaimers.Valid() && aggregates.Valid() && reclaimers.items == old(reclaimers.items)
    ensures !released ==> list.Valid()
    ensures released <==> working.nAddrs == 0
    ensures (exists b :: b in list.nodes && b in aggregates.items) <==> released
  {
    Published(working, list, reclaimers, aggregates);
    uncollected, released := Conclude(working, list, reclaimers, aggregates);
  }

  /** What is left of the iteration once the working buffer is listed. */
  method Conclude(working: Buffer, list: RetireeList, reclaimers: Pool, aggregates: Pool)
    returns (uncollected: Buffer, released: bool)
    requires list.Valid() && reclaimers.Valid() && aggregates.Valid() && working.Valid() && working in list.nodes
    requires working.refCount == 1 && working.freeIdx == 0 && working.isAggregate
    requires PoolApart(list, working, aggregates) && ReclaimersApart(list, working, reclaimers, aggregates)
    modifies working`refCount, working`next, reclaimers
    modifies aggregates, aggregates.items`next, aggregates.items`nAddrs, set b | b in aggregates.items :: b.addrs
    ensures uncollected.Valid() && uncollected.Contents() == R.MarkedOf(old(working.Contents()))
    ensures RoomFor(working, uncollected, fresh(uncollected))
    ensures old(aggregates.items) == [] ==> aggregates.items == if released then [working] else []
    ensures uncollected.isAggregate && uncollected !in aggregates.items && uncollected !in list.nodes
    ensures (fresh(uncollected) && fresh(uncollected.addrs)) || uncollected in old(aggregates.items)
    ensures working.Contents() == old(working.Contents()) && working.refCount == 0 && working.freeIdx == 0
    ensures reclaimers.Valid() && aggregates.Valid() && list.LastIsLast() && reclaimers.items == old(reclaimers.items)
    ensures !released ==> list.Valid()
    ensures released <==> working.nAddrs == 0
    ensures (exists b :: b in list.nodes && b in aggregates.items) <==> released
  {
    uncollected := CarryOver(working, list, reclaimers, aggregates);
    released := DropReference(working, list, reclaimers, aggregates);
  }

  /** forkscan_buffer_push_back, beside the pools. */
  method Published(working: Buffer, list: RetireeList, ghost reclaimers: Pool, ghost aggregates: Pool)
    requires list.Valid() && reclaimers.Valid() && aggregates.Valid() && working !in list.nodes
    requires PoolApart(list, working, aggregates) && ReclaimersApart(list, working, reclaimers, aggregates)
    modifies list, list.nodes`next, working`refCount, working`freeIdx, working`next
    ensures list.Valid() && list.nodes == old(list.nodes) + [working]
    ensures working.refCount == 1 && working.freeIdx == 0
    ensures reclaimers.Valid() && aggregates.Valid()
    ensures PoolApart(list, working, aggregates) && ReclaimersApart(list, working, reclaimers, aggregates)
  {
    list.PushBack(working);
    assert forall i :: 0 <= i < |reclaimers.items| ==> reclaimers.items[i] in reclaimers.items;
    assert forall i :: 0 <= i < |aggregates.items| ==> aggregates.items[i] in aggregates.items;
  }

  // ---------------------------------------------------------------- the round after an empty one

  /** Buffer w is listed and pooled, and it is all there is in the list and in the pool. */
  ghost predicate Loose(w: Buffer, list: RetireeList, aggregates: Pool)
    reads w, list, aggregates, list.nodes, aggregates.items
  {
    && list.nodes == [w] && list.first == w && list.LastIsLast()
    && aggregates.items == [w] && aggregates.Valid()
    && w.Valid() && w.isAggregate && w.freeIdx == 0
  }

  /** An iteration on the buffer u that has the survivors of the empty round, after new retirees have been added to it
      and the siblings have marked it.  Its survivors go to w, which is still listed with nothing claimed. */
  method NextIteration(u: Buffer, w: Buffer, list: RetireeList, reclaimers: Pool, aggregates: Pool)
    returns (uncollected: Buffer)
    requires Loose(w, list, aggregates) && reclaimers != aggregates && reclaimers.Valid() && reclaimers.items == []
    requires u.Valid() && u.isAggregate && u != w && u.addrs != w.addrs && u.nAddrs > 0
    requires u.capacity <= w.capacity && u.capacity % WORDS_PER_PAGE == 0
    modifies list, u`refCount, u`freeIdx, u`next, u`nAddrs, w`next, w`nAddrs, w.addrs, aggregates, reclaimers
    ensures uncollected == w && w.Valid() && w.Contents() == R.MarkedOf(old(u.Contents()))
    ensures list.Chained() && list.nodes == [w] && w.freeIdx == 0
  {
    ListBehind(u, w, list, aggregates);
    uncollected := TakeListed(u, w, list, aggregates);
    CopySurvivors(u, w);
    var released := list.Unref(u, reclaimers, aggregates);
  }

  /** The list and the pool now both go on from w to u. */
  method ListBehind(u: Buffer, w: Buffer, list: RetireeList, aggregates: Pool)
    requires Loose(w, list, aggregates) && u != w
    modifies list, u`refCount, u`freeIdx, u`next, w`next, aggregates`items
    ensures list.Valid() && list.nodes == aggregates.items == [w, u] && aggregates.Valid()
    ensures u.refCount == 1 && u.freeIdx == 0 && w.next == u && u.next == null
  {
    assert w.next == At(list.nodes, 1);
    list.PushBack(u);
    assert list.nodes[0].next == At(list.nodes, 1) && list.nodes[1].next == At(list.nodes, 2);
    aggregates.items := list.nodes;
    assert aggregates.head == w;
  }

  /** The pool hands out w, which thereby loses its successor in the list. */
  method TakeListed(u: Buffer, w: Buffer, list: RetireeList, aggregates: Pool) returns (uncollected: Buffer)
    requires list.Valid() && list.nodes == aggregates.items == [w, u] && aggregates.Valid()
    requires w.Valid() && w.isAggregate && u.Valid() && u.isAggregate && u != w
    requires u.capacity <= w.capacity && u.capacity % WORDS_PER_PAGE == 0
    modifies list`nodes, aggregates, w`next, w`nAddrs, u`next, u`nAddrs
    ensures uncollected == w && w.Valid() && w.Contents() == [] && u.nAddrs == old(u.nAddrs)
    ensures list.Chained() && list.nodes == [w]
    ensures aggregates.Valid() && aggregates.items == [u]
  {
    ghost var dropped;
    uncollected, dropped := MakeAggregate(u.capacity, aggregates);
    assert [w, u][0] == w && TooSmall([w, u], dropped, u.capacity);
    assert dropped == 0 && uncollected == w;
    list.nodes := [w];
  }

  /** An empty round, from the start. */
  method EmptyRound() returns (u: Buffer, w: Buffer, list: RetireeList, reclaimers: Pool, aggregates: Pool)
    ensures Loose(w, list, aggregates) && fresh(w) && fresh(w.addrs) && fresh(list) && fresh(aggregates)
    ensures reclaimers != aggregates && reclaimers.Valid() && reclaimers.items == [] && fresh(reclaimers)
    ensures u.Valid() && u.isAggregate && u != w && u.addrs != w.addrs && fresh(u) && fresh(u.addrs)
    ensures u.capacity == w.capacity == WORDS_PER_PAGE
  {
    list := new RetireeList();
    reclaimers := new Pool();
    aggregates := new Pool();
    w := new Buffer.Aggregate(WORDS_PER_PAGE);
    var released;
    u, released := FinishIteration(w, list, reclaimers, aggregates);
    assert list.nodes == [] + [w];
    OnePage(u.capacity);
  }

  lemma OnePage(capacity: nat)
    requires WORDS_PER_PAGE <= capacity < WORDS_PER_PAGE + WORDS_PER_PAGE && capacity % WORDS_PER_PAGE == 0
    ensures capacity == WORDS_PER_PAGE
  {
  }

  /** An empty round and one more: the first buffer in the list is the one that holds the survivors, which threads can
      reach.  All of it is still to be claimed, and none of its entries carries a mark. */
  method SurvivorsAreListed(marked: seq<nat>) returns (uncollected: Buffer, listed: Buffer?)
    requires 0 < |marked| <= WORDS_PER_PAGE && forall i :: 0 <= i < |marked| ==> marked[i] % 4 == 1
    ensures uncollected.Valid() && |uncollected.Contents()| == |marked|
    ensures forall i :: 0 <= i < |marked| ==> uncollected.Contents()[i] == marked[i] - 1
    ensures listed == uncollected && uncollected.freeIdx == 0
  {
    var u, w, list, reclaimers, aggregates := EmptyRound();
    Fill(u, marked);
    uncollected := NextIteration(u, w, list, reclaimers, aggregates);
    MarkedOfAll(marked);
    listed := list.Get();
  }

  /** Addresses that have been added and marked. */
  method Fill(u: Buffer, entries: seq<nat>)
    requires u.Valid() && |entries| <= u.capacity
    modifies u`nAddrs, u.addrs
    ensures u.Valid() && u.Contents() == entries
  {
    u.nAddrs := |entries|;
    for i := 0 to |entries|
      invariant u.Valid() && u.nAddrs == |entries| && u.addrs[..i] == entries[..i]
    {
      u.addrs[i] := entries[i];
    }
  }

  lemma {:induction false} MarkedOfAll(xs: seq<nat>)
    requires forall i :: 0 <= i < |xs| ==> xs[i] % 4 == 1
    ensures |R.MarkedOf(xs)| == |xs| && forall i :: 0 <= i < |xs| ==> R.MarkedOf(xs)[i] == xs[i] - 1
  {
    if xs != [] {
      MarkedOfAll(xs[..|xs| - 1]);
    }
  }
}
