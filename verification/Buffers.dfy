/** Address buffers and the linked lists they are kept in (buffer.c, and aggregate_addrs of forkscan.c).
    Each method is the body of a critical section. */
module Buffers {
  import opened Words
  import opened Sequences

  lemma WholePages(q: nat)
    ensures (q * WORDS_PER_PAGE) % WORDS_PER_PAGE == 0
  {
  }

  /** Capacities are rounded up to whole pages of addresses. */
  method RoundCapacity(capacity: nat) returns (c: nat)
    ensures capacity <= c < capacity + WORDS_PER_PAGE && c % WORDS_PER_PAGE == 0
    ensures capacity % WORDS_PER_PAGE == 0 ==> c == capacity
  {
    var extra := capacity % WORDS_PER_PAGE;
    ghost var q := capacity / WORDS_PER_PAGE;
    assert capacity == q * WORDS_PER_PAGE + extra;
    c := capacity;
    if extra != 0 {
      c := c - extra;
      c := c + WORDS_PER_PAGE;
      WholePages(q + 1);
      assert c == (q + 1) * WORDS_PER_PAGE;
    }
  }

  function PagesOfAddrs(capacity: nat): nat {
    (capacity * WORD_SIZE + PAGE_SIZE - WORD_SIZE) / PAGE_SIZE
  }

  function PagesOfMinimap(pagesOfAddrs: nat): nat {
    (pagesOfAddrs * WORD_SIZE + PAGE_SIZE - WORD_SIZE) / PAGE_SIZE
  }

  /** The pages set aside are enough for the addresses, and the minimap has an entry for each page of
      addresses up to the capacity. */
  lemma PagesSuffice(capacity: nat)
    ensures capacity <= PagesOfAddrs(capacity) * WORDS_PER_PAGE
    ensures capacity <= PagesOfMinimap(PagesOfAddrs(capacity)) * WORDS_PER_PAGE * WORDS_PER_PAGE
    ensures PagesOfAddrs(capacity) <= PagesOfMinimap(PagesOfAddrs(capacity)) * WORDS_PER_PAGE
  {
    assert PagesOfAddrs(capacity) == (capacity + 511) / 512;
    assert PagesOfMinimap(PagesOfAddrs(capacity)) == (PagesOfAddrs(capacity) + 511) / 512;
  }

  class Buffer {
    var next: Buffer?
    const addrs: array<nat>
    const minimap: array<nat>
    const isAggregate: bool
    const capacity: nat
    var nAddrs: nat
    var nMinimap: nat
    var refCount: int
    var freeIdx: nat

    constructor Reclaimer(capacity: nat)
      ensures Valid() && Contents() == [] && !isAggregate && this.capacity == capacity && refCount == 0 && next == null
      ensures fresh(addrs) && fresh(minimap)
    {
      next := null;
      addrs := new nat[capacity];
      minimap := new nat[0];
      isAggregate := false;
      this.capacity := capacity;
      nAddrs, nMinimap, refCount, freeIdx := 0, 0, 0, 0;
    }

    constructor Aggregate(capacity: nat)
      ensures Valid() && Contents() == [] && isAggregate && this.capacity == capacity && refCount == 0 && next == null
      ensures fresh(addrs) && fresh(minimap)
    {
      PagesSuffice(capacity);
      next := null;
      addrs := new nat[PagesOfAddrs(capacity) * WORDS_PER_PAGE];
      minimap := new nat[PagesOfMinimap(PagesOfAddrs(capacity)) * WORDS_PER_PAGE];
      isAggregate := true;
      this.capacity := capacity;
      nAddrs, nMinimap, refCount, freeIdx := 0, 0, 0, 0;
    }

    ghost predicate Valid()
      reads this
    {
      && nAddrs <= capacity <= addrs.Length
      && addrs != minimap
      && (isAggregate ==> capacity <= minimap.Length * WORDS_PER_PAGE)
    }

    ghost function Contents(): seq<nat>
      reads this, addrs
      requires Valid()
    {
      addrs[..nAddrs]
    }
  }

  ghost function At(ns: seq<Buffer>, i: nat): Buffer? {
    if i < |ns| then ns[i] else null
  }

  /** Following `next` from head visits exactly ns, in order. */
  ghost predicate Linked(head: Buffer?, ns: seq<Buffer>)
    reads ns
  {
    && head == At(ns, 0)
    && forall i :: 0 <= i < |ns| ==> ns[i].next == At(ns, i + 1)
  }

  /** Once the node before it points past node k, the list is linked without it. */
  lemma LinkedAround(head: Buffer?, ns: seq<Buffer>, k: nat)
    requires k < |ns| && Distinct(ns)
    requires forall i :: 0 <= i < |ns| && i != k - 1 ==> ns[i].next == At(ns, i + 1)
    requires k > 0 ==> head == ns[0] && ns[k - 1].next == At(ns, k + 1)
    requires k == 0 ==> head == At(ns, 1)
    ensures Linked(head, ns[..k] + ns[k + 1..]) && Distinct(ns[..k] + ns[k + 1..])
  {
    var ms := ns[..k] + ns[k + 1..];
    assert forall i :: 0 <= i < |ms| ==> ms[i] == ns[if i < k then i else i + 1];
    forall i: nat | i <= |ms| ensures At(ms, i) == At(ns, if i < k then i else i + 1) {}
  }

  /** Once the last node points to ab, the list is linked with ab at its end. */
  lemma LinkedBehind(head: Buffer?, ns: seq<Buffer>, ab: Buffer)
    requires head == if ns == [] then ab else ns[0]
    requires forall i {:trigger ns[i].next} :: 0 <= i < |ns| - 1 ==> ns[i].next == At(ns, i + 1)
    requires ns != [] ==> ns[|ns| - 1].next == ab
    requires ab.next == null
    ensures Linked(head, ns + [ab])
  {
    var ms := ns + [ab];
    forall i | 0 <= i < |ms| ensures ms[i].next == At(ms, i + 1) {
      if i < |ns| { assert ns[i].next == At(ms, i + 1); }
    }
  }

  /** The list of published buffers; `nodes` is what it holds. */
  class RetireeList {
    var first: Buffer?
    var last: Buffer?
    ghost var nodes: seq<Buffer>

    /** Everything but the last pointer is right. */
    ghost predicate Chained()
      reads this, nodes
    {
      Linked(first, nodes) && Distinct(nodes)
    }

    ghost predicate LastIsLast()
      reads this
    {
      last == if nodes == [] then null else nodes[|nodes| - 1]
    }

    ghost predicate Valid()
      reads this, nodes
    {
      Chained() && LastIsLast()
    }

    constructor ()
      ensures Valid() && nodes == []
    {
      first, last, nodes := null, null, [];
    }

    /** forkscan_buffer_push_back */
    method PushBack(ab: Buffer)
      requires Valid() && ab !in nodes
      modifies this, ab`refCount, ab`freeIdx, ab`next, nodes`next
      ensures Valid() && nodes == old(nodes) + [ab]
      ensures ab.refCount == 1 && ab.freeIdx == 0
    {
      DistinctAppend(nodes, ab);
      ab.refCount := 1;
      ab.freeIdx := 0;
      ab.next := null;
      if last == null {
        last, first := ab, ab;
      } else {
        last.next := ab;
        last := ab;
      }
      LinkedBehind(first, nodes, ab);
      nodes := nodes + [ab];
    }

    /** The walk of forkscan_buffer_pop_retiree_buffer: ab and the node before it, if ab is in the list. */
    method Find(ab: Buffer) returns (curr: Buffer?, prev: Buffer?, ghost k: nat)
      requires Chained()
      ensures k <= |nodes| && curr == At(nodes, k) && (curr == null || curr == ab)
      ensures if k > 0 then prev == nodes[k - 1] else prev == null
      ensures forall i :: 0 <= i < k ==> nodes[i] != ab
    {
      curr, prev, k := first, null, 0;
      while curr != null && ab != curr
        invariant k <= |nodes| && curr == At(nodes, k)
        invariant if k > 0 then prev == nodes[k - 1] else prev == null
        invariant forall i :: 0 <= i < k ==> nodes[i] != ab
        decreases |nodes| - k
      {
        assert curr == nodes[k];
        prev := curr;
        curr := curr.next;
        k := k + 1;
      }
    }

    /** forkscan_buffer_pop_retiree_buffer.  The last pointer stays right exactly when ab is not the last
        of several nodes. */
    method Pop(ab: Buffer)
      requires Valid()
      modifies this, nodes`next
      ensures Chained() && nodes == Without(old(nodes), ab)
      ensures LastIsLast() <==> !(|old(nodes)| > 1 && old(nodes)[|old(nodes)| - 1] == ab)
    {
      var curr, prev, k := Find(ab);
      if curr == ab {
        WithoutAt(nodes, k);
        if prev != null {
          prev.next := curr.next;
        } else {
          first := curr.next;
        }
        if first == null {
          last := null;
        }
        LinkedAround(first, nodes, k);
        nodes := nodes[..k] + nodes[k + 1..];
      } else {
        WithoutAbsent(nodes, ab);
      }
    }

    /** forkscan_buffer_get_retiree_buffer */
    method Get() returns (ret: Buffer?)
      requires Chained()
      modifies nodes`refCount
      ensures Chained() && (old(LastIsLast()) ==> LastIsLast()) && ret == At(nodes, 0)
      ensures forall b :: b in nodes ==> b.refCount == old(b.refCount) + if b == ret then 1 else 0
    {
      ret := null;
      if first != null {
        ret := first;
        ret.refCount := ret.refCount + 1;
      }
    }

    /** forkscan_buffer_unref_buffer: release the buffer when its last reference goes and all of it has been
        claimed.  If it is still in the list then, it is both listed and pooled, and its link now belongs to the
        pool. */
    method Unref(ab: Buffer, reclaimers: Pool, aggregates: Pool) returns (released: bool)
      requires Chained() && reclaimers != aggregates && reclaimers.Valid() && aggregates.Valid()
      requires ab.refCount == 1 && ab.freeIdx >= ab.nAddrs ==> ab !in reclaimers.items && ab !in aggregates.items
      modifies ab`refCount, ab`next, reclaimers, aggregates
      ensures !(released && ab in nodes) ==> Chained() && (old(LastIsLast()) ==> LastIsLast())
      ensures reclaimers.Valid() && aggregates.Valid()
      ensures ab.refCount == old(ab.refCount) - 1
      ensures released <==> old(ab.refCount) == 1 && ab.freeIdx >= ab.nAddrs
      ensures aggregates.items == (if released && ab.isAggregate then [ab] else []) + old(aggregates.items)
      ensures reclaimers.items == (if released && !ab.isAggregate then [ab] else []) + old(reclaimers.items)
      ensures !released ==> ab.next == old(ab.next)
    {
      ab.refCount := ab.refCount - 1;
      released := ab.refCount == 0 && ab.freeIdx >= ab.nAddrs;
      if released {
        assert forall i :: 0 <= i < |nodes| ==> nodes[i] in nodes;
        ReleaseBuffer(ab, reclaimers, aggregates);
      }
    }
  }

  ghost predicate TooSmall(items: seq<Buffer>, n: nat, capacity: nat) {
    n <= |items| && forall i :: 0 <= i < n ==> items[i].capacity < capacity
  }

  /** A stack of unused buffers; `items` is what it holds, top first. */
  class Pool {
    var head: Buffer?
    ghost var items: seq<Buffer>

    ghost predicate Valid()
      reads this, items
    {
      Linked(head, items) && Distinct(items)
    }

    constructor ()
      ensures Valid() && items == []
    {
      head, items := null, [];
    }

    method Push(ab: Buffer)
      requires Valid() && ab !in items
      modifies this, ab`next
      ensures Valid() && items == [ab] + old(items)
    {
      assert forall i :: 0 <= i < |items| ==> items[i] in items;
      ab.next := head;
      head := ab;
      items := [ab] + items;
    }

    /** The search of forkscan_make_aggregate_buffer: the first buffer that is large enough. */
    method FirstFit(capacity: nat) returns (curr: Buffer?, ghost k: nat)
      requires Valid()
      ensures TooSmall(items, k, capacity) && curr == At(items, k)
      ensures curr == null ==> k == |items|
      ensures curr != null ==> curr.capacity >= capacity
    {
      curr, k := head, 0;
      while curr != null && curr.capacity < capacity
        invariant TooSmall(items, k, capacity) && curr == At(items, k)
        decreases |items| - k
      {
        assert curr == items[k];
        curr := curr.next;
        k := k + 1;
      }
    }

    /** Drop (unmap) the first k buffers and take the next one off the stack, if there is one. */
    method DropAndTake(curr: Buffer?, ghost k: nat)
      requires Valid() && k <= |items| && curr == At(items, k)
      modifies this, items`next
      ensures Valid()
      ensures items == if curr == null then [] else old(items)[k + 1..]
      ensures curr != null ==> curr.next == null
    {
      if curr != null {
        assert items[k].next == At(items, k + 1);
        ghost var rest := items[k + 1..];
        assert forall i :: 0 <= i < |rest| ==> rest[i] == items[k + 1 + i] && rest[i] != items[k];
        head := curr.next;
        items := rest;
        curr.next := null;
      } else {
        head := null;
        items := [];
      }
    }
  }

  /** forkscan_release_buffer */
  method ReleaseBuffer(ab: Buffer, reclaimers: Pool, aggregates: Pool)
    requires reclaimers != aggregates && reclaimers.Valid() && aggregates.Valid()
    requires ab !in reclaimers.items && ab !in aggregates.items
    modifies reclaimers, aggregates, ab`next
    ensures reclaimers.Valid() && aggregates.Valid()
    ensures aggregates.items == (if ab.isAggregate then [ab] else []) + old(aggregates.items)
    ensures reclaimers.items == (if ab.isAggregate then [] else [ab]) + old(reclaimers.items)
  {
    assert forall i :: 0 <= i < |reclaimers.items| ==> reclaimers.items[i] in reclaimers.items;
    assert forall i :: 0 <= i < |aggregates.items| ==> aggregates.items[i] in aggregates.items;
    if !ab.isAggregate {
      reclaimers.Push(ab);
    } else {
      aggregates.Push(ab);
    }
  }

  /** What is left of a pool when the first `dropped` buffers have been dropped and the next one, if any, taken. */
  ghost predicate TakenFrom(items: seq<Buffer>, items': seq<Buffer>, dropped: nat, taken: Buffer) {
    && dropped <= |items| && items' == RestOf(items, dropped)
    && (dropped < |items| ==> taken == items[dropped])
  }

  ghost function RestOf(items: seq<Buffer>, dropped: nat): seq<Buffer> {
    if dropped < |items| then items[dropped + 1..] else []
  }

  /** A new buffer is no larger than it has to be for whole pages. */
  ghost predicate WholePagesFor(requested: nat, capacity: nat) {
    requested <= capacity < requested + WORDS_PER_PAGE && capacity % WORDS_PER_PAGE == 0
  }

  /** forkscan_make_aggregate_buffer: the first pooled buffer that is large enough, dropping (unmapping)
      those before it, or else a new one. */
  method MakeAggregate(requested: nat, aggregates: Pool) returns (ab: Buffer, ghost dropped: nat)
    requires aggregates.Valid()
    requires forall b :: b in aggregates.items ==> b.Valid() && b.isAggregate
    modifies aggregates, aggregates.items`next, aggregates.items`nAddrs
    ensures aggregates.Valid()
    ensures ab.Valid() && ab.isAggregate && ab.Contents() == [] && ab.next == null
    ensures fresh(ab) || old(ab.refCount) == 0 ==> ab.refCount == 0
    ensures forall b :: b in old(aggregates.items) && b != ab ==> b.nAddrs == old(b.nAddrs)
    ensures fresh(ab) ==> ab.capacity < requested + WORDS_PER_PAGE && ab.capacity % WORDS_PER_PAGE == 0
    ensures requested % WORDS_PER_PAGE == 0 ==> TooSmall(old(aggregates.items), dropped, requested)
    ensures requested <= ab.capacity
    ensures dropped <= |old(aggregates.items)| && TooSmall(old(aggregates.items), dropped, requested + WORDS_PER_PAGE)
    ensures if dropped < |old(aggregates.items)|
            then ab == old(aggregates.items)[dropped] && aggregates.items == old(aggregates.items)[dropped + 1..]
            else fresh(ab) && fresh(ab.addrs) && fresh(ab.minimap) && aggregates.items == []
  {
    var capacity := RoundCapacity(requested);
    var curr;
    curr, dropped := aggregates.FirstFit(capacity);
    ghost var items := aggregates.items;
    aggregates.DropAndTake(curr, dropped);
    if curr != null {
      assert curr == items[dropped] && items[dropped] in items;
      assert curr.Valid() && curr.isAggregate && curr.next == null;
      curr.nAddrs := 0;
      ab := curr;
      assert ab.Contents() == [];
      assert Linked(aggregates.head, aggregates.items);
    } else {
      assert dropped == |items|;
      ab := new Buffer.Aggregate(capacity);
    }
  }

  /** forkscan_make_reclaimer_buffer: the first pooled buffer, or a new one of the default capacity. */
  method MakeReclaimer(reclaimers: Pool, defaultCapacity: nat) returns (ab: Buffer)
    requires reclaimers.Valid()
    requires forall b :: b in reclaimers.items ==> b.Valid() && !b.isAggregate && b.refCount == 0
    modifies reclaimers, reclaimers.items`next, reclaimers.items`nAddrs
    ensures reclaimers.Valid() && ab.Valid() && !ab.isAggregate && ab.Contents() == [] && ab.refCount == 0
    ensures if old(reclaimers.items) == []
            then fresh(ab) && fresh(ab.addrs) && ab.capacity == defaultCapacity && reclaimers.items == []
            else ab == old(reclaimers.items)[0] && reclaimers.items == old(reclaimers.items)[1..]
  {
    if reclaimers.head != null {
      ghost var items := reclaimers.items;
      assert items[0] in items;
      ab := reclaimers.head;
      reclaimers.DropAndTake(ab, 0);
      ab.nAddrs := 0;
      assert ab.Contents() == [];
    } else {
      ab := new Buffer.Reclaimer(defaultCapacity);
    }
  }

  // ---------------------------------------------------------------- aggregate_addrs

  /** The contents of a chain of buffers, one after the other. */
  ghost function Concat(contents: seq<seq<nat>>): seq<nat> {
    if contents == [] then [] else contents[0] + Concat(contents[1..])
  }

  /** The buffers of the chain are valid and hold the given addresses. */
  ghost predicate Hold(ns: seq<Buffer>, contents: seq<seq<nat>>)
    reads ns, set b | b in ns :: b.addrs
  {
    && |ns| == |contents|
    && forall i :: 0 <= i < |ns| ==> ns[i].Valid() && ns[i].Contents() == contents[i]
  }

  /** Append the contents of one buffer to another. */
  method Append(ret: Buffer, b: Buffer)
    requires ret.Valid() && b.Valid() && ret != b && ret.addrs != b.addrs
    requires ret.nAddrs + b.nAddrs <= ret.capacity
    modifies ret`nAddrs, ret.addrs
    ensures ret.Valid() && ret.Contents() == old(ret.Contents()) + b.Contents()
  {
    CopyWords(ret.addrs, ret.nAddrs, b.addrs, 0, b.nAddrs);
    ghost var n := ret.nAddrs;
    ret.nAddrs := ret.nAddrs + b.nAddrs;
    assert ret.addrs[..ret.nAddrs] == ret.addrs[..n] + ret.addrs[n..n + b.nAddrs];
  }

  /** The first loop of aggregate_addrs: how many addresses the chain holds, and in how many buffers. */
  method CountChain(head: Buffer, ghost ns: seq<Buffer>, ghost contents: seq<seq<nat>>) returns (n: nat, listCount: nat)
    requires Linked(head, ns) && ns != [] && Hold(ns, contents)
    ensures n == |Concat(contents)| && listCount == |ns|
  {
    var tmp: Buffer? := head;
    n, listCount := 0, 0;
    while tmp != null
      invariant listCount <= |ns| && tmp == At(ns, listCount)
      invariant n + |Concat(contents[listCount..])| == |Concat(contents)|
      decreases |ns| - listCount
    {
      assert contents[listCount..][1..] == contents[listCount + 1..];
      assert ns[listCount].Contents() == contents[listCount];
      n := n + tmp.nAddrs;
      tmp := tmp.next;
      listCount := listCount + 1;
    }
  }

  ghost predicate ApartFrom(ret: Buffer, ns: seq<Buffer>) {
    forall i :: 0 <= i < |ns| ==> ns[i] != ret && ns[i].addrs != ret.addrs
  }

  /** One turn of the last loop of aggregate_addrs: the chain itself is left as it was. */
  method AppendNode(ret: Buffer, tmp: Buffer, ghost head: Buffer, ghost ns: seq<Buffer>,
                    ghost contents: seq<seq<nat>>, ghost k: nat)
    requires ret.Valid() && Linked(head, ns) && Hold(ns, contents) && ApartFrom(ret, ns)
    requires k < |ns| && tmp == ns[k]
    requires ret.nAddrs + |contents[k]| <= ret.capacity
    modifies ret`nAddrs, ret.addrs
    ensures ret.Valid() && ret.Contents() == old(ret.Contents()) + contents[k]
    ensures Linked(head, ns) && Hold(ns, contents)
  {
    assert ns[k].Contents() == contents[k];
    Append(ret, tmp);
    forall i | 0 <= i < |ns| ensures ns[i].Valid() && ns[i].Contents() == contents[i] {
      assert old(ns[i].Valid()) && old(ns[i].Contents()) == contents[i];
    }
  }

  lemma ConcatShifts(before: seq<nat>, contents: seq<seq<nat>>, k: nat, total: seq<nat>)
    requires k < |contents| && before + Concat(contents[k..]) == total
    ensures (before + contents[k]) + Concat(contents[k + 1..]) == total
    ensures |before| + |contents[k]| <= |total|
  {
    assert contents[k..][1..] == contents[k + 1..];
    var rest := Concat(contents[k + 1..]);
    assert before + (contents[k] + rest) == (before + contents[k]) + rest;
  }

  /** The last loop of aggregate_addrs. */
  method AppendChain(ret: Buffer, head: Buffer, ghost ns: seq<Buffer>, ghost contents: seq<seq<nat>>)
    requires ret.Valid() && Linked(head, ns) && ns != [] && Hold(ns, contents) && ApartFrom(ret, ns)
    requires ret.nAddrs + |Concat(contents)| <= ret.capacity
    modifies ret`nAddrs, ret.addrs
    ensures ret.Valid() && ret.Contents() == old(ret.Contents()) + Concat(contents)
  {
    ghost var total := ret.Contents() + Concat(contents);
    var tmp: Buffer? := head;
    ghost var k := 0;
    while tmp != null
      invariant k <= |ns| == |contents| && tmp == At(ns, k)
      invariant Linked(head, ns) && Hold(ns, contents)
      invariant ret.Valid() && ret.Contents() + Concat(contents[k..]) == total
      decreases |ns| - k
    {
      ConcatShifts(ret.Contents(), contents, k, total);
      AppendNode(ret, tmp, head, ns, contents, k);
      assert ns[k].next == At(ns, k + 1);
      tmp := tmp.next;
      k := k + 1;
    }
  }

  /** The pooled aggregates can be reused without disturbing the chain. */
  ghost predicate PoolReady(aggregates: Pool, ns: seq<Buffer>)
    reads aggregates, aggregates.items
  {
    && aggregates.Valid()
    && forall b :: b in aggregates.items ==> b.Valid() && b.isAggregate && b.refCount == 0 && ApartFrom(b, ns)
  }

  /** MakeAggregate, with what it means for a chain of buffers outside the pool. */
  method MakeBeside(requested: nat, aggregates: Pool, ghost head: Buffer, ghost ns: seq<Buffer>,
                    ghost contents: seq<seq<nat>>)
      returns (ret: Buffer, ghost dropped: nat)
    requires PoolReady(aggregates, ns) && Linked(head, ns) && Hold(ns, contents)
    modifies aggregates, aggregates.items`next, aggregates.items`nAddrs
    ensures TakenFrom(old(aggregates.items), aggregates.items, dropped, ret)
    ensures dropped == |old(aggregates.items)| ==> WholePagesFor(requested, ret.capacity)
    ensures ret.Valid() && ret.isAggregate && ret.Contents() == [] && requested <= ret.capacity
    ensures ret in old(aggregates.items) || (fresh(ret) && fresh(ret.addrs))
    ensures ApartFrom(ret, ns) && Linked(head, ns) && Hold(ns, contents)
    ensures aggregates.Valid() && ret !in aggregates.items
    ensures forall b :: b in aggregates.items ==> b in old(aggregates.items)
  {
    ret, dropped := MakeAggregate(requested, aggregates);
  }

  /** The survivors' buffer is none of the queued or pooled ones. */
  ghost predicate OldReady(old_: Buffer, ns: seq<Buffer>, reclaimers: Pool, aggregates: Pool)
    reads old_, reclaimers, aggregates
  {
    && old_.Valid() && old_.isAggregate && ApartFrom(old_, ns)
    && old_ !in reclaimers.items && old_ !in aggregates.items
    && forall b :: b in aggregates.items ==> b.addrs != old_.addrs
  }

  /** Copy the survivors to a larger buffer. */
  method Grow(old_: Buffer, requested: nat, ghost head: Buffer, ghost ns: seq<Buffer>, ghost contents: seq<seq<nat>>,
              ghost reclaimers: Pool, aggregates: Pool)
      returns (ret: Buffer, ghost dropped: nat)
    requires reclaimers != aggregates && reclaimers.Valid()
    requires forall b :: b in reclaimers.items ==> !b.isAggregate
    requires PoolReady(aggregates, ns) && OldReady(old_, ns, reclaimers, aggregates)
    requires Linked(head, ns) && Hold(ns, contents) && old_.nAddrs <= requested
    modifies aggregates, aggregates.items`next, aggregates.items`nAddrs, set b | b in aggregates.items :: b.addrs
    ensures ret.Valid() && ret.isAggregate && ret.Contents() == old(old_.Contents()) && requested <= ret.capacity
    ensures ApartFrom(ret, ns) && Linked(head, ns) && Hold(ns, contents)
    ensures reclaimers.Valid() && aggregates.Valid() && ret != old_ && old_ !in aggregates.items
    ensures ret in old(aggregates.items) || (fresh(ret) && fresh(ret.addrs))
    ensures TakenFrom(old(aggregates.items), aggregates.items, dropped, ret)
    ensures dropped == |old(aggregates.items)| ==> WholePagesFor(requested, ret.capacity)
  {
    ret, dropped := MakeForOld(old_, requested, head, ns, contents, reclaimers, aggregates);
    Append(ret, old_);
    assert ret.Contents() == [] + old_.Contents();
  }

  /** MakeBeside, with what it means for the survivors' buffer. */
  method MakeForOld(ghost old_: Buffer, requested: nat, ghost head: Buffer, ghost ns: seq<Buffer>,
                    ghost contents: seq<seq<nat>>, ghost reclaimers: Pool, aggregates: Pool)
      returns (ret: Buffer, ghost dropped: nat)
    requires reclaimers != aggregates && reclaimers.Valid()
    requires forall b :: b in reclaimers.items ==> !b.isAggregate
    requires PoolReady(aggregates, ns) && OldReady(old_, ns, reclaimers, aggregates)
    requires Linked(head, ns) && Hold(ns, contents)
    modifies aggregates, aggregates.items`next, aggregates.items`nAddrs
    ensures ret.Valid() && ret.isAggregate && ret.Contents() == [] && requested <= ret.capacity
    ensures ApartFrom(ret, ns) && Linked(head, ns) && Hold(ns, contents)
    ensures reclaimers.Valid() && aggregates.Valid() && old_ !in aggregates.items
    ensures ret in old(aggregates.items) || (fresh(ret) && fresh(ret.addrs))
    ensures ret != old_ && ret.addrs != old_.addrs && old_.Valid() && old_.Contents() == old(old_.Contents())
    ensures TakenFrom(old(aggregates.items), aggregates.items, dropped, ret)
    ensures dropped == |old(aggregates.items)| ==> WholePagesFor(requested, ret.capacity)
  {
    ret, dropped := MakeBeside(requested, aggregates, head, ns, contents);
    assert forall i :: 0 <= i < |reclaimers.items| ==> reclaimers.items[i] in reclaimers.items;
  }

  /** Release the survivors' old buffer, beside the chain. */
  method ReleaseOld(old_: Buffer, ret: Buffer, ghost head: Buffer, ghost ns: seq<Buffer>, ghost contents: seq<seq<nat>>,
                    reclaimers: Pool, aggregates: Pool)
    requires reclaimers != aggregates && reclaimers.Valid() && aggregates.Valid()
    requires old_ !in reclaimers.items && old_ !in aggregates.items && ApartFrom(old_, ns)
    requires Linked(head, ns) && Hold(ns, contents) && ret != old_ && ret.Valid()
    modifies reclaimers, aggregates, old_`next
    ensures Linked(head, ns) && Hold(ns, contents) && ret.Valid() && ret.Contents() == old(ret.Contents())
    ensures old_.isAggregate ==> aggregates.items == [old_] + old(aggregates.items)
  {
    ReleaseBuffer(old_, reclaimers, aggregates);
  }

  /** What becomes of the pool of aggregates, and how large the buffer is: the survivors' own buffer if that is larger
      than needed; otherwise another one, and the survivors' buffer goes back to the pool. */
  ghost predicate BufferChosen(old_: Buffer?, ret: Buffer, n: nat, capacity: nat, items: seq<Buffer>,
                               items': seq<Buffer>, dropped: nat)
  {
    && (ret == old_ <==> old_ != null && old_.capacity > n)
    && (ret == old_ ==> items' == items)
    && (ret != old_ ==>
          && ret.capacity >= Max(n, capacity)
          && (dropped == |items| ==> WholePagesFor(Max(n, capacity), ret.capacity))
          && TakenFrom(items, RestOf(items, dropped), dropped, ret)
          && items' == (if old_ == null then [] else [old_]) + RestOf(items, dropped))
  }

  /** The buffer that the working buffer is made of, with the survivors in it. */
  method ChooseBuffer(old_: Buffer?, n: nat, head: Buffer, ghost ns: seq<Buffer>, ghost contents: seq<seq<nat>>,
                      reclaimers: Pool, aggregates: Pool)
      returns (ret: Buffer, ghost dropped: nat)
    requires reclaimers != aggregates && reclaimers.Valid() && PoolReady(aggregates, ns)
    requires forall b :: b in reclaimers.items ==> !b.isAggregate
    requires old_ != null ==> OldReady(old_, ns, reclaimers, aggregates) && old_.nAddrs <= n
    requires Linked(head, ns) && ns != [] && Hold(ns, contents)
    modifies aggregates, aggregates.items`next, aggregates.items`nAddrs, set b | b in aggregates.items :: b.addrs
    modifies reclaimers, if old_ == null then {} else {old_, old_.addrs}
    ensures ret.Valid() && ret.isAggregate && n <= ret.capacity
    ensures ret.Contents() == if old_ == null then [] else old(old_.Contents())
    ensures ApartFrom(ret, ns) && Linked(head, ns) && Hold(ns, contents)
    ensures ret == old_ || ret in old(aggregates.items) || (fresh(ret) && fresh(ret.addrs))
    ensures BufferChosen(old_, ret, n, head.capacity, old(aggregates.items), aggregates.items, dropped)
  {
    dropped := 0;
    if old_ != null && old_.capacity > n {
      ret := old_;
    } else if old_ != null {
      ret, dropped := Grow(old_, Max(n, head.capacity), head, ns, contents, reclaimers, aggregates);
      ReleaseOld(old_, ret, head, ns, contents, reclaimers, aggregates);
    } else {
      ret, dropped := MakeBeside(Max(n, head.capacity), aggregates, head, ns, contents);
    }
  }

  /** aggregate_addrs: the survivors of the last round followed by the addresses of all queued buffers, in
      the survivors' own buffer when that is larger than needed. */
  method AggregateAddrs(old_: Buffer?, head: Buffer, ghost ns: seq<Buffer>, ghost contents: seq<seq<nat>>,
                        reclaimers: Pool, aggregates: Pool)
      returns (ret: Buffer, freesRequired: nat, ghost dropped: nat)
    requires reclaimers != aggregates && reclaimers.Valid() && PoolReady(aggregates, ns)
    requires forall b :: b in reclaimers.items ==> !b.isAggregate
    requires old_ != null ==> OldReady(old_, ns, reclaimers, aggregates)
    requires Linked(head, ns) && ns != [] && Hold(ns, contents)
    modifies aggregates, aggregates.items`next, aggregates.items`nAddrs, set b | b in aggregates.items :: b.addrs
    modifies reclaimers, if old_ == null then {} else {old_, old_.addrs}
    ensures ret.Valid() && ret.isAggregate
    ensures ret.Contents() == (if old_ == null then [] else old(old_.Contents())) + Concat(contents)
    ensures freesRequired == Max(8 * |ns|, 8)
    ensures BufferChosen(old_, ret, |ret.Contents()|, head.capacity, old(aggregates.items), aggregates.items, dropped)
  {
    var n, listCount := CountChain(head, ns, contents);
    if old_ != null {
      n := n + old_.nAddrs;
    }
    freesRequired := Max(listCount * 8, 8);
    ret, dropped := ChooseBuffer(old_, n, head, ns, contents, reclaimers, aggregates);
    AppendChain(ret, head, ns, contents);
  }

  // ---------------------------------------------------------------- dead references

  lemma UnmarkedGrows(xs: seq<nat>, i: nat)
    requires i < |xs|
    ensures UnmarkedOf(xs[..i + 1]) == UnmarkedOf(xs[..i]) + if xs[i] % 4 == 0 then [xs[i]] else []
  {
    assert xs[..i + 1][..i] == xs[..i];
  }

  lemma {:induction false} UnmarkedPrefix(xs: seq<nat>, i: nat)
    requires i <= |xs|
    ensures UnmarkedOf(xs[..i]) <= UnmarkedOf(xs)
    decreases |xs| - i
  {
    if i < |xs| {
      UnmarkedGrows(xs, i);
      UnmarkedPrefix(xs, i + 1);
    } else {
      assert xs[..i] == xs;
    }
  }

  lemma AllGrows(contents: seq<seq<nat>>, k: nat)
    requires k < |contents|
    ensures UnmarkedOfAll(contents[..k + 1]) == UnmarkedOfAll(contents[..k]) + UnmarkedOf(contents[k])
  {
    assert contents[..k + 1][..k] == contents[..k];
  }

  lemma {:induction false} AllPrefix(contents: seq<seq<nat>>, k: nat)
    requires k <= |contents|
    ensures UnmarkedOfAll(contents[..k]) <= UnmarkedOfAll(contents)
    decreases |contents| - k
  {
    if k < |contents| {
      AllGrows(contents, k);
      AllPrefix(contents, k + 1);
    } else {
      assert contents[..k] == contents;
    }
  }

  /** What has been gathered when entry i of buffer k has been looked at. */
  ghost function Gathered(contents: seq<seq<nat>>, k: nat, i: nat): (xs: seq<nat>)
    requires k < |contents| && i <= |contents[k]|
    ensures xs <= UnmarkedOfAll(contents)
  {
    UnmarkedPrefix(contents[k], i);
    AllGrows(contents, k);
    AllPrefix(contents, k + 1);
    UnmarkedOfAll(contents[..k]) + UnmarkedOf(contents[k][..i])
  }

  /** The inner loop of forkscan_buffer_get_dead_references, over one buffer. */
  method GatherFrom(ab: Buffer, ret: Buffer, ghost contents: seq<seq<nat>>, ghost k: nat) returns (full: bool)
    requires ab.Valid() && ret.Valid() && ab != ret && ab.addrs != ret.addrs
    requires k < |contents| && ab.Contents() == contents[k]
    requires ret.Contents() == UnmarkedOfAll(contents[..k]) && ret.nAddrs < ret.capacity
    modifies ret`nAddrs, ret.addrs
    ensures ret.Valid()
    ensures full ==> ret.nAddrs == ret.capacity && ret.Contents() <= UnmarkedOfAll(contents)
    ensures !full ==> ret.nAddrs < ret.capacity && ret.Contents() == Gathered(contents, k, |contents[k]|)
  {
    full := false;
    for i := 0 to ab.nAddrs
      invariant ret.Valid() && ret.nAddrs < ret.capacity
      invariant ab.Valid() && ab.Contents() == contents[k]
      invariant ret.Contents() == Gathered(contents, k, i)
    {
      var addr := ab.addrs[i];
      assert addr == contents[k][i];
      UnmarkedGrows(contents[k], i);
      if addr % 4 != 0 {
        continue;
      }
      ghost var before := ret.Contents();
      ret.addrs[ret.nAddrs] := addr;
      ret.nAddrs := ret.nAddrs + 1;
      assert ret.Contents() == before + [addr];
      assert ret.Contents() == Gathered(contents, k, i + 1);
      if ret.nAddrs >= ret.capacity {
        full := true;
        return;
      }
    }
    assert contents[k][..|contents[k]|] == contents[k];
  }

  /** GatherFrom for the k-th buffer of the list, which stays as it is. */
  method GatherNode(retirees: RetireeList, ab: Buffer, ret: Buffer, ghost contents: seq<seq<nat>>,
                    ghost k: nat) returns (full: bool)
    requires retirees.Valid() && Hold(retirees.nodes, contents) && ApartFrom(ret, retirees.nodes)
    requires k < |contents| && ab == retirees.nodes[k]
    requires ret.Valid() && ret.Contents() == UnmarkedOfAll(contents[..k]) && ret.nAddrs < ret.capacity
    modifies ret`nAddrs, ret.addrs
    ensures retirees.Valid() && Hold(retirees.nodes, contents) && ret.Valid()
    ensures full ==> ret.nAddrs == ret.capacity && ret.Contents() <= UnmarkedOfAll(contents)
    ensures !full ==> ret.nAddrs < ret.capacity && ret.Contents() == UnmarkedOfAll(contents[..k + 1])
  {
    full := GatherFrom(ab, ret, contents, k);
    assert contents[k][..|contents[k]|] == contents[k];
    AllGrows(contents, k);
  }

  lemma CutAtPrefix(all: seq<nat>, xs: seq<nat>, capacity: nat)
    requires xs <= all && |xs| <= capacity && (|xs| == capacity || xs == all)
    ensures Cut(all, capacity) == xs
  {
  }

  /** forkscan_buffer_get_dead_references, over the retiree list. */
  method GetDeadReferences(retirees: RetireeList, ret: Buffer, ghost contents: seq<seq<nat>>)
    requires retirees.Valid() && Hold(retirees.nodes, contents) && ApartFrom(ret, retirees.nodes)
    requires ret.Valid() && ret.capacity > 0
    modifies ret`nAddrs, ret.addrs
    ensures ret.Valid() && ret.Contents() == Cut(UnmarkedOfAll(contents), ret.capacity)
  {
    ret.nAddrs := 0;
    var ab := retirees.first;
    ghost var k := 0;
    assert contents[..0] == [];
    while ab != null
      invariant k <= |contents| && ab == At(retirees.nodes, k)
      invariant retirees.Valid() && Hold(retirees.nodes, contents)
      invariant ret.Valid() && ret.nAddrs < ret.capacity
      invariant ret.Contents() == UnmarkedOfAll(contents[..k])
      decreases |contents| - k
    {
      var full := GatherNode(retirees, ab, ret, contents, k);
      if full {
        CutAtPrefix(UnmarkedOfAll(contents), ret.Contents(), ret.capacity);
        return;
      }
      assert retirees.nodes[k].next == At(retirees.nodes, k + 1);
      ab := ab.next;
      k := k + 1;
    }
    assert contents[..k] == contents;
    CutAtPrefix(UnmarkedOfAll(contents), ret.Contents(), ret.capacity);
  }
}
