/** Forkscan's own record of the memory it has mapped: a sorted circular doubly linked list (alloc.c). */
module AllocMap {
  import opened Words
  import opened Sequences

  const METADATA_SIZE := 40

  datatype Range = Range(low: nat, high: nat)

  /** Nonempty blocks in address order, none overlapping another. */
  ghost predicate Ordered(spans: seq<Range>) {
    && (forall i :: 0 <= i < |spans| ==> spans[i].low < spans[i].high)
    && forall i, j :: 0 <= i < j < |spans| ==> spans[i].high <= spans[j].low
  }

  ghost predicate Apart(a: Range, b: Range) {
    a.high <= b.low || b.high <= a.low
  }

  ghost function Inserted<T>(s: seq<T>, k: nat, x: T): (t: seq<T>)
    requires k <= |s|
    ensures |t| == |s| + 1
    ensures forall i :: 0 <= i < |t| ==> t[i] == if i < k then s[i] else if i == k then x else s[i - 1]
  {
    seq(|s| + 1, i requires 0 <= i <= |s| => if i < k then s[i] else if i == k then x else s[i - 1])
  }

  ghost function Removed<T>(s: seq<T>, k: nat): (t: seq<T>)
    requires k < |s|
    ensures |t| == |s| - 1
    ensures forall i :: 0 <= i < |t| ==> t[i] == if i < k then s[i] else s[i + 1]
  {
    seq(|s| - 1, i requires 0 <= i < |s| - 1 => if i < k then s[i] else s[i + 1])
  }

  /** The block fits at place k. */
  ghost predicate Fits(spans: seq<Range>, k: nat, m: Range) {
    && k <= |spans| && m.low < m.high
    && (forall i :: 0 <= i < k ==> spans[i].high <= m.low)
    && forall i :: k <= i < |spans| ==> m.high <= spans[i].low
  }

  lemma InsertedOrdered(spans: seq<Range>, k: nat, m: Range)
    requires Ordered(spans) && Fits(spans, k, m)
    ensures Ordered(Inserted(spans, k, m))
  {
  }

  lemma RemovedOrdered(spans: seq<Range>, k: nat)
    requires Ordered(spans) && k < |spans|
    ensures Ordered(Removed(spans, k))
  {
  }

  /** Some block holds address x. */
  ghost predicate Owned(spans: seq<Range>, x: nat) {
    exists i :: 0 <= i < |spans| && Holds(spans[i], x)
  }

  ghost predicate Holds(r: Range, x: nat) {
    r.low <= x < r.high
  }

  /** What mmap returns: a block none of whose addresses is owned already. */
  ghost predicate Unowned(spans: seq<Range>, m: Range) {
    forall x: nat :: Holds(m, x) ==> !Owned(spans, x)
  }

  lemma UnownedIsApart(spans: seq<Range>, m: Range)
    requires Ordered(spans) && m.low < m.high && Unowned(spans, m)
    ensures forall i :: 0 <= i < |spans| ==> Apart(m, spans[i])
  {
    forall i | 0 <= i < |spans| ensures Apart(m, spans[i]) {
      if !Apart(m, spans[i]) {
        var x := if m.low < spans[i].low then spans[i].low else m.low;
        assert Holds(m, x) && Holds(spans[i], x);
      }
    }
  }

  lemma OwnedInserted(spans: seq<Range>, k: nat, m: Range)
    requires k <= |spans|
    ensures forall x: nat :: Owned(Inserted(spans, k, m), x) <==> Owned(spans, x) || Holds(m, x)
  {
    var t := Inserted(spans, k, m);
    forall x: nat ensures Owned(t, x) <==> Owned(spans, x) || Holds(m, x) {
      if Owned(spans, x) {
        var i :| 0 <= i < |spans| && Holds(spans[i], x);
        assert Holds(t[if i < k then i else i + 1], x);
      }
      if Holds(m, x) { assert Holds(t[k], x); }
    }
  }

  lemma OwnedRemoved(spans: seq<Range>, k: nat)
    requires Ordered(spans) && k < |spans|
    ensures forall x: nat :: Owned(Removed(spans, k), x) <==> Owned(spans, x) && !Holds(spans[k], x)
  {
    var t := Removed(spans, k);
    forall x: nat ensures Owned(t, x) <==> Owned(spans, x) && !Holds(spans[k], x) {
      if Owned(spans, x) && !Holds(spans[k], x) {
        var i :| 0 <= i < |spans| && Holds(spans[i], x);
        assert Holds(t[if i < k then i else i - 1], x);
      }
      if Owned(t, x) {
        var i :| 0 <= i < |t| && Holds(t[i], x);
        assert Holds(spans[if i < k then i else i + 1], x);
      }
    }
  }

  class Node {
    var addr: nat
    var length: nat
    var next: Node?
    var prev: Node?

    constructor ()
    {
      addr, length, next, prev := 0, 0, null, null;
    }

    /** LOW_ADDR */
    function Low(): nat
      reads this`addr
    {
      addr
    }

    /** HIGH_ADDR */
    function High(): nat
      reads this`addr, this`length
    {
      addr + length
    }
  }

  /** The successor of place i in the ring, and its predecessor. */
  ghost function After(ns: seq<Node>, i: nat): Node
    requires i < |ns|
  {
    if i + 1 < |ns| then ns[i + 1] else ns[0]
  }

  ghost function Before(ns: seq<Node>, i: nat): Node
    requires i < |ns|
  {
    if i == 0 then ns[|ns| - 1] else ns[i - 1]
  }

  /** next and prev of each node match its neighbours in the ring. */
  ghost predicate Ring(ns: seq<Node>)
    reads ns`next, ns`prev
  {
    && Distinct(ns)
    && (forall i: nat {:trigger ns[i].next} :: i < |ns| ==> ns[i].next == After(ns, i))
    && forall i: nat {:trigger ns[i].prev} :: i < |ns| ==> ns[i].prev == Before(ns, i)
  }

  ghost function Pred(ns: seq<Node>, k: nat): nat
    requires k <= |ns| && ns != []
  {
    if k == 0 then |ns| - 1 else k - 1
  }

  ghost function Succ(ns: seq<Node>, k: nat): nat
    requires k <= |ns| && ns != []
  {
    if k == |ns| then 0 else k
  }

  lemma InsertedMembers(ns: seq<Node>, k: nat, m: Node)
    requires k <= |ns|
    ensures forall n :: n in Inserted(ns, k, m) <==> n in ns || n == m
  {
    var t := Inserted(ns, k, m);
    forall n | n in ns || n == m ensures n in t {
      if n == m {
        assert t[k] == m;
      } else {
        var i :| 0 <= i < |ns| && ns[i] == n;
        assert t[if i < k then i else i + 1] == n;
      }
    }
  }

  lemma RemovedMembers(ns: seq<Node>, k: nat)
    requires k < |ns| && Distinct(ns)
    ensures forall n :: n in Removed(ns, k) <==> n in ns && n != ns[k]
  {
    var t := Removed(ns, k);
    forall n | n in ns && n != ns[k] ensures n in t {
      var i :| 0 <= i < |ns| && ns[i] == n;
      assert t[if i < k then i else i - 1] == n;
    }
  }

  lemma InsertedDistinct(ns: seq<Node>, k: nat, m: Node)
    requires k <= |ns| && Distinct(ns) && m !in ns
    ensures Distinct(Inserted(ns, k, m))
  {
    assert forall i :: 0 <= i < |ns| ==> ns[i] in ns;
  }

  lemma RingNext(ns: seq<Node>, k: nat, m: Node)
    requires k <= |ns| && ns != []
    requires forall i: nat {:trigger ns[i].next} :: i < |ns| && i != Pred(ns, k) ==> ns[i].next == After(ns, i)
    requires ns[Pred(ns, k)].next == m && m.next == ns[Succ(ns, k)]
    ensures forall i: nat {:trigger Inserted(ns, k, m)[i].next} ::
              i < |Inserted(ns, k, m)| ==> Inserted(ns, k, m)[i].next == After(Inserted(ns, k, m), i)
  {
    var ms := Inserted(ns, k, m);
    forall i: nat | i < |ms| ensures ms[i].next == After(ms, i) {
      if i != k {
        var j: nat := if i < k then i else i - 1;
        assert ms[i] == ns[j] && (j != Pred(ns, k) ==> ns[j].next == After(ns, j));
      }
    }
  }

  lemma RingPrev(ns: seq<Node>, k: nat, m: Node)
    requires k <= |ns| && ns != []
    requires forall i: nat {:trigger ns[i].prev} :: i < |ns| && i != Succ(ns, k) ==> ns[i].prev == Before(ns, i)
    requires ns[Succ(ns, k)].prev == m && m.prev == ns[Pred(ns, k)]
    ensures forall i: nat {:trigger Inserted(ns, k, m)[i].prev} ::
              i < |Inserted(ns, k, m)| ==> Inserted(ns, k, m)[i].prev == Before(Inserted(ns, k, m), i)
  {
    var ms := Inserted(ns, k, m);
    forall i: nat | i < |ms| ensures ms[i].prev == Before(ms, i) {
      if i != k {
        var j: nat := if i < k then i else i - 1;
        assert ms[i] == ns[j] && (j != Succ(ns, k) ==> ns[j].prev == Before(ns, j));
      }
    }
  }

  /** Once m is linked between its neighbours, the ring has m at place k. */
  lemma RingWith(ns: seq<Node>, k: nat, m: Node)
    requires k <= |ns| && ns != [] && Distinct(ns) && m !in ns
    requires forall i: nat {:trigger ns[i].next} :: i < |ns| && i != Pred(ns, k) ==> ns[i].next == After(ns, i)
    requires forall i: nat {:trigger ns[i].prev} :: i < |ns| && i != Succ(ns, k) ==> ns[i].prev == Before(ns, i)
    requires ns[Pred(ns, k)].next == m && m.prev == ns[Pred(ns, k)]
    requires ns[Succ(ns, k)].prev == m && m.next == ns[Succ(ns, k)]
    ensures Ring(Inserted(ns, k, m))
  {
    InsertedDistinct(ns, k, m);
    RingNext(ns, k, m);
    RingPrev(ns, k, m);
  }

  lemma RingNextWithout(ns: seq<Node>, k: nat)
    requires k < |ns| && |ns| > 1
    requires forall i: nat {:trigger ns[i].next} :: i < |ns| && i != Pred(ns, k) ==> ns[i].next == After(ns, i)
    requires ns[Pred(ns, k)].next == After(ns, k)
    ensures forall i: nat {:trigger Removed(ns, k)[i].next} ::
              i < |Removed(ns, k)| ==> Removed(ns, k)[i].next == After(Removed(ns, k), i)
  {
    var ms := Removed(ns, k);
    forall i: nat | i < |ms| ensures ms[i].next == After(ms, i) {
      var j: nat := if i < k then i else i + 1;
      assert ms[i] == ns[j] && (j != Pred(ns, k) ==> ns[j].next == After(ns, j));
    }
  }

  lemma RingPrevWithout(ns: seq<Node>, k: nat)
    requires k < |ns| && |ns| > 1
    requires forall i: nat {:trigger ns[i].prev} :: i < |ns| && i != Succ(ns, k + 1) ==> ns[i].prev == Before(ns, i)
    requires ns[Succ(ns, k + 1)].prev == Before(ns, k)
    ensures forall i: nat {:trigger Removed(ns, k)[i].prev} ::
              i < |Removed(ns, k)| ==> Removed(ns, k)[i].prev == Before(Removed(ns, k), i)
  {
    var ms := Removed(ns, k);
    forall i: nat | i < |ms| ensures ms[i].prev == Before(ms, i) {
      var j: nat := if i < k then i else i + 1;
      assert ms[i] == ns[j] && (j != Succ(ns, k + 1) ==> ns[j].prev == Before(ns, j));
    }
  }

  /** Once its neighbours point past node k, the ring is the rest. */
  lemma RingWithout(ns: seq<Node>, k: nat)
    requires k < |ns| && |ns| > 1 && Distinct(ns)
    requires forall i: nat {:trigger ns[i].next} :: i < |ns| && i != Pred(ns, k) ==> ns[i].next == After(ns, i)
    requires forall i: nat {:trigger ns[i].prev} :: i < |ns| && i != Succ(ns, k + 1) ==> ns[i].prev == Before(ns, i)
    requires ns[Pred(ns, k)].next == After(ns, k)
    requires ns[Succ(ns, k + 1)].prev == Before(ns, k)
    ensures Ring(Removed(ns, k))
  {
    RingNextWithout(ns, k);
    RingPrevWithout(ns, k);
  }

  /** The nodes describe the blocks. */
  ghost predicate Describe(ns: seq<Node>, spans: seq<Range>)
    reads ns`addr, ns`length
  {
    && |ns| == |spans|
    && (forall i {:trigger ns[i].addr} {:trigger spans[i].low} :: 0 <= i < |ns| ==> ns[i].addr == spans[i].low)
    && forall i {:trigger ns[i].length} {:trigger spans[i].high} :: 0 <= i < |ns| ==>
         ns[i].addr + ns[i].length == spans[i].high
  }

  lemma DescribeInserted(ns: seq<Node>, spans: seq<Range>, k: nat, n: Node)
    requires Describe(ns, spans) && k <= |ns|
    ensures Describe(Inserted(ns, k, n), Inserted(spans, k, Range(n.addr, n.addr + n.length)))
  {
    var s, t := Inserted(spans, k, Range(n.addr, n.addr + n.length)), Inserted(ns, k, n);
    forall i | 0 <= i < |t| ensures t[i].addr == s[i].low && t[i].addr + t[i].length == s[i].high {
      if i < k { assert spans[i].low == ns[i].addr && spans[i].high == ns[i].addr + ns[i].length; }
      if i > k { assert spans[i - 1].low == ns[i - 1].addr && spans[i - 1].high == ns[i - 1].addr + ns[i - 1].length; }
    }
  }

  lemma DescribeRemoved(ns: seq<Node>, spans: seq<Range>, k: nat)
    requires Describe(ns, spans) && k < |ns|
    ensures Describe(Removed(ns, k), Removed(spans, k))
  {
    var s, t := Removed(spans, k), Removed(ns, k);
    forall i | 0 <= i < |t| ensures t[i].addr == s[i].low && t[i].addr + t[i].length == s[i].high {
      if i < k { assert spans[i].low == ns[i].addr && spans[i].high == ns[i].addr + ns[i].length; }
      if i >= k { assert spans[i + 1].low == ns[i + 1].addr && spans[i + 1].high == ns[i + 1].addr + ns[i + 1].length; }
    }
  }

  lemma FitsInFront(spans: seq<Range>, m: Range, k: nat)
    requires Ordered(spans) && k < |spans| && m.low < m.high <= spans[k].low
    requires forall i :: 0 <= i < |spans| ==> Apart(m, spans[i])
    requires forall i :: 0 <= i < k ==> spans[i].low < m.high
    ensures Fits(spans, k, m)
  {
    forall i | 0 <= i < k ensures spans[i].high <= m.low {
      assert Apart(m, spans[i]);
    }
  }

  /** The list of mapped blocks (`nodes`, which describe `spans`) and the list of unused nodes.  `pages` are the
      nodes that describe the pages that nodes live in; they are never removed. */
  class Map {
    var allocList: Node?
    var freeList: Node?
    ghost var nodes: seq<Node>
    ghost var spans: seq<Range>
    ghost var unused: seq<Node>
    ghost var pages: set<Node>

    ghost predicate Mapped()
      reads this`allocList, this`nodes, this`spans, nodes
    {
      && (allocList == if nodes == [] then null else nodes[0])
      && Ring(nodes) && Describe(nodes, spans) && Ordered(spans)
    }

    ghost predicate FreeLinked()
      reads this`freeList, this`unused, unused`next
    {
      && Distinct(unused)
      && (freeList == if unused == [] then null else unused[0])
      && forall i {:trigger unused[i].next} :: 0 <= i < |unused| ==>
           unused[i].next == if i + 1 < |unused| then unused[i + 1] else null
    }

    ghost predicate Separate()
      reads this`nodes, this`unused, this`pages
    {
      && (forall i :: 0 <= i < |unused| ==> unused[i] !in nodes)
      && (forall n :: n in pages ==> n in nodes)
      && (unused != [] || nodes != [] ==> pages != {})
    }

    ghost predicate Valid()
      reads this, nodes, unused
    {
      Mapped() && FreeLinked() && Separate()
    }

    constructor ()
      ensures Valid() && nodes == [] && unused == []
    {
      allocList, freeList, nodes, spans, unused, pages := null, null, [], [], [], {};
    }

    /** The walk of metadata_do_insert.  It stops because the last block does not end at or before the new one, so
        that, being apart from it, it lies after it. */
    method Walk(meta: Node, ghost m: Range) returns (curr: Node, ghost k: nat)
      requires Mapped() && nodes != [] && meta.High() == m.high
      requires spans[|spans| - 1].high > m.low && Apart(m, spans[|spans| - 1])
      ensures k < |nodes| && curr == nodes[k] && m.high <= spans[k].low
      ensures forall i :: 0 <= i < k ==> spans[i].low < m.high
    {
      curr, k := allocList, 0;
      while curr.Low() < meta.High()
        invariant k < |nodes| && curr == nodes[k] && curr.addr == spans[k].low
        invariant forall i :: 0 <= i < k ==> spans[i].low < m.high
        decreases |nodes| - k
      {
        assert k + 1 < |nodes|;
        curr := curr.next;
        k := k + 1;
        assert spans[k].low == curr.addr;
      }
    }

    /** Link meta between curr->prev and curr. */
    method LinkBefore(meta: Node, curr: Node, ghost k: nat, ghost ns: seq<Node>)
      requires Ring(nodes) && nodes != [] && meta !in nodes && k <= |nodes| && curr == nodes[Succ(nodes, k)]
      requires ns == Inserted(nodes, k, meta)
      modifies meta`next, meta`prev, nodes`next, nodes`prev
      ensures Ring(ns)
    {
      ghost var p, s := Pred(nodes, k), Succ(nodes, k);
      assert nodes[p] in nodes && nodes[s] in nodes;
      assert curr.prev == nodes[p];
      assert forall i :: 0 <= i < |nodes| && i != p ==> nodes[i] != nodes[p];
      assert forall i :: 0 <= i < |nodes| && i != s ==> nodes[i] != nodes[s];
      assert forall i :: 0 <= i < |nodes| ==> nodes[i] != meta;
      var before := curr.prev;
      meta.next := curr;
      meta.prev := before;
      before.next := meta;
      curr.prev := meta;
      RingWith(nodes, k, meta);
    }

    /** The record of what the list holds. */
    ghost method Adopt(ns: seq<Node>, ms: seq<Range>)
      requires Ring(ns) && Describe(ns, ms)
      modifies this`nodes, this`spans
      ensures nodes == ns && spans == ms && Ring(nodes) && Describe(nodes, spans)
    {
      nodes, spans := ns, ms;
    }

    /** Link meta in at place k, where its block fits. */
    method PutAt(meta: Node, curr: Node, ghost k: nat, ghost m: Range)
      requires Ring(nodes) && Describe(nodes, spans) && Ordered(spans) && nodes != [] && meta !in nodes
      requires m == Range(meta.addr, meta.addr + meta.length) && Fits(spans, k, m)
      requires curr == nodes[Succ(nodes, k)]
      modifies this`nodes, this`spans, meta`next, meta`prev, nodes`next, nodes`prev
      ensures Ring(nodes) && Describe(nodes, spans) && Ordered(spans)
      ensures nodes == Inserted(old(nodes), k, meta) && spans == Inserted(old(spans), k, m)
    {
      ghost var ns, ms := Inserted(nodes, k, meta), Inserted(spans, k, m);
      InsertedOrdered(spans, k, m);
      LinkBefore(meta, curr, k, ns);
      DescribeInserted(nodes, spans, k, meta);
      Adopt(ns, ms);
    }

    /** metadata_do_insert for a block that does not go to the end. */
    method PlaceInFront(meta: Node, ghost m: Range) returns (ghost k: nat)
      requires Mapped() && nodes != [] && meta !in nodes
      requires m == Range(meta.addr, meta.addr + meta.length) && m.low < m.high
      requires forall i :: 0 <= i < |spans| ==> Apart(m, spans[i])
      requires spans[|spans| - 1].high > m.low
      modifies this`allocList, this`nodes, this`spans, meta`next, meta`prev, nodes`next, nodes`prev
      ensures Mapped() && k <= |old(nodes)|
      ensures nodes == Inserted(old(nodes), k, meta) && spans == Inserted(old(spans), k, m)
    {
      var curr;
      curr, k := Walk(meta, m);
      FitsInFront(spans, m, k);
      assert curr == allocList <==> k == 0;
      PutAt(meta, curr, k, m);
      if curr == allocList {
        allocList := meta;
      }
    }

    /** metadata_do_insert: the block takes its place in address order. */
    method DoInsert(meta: Node, ghost m: Range) returns (ghost k: nat)
      requires Mapped() && meta !in nodes
      requires m == Range(meta.addr, meta.addr + meta.length) && m.low < m.high
      requires forall i :: 0 <= i < |spans| ==> Apart(m, spans[i])
      modifies this`allocList, this`nodes, this`spans, meta`next, meta`prev, nodes`next, nodes`prev
      ensures Mapped() && k <= |old(nodes)|
      ensures nodes == Inserted(old(nodes), k, meta) && spans == Inserted(old(spans), k, m)
    {
      if allocList == null {
        allocList := meta;
        meta.next, meta.prev := meta, meta;
        k, nodes, spans := 0, [meta], [m];
      } else {
        assert allocList.prev == nodes[|nodes| - 1];
        assert spans[|spans| - 1].high == nodes[|nodes| - 1].addr + nodes[|nodes| - 1].length;
        if allocList.prev.High() <= meta.Low() {
          k := |nodes|;
          PutAt(meta, allocList, k, m);
        } else {
          k := PlaceInFront(meta, m);
        }
      }
    }

    /** The search of metadata_remove. */
    method Find(addr: nat) returns (curr: Node, ghost k: nat)
      requires Mapped() && exists i :: 0 <= i < |spans| && spans[i].low == addr
      ensures k < |nodes| && curr == nodes[k] && spans[k].low == addr
    {
      curr, k := allocList, 0;
      assert spans[0].low == curr.addr;
      while curr.addr != addr
        invariant k < |nodes| && curr == nodes[k] && curr.addr == spans[k].low
        invariant forall i :: 0 <= i < k ==> spans[i].low != addr
        decreases |nodes| - k
      {
        assert k + 1 < |nodes|;
        curr := curr.next;
        k := k + 1;
        assert spans[k].low == curr.addr;
      }
    }

    /** Take node k out of the ring and let go of its neighbours. */
    method Unlink(curr: Node, ghost k: nat, ghost ns: seq<Node>) returns (next: Node)
      requires Ring(nodes) && k < |nodes| && curr == nodes[k] && ns == Removed(nodes, k)
      modifies nodes`next, nodes`prev
      ensures |nodes| > 1 ==> Ring(ns)
      ensures next == After(nodes, k)
    {
      ghost var p, s := Pred(nodes, k), Succ(nodes, k + 1);
      assert nodes[p] in nodes && nodes[s] in nodes && nodes[k] in nodes;
      assert curr.next == nodes[s] && curr.prev == nodes[p];
      assert forall i :: 0 <= i < |nodes| && i != p ==> nodes[i] != nodes[p];
      assert forall i :: 0 <= i < |nodes| && i != s ==> nodes[i] != nodes[s];
      next := curr.next;
      curr.next.prev := curr.prev;
      curr.prev.next := curr.next;
      if |nodes| > 1 { RingWithout(nodes, k); }
      assert forall i :: 0 <= i < |ns| ==> ns[i] != curr;
      curr.next, curr.prev := null, null;
    }

    /** metadata_remove.  The list is well formed afterwards exactly if another block is left: the last one would
        leave a pointer to the node that has been removed. */
    method Remove(addr: nat) returns (curr: Node, ghost k: nat)
      requires Mapped() && exists i :: 0 <= i < |spans| && spans[i].low == addr
      modifies this`allocList, this`nodes, this`spans, nodes`next, nodes`prev
      ensures k < |old(nodes)| && curr == old(nodes)[k] && old(spans)[k].low == addr
      ensures nodes == Removed(old(nodes), k) && spans == Removed(old(spans), k)
      ensures Mapped() <==> |old(nodes)| > 1
    {
      curr, k := Find(addr);
      ghost var ns, ms := Removed(nodes, k), Removed(spans, k);
      RemovedOrdered(spans, k);
      var next := Unlink(curr, k, ns);
      DescribeRemoved(nodes, spans, k);
      if curr == allocList {
        assert k == 0;
        allocList := next;
      }
      nodes, spans := ns, ms;
    }

    /** Insert a new node for the block [low, low + length). */
    method InsertNew(low: nat, length: nat) returns (node: Node)
      requires Mapped() && length > 0
      requires forall i :: 0 <= i < |spans| ==> Apart(Range(low, low + length), spans[i])
      modifies this`allocList, this`nodes, this`spans, nodes`next, nodes`prev
      ensures Mapped() && fresh(node) && forall n :: n in nodes <==> n in old(nodes) || n == node
      ensures forall x: nat :: Owned(spans, x) <==> Owned(old(spans), x) || Holds(Range(low, low + length), x)
    {
      node := new Node();
      node.addr := low;
      node.length := length;
      ghost var m := Range(low, low + length);
      ghost var before, k := spans, 0;
      k := DoInsert(node, m);
      OwnedInserted(before, k, m);
      InsertedMembers(old(nodes), k, node);
    }

    /** Turn a freshly mapped page into its own metadata node and a list of unused nodes. */
    method AddPage(page: nat) returns (node: Node)
      requires Valid() && unused == []
      requires forall i :: 0 <= i < |spans| ==> Apart(Range(page, page + PAGE_SIZE), spans[i])
      modifies this, nodes`next, nodes`prev
      ensures Valid() && |unused| == 101 && fresh(unused)
      ensures forall n :: n in nodes <==> n in old(nodes) || n == node
      ensures fresh(node) && pages == old(pages) + {node}
      ensures forall x: nat :: Owned(spans, x) <==> Owned(old(spans), x) || Holds(Range(page, page + PAGE_SIZE), x)
    {
      node := InsertNew(page, PAGE_SIZE);
      pages := pages + {node};
      LinkUnused();
    }

    /** The loop of metadata_new that makes unused nodes out of the rest of a page. */
    method LinkUnused()
      requires unused == [] && freeList == null
      modifies this`freeList, this`unused
      ensures FreeLinked() && |unused| == 101 && fresh(unused)
    {
      var offset := METADATA_SIZE;
      while offset < PAGE_SIZE - METADATA_SIZE
        invariant offset == METADATA_SIZE + METADATA_SIZE * |unused| <= PAGE_SIZE
        invariant FreeLinked() && fresh(unused)
      {
        var node := new Node();
        node.next := freeList;
        freeList := node;
        unused := [node] + unused;
        offset := offset + METADATA_SIZE;
      }
    }

    /** metadata_new: an unused node, from a new page if there is none. */
    method New(page: nat) returns (ret: Node)
      requires Valid()
      requires unused == [] ==> Unowned(spans, Range(page, page + PAGE_SIZE))
      modifies this, nodes`next, nodes`prev
      ensures Valid() && pages != {} && ret !in nodes && ret !in unused
      ensures if old(unused) == [] then |unused| == 100 && fresh(ret) else [ret] + unused == old(unused)
      ensures forall n :: n in nodes && n !in old(nodes) ==> fresh(n)
      ensures forall n :: n in old(nodes) ==> n in nodes
      ensures forall n :: n in unused && n !in old(unused) ==> fresh(n)
      ensures pages >= old(pages)
      ensures forall x: nat :: Owned(spans, x) <==>
                Owned(old(spans), x) || (old(unused) == [] && Holds(Range(page, page + PAGE_SIZE), x))
    {
      if freeList == null {
        UnownedIsApart(spans, Range(page, page + PAGE_SIZE));
        var node := AddPage(page);
      }
      ret := freeList;
      freeList := freeList.next;
      unused := unused[1..];
    }

    /** metadata_free */
    method Free(meta: Node)
      requires Valid() && meta !in nodes && meta !in unused && pages != {}
      modifies this`freeList, this`unused, meta`next
      ensures Valid() && unused == [meta] + old(unused)
    {
      meta.next := freeList;
      freeList := meta;
      unused := [meta] + unused;
    }

    /** alloc_mmap: record the block that mmap has returned.  A page that has to be mapped for the record is
        recorded too. */
    method Mmap(size: nat, addr: nat, page: nat)
      requires Valid() && size > 0 && size % PAGE_SIZE == 0
      requires Unowned(spans, Range(addr, addr + size))
      requires unused == [] ==> Unowned(spans, Range(page, page + PAGE_SIZE))
                                && Apart(Range(addr, addr + size), Range(page, page + PAGE_SIZE))
      modifies this, nodes, unused
      ensures Valid()
      ensures forall x: nat :: Owned(spans, x) <==>
                || Owned(old(spans), x) || Holds(Range(addr, addr + size), x)
                || (old(unused) == [] && Holds(Range(page, page + PAGE_SIZE), x))
    {
      var meta := New(page);
      assert old(unused) != [] ==> meta == old(unused)[0];
      assert forall i :: 0 <= i < |nodes| ==> nodes[i] in nodes && (nodes[i] in old(nodes) || fresh(nodes[i]));
      Fill(meta, size, addr);
      Insert(meta, Range(addr, addr + size));
    }

    method Fill(meta: Node, size: nat, addr: nat)
      requires Valid() && meta !in nodes && meta !in unused
      modifies meta`addr, meta`length
      ensures Valid() && meta.addr == addr && meta.length == size
    {
      meta.length := size;
      meta.addr := addr;
    }

    /** metadata_insert */
    method Insert(meta: Node, ghost m: Range)
      requires Valid() && meta !in nodes && meta !in unused && pages != {}
      requires m == Range(meta.addr, meta.addr + meta.length) && m.low < m.high && Unowned(spans, m)
      modifies this`allocList, this`nodes, this`spans, meta`next, meta`prev, nodes`next, nodes`prev
      ensures Valid()
      ensures forall x: nat :: Owned(spans, x) <==> Owned(old(spans), x) || Holds(m, x)
    {
      UnownedIsApart(spans, m);
      ghost var ns, before, k := nodes, spans, 0;
      k := DoInsert(meta, m);
      OwnedInserted(before, k, m);
      InsertedMembers(ns, k, meta);
    }

    /** forkscan_alloc_munmap, for a block other than a page of nodes. */
    method Munmap(ptr: nat) returns (ghost k: nat)
      requires Valid()
      requires exists i :: 0 <= i < |spans| && spans[i].low == ptr && nodes[i] !in pages
      modifies this, nodes`next, nodes`prev
      ensures Valid() && k < |old(spans)| && old(spans)[k].low == ptr
      ensures forall x: nat :: Owned(spans, x) <==> Owned(old(spans), x) && !Holds(old(spans)[k], x)
    {
      var meta;
      meta, k := Forget(ptr);
      Free(meta);
    }

    /** The removal, as seen by the rest of the map. */
    method Forget(ptr: nat) returns (meta: Node, ghost k: nat)
      requires Valid()
      requires exists i :: 0 <= i < |spans| && spans[i].low == ptr && nodes[i] !in pages
      modifies this`allocList, this`nodes, this`spans, nodes`next, nodes`prev
      ensures Valid() && pages != {} && meta in old(nodes) && meta !in nodes && meta !in unused
      ensures k < |old(spans)| && old(spans)[k].low == ptr
      ensures forall x: nat :: Owned(spans, x) <==> Owned(old(spans), x) && !Holds(old(spans)[k], x)
    {
      ghost var ns, before := nodes, spans;
      OthersStay(ptr);
      meta, k := Remove(ptr);
      OwnedRemoved(before, k);
      RemovedMembers(ns, k);
    }

    /** There is a block besides one that is not a page of nodes, and no other block starts where it does. */
    lemma OthersStay(ptr: nat)
      requires Valid() && exists i :: 0 <= i < |spans| && spans[i].low == ptr && nodes[i] !in pages
      ensures |nodes| > 1
      ensures forall k :: 0 <= k < |spans| && spans[k].low == ptr ==> nodes[k] !in pages
    {
      var i :| 0 <= i < |spans| && spans[i].low == ptr && nodes[i] !in pages;
      var p :| p in pages;
      var j :| 0 <= j < |nodes| && nodes[j] == p;
    }

    /** Where the walk of metadata_break_range is: at node k, or back at the head after the last node. */
    ghost predicate WalkedTo(curr: Node, k: nat)
      reads this`nodes
    {
      nodes != [] && k <= |nodes| && curr == nodes[if k == |nodes| then 0 else k]
    }

    /** The first walk: the first block that ends after low, or the head if there is none. */
    method SkipBelow(low: nat) returns (curr: Node, ghost k: nat)
      requires Mapped() && nodes != []
      ensures WalkedTo(curr, k) && (k < |nodes| ==> low < spans[k].high)
      ensures forall i :: 0 <= i < k ==> spans[i].high <= low
      ensures k == |nodes| ==> spans[0].high <= low
    {
      curr, k := allocList, 0;
      while curr.High() <= low
        invariant k < |nodes| && curr == nodes[k]
        invariant forall i :: 0 <= i < k ==> spans[i].high <= low
        decreases |nodes| - k
      {
        assert spans[k].high == curr.addr + curr.length;
        curr := curr.next;
        k := k + 1;
        if curr == allocList {
          assert k == |nodes|;
          return;
        }
      }
      assert spans[k].high == curr.addr + curr.length;
    }

    /** The second walk: over the blocks that touch low, which is moved to the end of them. */
    method SkipOwned(first: Node, start: nat, high: nat, ghost k0: nat) returns (low: nat, curr: Node, ghost k: nat)
      requires Mapped() && k0 < |nodes| && first == nodes[k0] && start < high && start < spans[k0].high
      requires forall i :: 0 <= i < k0 ==> spans[i].high <= start
      ensures start <= low <= high && WalkedTo(curr, k) && k0 <= k
      ensures k == |nodes| ==> spans[0].low <= low
      ensures k < |nodes| ==> low < spans[k].low
      ensures k > k0 || k < |nodes|
      ensures low == start ==> k == k0
      ensures low < high ==> forall i :: 0 <= i < k ==> spans[i].high <= low
      ensures forall x: nat :: start <= x < low ==> Owned(spans, x)
    {
      low, curr, k := start, first, k0;
      while curr.Low() <= low
        invariant start <= low <= high && k0 <= k < |nodes| && curr == nodes[k] && low <= spans[k].high
        invariant low == start ==> k == k0 && low < spans[k].high
        invariant low < high ==> forall i :: 0 <= i < k ==> spans[i].high <= low
        invariant forall x: nat :: start <= x < low ==> Owned(spans, x)
        decreases |nodes| - k
      {
        assert spans[k].low == curr.addr && spans[k].high == curr.addr + curr.length;
        ghost var before := low;
        if curr.High() >= low {
          low := Min(curr.High(), high);
        }
        forall x: nat | before <= x < low ensures Owned(spans, x) {
          assert Holds(spans[k], x);
        }
        curr := curr.next;
        k := k + 1;
        if curr == allocList {
          assert k == |nodes|;
          break;
        }
      }
      if k < |nodes| { assert spans[k].low == curr.addr; }
    }

    /** metadata_break_range: the part skipped is owned, the chunk returned is not, and the rest begins where
        the chunk ends, which is strictly after the beginning of the range. */
    method BreakRange(big: Range) returns (ret: Range, rest: Range)
      requires Mapped() && nodes != [] && big.low < big.high
      ensures big.low <= ret.low <= ret.high <= big.high && big.low < ret.high
      ensures rest == Range(ret.high, big.high)
      ensures forall x: nat :: big.low <= x < ret.high ==> (Owned(spans, x) <==> x < ret.low)
      ensures ret.low < ret.high ==> ret.high == big.high || Owned(spans, ret.high)
    {
      var low, high := big.low, big.high;
      ghost var k;
      var curr;
      curr, k := SkipBelow(low);
      ghost var i := if k == |nodes| then 0 else k;
      assert spans[i].low == curr.addr && spans[i].high == curr.addr + curr.length;
      if curr.High() > low && curr.Low() < high {
        low, curr, k := SkipOwned(curr, low, high, k);
        i := if k == |nodes| then 0 else k;
        assert spans[i].low == curr.addr;
        if curr.Low() > low {
          high := Min(curr.Low(), high);
          assert Holds(spans[i], curr.Low());
        }
      } else {
        assert k < |nodes| ==> high <= spans[k].low;
      }
      NoneBetween(spans, k, low, high);
      ret := Range(low, high);
      rest := Range(high, big.high);
    }
  }

  lemma NoneBetween(spans: seq<Range>, k: nat, low: nat, high: nat)
    requires Ordered(spans) && k <= |spans|
    requires low < high ==> forall i :: 0 <= i < k ==> spans[i].high <= low
    requires k < |spans| ==> high <= spans[k].low
    ensures forall x: nat :: low <= x < high ==> !Owned(spans, x)
  {
    forall x: nat, i | low <= x < high && 0 <= i < |spans| ensures !Holds(spans[i], x) {
      if i > k { assert spans[k].high <= spans[i].low; }
    }
  }
}
