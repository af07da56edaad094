/** The ring buffer each thread keeps its retired pointers in (queue.c). */
module RingQueue {
  import opened Words
  import opened Sequences

  function Pow2(k: nat): (p: nat)
    ensures p > 0
  {
    if k == 0 then 1 else 2 * Pow2(k - 1)
  }

  /** Bitwise and. */
  function BitAnd(x: nat, y: nat): nat {
    if x == 0 || y == 0 then 0
    else 2 * BitAnd(x / 2, y / 2) + (if x % 2 == 1 && y % 2 == 1 then 1 else 0)
  }

  lemma ModHalves(x: nat, p: nat)
    requires p > 0
    ensures x % (2 * p) == 2 * ((x / 2) % p) + x % 2
  {
    var h := x / 2;
    var q, r := h / p, h % p;
    assert h == q * p + r;
    var m := 2 * r + x % 2;
    assert x == 2 * h + x % 2 == q * (2 * p) + m;
    assert m < 2 * p;
    ModUnique(x, 2 * p, q, m);
  }

  lemma Gap(n: nat, q: nat, q': nat, r: nat, r': nat)
    requires q * n + r == q' * n + r' && r < n && r' < n
    ensures q >= q'
  {
    if q < q' {
      var d: nat := q' - q;
      assert q' * n == q * n + d * n;
      MulAtLeast(d, n);
      assert false;
    }
  }

  lemma MulAtLeast(d: nat, n: nat)
    requires d > 0
    ensures d * n >= n
  {
  }

  lemma ModUnique(x: nat, n: nat, q: nat, r: nat)
    requires n > 0 && x == q * n + r && r < n
    ensures x % n == r && x / n == q
  {
    assert x == (x / n) * n + x % n;
    Gap(n, q, x / n, r, x % n);
    Gap(n, x / n, q, x % n, r);
  }

  /** Half of 2p - 1 is p - 1, and 2p - 1 is odd. */
  lemma DoubledLessOne(p: nat)
    requires p > 0
    ensures (2 * p - 1) / 2 == p - 1 && (2 * p - 1) % 2 == 1
  {
  }

  /** Masking with 2p - 1 keeps the lowest bit and masks the rest with p - 1. */
  lemma MaskStep(x: nat, p: nat)
    requires p > 0
    ensures BitAnd(x, 2 * p - 1) == 2 * BitAnd(x / 2, p - 1) + x % 2
  {
    DoubledLessOne(p);
  }

  /** INDEXIFY is the remainder for every capacity that is a power of two. */
  lemma {:induction false} MaskIsMod(x: nat, k: nat)
    ensures BitAnd(x, Pow2(k) - 1) == x % Pow2(k)
  {
    if k > 0 {
      MaskIsMod(x / 2, k - 1);
      ModHalves(x, Pow2(k - 1));
      MaskStep(x, Pow2(k - 1));
    }
  }

  function Slot(x: nat, capacity: nat): (i: nat)
    requires capacity > 0
    ensures i < capacity
  {
    x % capacity
  }

  /** The slots after the one for t follow it, around the end of the buffer. */
  lemma SlotFrom(t: nat, i: nat, capacity: nat)
    requires i <= capacity && capacity > 0
    ensures Slot(t + i, capacity)
         == if Slot(t, capacity) + i < capacity then Slot(t, capacity) + i else Slot(t, capacity) + i - capacity
  {
    var q, r := t / capacity, t % capacity;
    assert t == q * capacity + r;
    if r + i < capacity {
      ModUnique(t + i, capacity, q, r + i);
    } else {
      assert t + i == (q + 1) * capacity + (r + i - capacity);
      ModUnique(t + i, capacity, q + 1, r + i - capacity);
    }
  }

  /** Indices less than a capacity apart have different slots. */
  lemma SlotsDiffer(i: nat, j: nat, capacity: nat)
    requires i < j < i + capacity
    ensures Slot(i, capacity) != Slot(j, capacity)
  {
    SlotFrom(i, j - i, capacity);
  }

  /** The elements at the absolute indices from lo to hi. */
  ghost function Window(e: seq<nat>, lo: nat, hi: nat): (w: seq<nat>)
    requires |e| > 0 && lo <= hi
    ensures |w| == hi - lo
    ensures forall i :: 0 <= i < |w| ==> w[i] == e[Slot(lo + i, |e|)]
  {
    seq(hi - lo, i requires 0 <= i < hi - lo => e[Slot(lo + i, |e|)])
  }

  /** Writing the next slot extends the window by one and leaves the rest of it alone. */
  lemma WindowGrows(e: seq<nat>, lo: nat, hi: nat, v: nat)
    requires |e| > 0 && lo <= hi < lo + |e|
    ensures Window(e[Slot(hi, |e|) := v], lo, hi) == Window(e, lo, hi)
    ensures Window(e[Slot(hi, |e|) := v], lo, hi + 1) == Window(e, lo, hi) + [v]
  {
    forall i | lo <= i < hi ensures Slot(i, |e|) != Slot(hi, |e|) {
      SlotsDiffer(i, hi, |e|);
    }
  }

  lemma WindowKept(e: seq<nat>, lo: nat, mid: nat, hi: nat, v: nat)
    requires |e| > 0 && lo <= mid <= hi < lo + |e|
    ensures Window(e[Slot(hi, |e|) := v], lo, mid) == Window(e, lo, mid)
  {
    forall i | lo <= i < mid ensures Slot(i, |e|) != Slot(hi, |e|) {
      SlotsDiffer(i, hi, |e|);
    }
  }

  lemma WindowSplits(e: seq<nat>, lo: nat, mid: nat, hi: nat)
    requires |e| > 0 && lo <= mid <= hi
    ensures Window(e, lo, hi) == Window(e, lo, mid) + Window(e, mid, hi)
  {
  }

  class Queue {
    const e: array<nat>
    const capacity: nat
    var idxHead: nat
    var idxTail: nat
    ghost const bits: nat

    /** forkscan_queue_init */
    constructor (buf: array<nat>, capacity: nat, ghost bits: nat)
      requires capacity == buf.Length == Pow2(bits)
      ensures Valid() && e == buf && Contents() == [] && this.capacity == capacity
    {
      e, this.capacity, this.bits := buf, capacity, bits;
      idxHead, idxTail := 0, capacity;
    }

    ghost predicate Valid()
      reads this
    {
      && capacity == e.Length == Pow2(bits)
      && idxHead < idxTail <= idxHead + capacity && capacity <= idxTail
    }

    ghost function Contents(): (c: seq<nat>)
      reads this, e
      requires Valid()
      ensures |c| < capacity
    {
      Window(e[..], idxTail - capacity, idxHead)
    }

    /** INDEXIFY */
    function Indexify(idx: nat): (i: nat)
      requires capacity == e.Length == Pow2(bits)
      ensures i == Slot(idx, capacity)
    {
      MaskIsMod(idx, bits);
      BitAnd(idx, capacity - 1)
    }

    function IsEmpty(): (r: bool)
      reads this, e
      requires Valid()
      ensures r <==> Contents() == []
    {
      idxHead + capacity == idxTail
    }

    /** A queue is full with one slot to spare. */
    function IsFull(): (r: bool)
      reads this, e
      requires Valid()
      ensures r <==> |Contents()| == capacity - 1
    {
      idxHead + 1 >= idxTail
    }

    function Available(): (r: nat)
      reads this, e
      requires Valid()
      ensures r == capacity - 1 - |Contents()|
    {
      idxTail - idxHead - 1
    }

    method Push(value: nat)
      requires Valid() && |Contents()| < capacity - 1
      modifies this`idxHead, e
      ensures Valid() && Contents() == old(Contents()) + [value]
    {
      WindowGrows(e[..], idxTail - capacity, idxHead, value);
      var i := Indexify(idxHead);
      ghost var s := e[..];
      e[i] := value;
      assert e[..] == s[i := value];
      idxHead := idxHead + 1;
    }

    method Pop() returns (ret: nat)
      requires Valid() && Contents() != []
      modifies this`idxTail
      ensures Valid() && [ret] + Contents() == old(Contents())
    {
      SlotFrom(idxTail - capacity, capacity, capacity);
      ret := e[Indexify(idxTail)];
      WindowSplits(e[..], idxTail - capacity, idxTail - capacity + 1, idxHead);
      idxTail := idxTail + 1;
    }

    /** forkscan_queue_push_bulk: in two pieces, the same as pushing the values one after the other. */
    method PushBulk(values: array<nat>, len: nat)
      requires Valid() && values != e && len <= values.Length && |Contents()| + len <= capacity - 1
      modifies this`idxHead, e
      ensures Valid() && Contents() == old(Contents()) + values[..len]
    {
      ghost var s, lo := e[..], idxTail - capacity;
      var head := idxHead;
      var at := Indexify(head);
      var first: nat := Min(len, capacity - at);
      var second: nat := len - first;
      if first > 0 {
        head := head + first;
      }
      SlotFrom(idxHead, first, capacity);
      var again := Indexify(head);
      CopyIn(values, len, at, first, again, second);
      if second > 0 {
        head := head + second;
      }
      Pushed(s, e[..], lo, idxHead, values[..len]);
      idxHead := head;
    }

    /** The one or two copies of forkscan_queue_push_bulk. */
    method CopyIn(values: array<nat>, len: nat, at: nat, first: nat, again: nat, second: nat)
      requires values != e && len <= values.Length && at < e.Length && len < e.Length
      requires first == Min(len, e.Length - at) && second == len - first && (second > 0 ==> again == 0)
      modifies e
      ensures forall i :: 0 <= i < e.Length ==> e[i] == Overlaid(old(e[..]), values[..len], at, i)
    {
      if first > 0 {
        CopyWords(e, at, values, 0, first);
      }
      if second > 0 {
        CopyWords(e, again, values, first, second);
      }
    }

    /** forkscan_queue_pop_bulk: the oldest values, as many as there are room for. */
    method PopBulk(values: array<nat>, offset: nat, len: nat) returns (popped: nat)
      requires Valid() && values != e && offset + len <= values.Length
      modifies this`idxTail, values
      ensures Valid() && popped == Min(len, |old(Contents())|)
      ensures values[offset..offset + popped] == old(Contents())[..popped]
      ensures Contents() == old(Contents())[popped..]
      ensures forall i :: 0 <= i < values.Length && !(offset <= i < offset + popped) ==> values[i] == old(values[i])
    {
      var head := idxHead;
      var size := head - (idxTail - capacity);
      if size == 0 {
        return 0;
      }
      if size > len {
        head := head - (size - len);
        size := len;
      }
      popped := size;
      ghost var lo := idxTail - capacity;
      SlotFrom(lo, capacity, capacity);
      SlotFrom(lo, size, capacity);
      CopyOut(values, offset, Indexify(idxTail), Indexify(head), size);
      Popped(e[..], lo, head, idxHead, values[offset..offset + popped]);
      idxTail := head + capacity;
    }

    /** The one or two copies of forkscan_queue_pop_bulk. */
    method CopyOut(values: array<nat>, offset: nat, start: nat, stop: nat, ghost size: nat)
      requires values != e && offset + size <= values.Length
      requires start < e.Length == capacity && size < capacity
      requires stop == if start + size < capacity then start + size else start + size - capacity
      modifies values
      ensures forall i :: 0 <= i < values.Length ==>
                values[i] == if offset <= i < offset + size then Around(e[..], start, i - offset) else old(values[i])
    {
      var begin, at := start, offset;
      if stop < begin {
        CopyWords(values, at, e, begin, capacity - begin);
        at := at + (capacity - begin);
        begin := 0;
      }
      assert forall i :: 0 <= i < values.Length ==>
               values[i] == if offset <= i < at then Around(e[..], start, i - offset) else old(values[i]);
      if stop - begin > 0 {
        CopyWords(values, at, e, begin, stop - begin);
      }
    }
  }

  /** The element i places after the slot, around the end. */
  ghost function Around(s: seq<nat>, slot: nat, i: int): nat
    requires slot < |s| && 0 <= i < |s|
  {
    if slot + i < |s| then s[slot + i] else s[slot + i - |s|]
  }

  /** n values written to the slots from hi on extend the window by them. */
  lemma Pushed(s: seq<nat>, t: seq<nat>, lo: nat, hi: nat, values: seq<nat>)
    requires |s| == |t| > 0 && lo <= hi && hi - lo + |values| < |s|
    requires forall i :: 0 <= i < |t| ==> t[i] == Overlaid(s, values, Slot(hi, |s|), i)
    ensures Window(t, lo, hi + |values|) == Window(s, lo, hi) + values
  {
    forall i: nat | lo <= i < hi + |values|
      ensures t[Slot(i, |t|)] == if i < hi then s[Slot(i, |s|)] else values[i - hi]
    {
      if i < hi {
        SlotFrom(i, hi - i, |s|);
      } else {
        SlotFrom(hi, i - hi, |s|);
      }
    }
  }

  /** s with the values laid over it from slot at on, around the end. */
  ghost function Overlaid(s: seq<nat>, values: seq<nat>, at: nat, i: int): nat
    requires 0 <= i < |s| && at < |s|
  {
    if at <= i < at + |values| then values[i - at]
    else if at <= i + |s| < at + |values| then values[i + |s| - at]
    else s[i]
  }

  lemma Popped(s: seq<nat>, lo: nat, mid: nat, hi: nat, out: seq<nat>)
    requires |s| > 0 && lo <= mid <= hi < lo + |s| && |out| == mid - lo
    requires forall i :: 0 <= i < |out| ==>
               out[i] == Around(s, Slot(lo, |s|), i)
    ensures out == Window(s, lo, hi)[..mid - lo] && Window(s, mid, hi) == Window(s, lo, hi)[mid - lo..]
  {
    forall i: nat | i < |out| ensures out[i] == s[Slot(lo + i, |s|)] {
      SlotFrom(lo, i, |s|);
    }
  }
}
