/** What a forked child sees: the tracked pool, the contents of the tracked blocks, and the
    words of every range that has to be searched for roots. */
module Snapshots {
  import opened Words

  ghost predicate InWords(words: seq<nat>, v: nat) {
    exists i :: 0 <= i < |words| && PtrMask(words[i]) == v
  }

  datatype Snapshot = Snapshot(pool: set<nat>, words: map<nat, seq<nat>>, ranges: seq<seq<nat>>) {

    ghost predicate Valid() {
      && pool <= words.Keys
      && forall v <- pool :: 0 < v && v % 4 == 0
    }

    /** Some word of block b refers to pool entry v. */
    ghost predicate Hits(b: nat, v: nat) {
      && v in pool
      && b in words
      && InWords(words[b], v)
    }

    ghost predicate InRanges(v: nat) {
      exists r :: 0 <= r < |ranges| && InWords(ranges[r], v)
    }

    /** Some word outside the pool refers to pool entry v. */
    ghost predicate Root(v: nat) {
      && v in pool
      && InRanges(v)
    }

    /** A chain of references that starts at a root and stays inside the pool. */
    ghost predicate IsPath(p: seq<nat>) {
      && p != []
      && Root(p[0])
      && forall i :: 0 < i < |p| ==> Hits(p[i - 1], p[i])
    }

    ghost predicate Reachable(v: nat) {
      exists p :: IsPath(p) && p[|p| - 1] == v
    }

    ghost predicate Closed(s: set<nat>) {
      forall b, v :: b in s && Hits(b, v) ==> v in s
    }

    lemma RootIsReachable(v: nat)
      requires Root(v)
      ensures Reachable(v)
    {
      assert IsPath([v]);
    }

    lemma HitIsReachable(b: nat, v: nat)
      requires Reachable(b) && Hits(b, v)
      ensures Reachable(v)
    {
      var p :| IsPath(p) && p[|p| - 1] == b;
      assert IsPath(p + [v]);
      assert (p + [v])[|p|] == v;
    }

    lemma PathStaysIn(s: set<nat>, p: seq<nat>, k: nat)
      requires forall v :: Root(v) ==> v in s
      requires Closed(s) && IsPath(p) && k < |p|
      ensures p[k] in s
    {
      if k > 0 {
        PathStaysIn(s, p, k - 1);
        assert Hits(p[k - 1], p[k]);
      }
    }

    /** A set that has every root and is closed under references holds everything reachable. */
    lemma ClosedHoldsReachable(s: set<nat>)
      requires forall v :: Root(v) ==> v in s
      requires Closed(s)
      ensures forall v :: Reachable(v) ==> v in s
    {
      forall v | Reachable(v) ensures v in s {
        var p :| IsPath(p) && p[|p| - 1] == v;
        PathStaysIn(s, p, |p| - 1);
      }
    }
  }
}
