/** Lists without repetitions, taking an element out of one, and copying stretches of words. */
module Sequences {

  ghost predicate Distinct<T>(s: seq<T>) {
    forall i, j :: 0 <= i < j < |s| ==> s[i] != s[j]
  }

  /** The list without the first occurrence of x. */
  ghost function Without<T>(s: seq<T>, x: T): seq<T> {
    if s == [] then []
    else if s[0] == x then s[1..]
    else [s[0]] + Without(s[1..], x)
  }

  lemma {:induction false} WithoutAt<T>(s: seq<T>, k: nat)
    requires k < |s| && forall i :: 0 <= i < k ==> s[i] != s[k]
    ensures Without(s, s[k]) == s[..k] + s[k + 1..]
  {
    if k > 0 {
      WithoutAt(s[1..], k - 1);
      assert s[..k] == [s[0]] + s[1..][..k - 1];
      assert s[1..][k..] == s[k + 1..];
    }
  }

  lemma {:induction false} WithoutAbsent<T>(s: seq<T>, x: T)
    requires x !in s
    ensures Without(s, x) == s
  {
    if s != [] { WithoutAbsent(s[1..], x); }
  }

  lemma DistinctAppend<T>(s: seq<T>, x: T)
    requires Distinct(s) && x !in s
    ensures Distinct(s + [x])
  {
    assert forall i :: 0 <= i < |s| ==> s[i] in s;
  }

  /** memcpy of n words. */
  method CopyWords(dst: array<nat>, at: nat, src: array<nat>, start: nat, n: nat)
    requires dst != src && at + n <= dst.Length && start + n <= src.Length
    modifies dst
    ensures forall i :: 0 <= i < dst.Length ==>
              dst[i] == if at <= i < at + n then src[start + (i - at)] else old(dst[i])
  {
    for i := 0 to n
      invariant forall k :: 0 <= k < dst.Length ==>
                  dst[k] == if at <= k < at + i then src[start + (k - at)] else old(dst[k])
    {
      dst[at + i] := src[start + i];
    }
  }

  ghost function Sum(xs: seq<nat>): nat {
    if xs == [] then 0 else Sum(xs[..|xs| - 1]) + xs[|xs| - 1]
  }

  lemma {:induction false} SumUpdate(xs: seq<nat>, i: nat, x: nat)
    requires i < |xs|
    ensures Sum(xs[i := x]) == Sum(xs) - xs[i] + x
  {
    var n := |xs| - 1;
    if i < n {
      SumUpdate(xs[..n], i, x);
      assert xs[i := x][..n] == xs[..n][i := x];
    } else {
      assert xs[i := x][..n] == xs[..n];
    }
  }

  lemma {:induction false} SumOfZeros(n: nat)
    ensures Sum(seq(n, _ => 0)) == 0
  {
    if n > 0 {
      SumOfZeros(n - 1);
      assert seq(n, _ => 0)[..n - 1] == seq(n - 1, _ => 0);
    }
  }

  /** Numbers that are at most 1 add up to their count only if all of them are 1. */
  lemma {:induction false} SumOfBits(xs: seq<nat>)
    requires forall i :: 0 <= i < |xs| ==> xs[i] <= 1
    ensures Sum(xs) <= |xs|
    ensures Sum(xs) == |xs| ==> forall i :: 0 <= i < |xs| ==> xs[i] == 1
  {
    if xs != [] {
      SumOfBits(xs[..|xs| - 1]);
    }
  }

  lemma {:induction false} SumOfOnes(xs: seq<nat>)
    requires forall i :: 0 <= i < |xs| ==> xs[i] == 1
    ensures Sum(xs) == |xs|
  {
    if xs != [] {
      SumOfOnes(xs[..|xs| - 1]);
    }
  }

  /** Numbers that are nowhere larger add up to no more, place s left out. */
  lemma {:induction false} SumDominated(xs: seq<nat>, ys: seq<nat>, s: nat)
    requires |xs| == |ys| && s < |xs| && forall i :: 0 <= i < |xs| ==> ys[i] <= xs[i]
    ensures Sum(ys) - ys[s] <= Sum(xs) - xs[s]
  {
    var n := |xs| - 1;
    if s < n {
      SumDominated(xs[..n], ys[..n], s);
    } else {
      SumAtMost(xs[..n], ys[..n]);
    }
  }

  lemma {:induction false} SumAtMost(xs: seq<nat>, ys: seq<nat>)
    requires |xs| == |ys| && forall i :: 0 <= i < |xs| ==> ys[i] <= xs[i]
    ensures Sum(ys) <= Sum(xs)
  {
    if xs != [] {
      SumAtMost(xs[..|xs| - 1], ys[..|xs| - 1]);
    }
  }

  lemma {:induction false} SumOfSame(xs: seq<nat>, c: nat)
    requires forall i :: 0 <= i < |xs| ==> xs[i] == c
    ensures Sum(xs) == |xs| * c
  {
    if xs != [] {
      SumOfSame(xs[..|xs| - 1], c);
    }
  }

  /** The elements of a set, in some order. */
  lemma ListOf(s: set<nat>) returns (xs: seq<nat>)
    ensures forall x :: x in xs <==> x in s
  {
    if s == {} {
      xs := [];
    } else {
      var x :| x in s;
      var rest := ListOf(s - {x});
      xs := [x] + rest;
    }
  }
}
