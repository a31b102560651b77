/** Sequence and set facts behind PHP's `range`, `array_filter`,
    `array_search` + `unset` and `count(array_filter(...)) > 1`. */
module Seqs {

  /** `range(1, n)`: the values 1, 2, ..., n in ascending order. */
  function OneTo(n: nat): (r: seq<int>)
    ensures |r| == n
    ensures forall i :: 0 <= i < n ==> r[i] == i + 1
    ensures forall v :: v in r <==> 1 <= v <= n
    ensures Increasing(r)
  {
    if n == 0 then [] else OneTo(n - 1) + [n]
  }

  predicate Increasing(s: seq<int>)
  {
    forall i, j :: 0 <= i < j < |s| ==> s[i] < s[j]
  }

  lemma IncreasingHeadIsLeast(s: seq<int>)
    requires Increasing(s) && s != []
    ensures forall v :: v in s ==> s[0] <= v
  {
    forall v | v in s ensures s[0] <= v {
      var k :| 0 <= k < |s| && s[k] == v;
    }
  }

  function ToSet(s: seq<int>): set<int>
  {
    set x | x in s
  }

  lemma ToSetConcat(a: seq<int>, b: seq<int>)
    ensures ToSet(a + b) == ToSet(a) + ToSet(b)
  {
    forall x | x in ToSet(a) + ToSet(b) ensures x in a + b {
      if x in a {
        var i :| 0 <= i < |a| && a[i] == x;
        assert (a + b)[i] == x;
      } else {
        var i :| 0 <= i < |b| && b[i] == x;
        assert (a + b)[|a| + i] == x;
      }
    }
  }

  /** The elements of xs outside F, in their original order. */
  function Without(xs: seq<int>, F: set<int>): (r: seq<int>)
    ensures forall x :: x in r <==> x in xs && x !in F
    ensures |r| <= |xs|
  {
    if xs == [] then []
    else (if xs[0] in F then [] else [xs[0]]) + Without(xs[1..], F)
  }

  /** Removes the first element equal to v, as `array_search` followed by `unset` does. */
  function RemoveFirst(xs: seq<int>, v: int): seq<int>
  {
    if xs == [] then []
    else if xs[0] == v then xs[1..]
    else [xs[0]] + RemoveFirst(xs[1..], v)
  }

  lemma {:induction false} WithoutIncreasing(xs: seq<int>, F: set<int>)
    requires Increasing(xs)
    ensures Increasing(Without(xs, F))
  {
    if xs != [] {
      WithoutIncreasing(xs[1..], F);
      var t := Without(xs[1..], F);
      forall x | x in t ensures xs[0] < x {
        var k :| 0 <= k < |xs[1..]| && xs[1..][k] == x;
        assert xs[k + 1] == x;
      }
      if xs[0] !in F {
        var w := [xs[0]] + t;
        forall i, j | 0 <= i < j < |w| ensures w[i] < w[j] {
          assert w[j] == t[j - 1] && t[j - 1] in t;
        }
      }
    }
  }

  lemma {:induction false} WithoutNothing(xs: seq<int>, F: set<int>)
    requires forall x :: x in xs ==> x !in F
    ensures Without(xs, F) == xs
  {
    if xs != [] {
      var h := xs[0];
      assert h in xs;
      assert h !in F;
      forall x | x in xs[1..] ensures x !in F {
        assert x in xs;
      }
      WithoutNothing(xs[1..], F);
      assert Without(xs, F) == [xs[0]] + Without(xs[1..], F);
      assert xs == [xs[0]] + xs[1..];
    }
  }

  /** On an ascending sequence, removing the first occurrence removes every occurrence. */
  lemma {:induction false} RemoveFirstIsWithout(xs: seq<int>, v: int)
    requires Increasing(xs)
    ensures RemoveFirst(xs, v) == Without(xs, {v})
  {
    if xs != [] {
      if xs[0] == v {
        WithoutNothing(xs[1..], {v});
      } else {
        RemoveFirstIsWithout(xs[1..], v);
      }
    }
  }

  lemma {:induction false} WithoutTwice(xs: seq<int>, F: set<int>, G: set<int>)
    ensures Without(Without(xs, F), G) == Without(xs, F + G)
  {
    if xs != [] {
      WithoutTwice(xs[1..], F, G);
      var w := Without(xs, F);
      if xs[0] in F {
        assert w == Without(xs[1..], F);
      } else {
        assert w[0] == xs[0] && w[1..] == Without(xs[1..], F);
      }
    }
  }

  /** `count(array_filter($s, fn($e) => $e === $v))` */
  function Occurrences(s: seq<int>, v: int): nat
  {
    |set k | 0 <= k < |s| && s[k] == v|
  }

  /** A set holding x has more than one element exactly when it holds another. */
  lemma CardMoreThanOne<T>(S: set<T>, x: T)
    requires x in S
    ensures |S| > 1 <==> exists y :: y in S && y != x
  {
    var rest := S - {x};
    assert |rest| == |S| - 1;
    if |S| > 1 {
      var y :| y in rest;
    } else {
      assert rest == {};
    }
  }

  /** Two different elements of a set with more than one. */
  lemma TwoElements<T>(S: set<T>) returns (x: T, y: T)
    requires |S| > 1
    ensures x in S && y in S && x != y
  {
    x :| x in S;
    CardMoreThanOne(S, x);
    y :| y in S && y != x;
  }

  /** A set holding two different elements has more than one. */
  lemma MoreThanOne<T>(S: set<T>, x: T, y: T)
    requires x in S && y in S && x != y
    ensures |S| > 1
  {
    CardMoreThanOne(S, x);
  }

  /** The value at position i is counted more than once exactly when it occurs elsewhere. */
  lemma OccursElsewhere(s: seq<int>, i: nat)
    requires i < |s|
    ensures Occurrences(s, s[i]) > 1 <==> exists j :: 0 <= j < |s| && j != i && s[j] == s[i]
  {
    var S := set k | 0 <= k < |s| && s[k] == s[i];
    CardMoreThanOne(S, i);
    if exists j :: 0 <= j < |s| && j != i && s[j] == s[i] {
      var j :| 0 <= j < |s| && j != i && s[j] == s[i];
      assert j in S;
    }
  }

  /** Some non-zero value of s occurs twice. */
  predicate HasRepeat(s: seq<int>)
  {
    exists i, j :: 0 <= i < |s| && 0 <= j < |s| && i != j && s[i] != 0 && s[i] == s[j]
  }
}
