/** Counts over the threads or tasks of a system. */
module Tally {
  import opened Common

  ghost function Sum<T>(s: seq<T>, weight: T -> int): int {
    if s == [] then 0 else Sum(s[..|s| - 1], weight) + weight(s[|s| - 1])
  }

  lemma {:induction false} SumOfUpdate<T>(s: seq<T>, i: nat, x: T, weight: T -> int)
    requires i < |s|
    ensures Sum(s[i := x], weight) == Sum(s, weight) - weight(s[i]) + weight(x)
  {
    var n := |s| - 1;
    if i == n {
      assert s[i := x][..n] == s[..n];
    } else {
      SumOfUpdate(s[..n], i, x, weight);
      assert s[i := x][..n] == s[..n][i := x];
    }
  }

  lemma SumOfSnoc<T>(s: seq<T>, x: T, weight: T -> int)
    ensures Sum(s + [x], weight) == Sum(s, weight) + weight(x)
  {
    assert (s + [x])[..|s|] == s;
  }

  lemma {:induction false} SumWithout<T>(s: seq<T>, b: nat, weight: T -> int)
    requires b < |s|
    ensures Sum(Without(s, b), weight) == Sum(s, weight) - weight(s[b])
  {
    var n := |s| - 1;
    if b == n {
      assert Without(s, b) == s[..n];
    } else {
      SumWithout(s[..n], b, weight);
      assert Without(s, b) == Without(s[..n], b) + [s[n]];
      SumOfSnoc(Without(s[..n], b), s[n], weight);
    }
  }

  lemma {:induction false} SumOfConstant<T>(s: seq<T>, weight: T -> int, c: int)
    requires forall i :: 0 <= i < |s| ==> weight(s[i]) == c
    ensures Sum(s, weight) == c * |s|
  {
    if s == [] {
    } else {
      SumOfConstant(s[..|s| - 1], weight, c);
    }
  }

  lemma {:induction false} SumIsNonnegative<T>(s: seq<T>, weight: T -> int)
    requires forall i :: 0 <= i < |s| ==> weight(s[i]) >= 0
    ensures Sum(s, weight) >= 0
    ensures forall i :: 0 <= i < |s| ==> weight(s[i]) <= Sum(s, weight)
  {
    if s == [] {
    } else {
      SumIsNonnegative(s[..|s| - 1], weight);
      assert forall i :: 0 <= i < |s| - 1 ==> s[..|s| - 1][i] == s[i];
    }
  }

  /** How often a task is resumed in a trace. */
  ghost function Count(trace: seq<int>, id: int): nat {
    if trace == [] then 0 else Count(trace[1..], id) + if trace[0] == id then 1 else 0
  }

  lemma CountOfPrefix(x: int, rest: seq<int>, n: nat, id: int)
    requires 0 < n <= 1 + |rest|
    ensures Count(([x] + rest)[..n], id) == Count(rest[..n - 1], id) + if x == id then 1 else 0
  {
    var prefix := ([x] + rest)[..n];
    assert prefix[0] == x && prefix[1..] == rest[..n - 1];
  }
}
