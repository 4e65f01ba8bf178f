/**
  `concurrency/atomics/fetch_mult.cpp`: any number of threads multiply one atomic, each by a
  load and a compare-exchange loop, in any interleaving of the atomic operations. The type has
  `modulus` values from `low` on, signed or unsigned; a product outside wraps around.
*/
module FetchMult {
  import opened Tally

  datatype At =
    | Loading
    | Comparing(oldValue: int, seen: nat)  // seen: exchanges that had succeeded when it was read
    | Returned(oldValue: int, at: nat)     // at: exchanges that had succeeded before its own

  datatype Setup = Setup(low: int, modulus: nat, initial: int, mults: seq<int>)

  datatype System = System(
    shared: int, threads: seq<At>,
    log: seq<nat>,      // the threads whose exchange succeeded, in order
    failures: nat)      // exchanges that failed

  ghost predicate Proper(c: Setup) {
    && c.modulus > 0 && IsValue(c, c.initial)
    && forall i :: 0 <= i < |c.mults| ==> IsValue(c, c.mults[i])
  }

  predicate IsValue(c: Setup, n: int) {
    c.low <= n < c.low + c.modulus
  }

  /** The value of the type that n wraps to. */
  function Wrap(c: Setup, n: int): (w: int)
    requires c.modulus > 0
    ensures IsValue(c, w)
  {
    c.low + (n - c.low) % c.modulus
  }

  function Times(c: Setup, a: int, b: int): int
    requires c.modulus > 0
  {
    Wrap(c, a * b)
  }

  function Start(c: Setup): System {
    System(c.initial, seq(|c.mults|, _ => Loading), [], 0)
  }

  predicate Enabled(s: System, i: nat) {
    i < |s.threads| && !s.threads[i].Returned?
  }

  /** One atomic operation of thread i. A failed exchange leaves the current value in oldValue. */
  function Do(c: Setup, s: System, i: nat): System
    requires Enabled(s, i) && |c.mults| == |s.threads| && c.modulus > 0
  {
    match s.threads[i]
    case Comparing(expected, _) =>
      if s.shared == expected then
        System(Times(c, expected, c.mults[i]), s.threads[i := Returned(expected, |s.log|)], s.log + [i], s.failures)
      else
        s.(threads := s.threads[i := Comparing(s.shared, |s.log|)], failures := s.failures + 1)
    case _ => s.(threads := s.threads[i := Comparing(s.shared, |s.log|)])
  }

  // ---------- The chain of successful exchanges ----------

  /** The value after the exchanges of `log`, each on the result of the one before. */
  ghost function ValueAfter(c: Setup, log: seq<nat>): int
    requires c.modulus > 0 && forall k :: 0 <= k < |log| ==> log[k] < |c.mults|
  {
    if log == [] then c.initial
    else
      var n := |log| - 1;
      Times(c, ValueAfter(c, log[..n]), c.mults[log[n]])
  }

  ghost predicate WellFormed(c: Setup, s: System) {
    && Proper(c) && |c.mults| == |s.threads|
    && (forall k :: 0 <= k < |s.log| ==> s.log[k] < |s.threads|)
  }

  /** Exchanges chain up, and each thread returns the value that its own exchange replaced. */
  ghost predicate Chained(c: Setup, s: System) {
    && WellFormed(c, s) && s.shared == ValueAfter(c, s.log)
    && (forall k :: 0 <= k < |s.log| ==> s.threads[s.log[k]].Returned? && s.threads[s.log[k]].at == k)
    && (forall i :: 0 <= i < |s.threads| && s.threads[i].Returned? ==>
          s.threads[i].at < |s.log| && s.log[s.threads[i].at] == i
          && s.threads[i].oldValue == ValueAfter(c, s.log[..s.threads[i].at]))
    && (forall i :: 0 <= i < |s.threads| && s.threads[i].Comparing? ==>
          s.threads[i].seen <= |s.log| && s.threads[i].oldValue == ValueAfter(c, s.log[..s.threads[i].seen]))
  }

  lemma StepKeepsChain(c: Setup, s: System, i: nat)
    requires Chained(c, s) && Enabled(s, i)
    ensures Chained(c, Do(c, s, i))
  {
    assert s.log[..|s.log|] == s.log;
    if s.threads[i].Comparing? && s.shared == s.threads[i].oldValue {
      SuccessKeepsChain(c, s, i);
    }
  }

  lemma PrefixesStay(log: seq<nat>, i: nat)
    ensures forall k :: 0 <= k <= |log| ==> (log + [i])[..k] == log[..k]
    ensures log[..|log|] == log
  {
    forall k | 0 <= k <= |log| ensures (log + [i])[..k] == log[..k] {}
  }

  lemma SuccessKeepsChain(c: Setup, s: System, i: nat)
    requires Chained(c, s) && Enabled(s, i) && s.threads[i].Comparing? && s.shared == s.threads[i].oldValue
    ensures Chained(c, Do(c, s, i))
  {
    var t := Do(c, s, i);
    PrefixesStay(s.log, i);
    assert t.shared == ValueAfter(c, t.log) by {
      assert t.log[..|s.log|] == s.log;
    }
  }

  /** An exchange fails only if another thread's has succeeded since this thread last read. */
  lemma FailureHasACause(c: Setup, s: System, i: nat)
    requires Chained(c, s) && i < |s.threads| && s.threads[i].Comparing? && s.threads[i].oldValue != s.shared
    ensures var seen := s.threads[i].seen;
            seen < |s.log| && forall k :: seen <= k < |s.log| ==> s.log[k] != i
  {
    assert s.log[..|s.log|] == s.log;
  }

  // ---------- The final value ----------

  /** The product of the multipliers of the threads that have returned. */
  ghost function Applied(threads: seq<At>, mults: seq<int>): int
    requires |threads| == |mults|
  {
    if threads == [] then 1
    else
      var n := |threads| - 1;
      Applied(threads[..n], mults[..n]) * if threads[n].Returned? then mults[n] else 1
  }

  lemma {:induction false} AppliedOfUpdate(threads: seq<At>, mults: seq<int>, i: nat, a: At)
    requires |threads| == |mults| && i < |threads| && !threads[i].Returned?
    ensures Applied(threads[i := a], mults) == Applied(threads, mults) * if a.Returned? then mults[i] else 1
  {
    var n := |threads| - 1;
    if i == n {
      assert threads[i := a][..n] == threads[..n];
    } else {
      AppliedOfUpdate(threads[..n], mults[..n], i, a);
      assert threads[i := a][..n] == threads[..n][i := a];
      var p, x, y := Applied(threads[..n], mults[..n]), if a.Returned? then mults[i] else 1,
                     if threads[n].Returned? then mults[n] else 1;
      Exchanged(p, x, y);
    }
  }

  lemma Exchanged(p: int, x: int, y: int)
    ensures p * x * y == p * y * x
  {
    assert p * x * y == p * (x * y) && p * y * x == p * (y * x);
  }

  lemma {:induction false} NothingApplied(threads: seq<At>, mults: seq<int>)
    requires |threads| == |mults| && forall i :: 0 <= i < |threads| ==> !threads[i].Returned?
    ensures Applied(threads, mults) == 1
  {
    if threads == [] {
    } else {
      NothingApplied(threads[..|threads| - 1], mults[..|threads| - 1]);
    }
  }

  ghost function Product(xs: seq<int>): int {
    if xs == [] then 1 else Product(xs[..|xs| - 1]) * xs[|xs| - 1]
  }

  lemma {:induction false} AllApplied(threads: seq<At>, mults: seq<int>)
    requires |threads| == |mults| && forall i :: 0 <= i < |threads| ==> threads[i].Returned?
    ensures Applied(threads, mults) == Product(mults)
  {
    if threads == [] {
    } else {
      AllApplied(threads[..|threads| - 1], mults[..|threads| - 1]);
    }
  }

  lemma RemainderIsUnique(n: int, m: nat, q: int, r: int)
    requires m > 0 && n == m * q + r && 0 <= r < m
    ensures n % m == r
  {
    var d := q - n / m;
    assert m * d == n % m - r;
    assert d >= 1 ==> m * d >= m;
    assert d <= -1 ==> m * d <= 0 - m;
  }

  lemma WrapIsPeriodic(c: Setup, n: int, k: int)
    requires c.modulus > 0
    ensures Wrap(c, n + c.modulus * k) == Wrap(c, n)
  {
    var m, x := c.modulus, n - c.low;
    assert x + m * k == m * (x / m + k) + x % m;
    RemainderIsUnique(x + m * k, m, x / m + k, x % m);
  }

  lemma SameModulo(c: Setup, a: int, b: int, k: int)
    requires c.modulus > 0 && a == b + c.modulus * k
    ensures Wrap(c, a) == Wrap(c, b)
  {
    WrapIsPeriodic(c, b, k);
  }

  lemma WrapOfValue(c: Setup, n: int)
    requires c.modulus > 0 && IsValue(c, n)
    ensures Wrap(c, n) == n
  {
    RemainderIsUnique(n - c.low, c.modulus, 0, n - c.low);
  }

  lemma WrapShifts(c: Setup, x: int) returns (q: int)
    requires c.modulus > 0
    ensures Wrap(c, x) == x + c.modulus * q
  {
    q := -((x - c.low) / c.modulus);
  }

  lemma Distribute(x: int, m: int, q: int, y: int)
    ensures (x + m * q) * y == x * y + m * (q * y)
  {
    assert (x + m * q) * y == x * y + m * q * y;
    assert m * q * y == m * (q * y);
  }

  /** Wrapping early or late gives the same product. */
  lemma WrapEarlyOrLate(c: Setup, x: int, y: int)
    requires c.modulus > 0
    ensures Wrap(c, Wrap(c, x) * y) == Wrap(c, x * y)
  {
    var q := WrapShifts(c, x);
    Distribute(x, c.modulus, q, y);
    SameModulo(c, Wrap(c, x) * y, x * y, q * y);
  }

  // ---------- How often exchanges fail ----------

  ghost function HasReturned(a: At): int { if a.Returned? then 1 else 0 }

  ghost function HasLoaded(a: At): int { if a.Loading? then 0 else 1 }

  /** Threads whose value was read before the last of n exchanges. */
  ghost function Stale(n: nat): At -> int {
    (a: At) => if a.Comparing? && a.seen < n then 1 else 0
  }

  lemma {:induction false} StaleOrReturned(threads: seq<At>, n: nat)
    ensures Sum(threads, Stale(n)) + Sum(threads, HasReturned) <= |threads|
    ensures Sum(threads, Stale(n)) >= 0
  {
    if threads == [] {
    } else {
      StaleOrReturned(threads[..|threads| - 1], n);
    }
  }

  /** The k-th success spoils the reads of at most the n - k threads that have not returned. */
  ghost function Spoilt(n: int, k: nat): int {
    if k == 0 then 0 else Spoilt(n, k - 1) + n - k
  }

  lemma {:induction false} SpoiltSum(n: int, k: nat)
    ensures 2 * Spoilt(n, k) == n * (n - 1) - (n - k) * (n - k - 1)
  {
    if k == 0 {
    } else {
      SpoiltSum(n, k - 1);
      assert (n - k + 1) * (n - k) == (n - k) * (n - k - 1) + 2 * (n - k);
    }
  }

  ghost predicate Accounted(c: Setup, s: System) {
    var k := |s.log|;
    && |s.threads| == |c.mults| && c.modulus > 0
    && s.shared == Wrap(c, c.initial * Applied(s.threads, c.mults))
    && Sum(s.threads, HasReturned) == k
    && s.failures + Sum(s.threads, Stale(k)) <= Spoilt(|s.threads|, k)
  }

  lemma StepKeepsAccount(c: Setup, s: System, i: nat)
    requires Chained(c, s) && Accounted(c, s) && Enabled(s, i)
    ensures Accounted(c, Do(c, s, i))
  {
    var t, k := Do(c, s, i), |s.log|;
    SumOfUpdate(s.threads, i, t.threads[i], HasReturned);
    StepKeepsValue(c, s, i);
    if |t.log| == k {
      SumOfUpdate(s.threads, i, t.threads[i], Stale(k));
      if s.threads[i].Comparing? {
        FailureHasACause(c, s, i);
      }
    } else {
      StaleOrReturned(s.threads, k);
      StaleOrReturned(t.threads, k + 1);
    }
  }

  lemma StepKeepsValue(c: Setup, s: System, i: nat)
    requires WellFormed(c, s) && Enabled(s, i)
    requires s.shared == Wrap(c, c.initial * Applied(s.threads, c.mults))
    ensures Do(c, s, i).shared == Wrap(c, c.initial * Applied(Do(c, s, i).threads, c.mults))
  {
    var t := Do(c, s, i);
    AppliedOfUpdate(s.threads, c.mults, i, t.threads[i]);
    if t.threads[i].Returned? {
      WrappedProduct(c, c.initial, Applied(s.threads, c.mults), c.mults[i]);
    } else {
      assert Applied(t.threads, c.mults) == Applied(s.threads, c.mults);
    }
  }

  lemma WrappedProduct(c: Setup, a: int, b: int, x: int)
    requires c.modulus > 0
    ensures Wrap(c, Wrap(c, a * b) * x) == Wrap(c, a * (b * x))
  {
    WrapEarlyOrLate(c, a * b, x);
    assert a * b * x == a * (b * x);
  }

  // ---------- Whole runs ----------

  ghost predicate Runs(c: Setup, s: System, schedule: seq<nat>, t: System)
    requires |c.mults| == |s.threads| && c.modulus > 0
    decreases |schedule|
  {
    if schedule == [] then s == t
    else Enabled(s, schedule[0]) && Runs(c, Do(c, s, schedule[0]), schedule[1..], t)
  }

  ghost function Operations(s: System): int {
    Sum(s.threads, HasLoaded) + s.failures + |s.log|
  }

  lemma {:induction false} RunKeepsAll(c: Setup, s: System, schedule: seq<nat>, t: System)
    requires Chained(c, s) && Accounted(c, s) && Runs(c, s, schedule, t)
    ensures Chained(c, t) && Accounted(c, t)
    ensures |schedule| == Operations(t) - Operations(s)
    decreases |schedule|
  {
    if schedule == [] {
    } else {
      var i := schedule[0];
      var s' := Do(c, s, i);
      StepKeepsChain(c, s, i);
      StepKeepsAccount(c, s, i);
      SumOfUpdate(s.threads, i, s'.threads[i], HasLoaded);
      RunKeepsAll(c, s', schedule[1..], t);
    }
  }

  lemma {:induction false} AtMostAll(threads: seq<At>)
    ensures 0 <= Sum(threads, HasReturned) <= Sum(threads, HasLoaded) <= |threads|
  {
    if threads == [] {
    } else {
      AtMostAll(threads[..|threads| - 1]);
    }
  }

  /**
    Any number of threads, any interleaving: at most n(n-1)/2 exchanges fail, so a run has at
    most 2n + n(n-1)/2 atomic operations, and once all threads have returned the atomic holds
    the initial value times the product of all multipliers, wrapped if it does not fit.
  */
  lemma FetchMultMultiplies(c: Setup, schedule: seq<nat>, t: System)
    requires Proper(c) && Runs(c, Start(c), schedule, t)
    ensures Chained(c, t)
    ensures var n := |c.mults|; 2 * t.failures <= n * (n - 1) && 2 * |schedule| <= 4 * n + n * (n - 1)
    ensures (forall i :: !Enabled(t, i)) ==>
              var p := c.initial * Product(c.mults);
              t.shared == Wrap(c, p) && (IsValue(c, p) ==> t.shared == p)
  {
    var s, n := Start(c), |c.mults|;
    StartIsFine(c);
    RunKeepsAll(c, s, schedule, t);
    AtMostAll(t.threads);
    StaleOrReturned(t.threads, |t.log|);
    SpoiltBound(n, |t.log|);
    if forall i :: !Enabled(t, i) {
      forall i | 0 <= i < |t.threads| ensures t.threads[i].Returned? {
        assert !Enabled(t, i);
      }
      AllApplied(t.threads, c.mults);
      if IsValue(c, c.initial * Product(c.mults)) {
        WrapOfValue(c, c.initial * Product(c.mults));
      }
    }
  }

  lemma SpoiltBound(n: nat, k: nat)
    requires k <= n
    ensures 2 * Spoilt(n, k) <= n * (n - 1)
  {
    SpoiltSum(n, k);
    Triangle(n - k);
  }

  lemma Triangle(m: nat)
    ensures m * (m - 1) >= 0
  {
    if m == 0 {
      assert m * (m - 1) == 0;
    }
  }

  lemma StartIsFine(c: Setup)
    requires Proper(c)
    ensures Chained(c, Start(c)) && Accounted(c, Start(c)) && Operations(Start(c)) == 0
  {
    var s := Start(c);
    SumOfConstant(s.threads, HasReturned, 0);
    SumOfConstant(s.threads, HasLoaded, 0);
    SumOfConstant(s.threads, Stale(0), 0);
    NothingApplied(s.threads, c.mults);
    WrapOfValue(c, c.initial);
  }

  // ---------- When no product leaves the type ----------

  /** Some of the threads, in some order. */
  ghost predicate Selection(c: Setup, order: seq<nat>) {
    && (forall k :: 0 <= k < |order| ==> order[k] < |c.mults|)
    && (forall j, k :: 0 <= j < k < |order| ==> order[j] != order[k])
  }

  /** The initial value times their multipliers, not wrapped. */
  ghost function Exact(c: Setup, order: seq<nat>): int
    requires Selection(c, order)
  {
    if order == [] then c.initial
    else Exact(c, order[..|order| - 1]) * c.mults[order[|order| - 1]]
  }

  /** The initial value times the product of any multipliers, at least one, is a value of the type. */
  ghost predicate Fits(c: Setup) {
    forall order :: Selection(c, order) && order != [] ==> IsValue(c, Exact(c, order))
  }

  /** No thread is about to compute a product outside the type, for an exchange that succeeds or fails. */
  ghost predicate InRange(c: Setup, s: System)
    requires |c.mults| == |s.threads|
  {
    forall i :: 0 <= i < |s.threads| && s.threads[i].Comparing? ==>
      IsValue(c, s.threads[i].oldValue * c.mults[i])
  }

  lemma {:induction false} ExactIsReached(c: Setup, order: seq<nat>)
    requires Proper(c) && Selection(c, order)
    requires forall k :: 0 < k <= |order| ==> IsValue(c, Exact(c, order[..k]))
    ensures ValueAfter(c, order) == Exact(c, order)
  {
    if order == [] {
    } else {
      var n := |order| - 1;
      forall k | 0 < k <= n ensures IsValue(c, Exact(c, order[..n][..k])) {
        assert order[..n][..k] == order[..k];
      }
      ExactIsReached(c, order[..n]);
      assert order[..|order|] == order;
      WrapOfValue(c, Exact(c, order));
    }
  }

  lemma FitsPrefixes(c: Setup, order: seq<nat>)
    requires Proper(c) && Selection(c, order) && Fits(c)
    ensures forall k :: 0 < k <= |order| ==> IsValue(c, Exact(c, order[..k]))
  {
    forall k | 0 < k <= |order| ensures IsValue(c, Exact(c, order[..k])) {
      assert Selection(c, order[..k]) && order[..k] != [];
    }
  }

  /** A thread that compares has read the result of exchanges of others. */
  lemma ReadFromOthers(c: Setup, s: System, i: nat)
    requires Chained(c, s) && i < |s.threads| && s.threads[i].Comparing?
    ensures var before := s.log[..s.threads[i].seen];
            Selection(c, before) && Selection(c, before + [i]) && s.threads[i].oldValue == ValueAfter(c, before)
  {}

  lemma ExactSnoc(c: Setup, order: seq<nat>, i: nat)
    requires Selection(c, order) && Selection(c, order + [i])
    ensures i < |c.mults| && Exact(c, order + [i]) == Exact(c, order) * c.mults[i]
  {
    assert (order + [i])[|order|] == i && (order + [i])[..|order|] == order;
  }

  lemma FitsKeepsInRange(c: Setup, s: System, i: nat)
    requires Chained(c, s) && Fits(c) && i < |s.threads| && s.threads[i].Comparing?
    ensures IsValue(c, s.threads[i].oldValue * c.mults[i])
  {
    var before := s.log[..s.threads[i].seen];
    ReadFromOthers(c, s, i);
    FitsPrefixes(c, before);
    ExactIsReached(c, before);
    ExactSnoc(c, before, i);
    assert before + [i] != [];
  }

  lemma {:induction false} RunsSnoc(c: Setup, s: System, schedule: seq<nat>, t: System, i: nat)
    requires |c.mults| == |s.threads| && c.modulus > 0 && Runs(c, s, schedule, t) && Enabled(t, i)
    ensures |t.threads| == |s.threads| && Runs(c, s, schedule + [i], Do(c, t, i))
    decreases |schedule|
  {
    if schedule == [] {
      assert Runs(c, Do(c, t, i), [], Do(c, t, i));
      assert ([] + [i])[1..] == [];
    } else {
      RunsSnoc(c, Do(c, s, schedule[0]), schedule[1..], t, i);
      assert (schedule + [i])[1..] == schedule[1..] + [i];
    }
  }

  /** The threads of a selection can go first, one after the other. */
  lemma {:induction false} RunAlong(c: Setup, order: seq<nat>) returns (schedule: seq<nat>, t: System)
    requires Proper(c) && Selection(c, order)
    ensures Runs(c, Start(c), schedule, t) && t.log == order && |t.threads| == |c.mults|
    ensures forall i :: 0 <= i < |t.threads| && i !in order ==> t.threads[i].Loading?
  {
    if order == [] {
      schedule, t := [], Start(c);
    } else {
      var n := |order| - 1;
      schedule, t := RunAlong(c, order[..n]);
      var i := order[n];
      RunsSnoc(c, Start(c), schedule, t, i);
      var loaded := Do(c, t, i);
      RunsSnoc(c, Start(c), schedule + [i], loaded, i);
      schedule, t := schedule + [i] + [i], Do(c, loaded, i);
      assert order == order[..n] + [i];
    }
  }

  /** After the others of a selection its last thread can be about to compute the whole product. */
  lemma AboutToCompute(c: Setup, before: seq<nat>, i: nat) returns (schedule: seq<nat>, t: System)
    requires Proper(c) && Selection(c, before) && Selection(c, before + [i])
    requires ValueAfter(c, before) == Exact(c, before)
    ensures Runs(c, Start(c), schedule, t) && |t.threads| == |c.mults|
    ensures i < |t.threads| && t.threads[i].Comparing? && t.threads[i].oldValue == Exact(c, before)
  {
    schedule, t := RunAlong(c, before);
    StartIsFine(c);
    RunKeepsAll(c, Start(c), schedule, t);
    assert (before + [i])[|before|] == i;
    assert i !in before by {
      assert forall k :: 0 <= k < |before| ==> before[k] == (before + [i])[k] != i;
    }
    RunsSnoc(c, Start(c), schedule, t, i);
    schedule, t := schedule + [i], Do(c, t, i);
  }

  ghost predicate AlwaysInRange(c: Setup)
    requires c.modulus > 0
  {
    forall schedule, t :: Runs(c, Start(c), schedule, t) ==> |t.threads| == |c.mults| && InRange(c, t)
  }

  lemma {:induction false} AlwaysMeansFits(c: Setup, order: seq<nat>)
    requires Proper(c) && AlwaysInRange(c) && Selection(c, order) && order != []
    ensures IsValue(c, Exact(c, order))
    decreases |order|
  {
    var n := |order| - 1;
    var before, i := order[..n], order[n];
    forall k | 0 < k <= n ensures IsValue(c, Exact(c, before[..k])) {
      AlwaysMeansFits(c, before[..k]);
    }
    ExactIsReached(c, before);
    assert order == before + [i];
    var schedule, t := AboutToCompute(c, before, i);
    assert InRange(c, t);
    ExactSnoc(c, before, i);
  }

  lemma {:induction false} SameThreads(c: Setup, s: System, schedule: seq<nat>, t: System)
    requires |c.mults| == |s.threads| && c.modulus > 0 && Runs(c, s, schedule, t)
    ensures |t.threads| == |s.threads|
    decreases |schedule|
  {
    if schedule == [] {
    } else {
      SameThreads(c, Do(c, s, schedule[0]), schedule[1..], t);
    }
  }

  lemma FitsMeansInRange(c: Setup, schedule: seq<nat>, t: System)
    requires Proper(c) && Fits(c) && Runs(c, Start(c), schedule, t)
    ensures |t.threads| == |c.mults| && InRange(c, t)
  {
    SameThreads(c, Start(c), schedule, t);
    StartIsFine(c);
    RunKeepsAll(c, Start(c), schedule, t);
    forall i | 0 <= i < |t.threads| && t.threads[i].Comparing?
      ensures IsValue(c, t.threads[i].oldValue * c.mults[i])
    {
      FitsKeepsInRange(c, t, i);
    }
  }

  /**
    In no run is a product computed that is not a value of the type if and only if the initial
    value times the product of any non-empty set of the multipliers is one.
  */
  lemma InRangeIffFits(c: Setup)
    requires Proper(c)
    ensures AlwaysInRange(c) <==> Fits(c)
  {
    if Fits(c) {
      forall schedule, t | Runs(c, Start(c), schedule, t) ensures |t.threads| == |c.mults| && InRange(c, t) {
        FitsMeansInRange(c, schedule, t);
      }
    }
    if AlwaysInRange(c) {
      forall order | Selection(c, order) && order != [] ensures IsValue(c, Exact(c, order)) {
        AlwaysMeansFits(c, order);
      }
    }
  }

  ghost function Everyone(k: nat): seq<nat> {
    seq(k, (i: nat) => i)
  }

  lemma {:induction false} ExactOfAll(c: Setup, k: nat)
    requires k <= |c.mults|
    ensures Selection(c, Everyone(k)) && Exact(c, Everyone(k)) == c.initial * Product(c.mults[..k])
  {
    if k == 0 {
    } else {
      ExactOfAll(c, k - 1);
      assert Everyone(k)[..k - 1] == Everyone(k - 1) && c.mults[..k][..k - 1] == c.mults[..k - 1];
      var p, x := Product(c.mults[..k - 1]), c.mults[k - 1];
      assert c.initial * p * x == c.initial * (p * x);
    }
  }

  /** Then the result of every complete run is the product itself. */
  lemma FitsIsExact(c: Setup, schedule: seq<nat>, t: System)
    requires Proper(c) && Fits(c) && Runs(c, Start(c), schedule, t) && forall i :: !Enabled(t, i)
    ensures t.shared == c.initial * Product(c.mults)
  {
    FetchMultMultiplies(c, schedule, t);
    ExactOfAll(c, |c.mults|);
    assert c.mults[..|c.mults|] == c.mults;
    assert c.mults != [] ==> IsValue(c, Exact(c, Everyone(|c.mults|)));
  }

  // ---------- Contention: the bound on failures is reached ----------

  /** No thread ever waits: whoever has not returned may take its next step, whatever the others do. */
  lemma NobodyWaits(s: System, i: nat)
    requires i < |s.threads|
    ensures Enabled(s, i) <==> !s.threads[i].Returned?
  {}

  /** An exchange fails if the value is not the one read, and then nothing but that thread's reading changes. */
  lemma FailsIfChanged(c: Setup, s: System, i: nat)
    requires Enabled(s, i) && |c.mults| == |s.threads| && c.modulus > 0
    requires s.threads[i].Comparing? && s.threads[i].oldValue != s.shared
    ensures Do(c, s, i) == System(s.shared, s.threads[i := Comparing(s.shared, |s.log|)], s.log, s.failures + 1)
  {}

  function Pow2(k: nat): nat {
    if k == 0 then 1 else 2 * Pow2(k - 1)
  }

  lemma {:induction false} Pow2Grows(j: nat, k: nat)
    requires j < k
    ensures Pow2(j) < Pow2(k)
  {
    if j == k - 1 {
      Pow2Positive(j);
    } else {
      Pow2Grows(j, k - 1);
      Pow2Positive(k - 1);
    }
  }

  lemma {:induction false} Pow2Positive(k: nat)
    ensures Pow2(k) >= 1
  {
    if k == 0 {
    } else {
      Pow2Positive(k - 1);
    }
  }

  /** n threads that double the value, in a type with 2^n + 2 values. */
  function Doubling(n: nat): Setup {
    Setup(0, Pow2(n) + 2, 1, seq(n, _ => 2))
  }

  lemma DoublingIsProper(n: nat)
    ensures Proper(Doubling(n))
  {
    Pow2Positive(n);
  }

  function Standing(k: nat, m: nat, i: nat): At {
    if i < k then Returned(Pow2(i), i)
    else if i < m then Comparing(Pow2(k), k)
    else if k == 0 then Loading
    else Comparing(Pow2(k - 1), k - 1)
  }

  /** The first k threads have returned, in order, and those below m have read since; f exchanges have failed. */
  ghost function Contended(n: nat, k: nat, m: nat, f: nat): System
    requires k <= m <= n
  {
    System(Pow2(k), seq(n, (i: nat) => Standing(k, m, i)), seq(k, (i: nat) => i), f)
  }

  lemma ReadsAgain(n: nat, k: nat, m: nat, f: nat)
    requires k <= m < n
    ensures var s := Contended(n, k, m, f);
            && Enabled(s, m)
            && Do(Doubling(n), s, m) == Contended(n, k, m + 1, if k == 0 then f else f + 1)
  {
    var s, c := Contended(n, k, m, f), Doubling(n);
    assert s.threads[m] == Standing(k, m, m);
    if k > 0 {
      Pow2Grows(k - 1, k);
    }
    assert s.threads[m := Comparing(Pow2(k), k)] == seq(n, (i: nat) => Standing(k, m + 1, i));
  }

  lemma Succeeds(n: nat, k: nat, f: nat)
    requires k < n
    ensures var s := Contended(n, k, n, f);
            Enabled(s, k) && Do(Doubling(n), s, k) == Contended(n, k + 1, k + 1, f)
  {
    var s, c := Contended(n, k, n, f), Doubling(n);
    assert s.threads[k] == Comparing(Pow2(k), k);
    DoublesExactly(n, k);
    assert s.threads[k := Returned(Pow2(k), k)] == seq(n, (i: nat) => Standing(k + 1, k + 1, i));
    assert s.log + [k] == seq(k + 1, (i: nat) => i);
  }

  lemma DoublesExactly(n: nat, k: nat)
    requires k < n
    ensures Times(Doubling(n), Pow2(k), 2) == Pow2(k + 1)
  {
    if k + 1 < n {
      Pow2Grows(k + 1, n);
    }
    WrapOfValue(Doubling(n), Pow2(k + 1));
  }

  lemma {:induction false} AllReadAgain(n: nat, k: nat, m: nat, f: nat, schedule: seq<nat>)
    returns (longer: seq<nat>, g: nat)
    requires k <= m <= n && Runs(Doubling(n), Start(Doubling(n)), schedule, Contended(n, k, m, f))
    ensures g == if k == 0 then f else f + (n - m)
    ensures Runs(Doubling(n), Start(Doubling(n)), longer, Contended(n, k, n, g))
    decreases n - m
  {
    if m == n {
      longer, g := schedule, f;
    } else {
      var c, s := Doubling(n), Contended(n, k, m, f);
      ReadsAgain(n, k, m, f);
      RunsSnoc(c, Start(c), schedule, s, m);
      longer, g := AllReadAgain(n, k, m + 1, if k == 0 then f else f + 1, schedule + [m]);
    }
  }

  lemma {:induction false} Rounds(n: nat, k: nat) returns (schedule: seq<nat>, f: nat)
    requires k <= n
    ensures f == if k == 0 then 0 else Spoilt(n, k - 1)
    ensures Runs(Doubling(n), Start(Doubling(n)), schedule, Contended(n, k, k, f))
  {
    var c := Doubling(n);
    if k == 0 {
      schedule, f := [], 0;
      assert Start(c).threads == Contended(n, 0, 0, 0).threads;
    } else {
      schedule, f := Rounds(n, k - 1);
      schedule, f := AllReadAgain(n, k - 1, k - 1, f, schedule);
      Succeeds(n, k - 1, f);
      RunsSnoc(c, Start(c), schedule, Contended(n, k - 1, n, f), k - 1);
      schedule := schedule + [k - 1];
    }
  }

  /**
    The bound of FetchMultMultiplies is reached, for every number of threads: all read, the first
    succeeds, all others fail and read again, the next succeeds, and so on.
  */
  lemma BoundIsReached(n: nat) returns (schedule: seq<nat>, t: System)
    ensures Proper(Doubling(n)) && |Doubling(n).mults| == n
    ensures Runs(Doubling(n), Start(Doubling(n)), schedule, t)
    ensures forall i :: 0 <= i < n ==> i < |t.threads| && t.threads[i].Returned?
    ensures t.shared == Pow2(n) && 2 * t.failures == n * (n - 1)
  {
    DoublingIsProper(n);
    var f;
    schedule, f := Rounds(n, n);
    t := Contended(n, n, n, f);
    SpoiltSum(n, n);
  }
}
