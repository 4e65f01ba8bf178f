/**
  `coroutines/generate_primes`: trial division on 64-bit numbers, and a coroutine that yields
  one prime per call.
*/
module Primes {

  predicate Divides(d: int, n: int)
    requires d >= 1
  {
    n % d == 0
  }

  ghost predicate Prime(n: int) {
    n >= 2 && forall d :: 2 <= d < n ==> !Divides(d, n)
  }

  // ---------- There is always a larger prime ----------

  lemma DividesTransitively(n: int, p: int, e: int)
    requires p >= 1 && e >= 1 && Divides(p, n) && Divides(e, p)
    ensures Divides(e, n)
  {
    var a, b := n / p, p / e;
    assert n == e * (b * a);
    IsMultiple(n, e, b * a);
  }

  lemma IsMultiple(n: int, e: int, k: int)
    requires e >= 1 && n == e * k
    ensures Divides(e, n)
  {
    var q, r := n / e, n % e;
    assert n == e * q + r;
    Scaled(e, k, q + 1);
    Scaled(e, q, k);
    Scaled(e, q + 1, k);
    assert e * (q + 1) == e * q + e;
    assert q <= k < q + 1;
  }

  lemma Scaled(e: int, a: int, b: int)
    requires e >= 1
    ensures a <= b <==> e * a <= e * b
  {}

  lemma LeastDivisor(n: int) returns (p: int)
    requires n >= 2
    ensures Prime(p) && p <= n && Divides(p, n)
    ensures forall d :: 2 <= d < p ==> !Divides(d, n)
  {
    p := 2;
    while !Divides(p, n)
      invariant 2 <= p <= n
      invariant forall d :: 2 <= d < p ==> !Divides(d, n)
      decreases n - p
    {
      p := p + 1;
    }
    forall d | 2 <= d < p ensures !Divides(d, p) {
      if Divides(d, p) {
        DividesTransitively(n, p, d);
      }
    }
  }

  ghost function Factorial(n: nat): (f: int)
    ensures f >= 1
  {
    if n == 0 then 1 else Factorial(n - 1) * n
  }

  lemma {:induction false} DividesFactorial(n: nat, d: int)
    requires 1 <= d <= n
    ensures Divides(d, Factorial(n))
  {
    if d == n {
      IsMultiple(Factorial(n), d, Factorial(n - 1));
    } else {
      DividesFactorial(n - 1, d);
      var k := Factorial(n - 1) / d;
      assert Factorial(n) == d * k * n == d * (k * n);
      IsMultiple(Factorial(n), d, k * n);
    }
  }

  /** Euclid. */
  lemma LargerPrime(n: nat) returns (p: int)
    ensures Prime(p) && p > n
  {
    var f := Factorial(n);
    p := LeastDivisor(f + 1);
    if p <= n {
      DividesFactorial(n, p);
      assert p * ((f + 1) / p) == p * (f / p) + 1;
      IsMultiple(1, p, (f + 1) / p - f / p);
      assert false;
    }
  }

  predicate Between(n: int, q: int, p: int) {
    n < q < p
  }

  ghost predicate NextAfter(n: int, p: int) {
    Prime(p) && p > n && forall q {:trigger Between(n, q, p)} :: Between(n, q, p) ==> !Prime(q)
  }

  lemma NextExists(n: nat) returns (p: int)
    ensures NextAfter(n, p)
  {
    var bound := LargerPrime(n);
    p := n + 1;
    while !Prime(p)
      invariant n < p <= bound && forall q :: n < q < p ==> !Prime(q)
      decreases bound - p
    {
      p := p + 1;
    }
  }

  ghost function NextPrime(n: nat): (p: nat)
    ensures p > n
  {
    assert exists p :: NextAfter(n, p) by {
      var p := NextExists(n);
    }
    var p :| NextAfter(n, p);
    p
  }

  ghost function NthPrime(k: nat): nat {
    if k == 0 then 2 else NextPrime(NthPrime(k - 1))
  }

  lemma NextIsNext(n: nat)
    ensures NextAfter(n, NextPrime(n))
  {}

  lemma NthIsPrime(k: nat)
    ensures Prime(NthPrime(k))
  {
    if k > 0 {
      NextIsNext(NthPrime(k - 1));
    }
  }

  lemma {:induction false} NthPrimeIncreases(j: nat, k: nat)
    requires j < k
    ensures NthPrime(j) < NthPrime(k)
  {
    if j < k - 1 {
      NthPrimeIncreases(j, k - 1);
    }
  }

  /** No prime is left out. */
  lemma {:induction false} EveryPrimeIsReached(p: int, k: nat) returns (i: nat)
    requires Prime(p) && p <= NthPrime(k)
    ensures i <= k && NthPrime(i) == p
  {
    if p == NthPrime(k) || k == 0 {
      i := k;
    } else {
      NextIsNext(NthPrime(k - 1));
      assert !Between(NthPrime(k - 1), p, NthPrime(k));
      i := EveryPrimeIsReached(p, k - 1);
    }
  }

  // ---------- isPrime ----------

  const WORD: int := 0x1_0000_0000_0000_0000

  // (2^32 - 1)^2: for smaller numbers the product in the loop never wraps.
  const BIG: int := 0xFFFF_FFFF * 0xFFFF_FFFF

  // The square of this number is WORD - 7 once wrapped, so the loop goes no further.
  const ROOT: int := 1852311383259529397

  lemma WrappedSquare(d: int)
    requires d >= 0
    ensures d * d % WORD <= d * d
    ensures d < 0x1_0000_0000 ==> d * d % WORD == d * d
  {
    Remainder(d * d);
    if 0 < d < 0x1_0000_0000 {
      Scaled(d, d, 0xFFFF_FFFF);
    }
  }

  lemma Remainder(n: int)
    requires n >= 0
    ensures n % WORD <= n && (n < WORD ==> n % WORD == n)
  {}

  /** An odd number without odd divisors up to its root is prime. */
  lemma NoDivisorUpToRoot(num: int, d: int)
    requires num >= 3 && num % 2 == 1 && d >= 3 && d * d > num
    requires forall e :: 3 <= e < d && e % 2 == 1 ==> !Divides(e, num)
    ensures Prime(num)
  {
    var p := LeastDivisor(num);
    if p != num {
      var q := num / p;
      assert num == p * q;
      if q < p {
        QuotientDivides(num, p, q);
      }
      assert p % 2 == 1 by {
        if p % 2 == 0 {
          IsMultiple(num, 2, p / 2 * q);
          assert false;
        }
      }
      assert p >= d;
      Products(p, q, d);
    }
  }

  lemma Products(p: int, q: int, d: int)
    requires q >= p >= d >= 0
    ensures p * q >= d * d
  {
    assert p * q >= p * d;
  }

  lemma QuotientDivides(num: int, p: int, q: int)
    requires 2 <= p < num && num == p * q
    ensures 2 <= q && Divides(q, num)
  {
    Scaled(p, q, 1);
    IsMultiple(num, q, p);
  }

  /** At ROOT only a number from WORD - 7 on goes further, and each odd one has a factor of at most 13. */
  lemma StopsAtRoot(num: int)
    requires ROOT * ROOT % WORD <= num < WORD && num % 2 == 1
    ensures Divides(3, num) || Divides(11, num) || Divides(13, num)
  {
    assert ROOT * ROOT == 185997997632698875 * WORD + (WORD - 7);
    assert num in {WORD - 7, WORD - 5, WORD - 3, WORD - 1};
  }

  function Wrapped(n: int): int
    requires 0 <= n < 2 * WORD
  {
    if n < WORD then n else n - WORD
  }

  function PlusTwo(n: int): int
    requires 0 <= n < WORD
  {
    Wrapped(n + 2)
  }

  // The state of the loop: no odd divisor below d, and d short of ROOT.
  ghost predicate Searching(num: int, d: int) {
    && num % 2 == 1 && 3 <= d <= ROOT && d % 2 == 1
    && (d < 0x1_0000_0000 || num >= BIG)
    && forall e :: 3 <= e < d && e % 2 == 1 ==> !Divides(e, num)
  }

  lemma SearchGoesOn(num: int, d: int)
    requires 0 <= num < WORD && Searching(num, d) && d * d % WORD <= num && !Divides(d, num)
    ensures Searching(num, d + 2)
  {
    assert d < ROOT by {
      if d == ROOT {
        StopsAtRoot(num);
        assert false;
      }
    }
    assert d + 2 < 0x1_0000_0000 || num >= BIG by {
      if d == 0xFFFF_FFFF {
        Remainder(BIG);
      }
    }
  }

  lemma EvenIsNotPrime(num: int)
    requires num < 1 || (num != 2 && num % 2 == 0)
    ensures !Prime(num) && num != 1
  {
    assert Divides(2, num) || num < 2;
  }

  /** A divisor is found before any square wraps: the first one found is the least. */
  lemma DivisorFound(num: int, d: int)
    requires 0 <= num < WORD && Searching(num, d) && d * d % WORD <= num && Divides(d, num)
    ensures !Prime(num) && d < 0x1_0000_0000
  {
    if d < 0x1_0000_0000 {
      WrappedSquare(d);
      Scaled(d, 3, d);
    }
    assert 2 <= d < num;
    LeastIsSmall(num, d);
  }

  lemma LeastIsSmall(num: int, d: int)
    requires 0 <= num < WORD && Searching(num, d) && d < num && Divides(d, num)
    ensures d < 0x1_0000_0000
  {
    var p := LeastDivisor(num);
    assert !Divides(2, num);
    assert p % 2 == 1 by {
      if p % 2 == 0 {
        IsMultiple(num, 2, p / 2 * (num / p));
        assert false;
      }
    }
    assert p == d;
    var q := num / d;
    QuotientDivides(num, d, q);
    Products(d, q, d);
    WrapsFrom(d);
  }

  lemma WrapsFrom(d: int)
    requires d >= 0
    ensures d * d >= WORD <==> d >= 0x1_0000_0000
  {
    if d >= 0x1_0000_0000 {
      Products(d, d, 0x1_0000_0000);
    } else if d > 0 {
      Scaled(d, d, 0xFFFF_FFFF);
    }
  }

  lemma SearchEnds(num: int, d: int)
    requires 3 <= num < WORD && Searching(num, d) && d * d % WORD > num
    ensures Prime(num)
    ensures num > BIG <==> d >= 0x1_0000_0000
  {
    WrappedSquare(d);
    NoDivisorUpToRoot(num, d);
    assert num != BIG by {
      assert Divides(3, BIG);
    }
    if d < 0x1_0000_0000 {
      Products(0xFFFF_FFFF, 0xFFFF_FFFF, d);
    }
  }

  /** Below BIG the search never gets to a `d` whose square wraps. */
  lemma ProductFits(num: int, d: int)
    requires num < BIG && Searching(num, d)
    ensures d * d % WORD == d * d
  {
    WrappedSquare(d);
  }

  /**
    isPrime: for every 64-bit number but 1 the answer is right, although `d * d` may wrap.
    `wrapped` says whether the loop has computed a square that does: it has exactly when the
    number is a prime above BIG.
  */
  method IsPrime(num: int) returns (yes: bool, ghost wrapped: bool)
    requires 0 <= num < WORD
    ensures yes <==> Prime(num) || num == 1
    ensures wrapped <==> num > BIG && Prime(num)
  {
    wrapped := false;
    if num != 2 && (num < 1 || num % 2 == 0) {
      EvenIsNotPrime(num);
      return false, wrapped;
    }
    var d := 3;
    while d * d % WORD <= num
      invariant if num == 2 then d == 3 else Searching(num, d)
      invariant wrapped <==> d >= 0x1_0000_0000
      invariant num < BIG ==> d * d % WORD == d * d
      decreases ROOT - d
    {
      if Divides(d, num) {
        DivisorFound(num, d);
        return false, wrapped;
      }
      SearchGoesOn(num, d);
      d := PlusTwo(d);
      wrapped := wrapped || d * d >= WORD;
      WrapsFrom(d);
      if num < BIG {
        ProductFits(num, d);
      }
    }
    if num >= 3 {
      SearchEnds(num, d);
    }
    return true, wrapped;
  }

  // ---------- What the coroutine yields ----------

  lemma PrimeIsOdd(p: int)
    requires Prime(p) && p > 2
    ensures p % 2 == 1
  {
    assert !Divides(2, p);
  }

  // Where `num` goes on after v has been yielded, and where it stops, before any wrap: at the
  // next prime, or at the number that wraps to 1.
  function First(v: int): int {
    if v <= 2 then 3 else v + 2
  }

  ghost function Goal(v: int): int {
    var p := NextPrime(if v <= 2 then 2 else v);
    if p < WORD then p else WORD + 1
  }

  predicate Yieldable(v: int) {
    1 <= v < WORD && (v == 2 || v % 2 == 1)
  }

  lemma GoalIsAhead(v: int)
    requires Yieldable(v)
    ensures First(v) <= Goal(v) <= WORD + 1 && Goal(v) % 2 == 1
  {
    var w := if v <= 2 then 2 else v;
    NextIsNext(w);
    PrimeIsOdd(NextPrime(w));
  }

  // `num` stands for the number `at`, and no number the loop would stop at has been passed.
  ghost predicate Underway(v: int, at: int, num: int) {
    Yieldable(v) && First(v) <= at <= Goal(v) <= WORD + 1 && at % 2 == Goal(v) % 2 == 1 && num == Wrapped(at)
  }

  lemma StopsAtGoal(v: int, at: int, num: int)
    requires Underway(v, at, num)
    ensures 0 <= num < WORD && (Prime(num) || num == 1 <==> at == Goal(v))
    ensures at == Goal(v) || Underway(v, at + 2, PlusTwo(num))
  {
    var w := if v <= 2 then 2 else v;
    NextIsNext(w);
    assert Between(w, at, NextPrime(w)) || at >= Goal(v);
  }

  ghost function Following(v: int): (w: int)
    requires Yieldable(v)
    ensures Yieldable(w)
  {
    GoalIsAhead(v);
    Wrapped(Goal(v))
  }

  ghost function Yielded(k: nat): (v: int)
    ensures Yieldable(v)
  {
    if k == 0 then 2 else Following(Yielded(k - 1))
  }

  /** The k-th number is the k-th prime, exactly as long as that prime fits in 64 bits. */
  lemma {:induction false} YieldsThePrimes(k: nat)
    ensures Yielded(k) == NthPrime(k) <==> NthPrime(k) < WORD
  {
    if k > 0 && NthPrime(k) < WORD {
      NthPrimeIncreases(k - 1, k);
      YieldsThePrimes(k - 1);
    }
  }

  lemma {:induction false} NthPrimeIsLarge(k: nat)
    ensures NthPrime(k) >= k + 2
  {
    if k == 0 {
    } else {
      NthPrimeIsLarge(k - 1);
      NthPrimeIncreases(k - 1, k);
    }
  }

  /** n primes fit in 64 bits. */
  ghost predicate Fit(n: nat) {
    n >= 1 && NthPrime(n - 1) < WORD <= NthPrime(n)
  }

  lemma {:induction false} FirstTooLarge(k: nat) returns (n: nat)
    requires NthPrime(k) >= WORD
    ensures Fit(n)
  {
    assert k > 0;
    if NthPrime(k - 1) < WORD {
      n := k;
    } else {
      n := FirstTooLarge(k - 1);
    }
  }

  lemma SomeFit() returns (n: nat)
    ensures Fit(n)
  {
    NthPrimeIsLarge(WORD);
    n := FirstTooLarge(WORD);
  }

  lemma YieldsOne(n: nat)
    requires Fit(n) && Yielded(n - 1) == NthPrime(n - 1)
    ensures Yielded(n) == 1
  {
    assert Goal(NthPrime(n - 1)) == WORD + 1;
  }

  lemma FollowsAlike(j: nat, k: nat)
    requires j >= 1 && k >= 1
    requires Yielded(j - 1) == Yielded(k - 1) || (Yielded(j - 1) <= 2 && Yielded(k - 1) <= 2)
    ensures Yielded(j) == Yielded(k)
  {}

  lemma {:induction false} Repeats(n: nat, k: nat)
    requires k >= 1 && Yielded(n) == 1
    ensures Yielded(n + k) == Yielded(k)
  {
    if k > 1 {
      Repeats(n, k - 1);
    }
    FollowsAlike(n + k, k);
  }

  lemma YieldsAt(n: nat, k: nat)
    requires Fit(n)
    ensures k < n ==> Yielded(k) == NthPrime(k)
    ensures Yielded(n) == 1
    ensures k >= 1 ==> Yielded(n + k) == Yielded(k)
  {
    YieldsThePrimes(n - 1);
    YieldsOne(n);
    if k < n - 1 {
      NthPrimeIncreases(k, n - 1);
      YieldsThePrimes(k);
    }
    if k >= 1 {
      Repeats(n, k);
    }
  }

  /**
    All primes below 2^64 in order, each once; then 1, and from there the same again without 2.
  */
  lemma YieldsForEver() returns (n: nat)
    ensures Fit(n) && Yielded(n) == 1
    ensures forall k: nat :: k < n ==> Yielded(k) == NthPrime(k)
    ensures forall k: nat :: k >= 1 ==> Yielded(n + k) == Yielded(k)
  {
    n := SomeFit();
    YieldsAt(n, 0);
    forall k: nat
      ensures k < n ==> Yielded(k) == NthPrime(k)
      ensures k >= 1 ==> Yielded(n + k) == Yielded(k)
    {
      YieldsAt(n, k);
    }
  }

  datatype Place = Start | AfterTwo | AfterPrime

  /** The coroutine of allPrimeNumbers together with its promise. */
  class CoGenerator {
    var place: Place
    var num: int
    var last: int
    ghost var calls: nat

    ghost predicate Valid()
      reads this
    {
      && (place == Start ==> calls == 0)
      && (place == AfterTwo ==> calls == 1 && last == 2)
      && (place == AfterPrime ==> calls >= 2 && num == last == Yielded(calls - 1))
    }

    constructor ()
      ensures Valid() && calls == 0
    {
      place, num, last, calls := Start, 0, 0, 0;
    }

    /** getNextPrime, on a generator that is never done. */
    method GetNextPrime() returns (prime: int)
      requires Valid()
      modifies this
      ensures Valid() && calls == old(calls) + 1
      ensures prime == Yielded(old(calls))
    {
      if place == Start {
        last, place := 2, AfterTwo;
      } else if place == AfterTwo {
        num := 3;
        Search();
      } else {
        num := PlusTwo(num);
        Search();
      }
      calls := calls + 1;
      prime := last;
    }

    // The loop of the body, up to the next co_yield.
    method Search()
      requires Yieldable(last) && First(last) <= WORD + 1 && num == Wrapped(First(last))
      modifies this`num, this`last, this`place
      ensures num == last == Following(old(last)) && place == AfterPrime
    {
      ghost var v, at := last, First(last);
      GoalIsAhead(v);
      var found := Stops(v, at, num);
      while !found
        invariant Underway(v, at, num)
        invariant if found then at == Goal(v) else at < Goal(v) && Underway(v, at + 2, PlusTwo(num))
        decreases Goal(v) - at
      {
        at, num := at + 2, PlusTwo(num);
        found := Stops(v, at, num);
      }
      last, place := num, AfterPrime;
    }
  }

  // The condition of the loop.
  method Stops(ghost v: int, ghost at: int, num: int) returns (yes: bool)
    requires Underway(v, at, num)
    ensures if yes then at == Goal(v) else at < Goal(v) && Underway(v, at + 2, PlusTwo(num))
  {
    StopsAtGoal(v, at, num);
    var prime, _ := IsPrime(num);
    yes := prime;
  }
}
