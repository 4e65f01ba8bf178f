/**
  `coroutines/generator_2`: a generator that takes turns with two others, drained by hand or
  by an iterator.
*/
module Interleaver {

  function Min(a: int, b: int): int {
    if a <= b then a else b
  }

  function Head(s: seq<int>): seq<int> {
    if s == [] then [] else [s[0]]
  }

  function Tail(s: seq<int>): seq<int> {
    if s == [] then [] else s[1..]
  }

  /** Round after round one element of each, as far as there are any. */
  function Merge(a: seq<int>, b: seq<int>): seq<int>
    decreases |a| + |b|
  {
    if a == [] && b == [] then [] else Head(a) + Head(b) + Merge(Tail(a), Tail(b))
  }

  lemma MergeFromFirst(a: seq<int>, b: seq<int>)
    requires a != []
    ensures Merge(a, b) == [a[0]] + (Head(b) + Merge(Tail(a), Tail(b)))
  {}

  lemma Skip(s: seq<int>, t: seq<int>, k: nat)
    requires k < |t|
    ensures (s + t)[|s| + k] == t[k]
  {}

  lemma {:induction false} MergeLength(a: seq<int>, b: seq<int>)
    ensures |Merge(a, b)| == |a| + |b|
    decreases |a| + |b|
  {
    if a != [] || b != [] {
      MergeLength(Tail(a), Tail(b));
    }
  }

  /** Where the elements of the first sequence end up, for all lengths. */
  lemma {:induction false} FirstAt(a: seq<int>, b: seq<int>, i: nat)
    requires i < |a|
    ensures i + Min(i, |b|) < |Merge(a, b)| && Merge(a, b)[i + Min(i, |b|)] == a[i]
    decreases |a| + |b|
  {
    if i == 0 {
    } else {
      FirstAt(Tail(a), Tail(b), i - 1);
      Skip(Head(a) + Head(b), Merge(Tail(a), Tail(b)), i - 1 + Min(i - 1, |Tail(b)|));
    }
  }

  /** Where the elements of the second sequence end up. */
  lemma {:induction false} SecondAt(a: seq<int>, b: seq<int>, j: nat)
    requires j < |b|
    ensures j + Min(j + 1, |a|) < |Merge(a, b)| && Merge(a, b)[j + Min(j + 1, |a|)] == b[j]
    decreases |a| + |b|
  {
    assert Merge(a, b) == Head(a) + Head(b) + Merge(Tail(a), Tail(b));
    if j == 0 {
      assert (Head(a) + Head(b))[Min(1, |a|)] == b[0];
    } else {
      SecondAt(Tail(a), Tail(b), j - 1);
      Skip(Head(a) + Head(b), Merge(Tail(a), Tail(b)), j - 1 + Min(j, |Tail(a)|));
    }
  }

  // ---------- The generators ----------

  /** A generator over a vector: the lambda in `interleaved`. */
  class Elements {
    const items: seq<int>
    var next: nat   // the element at which the body is suspended
    var val: int
    var done: bool

    ghost predicate Valid()
      reads this
    {
      next <= |items| && (done <==> next == |items|) && (!done ==> val == items[next])
    }

    ghost function Rest(): seq<int>
      requires Valid()
      reads this
    {
      items[next..]
    }

    constructor (items: seq<int>)
      ensures Valid() && Rest() == items
    {
      this.items, next, val, done := items, 0, 0, false;
      new;
      YieldOrReturn();
    }

    // The head of the for loop.
    method YieldOrReturn()
      requires next <= |items| && !done
      modifies this`val, this`done
      ensures Valid()
    {
      if next < |items| {
        val := items[next];
      } else {
        done := true;
      }
    }

    /** resume(), which does nothing when finished. */
    method Resume()
      requires Valid()
      modifies this
      ensures Valid() && Rest() == Tail(old(Rest()))
    {
      if !done {
        next := next + 1;
        YieldOrReturn();
      }
    }
  }

  datatype Place = InFirst | InSecond | Ended

  /** The generator made by `interleaved`. */
  class Interleaved {
    const x: Elements
    const y: Elements
    var place: Place   // the co_yield at which the body is suspended
    var val: int

    ghost predicate Owns()
      reads this, x, y
    {
      x != y && x.Valid() && y.Valid()
    }

    ghost predicate Valid()
      reads this, x, y
    {
      && Owns()
      && match place
         case InFirst => !x.done && val == x.val
         case InSecond => !y.done && val == y.val
         case Ended => x.done && y.done
    }

    predicate Done()
      reads this
    {
      place == Ended
    }

    /** All that is still to be seen: the current value and those to come. */
    ghost function Rest(): (r: seq<int>)
      requires Valid()
      reads this, x, y
      ensures r == [] <==> Done()
    {
      if place == InSecond then Head(y.Rest()) + Merge(x.Rest(), Tail(y.Rest()))
      else Merge(x.Rest(), y.Rest())
    }

    constructor (a: seq<int>, b: seq<int>)
      ensures Valid() && fresh(x) && fresh(y) && Rest() == Merge(a, b)
    {
      x := new Elements(a);
      y := new Elements(b);
      place, val := Ended, 0;
      new;
      Loop();
    }

    // From the condition of the while loop to the next suspension.
    method Loop()
      requires Owns()
      modifies this
      ensures Valid() && Rest() == Merge(x.Rest(), y.Rest())
      decreases if y.done then 0 else 2
    {
      if x.done && y.done {
        place := Ended;
      } else if !x.done {
        place, val := InFirst, x.val;
      } else {
        Second();
      }
    }

    // From the second `if` to the next suspension.
    method Second()
      requires Owns()
      modifies this
      ensures Valid() && Rest() == Head(y.Rest()) + Merge(x.Rest(), Tail(y.Rest()))
      decreases 1
    {
      if !y.done {
        place, val := InSecond, y.val;
      } else {
        Loop();
      }
    }

    /** The handle's resume(), only for a coroutine that is not done. */
    method ResumeHandle()
      requires Valid() && !Done()
      modifies this, x, y
      ensures Valid() && old(Rest()) == [old(val)] + Rest()
    {
      if place == InFirst {
        MergeFromFirst(x.Rest(), y.Rest());
        x.Resume();
        Second();
      } else {
        y.Resume();
        Loop();
      }
    }

    /** Generator::resume() */
    method Resume()
      requires Valid()
      modifies this, x, y
      ensures Valid() && old(Rest()) == (if old(Done()) then [] else [old(val)]) + Rest()
    {
      if !Done() {
        ResumeHandle();
      }
    }
  }

  lemma OneMore(seen: seq<int>, v: int, rest: seq<int>)
    ensures seen + ([v] + rest) == seen + [v] + rest
  {}

  /** The loop over finished(), value() and resume(). */
  method Drain(g: Interleaved) returns (seen: seq<int>)
    requires g.Valid()
    modifies g, g.x, g.y
    ensures g.Valid() && g.Done() && seen == old(g.Rest())
  {
    seen := [];
    while !g.Done()
      invariant g.Valid() && seen + g.Rest() == old(g.Rest())
      decreases |g.Rest()|
    {
      ghost var before, value := seen, g.val;
      seen := seen + [g.val];
      g.Resume();
      OneMore(before, value, g.Rest());
    }
  }

  /** Generator::iterator, which holds the handle and no more. */
  datatype Cursor = Cursor(handle: Interleaved) {
    predicate AtEnd()
      reads handle
    {
      handle.Done()
    }

    function Value(): int
      reads handle
    {
      handle.val
    }

    /** operator++ resumes without asking whether the coroutine is done. */
    method Advance()
      requires handle.Valid() && !AtEnd()
      modifies handle, handle.x, handle.y
      ensures handle.Valid() && old(handle.Rest()) == [old(Value())] + handle.Rest()
    {
      handle.ResumeHandle();
    }
  }

  /** The range-for loop sees the same values, and never resumes a coroutine that is done. */
  method DrainByIterator(g: Interleaved) returns (seen: seq<int>)
    requires g.Valid()
    modifies g, g.x, g.y
    ensures g.Valid() && g.Done() && seen == old(g.Rest())
  {
    seen := [];
    var it := Cursor(g);
    while !it.AtEnd()
      invariant g.Valid() && seen + g.Rest() == old(g.Rest())
      decreases |g.Rest()|
    {
      ghost var before, value := seen, it.Value();
      seen := seen + [it.Value()];
      it.Advance();
      OneMore(before, value, g.Rest());
    }
  }

  /** Both loops see what the merge of the two vectors says. */
  method BothWays(a: seq<int>, b: seq<int>) returns (byHand: seq<int>, byIterator: seq<int>)
    ensures byHand == byIterator == Merge(a, b)
  {
    var g := new Interleaved(a, b);
    byHand := Drain(g);
    g := new Interleaved(a, b);
    byIterator := DrainByIterator(g);
  }
}
