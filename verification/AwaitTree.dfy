/**
  Await trees: the programs that the void coroutines of `coroutines/recursion` and
  `coroutines/crsm` run, and what ordinary recursion makes of them.

  A coroutine body is unrolled into the list of its prints and awaits. The awaited call is
  itself a body, so a whole call tree is one finite value.
*/
module AwaitTree {
  import opened Common

  datatype Event = Line(text: string, args: seq<int>)

  datatype Code =
    | Done
    | Print(event: Event, rest: Code)
    | Await(child: Code, rest: Code)

  // ---------- What plain recursion does ----------

  /** The lines printed when every `co_await f()` is read as an ordinary call of `f`. */
  ghost function Trace(c: Code): seq<Event> {
    match c
    case Done => []
    case Print(e, r) => [e] + Trace(r)
    case Await(ch, r) => Trace(ch) + Trace(r)
  }

  /** Activation records in the call tree of `c`, its own included. */
  ghost function Frames(c: Code): nat {
    match c
    case Done => 1
    case Print(_, r) => Frames(r)
    case Await(ch, r) => Frames(ch) + Frames(r)
  }

  /** Calls made in the call tree of `c`. */
  ghost function Awaits(c: Code): nat {
    match c
    case Done => 0
    case Print(_, r) => Awaits(r)
    case Await(ch, r) => 1 + Awaits(ch) + Awaits(r)
  }

  /** The root is the only activation record that no await made. */
  lemma {:induction false} FramesAreAwaitsPlusOne(c: Code)
    ensures Frames(c) == Awaits(c) + 1
  {
    match c
    case Done =>
    case Print(_, r) => FramesAreAwaitsPlusOne(r);
    case Await(ch, r) => FramesAreAwaitsPlusOne(ch); FramesAreAwaitsPlusOne(r);
  }

  // ---------- One activation between two suspension points ----------

  /** What a body prints from a resumption to its next suspension point. */
  ghost function Burst(c: Code): seq<Event> {
    match c
    case Print(e, r) => [e] + Burst(r)
    case _ => []
  }

  /** The suspension point it reaches: the final one or an await. */
  ghost function Stop(c: Code): (s: Code)
    ensures !s.Print?
  {
    match c
    case Print(_, r) => Stop(r)
    case _ => c
  }

  // ---------- A stack of suspended activations, the innermost one last ----------

  ghost function Top(s: seq<Code>): Code
    requires s != []
  {
    s[|s| - 1]
  }

  /** How many activations one resumption creates. */
  ghost function Births(c: Code): nat {
    if Stop(c).Await? then 1 else 0
  }

  /** One resumption of the innermost activation. */
  ghost function Step(s: seq<Code>): seq<Code>
    requires s != []
  {
    Next(s[..|s| - 1], Stop(Top(s)))
  }

  ghost function Next(outer: seq<Code>, stop: Code): seq<Code> {
    if stop.Await? then outer + [stop.rest] + [stop.child] else outer
  }

  lemma StepOnTop(outer: seq<Code>, c: Code)
    ensures Top(outer + [c]) == c && Step(outer + [c]) == Next(outer, Stop(c))
  {
    assert (outer + [c])[..|outer|] == outer;
  }

  /** What plain recursion prints from this stack on. */
  ghost function Flow(s: seq<Code>): seq<Event> {
    if s == [] then [] else Trace(Top(s)) + Flow(s[..|s| - 1])
  }

  /** One resumption for each activation to end and one for each call still to make. */
  ghost function Todo(s: seq<Code>): nat {
    if s == [] then 0
    else Frames(Top(s)) + Awaits(Top(s)) + Todo(s[..|s| - 1])
  }

  /** Calls that the activations of the stack have still to make. */
  ghost function Unborn(s: seq<Code>): nat {
    if s == [] then 0 else Awaits(Top(s)) + Unborn(s[..|s| - 1])
  }

  lemma {:induction false} BurstThenStop(c: Code)
    ensures Trace(c) == Burst(c) + Trace(Stop(c))
    ensures Frames(c) == Frames(Stop(c)) && Awaits(c) == Awaits(Stop(c))
  {
    if c.Print? {
      BurstThenStop(c.rest);
    }
  }

  lemma Push(s: seq<Code>, c: Code)
    ensures Flow(s + [c]) == Trace(c) + Flow(s)
    ensures Todo(s + [c]) == Frames(c) + Awaits(c) + Todo(s)
    ensures Unborn(s + [c]) == Awaits(c) + Unborn(s)
  {
    assert (s + [c])[..|s|] == s;
  }

  /**
    A resumption prints a first part of what recursion still had to print, leaves the rest,
    and uses up exactly one of the resumptions due; a call it makes is one call fewer to make.
  */
  lemma StepConserves(s: seq<Code>)
    requires s != []
    ensures Flow(s) == Burst(Top(s)) + Flow(Step(s))
    ensures Todo(s) == Todo(Step(s)) + 1
    ensures Unborn(s) == Unborn(Step(s)) + Births(Top(s))
  {
    var outer, top := s[..|s| - 1], Top(s);
    BurstThenStop(top);
    StopConserves(outer, Stop(top));
    assert Step(s) == Next(outer, Stop(top));
    Associative(Burst(top), Trace(Stop(top)), Flow(outer));
  }

  /** The same, at the suspension point itself. */
  lemma StopConserves(outer: seq<Code>, stop: Code)
    requires !stop.Print?
    ensures var next := Next(outer, stop);
            && Trace(stop) + Flow(outer) == Flow(next)
            && Frames(stop) + Awaits(stop) + Todo(outer) == Todo(next) + 1
            && Awaits(stop) + Unborn(outer) == Unborn(next) + Births(stop)
  {
    if stop.Await? {
      Push(outer, stop.rest);
      Push(outer + [stop.rest], stop.child);
      Associative(Trace(stop.child), Trace(stop.rest), Flow(outer));
    }
  }

  /**
    A machine that has printed `out` in `calls` resumptions, created `frames` frames and is left
    with the stack `s` is on the way to what plain recursion does with `c`.
  */
  ghost predicate OnTheWay(c: Code, s: seq<Code>, out: seq<Event>, calls: nat, frames: nat) {
    && out + Flow(s) == Trace(c)
    && calls + Todo(s) == Frames(c) + Awaits(c)
    && frames + Unborn(s) == Frames(c)
  }

  lemma AtTheStart(c: Code)
    ensures OnTheWay(c, [c], [], 0, 1)
  {
    Push([], c);
    assert [] + [c] == [c];
    FramesAreAwaitsPlusOne(c);
  }

  lemma OneStepOn(c: Code, s: seq<Code>, out: seq<Event>, calls: nat, frames: nat)
    requires s != [] && OnTheWay(c, s, out, calls, frames)
    ensures OnTheWay(c, Step(s), out + Burst(Top(s)), calls + 1, frames + Births(Top(s)))
  {
    StepConserves(s);
    Associative(out, Burst(Top(s)), Flow(Step(s)));
  }

  lemma AtTheEnd(c: Code, out: seq<Event>, calls: nat, frames: nat)
    requires OnTheWay(c, [], out, calls, frames)
    ensures out == Trace(c) && calls == Frames(c) + Awaits(c) && frames == Frames(c)
  {
    assert out + [] == out;
  }

  // ---------- The call tree of coroutines/recursion ----------

  function Fun1(num: int): Code
    decreases if num > 3 then num + 10 else 0
  {
    Print(Line(" State 1 ", [num]),
          Await(if num > 3 then Fun2(num - 3) else Fun3(7),
                Print(Line("State 1: END", []), Done)))
  }

  function Fun2(num: int): Code
    decreases 1 + if num - 2 > 3 then num + 8 else 0
  {
    Print(Line("State 2 ", [num]),
          Await(Fun1(num - 2),
                Print(Line("State 2 again ...", []),
                      Await(Fun3(num), Print(Line("State 2: END", []), Done)))))
  }

  function Fun3(num: int): Code
    decreases if num > 0 then num else 0
  {
    var end := Print(Line("State 3 END", []), Done);
    Print(Line("State 3 ", [num]), if num > 0 then Await(Fun3(num - 2), end) else end)
  }

  lemma {:induction false} Fun3Frames(num: int)
    ensures Frames(Fun3(num)) == 1 + if num > 0 then (num + 1) / 2 else 0
    decreases if num > 0 then num else 0
  {
    var end := Print(Line("State 3 END", []), Done);
    assert Frames(end) == Frames(end.rest) == 1;
    if num <= 0 {
    } else {
      Fun3Frames(num - 2);
      assert Frames(Await(Fun3(num - 2), end)) == Frames(Fun3(num - 2)) + 1;
    }
  }

  lemma Fun1Frames(num: int)
    ensures Frames(Fun1(num)) == 1 + if num > 3 then Frames(Fun2(num - 3)) else Frames(Fun3(7))
  {
    var end := Print(Line("State 1: END", []), Done);
    assert Frames(end) == Frames(end.rest) == 1;
  }

  lemma Fun2Frames(num: int)
    ensures Frames(Fun2(num)) == Frames(Fun1(num - 2)) + Frames(Fun3(num)) + 1
  {
    var end := Print(Line("State 2: END", []), Done);
    var mid := Print(Line("State 2 again ...", []), Await(Fun3(num), end));
    assert Frames(end) == Frames(end.rest) == 1;
    assert Frames(mid) == Frames(mid.rest) == Frames(Fun3(num)) + 1;
    assert Frames(Await(Fun1(num - 2), mid)) == Frames(Fun1(num - 2)) + Frames(mid);
  }

  /** Resumptions that fun3(n) needs: 2*ceil(max(n,0)/2)+1. */
  lemma Fun3Resumptions(num: int)
    ensures Frames(Fun3(num)) + Awaits(Fun3(num)) == 2 * (if num > 0 then (num + 1) / 2 else 0) + 1
  {
    Fun3Frames(num);
    FramesAreAwaitsPlusOne(Fun3(num));
  }

  /** Resumptions that the shipped call needs. */
  lemma Fun1Of10Resumptions()
    ensures Frames(Fun1(10)) + Awaits(Fun1(10)) == 33
  {
    Fun1Of10();
    var shipped := Fun1(10);
    FramesAreAwaitsPlusOne(shipped);
  }

  lemma Fun1Of10()
    ensures Frames(Fun1(10)) == 17
  {
    assert Frames(Fun1(5)) == 10 by {
      assert Frames(Fun2(2)) == 9 by {
        Fun2Frames(2);
        Fun3Frames(2);
        Fun1Frames(0);
        Fun3Frames(7);
      }
      Fun1Frames(5);
    }
    Fun1Frames(10);
    Fun2Frames(7);
    Fun3Frames(7);
  }

  // ---------- What the shipped call prints ----------

  function HalfUp(num: int): nat {
    if num > 0 then (num + 1) / 2 else 0
  }

  const START1 := " State 1 "
  const START2 := "State 2 "
  const START3 := "State 3 "
  const AGAIN2 := Line("State 2 again ...", [])
  const END1 := Line("State 1: END", [])
  const END2 := Line("State 2: END", [])
  const END3 := Line("State 3 END", [])

  lemma Fun3Lines(num: int)
    ensures Trace(Fun3(num)) ==
            [Line(START3, [num])] + (if num > 0 then Trace(Fun3(num - 2)) else []) + [END3]
  {
    var end := Print(END3, Done);
    assert Trace(end) == [END3] + Trace(Done) == [END3];
    if num > 0 {
      var rest := Await(Fun3(num - 2), end);
      assert Fun3(num) == Print(Line(START3, [num]), rest);
      assert Trace(rest) == Trace(Fun3(num - 2)) + [END3];
      Associative([Line(START3, [num])], Trace(Fun3(num - 2)), [END3]);
    } else {
      assert Fun3(num) == Print(Line(START3, [num]), end);
      assert [Line(START3, [num])] + [] == [Line(START3, [num])];
    }
  }

  lemma Between(a: Event, s: seq<Event>, z: Event)
    ensures var t := [a] + s + [z];
            t[0] == a && t[|s| + 1] == z && forall k :: 1 <= k <= |s| ==> t[k] == s[k - 1]
  {}

  lemma {:induction false} Fun3Downs(num: int, m: nat)
    requires if m == 0 then num <= 0 else 2 * m - 2 < num <= 2 * m
    ensures var t := Trace(Fun3(num));
            && |t| == 2 * m + 2
            && (forall k :: 0 <= k <= m ==> t[k] == Line(START3, [num - 2 * k]))
            && (forall k :: m < k < 2 * m + 2 ==> t[k] == END3)
    decreases m
  {
    Fun3Lines(num);
    if m == 0 {
    } else {
      Fun3Downs(num - 2, m - 1);
      Between(Line(START3, [num]), Trace(Fun3(num - 2)), END3);
    }
  }

  /** fun3(n), line by line: n, n - 2, ... down to the first that is not positive, then as many ends. */
  lemma Fun3Prints(num: int)
    ensures var m, t := HalfUp(num), Trace(Fun3(num));
            && |t| == 2 * m + 2
            && (forall k :: 0 <= k <= m ==> t[k] == Line(START3, [num - 2 * k]))
            && (forall k :: m < k < 2 * m + 2 ==> t[k] == END3)
  {
    Fun3Downs(num, HalfUp(num));
  }

  lemma Fun2Lines(num: int)
    ensures Trace(Fun2(num)) ==
            [Line(START2, [num])] + (Trace(Fun1(num - 2)) + ([AGAIN2] + (Trace(Fun3(num)) + [END2])))
  {
    var end := Print(END2, Done);
    assert Trace(end) == [END2] + Trace(Done) == [END2];
    var last := Await(Fun3(num), end);
    assert Trace(last) == Trace(Fun3(num)) + [END2];
    var mid := Print(AGAIN2, last);
    assert Trace(mid) == [AGAIN2] + Trace(last);
    var first := Await(Fun1(num - 2), mid);
    assert Trace(first) == Trace(Fun1(num - 2)) + Trace(mid);
    assert Fun2(num) == Print(Line(START2, [num]), first);
  }

  lemma Fun1Lines(num: int)
    ensures Trace(Fun1(num)) ==
            [Line(START1, [num])] + ((if num > 3 then Trace(Fun2(num - 3)) else Trace(Fun3(7))) + [END1])
  {
    var end := Print(END1, Done);
    assert Trace(end) == [END1] + Trace(Done) == [END1];
    var child := if num > 3 then Fun2(num - 3) else Fun3(7);
    var rest := Await(child, end);
    assert Trace(rest) == Trace(child) + [END1];
    assert Fun1(num) == Print(Line(START1, [num]), rest);
  }

  /** The lines of fun3(7) and of fun3(2). */
  const SEVEN := [Line(START3, [7]), Line(START3, [5]), Line(START3, [3]), Line(START3, [1]), Line(START3, [-1]),
                  END3, END3, END3, END3, END3]
  const TWO := [Line(START3, [2]), Line(START3, [0]), END3, END3]

  lemma SevenAndTwo()
    ensures Trace(Fun3(7)) == SEVEN && Trace(Fun3(2)) == TWO
  {
    Fun3Prints(7);
    Fun3Prints(2);
  }

  /** All that fun1(10) prints, in order. */
  lemma Fun1Of10Prints()
    ensures Trace(Fun1(10)) ==
            [Line(START1, [10]), Line(START2, [7]), Line(START1, [5]), Line(START2, [2]), Line(START1, [0])] +
            SEVEN + [END1, AGAIN2] + TWO + [END2, END1, AGAIN2] + SEVEN + [END2, END1]
  {
    SevenAndTwo();
    Fun1Lines(10);
    Fun2Lines(7);
    Fun1Lines(5);
    Fun2Lines(2);
    Fun1Lines(0);
    Flatten(Line(START1, [10]), Line(START2, [7]), Line(START1, [5]), Line(START2, [2]), Line(START1, [0]), SEVEN, TWO);
  }

  lemma Flatten(a: Event, b: Event, c: Event, d: Event, e: Event, s: seq<Event>, t: seq<Event>)
    ensures var zero := [e] + (s + [END1]);
            var two := [d] + (zero + ([AGAIN2] + (t + [END2])));
            var five := [c] + (two + [END1]);
            var seven := [b] + (five + ([AGAIN2] + (s + [END2])));
            [a] + (seven + [END1]) == [a, b, c, d, e] + s + [END1, AGAIN2] + t + [END2, END1, AGAIN2] + s + [END2, END1]
  {}

  // ---------- The call tree of coroutines/crsm ----------

  function State1(num: int): Code
    decreases if num > 3 then num + 10 else 0
  {
    Print(Line("State 1 ", [num]), Await(if num > 3 then State2(num - 3) else State3(7), Done))
  }

  function State2(num: int): Code
    decreases 1 + if num - 2 > 3 then num + 8 else 0
  {
    Print(Line("State 2 ", [num]), Await(State1(num - 2), Done))
  }

  function State3(num: int): Code
    decreases if num > 0 then num else 0
  {
    Print(Line("State 3 ", [num]), if num > 0 then Await(State3(num - 2), Done) else Done)
  }

  lemma State3Lines(num: int)
    ensures Trace(State3(num)) == [Line("State 3 ", [num])] + if num > 0 then Trace(State3(num - 2)) else []
  {
    if num > 0 {
      assert Trace(Await(State3(num - 2), Done)) == Trace(State3(num - 2)) + [] == Trace(State3(num - 2));
    }
  }

  lemma State2Lines(num: int)
    ensures Trace(State2(num)) == [Line("State 2 ", [num])] + Trace(State1(num - 2))
  {
    assert Trace(Await(State1(num - 2), Done)) == Trace(State1(num - 2)) + [] == Trace(State1(num - 2));
  }

  lemma State1Lines(num: int)
    ensures Trace(State1(num)) == [Line("State 1 ", [num])] + if num > 3 then Trace(State2(num - 3)) else Trace(State3(7))
  {
    var child := if num > 3 then State2(num - 3) else State3(7);
    assert Trace(Await(child, Done)) == Trace(child) + [] == Trace(child);
  }

  /** All that state1(10) prints, in order. */
  lemma State1Of10Prints()
    ensures Trace(State1(10)) ==
            [Line("State 1 ", [10]), Line("State 2 ", [7]), Line("State 1 ", [5]), Line("State 2 ", [2]),
             Line("State 1 ", [0]), Line("State 3 ", [7]), Line("State 3 ", [5]), Line("State 3 ", [3]),
             Line("State 3 ", [1]), Line("State 3 ", [-1])]
  {
    State1Lines(10);
    State2Lines(7);
    State1Lines(5);
    State2Lines(2);
    State1Lines(0);
    State3Lines(7);
    State3Lines(5);
    State3Lines(3);
    State3Lines(1);
    State3Lines(-1);
  }
}
