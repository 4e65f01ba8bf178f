/**
  The programs that `coroutines/nested` can run, and a direct-style evaluator for them: every
  `co_await f()` read as an ordinary call, every `co_await GetData{}` as reading one datum.
*/
module AsyncProgram {
  import opened Common

  /** A printed line: those of the shipped functions, or any other. */
  datatype Event =
    | InOuter | InMiddle | InInner
    | GetDataReturned(data: int) | InnerReturned(value: int) | MiddleReturned(value: int)
    | Line(text: string)

  /** What follows an await, for each value the await may give. */
  datatype Kont = Kont(on: imap<int, Prog>, otherwise: Prog) {
    function At(v: int): (p: Prog)
      ensures (this decreases to p)
    {
      if v in on then on[v] else otherwise
    }
  }

  datatype Prog =
    | Return(value: int)
    | Print(event: Event, rest: Prog)
    | GetData(next: Kont)
    | Call(callee: Prog, next: Kont)

  /** Finished with a value and the data not used, or stopped for lack of data. */
  datatype Outcome =
    | Value(trace: seq<Event>, value: int, unused: seq<int>)
    | Blocked(trace: seq<Event>)

  ghost function After(t: seq<Event>, o: Outcome): Outcome {
    o.(trace := t + o.trace)
  }

  ghost function Eval(p: Prog, data: seq<int>): Outcome
    decreases p
  {
    match p
    case Return(v) => Value([], v, data)
    case Print(e, r) => After([e], Eval(r, data))
    case GetData(k) => if data == [] then Blocked([]) else Eval(k.At(data[0]), data[1..])
    case Call(c, k) =>
      var o := Eval(c, data);
      if o.Blocked? then o else After(o.trace, Eval(k.At(o.value), o.unused))
  }

  // ---------- A stack of calls in progress: the running body and what its callers still do ----------

  ghost function EvalUnder(p: Prog, callers: seq<Kont>, data: seq<int>): Outcome
    decreases |callers|
  {
    var o := Eval(p, data);
    if o.Blocked? || callers == [] then o
    else
      var n := |callers| - 1;
      After(o.trace, EvalUnder(callers[n].At(o.value), callers[..n], o.unused))
  }

  /** Actions until the program ends or waits for a datum. */
  ghost function Actions(p: Prog): nat
    decreases p
  {
    match p
    case Return(_) => 1
    case Print(_, r) => 1 + Actions(r)
    case GetData(_) => 1
    case Call(c, k) =>
      var o := Eval(c, []);
      1 + Actions(c) + if o.Value? then Actions(k.At(o.value)) else 0
  }

  ghost function ActionsUnder(p: Prog, callers: seq<Kont>): nat
    decreases |callers|
  {
    var o := Eval(p, []);
    Actions(p) +
    if o.Blocked? || callers == [] then 0
    else ActionsUnder(callers[|callers| - 1].At(o.value), callers[..|callers| - 1])
  }

  lemma AfterAfter(s: seq<Event>, t: seq<Event>, o: Outcome)
    ensures After(s, After(t, o)) == After(s + t, o)
  {
    assert s + (t + o.trace) == s + t + o.trace;
  }

  lemma AfterNothing(o: Outcome)
    ensures After([], o) == o
  {
    assert [] + o.trace == o.trace;
  }

  lemma {:induction false} NoDataUsed(p: Prog)
    ensures Eval(p, []).Value? ==> Eval(p, []).unused == []
    decreases p
  {
    match p
    case Return(_) =>
    case Print(_, r) => NoDataUsed(r);
    case GetData(_) =>
    case Call(c, k) =>
      NoDataUsed(c);
      var o := Eval(c, []);
      if o.Value? {
        NoDataUsed(k.At(o.value));
      }
  }

  // ---------- One action ----------

  /** Whatever data may come, (p, ks) behaves as printing `t` and then (p', ks'), which is nearer its end. */
  ghost predicate Advances(p: Prog, ks: seq<Kont>, t: seq<Event>, p': Prog, ks': seq<Kont>) {
    && (forall data :: EvalUnder(p, ks, data) == After(t, EvalUnder(p', ks', data)))
    && ActionsUnder(p', ks') < ActionsUnder(p, ks)
  }

  lemma PrintAdvances(p: Prog, ks: seq<Kont>)
    requires p.Print?
    ensures Advances(p, ks, [p.event], p.rest, ks)
  {
    forall data ensures EvalUnder(p, ks, data) == After([p.event], EvalUnder(p.rest, ks, data)) {
      var o := Eval(p.rest, data);
      if o.Value? && ks != [] {
        AfterAfter([p.event], o.trace, EvalUnder(ks[|ks| - 1].At(o.value), ks[..|ks| - 1], o.unused));
      }
    }
  }

  lemma CallAdvances(p: Prog, ks: seq<Kont>)
    requires p.Call?
    ensures Advances(p, ks, [], p.callee, ks + [p.next])
  {
    var ks' := ks + [p.next];
    assert ks'[..|ks|] == ks;
    forall data ensures EvalUnder(p, ks, data) == After([], EvalUnder(p.callee, ks', data)) {
      var o := Eval(p.callee, data);
      if o.Value? {
        var o' := Eval(p.next.At(o.value), o.unused);
        if o'.Value? && ks != [] {
          AfterAfter(o.trace, o'.trace, EvalUnder(ks[|ks| - 1].At(o'.value), ks[..|ks| - 1], o'.unused));
        }
      }
      AfterNothing(EvalUnder(p.callee, ks', data));
    }
    NoDataUsed(p.callee);
  }

  lemma ReturnAdvances(p: Prog, ks: seq<Kont>)
    requires p.Return? && ks != []
    ensures Advances(p, ks, [], ks[|ks| - 1].At(p.value), ks[..|ks| - 1])
  {}

  /** A program that waits for a datum goes on, given one, as its continuation says. */
  lemma DatumFeeds(p: Prog, ks: seq<Kont>, j: int)
    requires p.GetData?
    ensures EvalUnder(p, ks, []) == Blocked([])
    ensures forall data :: EvalUnder(p, ks, [j] + data) == EvalUnder(p.next.At(j), ks, data)
  {
    forall data ensures EvalUnder(p, ks, [j] + data) == EvalUnder(p.next.At(j), ks, data) {
      assert ([j] + data)[1..] == data;
    }
  }

  // ---------- The program of coroutines/nested ----------

  /** The continuation given by a function. */
  ghost function Then(f: int -> Prog): (k: Kont)
    ensures forall v :: k.At(v) == f(v)
  {
    Kont(imap v: int :: f(v), Return(0))
  }

  ghost function InnerThen(i: int): Kont {
    Then(j => Print(GetDataReturned(j), Return(i + j)))
  }

  ghost function ReadyThen(ii: int): Kont {
    Then(r => Return(ii * r))
  }

  ghost function MiddleThen(): Kont {
    Then(ii => Print(InnerReturned(ii), Call(Return(3), ReadyThen(ii))))
  }

  ghost function OuterThen(): Kont {
    Then(w => Print(MiddleReturned(w), Return(w + 3)))
  }

  ghost function Inner(i: int): Prog {
    Print(InInner, GetData(InnerThen(i)))
  }

  ghost function Middle(i: int): Prog {
    Print(InMiddle, Call(Inner(i), MiddleThen()))
  }

  ghost function Outer(i: int): Prog {
    Print(InOuter, Call(Middle(i), OuterThen()))
  }

  /** A body that prints, awaits a call, prints, and ends. */
  lemma CallBetweenPrints(e: Event, c: Prog, k: Kont, data: seq<int>, t: seq<Event>, v: int, e': Event, w: int)
    requires Eval(c, data) == Value(t, v, [])
    requires var p := k.At(v); p.Print? && p.event == e' && Eval(p.rest, []) == Value([], w, [])
    ensures Eval(Print(e, Call(c, k)), data) == Value([e] + (t + [e']), w, [])
  {
    assert Eval(k.At(v), []) == Value([e'], w, []);
    assert Eval(Call(c, k), data) == Value(t + [e'], w, []);
  }

  lemma WaitsInside(e: Event, c: Prog, k: Kont)
    requires Eval(c, []).Blocked?
    ensures Eval(Print(e, Call(c, k)), []).Blocked?
  {
    assert Eval(Call(c, k), []).Blocked?;
  }

  lemma InnerResult(i: int, j: int)
    ensures Eval(Inner(i), []).Blocked?
    ensures Eval(Inner(i), [j]) == Value([InInner, GetDataReturned(j)], i + j, [])
  {
    var k := InnerThen(i);
    assert k.At(j) == Print(GetDataReturned(j), Return(i + j));
    assert Eval(k.At(j), []) == After([GetDataReturned(j)], Eval(Return(i + j), []));
    assert [j][1..] == [];
  }

  lemma ReadyResult(ii: int)
    ensures Eval(Call(Return(3), ReadyThen(ii)), []) == Value([], ii * 3, [])
  {
    assert ReadyThen(ii).At(3) == Return(ii * 3);
    assert Eval(Return(3), []) == Value([], 3, []);
  }

  lemma MiddleThenAt(v: int)
    ensures var p := MiddleThen().At(v);
            p.Print? && p.event == InnerReturned(v) && p.rest == Call(Return(3), ReadyThen(v))
  {}

  lemma OuterThenAt(w: int)
    ensures var p := OuterThen().At(w); p.Print? && p.event == MiddleReturned(w) && p.rest == Return(w + 3)
  {}

  lemma InOrder(a: Event, b: Event, c: Event, d: Event, e: Event, f: Event)
    ensures [a] + (([b] + ([c, d] + [e])) + [f]) == [a, b, c, d, e, f]
  {}

  lemma ResultThrough(inner: Prog, data: seq<int>, c: Event, d: Event, v: int, k: Kont, k': Kont)
    requires Eval(inner, data) == Value([c, d], v, [])
    requires var p := k.At(v); p.Print? && p.event == InnerReturned(v) && Eval(p.rest, []) == Value([], v * 3, [])
    requires var p := k'.At(v * 3); p.Print? && p.event == MiddleReturned(v * 3) && p.rest == Return(v * 3 + 3)
    ensures Eval(Print(InOuter, Call(Print(InMiddle, Call(inner, k)), k')), data) ==
            Value([InOuter, InMiddle, c, d, InnerReturned(v), MiddleReturned(v * 3)], v * 3 + 3, [])
  {
    CallBetweenPrints(InMiddle, inner, k, data, [c, d], v, InnerReturned(v), v * 3);
    CallBetweenPrints(InOuter, Print(InMiddle, Call(inner, k)), k', data,
                      [InMiddle] + ([c, d] + [InnerReturned(v)]), v * 3, MiddleReturned(v * 3), v * 3 + 3);
    InOrder(InOuter, InMiddle, c, d, InnerReturned(v), MiddleReturned(v * 3));
  }

  /** Without a datum the shipped program waits. */
  lemma ShippedWaits(i: int)
    ensures Eval(Outer(i), []).Blocked?
  {
    assert Eval(Inner(i), []).Blocked?;
    WaitsInside(InMiddle, Inner(i), MiddleThen());
    WaitsInside(InOuter, Middle(i), OuterThen());
  }

  lemma MiddleThenRuns(v: int)
    ensures var p := MiddleThen().At(v); p.Print? && p.event == InnerReturned(v) && Eval(p.rest, []) == Value([], v * 3, [])
  {
    MiddleThenAt(v);
    ReadyResult(v);
  }

  lemma ResultFrom(inner: Prog, data: seq<int>, c: Event, d: Event, v: int)
    requires Eval(inner, data) == Value([c, d], v, [])
    ensures Eval(Print(InOuter, Call(Print(InMiddle, Call(inner, MiddleThen())), OuterThen())), data) ==
            Value([InOuter, InMiddle, c, d, InnerReturned(v), MiddleReturned(v * 3)], v * 3 + 3, [])
  {
    MiddleThenRuns(v);
    OuterThenAt(v * 3);
    ResultThrough(inner, data, c, d, v, MiddleThen(), OuterThen());
  }

  /** Input i and datum j give (i + j) * 3 + 3. */
  lemma ShippedResult(i: int, j: int, v: int)
    requires v == i + j
    ensures Eval(Outer(i), [j]) ==
            Value([InOuter, InMiddle, InInner, GetDataReturned(j), InnerReturned(v),
                   MiddleReturned(v * 3)], v * 3 + 3, [])
  {
    var inner, data := Inner(i), [j];
    InnerResult(i, j);
    ResultFrom(inner, data, InInner, GetDataReturned(j), v);
  }
}
