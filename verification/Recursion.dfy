/** `coroutines/recursion`: a call stack of coroutines linked from caller to callee. */
module Recursion {
  import opened AwaitTree
  import opened CoroutineFrame

  class CoState {
    const hnd: Frame
    const run: Activations

    /** `nextHandle` names the awaited coroutine; only in a done frame may it dangle. */
    ghost predicate Valid()
      reads this, run, run.heap
    {
      && run.Suspended() && run.root == hnd
      && (forall f {:trigger f.nextHandle} :: f in run.alive && f != run.top ==> f.nextHandle == f.operand)
      && (!run.top.done ==> run.top.nextHandle == null)
    }

    constructor (code: Code)
      ensures Valid() && fresh(run) && fresh(run.heap) && |run.heap| == 1
      ensures run.Live() == [code] && run.out == []
    {
      var a := new Activations(code);
      run, hnd := a, a.root;
    }

    /** Resumes the innermost coroutine that is not done, and that one alone. */
    method NextStep() returns (more: bool)
      requires Valid()
      modifies run, run.heap
      ensures Valid() && old(run.heap) <= run.heap && fresh(run.heap - old(run.heap))
      ensures more == (run.Live() != [])
      ensures old(run.Live()) == [] ==> run.Live() == [] && run.out == old(run.out) && run.heap == old(run.heap)
      ensures old(run.Live()) != [] ==>
                && run.out == old(run.out) + Burst(old(Top(run.Live())))
                && run.Live() == old(Step(run.Live()))
                && |run.heap| == |old(run.heap)| + Births(old(Top(run.Live())))
    {
      if hnd.IsDone() {
        return false;
      }
      var inner := Walk();
      ResumeAndLink(inner);
      more := !hnd.IsDone();
    }

    method ResumeAndLink(inner: Frame)
      requires Valid() && inner == run.Deepest()
      modifies run, run.heap
      ensures Valid() && old(run.heap) <= run.heap && fresh(run.heap - old(run.heap))
      ensures run.out == old(run.out) + Burst(old(Top(run.Live())))
      ensures run.Live() == old(Step(run.Live()))
      ensures |run.heap| == |old(run.heap)| + Births(old(Top(run.Live())))
    {
      var child := run.Resume(inner);
      if child != null {
        inner.nextHandle := child;  // await_suspend
      }
    }

    /** From the root to the deepest coroutine not done yet, reading existing frames only. */
    method Walk() returns (inner: Frame)
      requires Valid() && !hnd.done
      ensures inner == run.Deepest()
    {
      inner := hnd;
      while inner.Next() != null && !inner.Next().IsDone()
        invariant inner in run.alive && !inner.done
        invariant inner != run.top ==> inner.operand in run.alive
        decreases |run.top.below| - |inner.below|
      {
        inner := inner.Next();
      }
    }

    /** A step is one on the way of recursion. */
    method StepOn(ghost code: Code, ghost calls: nat) returns (more: bool)
      requires Valid() && run.Live() != [] && OnTheWay(code, run.Live(), run.out, calls, |run.heap|)
      modifies run, run.heap
      ensures Valid() && old(run.heap) <= run.heap && fresh(run.heap - old(run.heap))
      ensures more == (run.Live() != [])
      ensures OnTheWay(code, run.Live(), run.out, calls + 1, |run.heap|)
      ensures Todo(run.Live()) < old(Todo(run.Live()))
    {
      OneStepOn(code, run.Live(), run.out, calls, |run.heap|);
      more := NextStep();
    }

    lemma Ended(code: Code, calls: nat)
      requires Valid() && run.Live() == [] && OnTheWay(code, run.Live(), run.out, calls, |run.heap|)
      ensures run.out == Trace(code) && calls == Frames(code) + Awaits(code) && |run.heap| == Frames(code)
      ensures hnd.done && run.alive == {hnd}
    {
      run.AllEnded();
      AtTheEnd(code, run.out, calls, |run.heap|);
    }

    /** `while (machine.nextStep())`, counting the calls up to and including the one that says false. */
    method RunToEnd(ghost code: Code) returns (calls: nat)
      requires Valid() && run.Live() == [code] && |run.heap| == 1 && run.out == []
      modifies run, run.heap
      ensures Valid() && fresh(run.heap - old(run.heap))
      ensures run.out == Trace(code)
      ensures calls == Frames(code) + Awaits(code)
      ensures hnd.done && run.alive == {hnd} && |run.heap| == Frames(code)
    {
      calls := 0;
      var more := true;
      AtTheStart(code);
      while more
        invariant Valid() && old(run.heap) <= run.heap && fresh(run.heap - old(run.heap))
        invariant more == (run.Live() != [])
        invariant OnTheWay(code, run.Live(), run.out, calls, |run.heap|)
        decreases Todo(run.Live())
      {
        more := StepOn(code, calls);
        calls := calls + 1;
      }
      Ended(code, calls);
    }
  }

  /** The shipped program: `fun1(10)` stepped to its end. */
  method RunFun1Of10() returns (machine: CoState, calls: nat)
    ensures machine.run.out ==
            [Line(START1, [10]), Line(START2, [7]), Line(START1, [5]), Line(START2, [2]), Line(START1, [0])] +
            SEVEN + [END1, AGAIN2] + TWO + [END2, END1, AGAIN2] + SEVEN + [END2, END1]
    ensures calls == 33
  {
    machine := new CoState(Fun1(10));
    calls := machine.RunToEnd(Fun1(10));
    Fun1Of10Prints();
    Fun1Of10Resumptions();
  }
}
