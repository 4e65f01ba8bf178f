/** `coroutines/crsm`: a call stack of coroutines linked from callee to caller, with symmetric transfer. */
module Crsm {
  import opened AwaitTree
  import opened CoroutineFrame

  class CoState {
    const hnd: Frame
    const run: Activations

    /** `nextHandle` names the continuation: the coroutine to resume when this one ends. */
    ghost predicate Valid()
      reads this, run, run.heap
    {
      && run.Suspended() && run.root == hnd
      && (forall f :: f in run.alive ==> f.nextHandle == f.caller)
    }

    constructor (code: Code)
      ensures Valid() && fresh(run) && fresh(run.heap) && |run.heap| == 1
      ensures run.Live() == [code] && run.out == []
    {
      var a := new Activations(code);
      run, hnd := a, a.root;
    }

    /**
      One call runs the whole tree. Control goes from a coroutine to the one it awaits, and from
      one that ends to its continuation, until the root ends and there is none.
    */
    method Start(ghost code: Code) returns (more: bool)
      requires Valid() && (hnd.done || (run.Live() == [code] && |run.heap| == 1 && run.out == []))
      modifies run, run.heap
      ensures Valid() && fresh(run.heap - old(run.heap)) && !more
      ensures old(hnd.done) ==> run.out == old(run.out) && run.heap == old(run.heap)
      ensures !old(hnd.done) ==> run.out == Trace(code) && |run.heap| == Frames(code)
      ensures hnd.done && run.alive == {hnd}
    {
      run.AllEnded();
      if hnd.IsDone() {
        return false;
      }
      TransferUntilNoop(code);
      run.AllEnded();
      more := !hnd.IsDone();
    }

    /** `run_until_completion` of awaitable_coroutines, whose `continuation_` is this `nextHandle`. */
    method RunUntilCompletion(ghost code: Code) returns (passes: nat)
      requires Valid() && (hnd.done || (run.Live() == [code] && |run.heap| == 1 && run.out == []))
      modifies run, run.heap
      ensures Valid() && fresh(run.heap - old(run.heap))
      ensures old(hnd.done) ==> passes == 0 && run.out == old(run.out)
      ensures !old(hnd.done) ==> passes == 1 && run.out == Trace(code) && |run.heap| == Frames(code)
      ensures hnd.done && run.alive == {hnd}
    {
      run.AllEnded();
      passes := 0;
      while !hnd.IsDone()
        invariant Valid() && old(run.heap) <= run.heap && fresh(run.heap - old(run.heap))
        invariant passes == if hnd.done && !old(hnd.done) then 1 else 0
        invariant hnd.done ==> run.alive == {hnd}
        invariant !hnd.done ==> run.Live() == [code] && |run.heap| == 1 && run.out == []
        invariant passes == 0 ==> run.out == old(run.out)
        invariant passes == 1 ==> run.out == Trace(code) && |run.heap| == Frames(code)
        decreases !hnd.done
      {
        TransferUntilNoop(code);
        run.AllEnded();
        passes := passes + 1;
      }
    }

    method TransferUntilNoop(ghost code: Code)
      requires Valid() && run.Live() == [code] && |run.heap| == 1 && run.out == []
      modifies run, run.heap
      ensures Valid() && old(run.heap) <= run.heap && fresh(run.heap - old(run.heap))
      ensures run.Live() == [] && run.out == Trace(code) && |run.heap| == Frames(code)
    {
      AtTheStart(code);
      var control := hnd as Frame?;
      ghost var transfers := 0;
      while control != null
        invariant Valid() && old(run.heap) <= run.heap && fresh(run.heap - old(run.heap))
        invariant control == run.Deepest()
        invariant OnTheWay(code, run.Live(), run.out, transfers, |run.heap|)
        decreases Todo(run.Live())
      {
        OneStepOn(code, run.Live(), run.out, transfers, |run.heap|);
        control := Transfer(control);
        transfers := transfers + 1;
      }
      AtTheEnd(code, run.out, transfers, |run.heap|);
    }

    /** Runs one coroutine to its suspension point; `next` is the handle its awaiter returns. */
    method Transfer(control: Frame) returns (next: Frame?)
      requires Valid() && control == run.Deepest()
      modifies run, run.heap
      ensures Valid() && old(run.heap) <= run.heap && fresh(run.heap - old(run.heap))
      ensures next == run.Deepest()
      ensures run.out == old(run.out) + Burst(old(Top(run.Live())))
      ensures run.Live() == old(Step(run.Live()))
      ensures |run.heap| == |old(run.heap)| + Births(old(Top(run.Live())))
    {
      var child := run.Resume(control);
      if child != null {
        child.nextHandle := control;  // await_suspend
        next := child;
      } else {
        next := control.Next();  // FinalAwaiter
      }
    }
  }

  /** The shipped program: one start() of `state1(10)`. */
  method StartState1Of10() returns (machine: CoState)
    ensures machine.run.out ==
            [Line("State 1 ", [10]), Line("State 2 ", [7]), Line("State 1 ", [5]), Line("State 2 ", [2]),
             Line("State 1 ", [0]), Line("State 3 ", [7]), Line("State 3 ", [5]), Line("State 3 ", [3]),
             Line("State 3 ", [1]), Line("State 3 ", [-1])]
  {
    machine := new CoState(State1(10));
    var more := machine.Start(State1(10));
    State1Of10Prints();
  }
}
