/** The compiled frame of a void coroutine, and the language rules for resuming it. */
module CoroutineFrame {
  import opened AwaitTree

  class Frame {
    // The rest of the body: program counter and parameters in one value.
    var code: Code
    // promise_type::nextHandle
    var nextHandle: Frame?
    // The awaited temporary. It lives from the await to the end of the full expression.
    var operand: Frame?
    var done: bool
    ghost var destroyed: bool
    // The coroutine that awaits this one, and what the coroutines below it have still to run
    ghost const caller: Frame?
    ghost const below: seq<Code>

    /** Calling the coroutine function: initial_suspend is suspend_always, so no line of it runs. */
    constructor (code: Code, ghost caller: Frame?, ghost below: seq<Code>)
      ensures this.caller == caller && this.below == below
      ensures this.code == code && nextHandle == null && operand == null && !done && !destroyed
    {
      this.code, this.caller, this.below := code, caller, below;
      nextHandle, operand, done, destroyed := null, null, false, false;
    }

    /** coroutine_handle::done(), defined only on a frame that still exists. */
    predicate IsDone()
      reads this
      requires !destroyed
    {
      done
    }

    /** promise().nextHandle, defined only on a frame that still exists. */
    function Next(): Frame?
      reads this
      requires !destroyed
    {
      nextHandle
    }

    ghost function Temporaries(): set<Frame>
      reads this
    {
      if operand == null then {} else {operand}
    }

    /** coroutine_handle::destroy() of a suspended coroutine, done or not: never twice. */
    method Destroy()
      requires !destroyed
      modifies this`destroyed
      ensures destroyed
    {
      destroyed := true;
    }

    /**
      coroutine_handle::resume() up to the next suspension point. `child` is the coroutine
      whose co_await suspended this one, null at the final suspension point. The operand of
      the await that resumes dies before the next statement, after await_resume.
    */
    method Resume(out: seq<Event>) returns (child: Frame?, out': seq<Event>)
      requires !destroyed && !done
      requires operand != null ==> operand != this && !operand.destroyed && operand.done
      modifies this`code, this`operand, this`done, Temporaries()`destroyed
      ensures old(operand) != null ==> old(operand).destroyed
      ensures out' == out + Burst(old(code))
      ensures child == null ==> Stop(old(code)) == Done == code && done && operand == null
      ensures child != null ==>
                && Stop(old(code)) == Await(child.code, code)
                && !done && operand == child
                && fresh(child) && child.caller == this && child.below == below + [code]
                && child.nextHandle == null && child.operand == null
                && !child.done && !child.destroyed
    {
      if operand != null {
        operand.Destroy();
        operand := null;
      }
      child, out' := null, out;
      while code.Print?
        invariant out' + Burst(code) == out + Burst(old(code))
        invariant Stop(code) == Stop(old(code))
        decreases code
        modifies this`code
      {
        out' := out' + [code.event];
        code := code.rest;
      }
      if code.Await? {
        child := new Frame(code.child, this, below + [code.rest]);
        operand, code := child, code.rest;
      } else {
        done := true;
      }
    }
  }

  /** All the frames of one call of a coroutine, and what they print. */
  class Activations {
    const root: Frame
    // What has been written to std::cout
    var out: seq<Event>

    ghost var heap: set<Frame>   // every frame ever created
    ghost var alive: set<Frame>  // those that have not been destroyed
    ghost var top: Frame         // the innermost of them

    /** The frames that exist form one chain from the root, each awaiting the next. */
    ghost predicate Chain()
      reads this, heap`code, heap`operand, heap`done, heap`destroyed
    {
      && alive <= heap && root in alive && top in alive
      && (forall f :: f in heap ==> (f.destroyed <==> f !in alive))
      && (forall f :: f in alive && f != top ==> |f.below| < |top.below| && !f.done)
      && root.caller == null && root.below == [] && (forall f :: f in alive && f != root ==> f.below != [])
      && (forall f {:trigger f.caller} :: f in alive && f != root ==> f.caller in alive && f.caller.operand == f)
      && (forall f {:trigger f.operand} :: f in alive && f != top ==>
            && f.operand in alive && f.operand.caller == f
            && f.operand.below == f.below + [f.code])
    }

    /** The innermost frame awaits nothing: it has just been created or it is done. */
    ghost predicate Suspended()
      reads this, heap`code, heap`operand, heap`done, heap`destroyed
    {
      Chain() && top.operand == null
    }

    /** What the coroutines that are not done have still to run, the innermost last. */
    ghost function Live(): seq<Code>
      reads this, heap`code, heap`operand, heap`done, heap`destroyed
      requires Suspended()
    {
      if top.done then top.below else top.below + [top.code]
    }

    /** The innermost coroutine that is not done, null when all are. */
    ghost function Deepest(): (f: Frame?)
      reads this, heap`code, heap`operand, heap`done, heap`destroyed
      requires Suspended()
      ensures f != null ==> f in alive && !f.done && Live() == f.below + [f.code]
      ensures f == null <==> Live() == []
    {
      if top.done then top.caller else top
    }

    lemma AllEnded()
      requires Suspended()
      ensures Live() == [] <==> root.done
      ensures root.done ==> alive == {root}
    {}

    lemma {:induction false} DepthsDiffer(f: Frame, g: Frame)
      requires Chain() && f in alive && g in alive && |f.below| == |g.below|
      ensures f == g
      decreases |top.below| - |f.below|
    {
      if f != top {
        DepthsDiffer(f.operand, g.operand);
      }
    }

    constructor (code: Code)
      ensures Suspended() && fresh(heap) && |heap| == 1 && heap == alive == {root}
      ensures Live() == [code] && out == []
      ensures root.nextHandle == null
    {
      var f := new Frame(code, null, []);
      root, out := f, [];
      heap, alive, top := {f}, {f}, f;
    }

    /**
      Resumes the innermost coroutine that is not done, up to its next suspension point. If it
      called another one, that one is now the innermost and `child` is its frame.
    */
    method Resume(inner: Frame) returns (child: Frame?)
      requires Suspended() && inner == Deepest()
      modifies this, heap
      ensures Suspended() && heap == old(heap) + (if child == null then {} else {child})
      ensures |heap| == |old(heap)| + Births(old(Top(Live())))
      ensures out == old(out) + Burst(old(Top(Live())))
      ensures Live() == old(Step(Live()))
      ensures alive <= old(alive) + (if child == null then {} else {child})
      ensures forall f :: f in old(heap) ==> f.nextHandle == old(f.nextHandle)
      ensures forall f :: f in old(heap) && f != inner ==> f.operand == old(f.operand)
      ensures child == null ==> inner == top && inner.done
      ensures child != null ==>
                && child == top && child.caller == inner && fresh(child)
                && child.nextHandle == null && !child.done
    {
      StepOnTop(inner.below, inner.code);
      child := Run(inner);
      if child != null {
        Enter(child);
      }
    }

    method Run(inner: Frame) returns (child: Frame?)
      requires Suspended() && inner == Deepest()
      modifies this`out, this`alive, this`top, heap`code, heap`operand, heap`done, heap`destroyed
      ensures Chain() && top == inner && top.operand == child && alive <= old(alive)
      ensures forall f :: f in old(heap) && f != inner ==> f.operand == old(f.operand)
      ensures out == old(out) + Burst(old(inner.code))
      ensures child == null ==> top.done && Stop(old(inner.code)) == Done
      ensures child != null ==>
                && Stop(old(inner.code)) == Await(child.code, top.code)
                && !top.done && fresh(child) && child.caller == top && child.below == top.below + [top.code]
                && child.nextHandle == null && child.operand == null && !child.done && !child.destroyed
    {
      assert inner != top ==> forall f :: f in alive && f != top && f != inner ==> f.operand != top;
      child, out := inner.Resume(out);
      if inner != top {
        alive, top := alive - {top}, inner;
      }
    }

    ghost method Enter(child: Frame)
      requires Chain() && top.operand == child && !top.done
      requires child !in heap && child.caller == top && child.below == top.below + [top.code]
      requires child.operand == null && !child.done && !child.destroyed
      modifies this`heap, this`alive, this`top
      ensures Suspended() && heap == old(heap) + {child} && |heap| == |old(heap)| + 1
      ensures alive == old(alive) + {child} && top == child
      ensures Live() == old(top.below) + [old(top.code)] + [child.code]
    {
      heap, alive, top := heap + {child}, alive + {child}, child;
    }

    /**
      ~CoState of the root, before, between or after its resumptions: with each frame dies the
      callee that it awaits, so that nothing is left over.
    */
    method Drop()
      requires Suspended()
      modifies heap`destroyed
      ensures forall f :: f in heap ==> f.destroyed
    {
      DropFrom(root);
    }

    /** A frame dies after the temporary in it, each once. */
    method DropFrom(f: Frame)
      requires Suspended() && f in alive
      modifies heap`destroyed
      ensures forall g :: g in heap ==> (g.destroyed <==> old(g.destroyed) || (g in alive && |g.below| >= |f.below|))
      decreases |top.below| - |f.below|
    {
      forall g | g in alive && |g.below| == |f.below| ensures g == f {
        DepthsDiffer(f, g);
      }
      if f.operand != null {
        DropFrom(f.operand);
      }
      f.Destroy();
    }
  }
}
