/**
  `coroutines/nested`: an async call stack whose frames are linked both ways, a scheduler
  pointer that reaches a frame when it is first needed, and one parked handle.
*/
module AsyncStack {
  import opened AsyncProgram
  import opened Common

  class Scheduler {
    var toResume: Promise?
    var resumeValue: int

    constructor ()
      ensures toResume == null
    {
      toResume, resumeValue := null, -1;
    }
  }

  /** A coroutine frame with its promise. A promise and its handle are one object here. */
  class Promise {
    // promise_base
    var parent: Promise?
    var child: Promise?
    var parentHandle: Promise?
    var selfHandle: Promise?
    var scheduler: Scheduler?
    // opt_return_value of Async, result of AsyncResult
    var value: Option<int>
    // The rest of the body. At a suspended await it starts with that await.
    var code: Prog
    // The Async object awaited on
    var operand: Promise?
    // GetData::promise of the GetData awaited on
    var awaiter: Promise?
    var done: bool
    ghost var destroyed: bool
    // Position in the call stack: 0 for spawn_task, and what the callers below spawn_task still do
    ghost const level: nat
    ghost const callers: seq<Kont>

    constructor (code: Prog, ghost level: nat, ghost callers: seq<Kont>)
      ensures this.code == code && this.level == level && this.callers == callers
      ensures parent == child == parentHandle == selfHandle == operand == awaiter == null
      ensures scheduler == null && value == None && !done && !destroyed
    {
      this.code, this.level, this.callers := code, level, callers;
      parent, child, parentHandle, selfHandle, operand, awaiter := null, null, null, null, null, null;
      scheduler, value, done, destroyed := null, None, false, false;
    }

    /** promise_base::setScheduler: this promise and those linked below it. */
    method SetScheduler(s: Scheduler, ghost below: seq<Promise>)
      requires Linked(below) && !destroyed && forall f :: f in below ==> !f.destroyed
      modifies this`scheduler, (set f | f in below)`scheduler
      ensures scheduler == s && forall f :: f in below ==> f.scheduler == s
      decreases |below|
    {
      scheduler := s;
      if child != null {
        child.SetScheduler(s, below[1..]);
      }
    }

    /** `below` are the promises reached from here through `child`. */
    ghost predicate Linked(below: seq<Promise>)
      reads this, below
      decreases |below|
    {
      if below == [] then child == null
      else child == below[0] && this !in below && below[0].Linked(below[1..])
    }

    /** Async::await_suspend, called on the frame of the awaited coroutine. */
    method AwaitSuspend(caller: Promise)
      requires !destroyed && !caller.destroyed
      requires caller != this && parent == null && caller.child == null
      modifies this`parent, this`parentHandle, this`selfHandle, caller`child
      ensures parent == parentHandle == caller && selfHandle == this && caller.child == this
    {
      assert parent == null;
      parent, parentHandle, selfHandle := caller, caller, this;
      assert caller.child == null;
      caller.child := this;
    }

    /** coroutine_handle::destroy() of a suspended coroutine. */
    method Destroy()
      requires !destroyed
      modifies this`destroyed
      ensures destroyed
    {
      destroyed := true;
    }
  }

  class SpawnedTask {
    const sched: Scheduler
    const self: Promise   // the frame of spawn_task
    const task: Promise   // the task it was given
    var out: seq<Event>

    ghost var heap: set<Promise>
    ghost var alive: set<Promise>
    ghost var top: Promise  // the innermost coroutine
    ghost var known: nat    // the scheduler has reached the frames of levels 1..known

    /**
      The call `spawn_task(sched, task)` up to its first line: the task's frame exists, and
      spawn_task, which is not suspended initially, sets the scheduler and awaits the task.
    */
    constructor (sched: Scheduler, prog: Prog)
      requires sched.toResume == null
      ensures this.sched == sched && Running() && fresh(heap)
      ensures top == task && task.code == prog && task.callers == [] && out == []
    {
      var t := new Promise(prog, 1, []);
      var f := new Promise(prog, 0, []);  // the body of spawn_task is in ReturnFromTask
      t.SetScheduler(sched, []);
      t.AwaitSuspend(f);
      f.operand := t;
      this.sched, self, task, out := sched, f, t, [];
      heap, alive, top, known := {t, f}, {t, f}, t, 1;
    }

    /**
      The frames that exist form one doubly linked chain from spawn_task to `top`; those that
      hold the scheduler are its non-empty upper segment, spawn_task itself left out.
    */
    ghost predicate Chain()
      reads this, heap
    {
      && {self, task, top} <= alive <= heap
      && self.level == 0 && task.level == 1 && 1 <= known <= top.level
      && (forall f :: f in heap ==> (f.destroyed <==> f !in alive))
      && (forall f :: f in alive ==> !f.done && f.value == None)
      && (forall f :: f in alive && f != top ==> f.level < top.level)
      && (forall f :: f in alive && f != self ==> |f.callers| == f.level - 1)
      && (forall f {:trigger f.scheduler} :: f in alive ==> f.scheduler == if 1 <= f.level <= known then sched else null)
      && self.parent == null
      && (forall f {:trigger f.parent} :: f in alive && f != self ==>
            && f.parent in alive && f.parentHandle == f.parent
            && f.parent.operand == f && f.parent.child == f
            && f.level == f.parent.level + 1
            && (f != task ==> f.parent.code.Call? && f.callers == f.parent.callers + [f.parent.code.next]))
      && (forall f {:trigger f.operand} :: f in alive && f != top ==> f.operand in alive && f.operand.parent == f)
    }

    /** What has been printed, and what direct-style evaluation would do from here with the data still to come. */
    ghost function Whole(data: seq<int>): Outcome
      reads this, top, self
    {
      After(out, match self.value
                 case Some(v) => Value([], v, data)
                 case None => EvalUnder(top.code, top.callers, data))
    }

    lemma {:induction false} LevelsDiffer(f: Promise, g: Promise)
      requires Chain() && f in alive && g in alive && f.level == g.level
      ensures f == g
      decreases top.level - f.level
    {
      if f != top {
        LevelsDiffer(f.operand, g.operand);
      }
    }

    /** `top` runs. */
    ghost predicate Running()
      reads this, heap, sched
    {
      && Chain() && sched.toResume == null
      && top.child == null && top.operand == null
    }

    /** `top` waits for a datum, and the scheduler has its handle. */
    ghost predicate Parked()
      reads this, heap, sched
    {
      && Chain() && sched.toResume == top && known == top.level
      && top.code.GetData? && top.awaiter == top && top.child == null && top.operand == null
    }

    /** spawn_task has returned. Its frame and that of its parameter outlive it. */
    ghost predicate Finished()
      reads this, heap, sched
    {
      && alive == {self, task} <= heap && self != task
      && (forall f :: f in heap ==> (f.destroyed <==> f !in alive))
      && sched.toResume == null && self.done && task.done && self.value.Some? && self.child == null
      && task.operand == null && self.level == 0 && task.level == 1
    }

    /** `co_await f()`: the callee is created and linked, and control goes to it. */
    method Call(control: Promise) returns (next: Promise)
      requires Running() && control == top && top.code.Call?
      modifies this`heap, this`alive, this`top, top`child, top`operand
      ensures Running() && next == top && heap == old(heap) + {top} && fresh(top)
      ensures top.code == old(top.code.callee) && top.callers == old(top.callers) + [old(top.code.next)]
    {
      next := new Promise(control.code.callee, control.level + 1, control.callers + [control.code.next]);
      Link(control, next);
      Push(next);
    }

    method Link(control: Promise, next: Promise)
      requires Running() && control == top
      requires next !in heap && next.parent == null && !next.destroyed
      modifies control`child, control`operand, next`parent, next`parentHandle, next`selfHandle
      ensures Chain() && top.operand == top.child == next && next.parent == next.parentHandle == top
    {
      next.AwaitSuspend(control);
      control.operand := next;
    }

    ghost method Push(next: Promise)
      requires Chain() && sched.toResume == null && top.code.Call? && top.operand == top.child == next
      requires next !in heap && next.level == top.level + 1 && next.callers == top.callers + [top.code.next]
      requires next.parent == next.parentHandle == top && next.scheduler == null
      requires next.child == next.operand == null && next.value == None && !next.done && !next.destroyed
      modifies this`heap, this`alive, this`top
      ensures Running() && top == next && heap == old(heap) + {next}
    {
      heap, alive, top := heap + {next}, alive + {next}, next;
    }

    /** `co_await GetData{}`: find the scheduler, hand it down, park. */
    method Suspend(control: Promise)
      requires Running() && control == top && top.code.GetData?
      modifies this`known, sched`toResume, control`awaiter, heap`scheduler
      ensures Parked() && unchanged(this`top, top`code)
    {
      var s := FindScheduler(control);
      Propagate(control, s);
      Park(control, s);
    }

    /** The last part of GetData::await_suspend. */
    method Park(control: Promise, s: Scheduler)
      requires Running() && control == top && top.code.GetData? && s == sched && known == top.level
      modifies sched`toResume, control`awaiter
      ensures Parked()
    {
      control.awaiter := control;
      assert s.toResume == null;
      s.toResume := control;
    }

    method Propagate(control: Promise, s: Scheduler)
      requires Running() && control == top && s == sched
      modifies this`known, heap`scheduler
      ensures Running() && known == top.level
    {
      HandUp(control, s);
      known := top.level;
    }

    /** The second loop of GetData: from the innermost frame up to the first that has a scheduler. */
    method HandUp(control: Promise, s: Scheduler)
      requires Running() && control == top && s == sched
      modifies heap`scheduler
      ensures forall f {:trigger f.scheduler} :: f in alive ==> f.scheduler == if 1 <= f.level then sched else null
    {
      forall f, g | f in alive && g in alive && f.level == g.level ensures f == g {
        LevelsDiffer(f, g);
      }
      var it := control as Promise?;
      while it != null && it.scheduler == null
        invariant it in alive && it.level >= known
        invariant forall f {:trigger f.scheduler} :: f in alive ==>
          f.scheduler == if 1 <= f.level <= known || f.level > it.level then sched else null
        decreases if it == null then 0 else it.level
        modifies heap`scheduler
      {
        assert !it.destroyed;
        it.scheduler := s;
        it := it.parent;
      }
    }

    method FindScheduler(control: Promise) returns (s: Scheduler)
      requires Running() && control == top
      ensures s == sched
    {
      var found: Scheduler? := null;
      var it := control as Promise?;
      while it != null
        invariant found == null ==> it in alive && it.level >= known
        invariant found != null ==> found == sched
        decreases if found == null then it.level else 0, if it != null then 1 else 0
      {
        assert !it.destroyed;
        if it.scheduler != null {
          found := it.scheduler;
          break;
        }
        it := it.parent;
      }
      assert found != null;
      s := found;
    }

    /** `co_return v` in a coroutine called by another: its caller goes on with v, and its frame dies. */
    method Return(control: Promise) returns (next: Promise)
      requires Running() && control == top && top != task && top.code.Return?
      modifies this`alive, this`top, this`known, control, control.parent
      ensures Running() && next == top
      ensures var n := |old(top.callers)| - 1;
              && n >= 0 && top.callers == old(top.callers)[..n]
              && top.code == old(top.callers)[n].At(old(top.code.value))
    {
      next := control.parent;
      CallerIsNext();
      Unwind(control);
      Pop(next);
    }

    lemma CallerIsNext()
      requires Chain() && top != self
      ensures forall f :: f in alive && f != top && f != top.parent ==> f.level < top.parent.level
    {
      forall f | f in alive && f != top && f != top.parent ensures f.level < top.parent.level {
        assert f.operand.parent == f;
      }
    }

    /** The innermost frame has died and its caller `next` runs. */
    ghost method Pop(next: Promise)
      requires sched.toResume == null && {self, task, top, next} <= alive <= heap && top != self && top != task
      requires next == top.parent && top.level == next.level + 1 && top.callers != [] && top != next
      requires self.level == 0 && task.level == 1 && 1 <= known <= top.level && self.parent == null
      requires forall f :: f in heap ==> (f.destroyed <==> f !in alive || f == top)
      requires forall f :: f in alive && f != top ==> !f.done && f.value == None
      requires forall f :: f in alive && f != top && f != next ==> f.level < next.level
      requires forall f :: f in alive && f != self ==> |f.callers| == f.level - 1
      requires forall f {:trigger f.scheduler} :: f in alive ==> f.scheduler == if 1 <= f.level <= known then sched else null
      requires forall f {:trigger f.parent} :: f in alive && f != self && f != top ==>
                 && f.parent in alive && f.parent != top && f.parent != next && f.parentHandle == f.parent
                 && f.parent.operand == f && f.parent.child == f
                 && f.level == f.parent.level + 1
                 && (f != task ==> f.parent.code.Call? && f.callers == f.parent.callers + [f.parent.code.next])
      requires forall f {:trigger f.operand} :: f in alive && f != top && f != next ==>
                 f.operand in alive && f.operand.parent == f
      requires next.child == next.operand == null
      modifies this`alive, this`top, this`known
      ensures Running() && top == next && alive == old(alive) - {old(top)}
    {
      alive, top := alive - {top}, next;
      if known > top.level {
        known := top.level;
      }
    }

    method Unwind(control: Promise)
      requires control.code.Return? && control.value == None && !control.destroyed
      requires control.parent == control.parentHandle != null && control.parent != control
      requires !control.parent.destroyed
      requires control.parent.operand == control && control.parent.code.Call?
      modifies control`value, control`done, control`destroyed
      modifies control.parent`code, control.parent`operand, control.parent`child
      ensures control.done && control.destroyed
      ensures control.parent.code == old(control.parent.code.next).At(control.code.value)
      ensures control.parent.operand == control.parent.child == null
    {
      FinalSuspend(control);
      var caller := control.parentHandle;  // ResumeCaller
      var v := AwaitResume(caller);
      caller.code := caller.code.next.At(v);
      caller.operand.Destroy();
      caller.operand := null;
    }

    /** return_value, then the final suspension. */
    method FinalSuspend(control: Promise)
      requires !control.destroyed && control.code.Return? && control.value == None
      modifies control`value, control`done
      ensures control.value == Some(control.code.value) && control.done
    {
      assert control.value == None;
      control.value, control.done := Some(control.code.value), true;
    }

    /** Async::await_resume in the coroutine `caller`. */
    method AwaitResume(caller: Promise) returns (v: int)
      requires !caller.destroyed && caller.operand != null && !caller.operand.destroyed
      requires caller.operand.parent != null && !caller.operand.parent.destroyed && caller.operand.value.Some?
      modifies caller.operand.parent`child
      ensures caller.operand.parent.child == null && v == caller.operand.value.value
    {
      caller.operand.parent.child := null;
      v := caller.operand.value.value;
    }

    /** `co_return` in the task: spawn_task goes on, returns the same value, and is suspended for good. */
    method ReturnFromTask(control: Promise)
      requires Running() && control == top == task && top.code.Return?
      modifies control`value, control`done, self
      ensures Finished() && self.value == Some(control.code.value)
    {
      FinalSuspend(control);
      var v := AwaitResume(self);
      self.value, self.done := Some(v), true;
    }

    /** A line of the running coroutine. */
    method PrintLine(control: Promise)
      requires Running() && control == top && top.code.Print?
      modifies this`out, control`code
      ensures Running()
      ensures ActionsUnder(top.code, top.callers) < old(ActionsUnder(top.code, top.callers))
      ensures forall data :: Whole(data) == old(Whole(data))
    {
      ghost var code := control.code;
      PrintAdvances(code, control.callers);
      forall data { AfterAfter(out, [code.event], EvalUnder(code.rest, control.callers, data)); }
      out, control.code := out + [control.code.event], control.code.rest;
    }

    /** One action of the running coroutine. `next` is the coroutine that runs after it, if any. */
    method Act(control: Promise) returns (next: Promise?)
      requires Running() && control == top
      modifies this, sched`toResume, heap
      ensures old(heap) <= heap && fresh(heap - old(heap))
      ensures next == null ==> Parked() || Finished()
      ensures next != null ==>
                && Running() && next == top
                && ActionsUnder(top.code, top.callers) < old(ActionsUnder(top.code, top.callers))
      ensures forall data :: Whole(data) == old(Whole(data))
    {
      assert !control.destroyed;
      var code := control.code;
      ghost var callers := control.callers;
      match code
      case Print(_, _) =>
        PrintLine(control);
        next := control;
      case Call(_, _) =>
        CallAdvances(code, callers);
        next := Call(control);
        forall data { AfterNothing(EvalUnder(top.code, top.callers, data)); }
      case GetData(_) =>
        Suspend(control);
        next := null;
      case Return(_) =>
        if control == task {
          ReturnFromTask(control);
          next := null;
        } else {
          ReturnAdvances(code, callers);
          next := Return(control);
          forall data { AfterNothing(EvalUnder(top.code, top.callers, data)); }
        }
    }

    /** Control passes from coroutine to coroutine until one waits for a datum or the task is over. */
    method RunOn(control: Promise)
      requires Running() && control == top
      modifies this, sched`toResume, heap
      ensures old(heap) <= heap && fresh(heap - old(heap))
      ensures Parked() || Finished()
      ensures forall data :: Whole(data) == old(Whole(data))
    {
      var next := control as Promise?;
      while next != null
        invariant old(heap) <= heap && fresh(heap - old(heap))
        invariant if next == null then Parked() || Finished() else Running() && next == top
        invariant forall data :: Whole(data) == old(Whole(data))
        decreases next != null, ActionsUnder(top.code, top.callers)
      {
        next := Act(next);
      }
    }

    /** Scheduler::resumeWithData: one datum for the one parked coroutine. */
    method ResumeWithData(j: int)
      requires Parked()
      modifies this, sched, heap
      ensures old(heap) <= heap && fresh(heap - old(heap))
      ensures Parked() || Finished()
      ensures forall data :: Whole(data) == old(Whole([j] + data))
    {
      DatumFeeds(top.code, top.callers, j);
      sched.resumeValue := j;
      var h := sched.toResume;
      sched.toResume := null;
      Wake(h);
      RunOn(h);
    }

    /** GetData::await_resume. */
    method Wake(h: Promise)
      requires Chain() && sched.toResume == null && h == top && known == top.level && !h.destroyed
      requires h.code.GetData? && h.awaiter == h && h.child == null && h.operand == null
      modifies h`code, h`awaiter
      ensures Running() && h.code == old(h.code.next).At(sched.resumeValue)
    {
      var v := h.awaiter.scheduler.resumeValue;
      h.code, h.awaiter := h.code.next.At(v), null;
    }

    /** Whether a datum is wanted or the result is there: always one of the two. */
    lemma OneOfTwo()
      requires Parked() || Finished()
      ensures Parked() <==> sched.toResume != null
      ensures Finished() <==> self.done
      ensures self.done <==> sched.toResume == null
    {}

    /** What a result, or a wait with no data left, says about the program. */
    lemma Settled(data: seq<int>)
      requires Parked() || Finished()
      ensures Finished() ==> self.value.Some? && Whole(data) == Value(out, self.value.value, data)
      ensures Parked() && data == [] ==> Whole(data) == Blocked(out)
    {
      assert out + [] == out;
      if Parked() {
        DatumFeeds(top.code, top.callers, 0);
      }
    }

    /** AsyncResult::result */
    method Result() returns (v: int)
      requires Finished()
      ensures self.value == Some(v)
    {
      assert !self.destroyed && self.value.Some?;
      v := self.value.value;
    }

    /**
      ~AsyncResult, whether the task is complete or still parked: the frame of spawn_task dies,
      with it the task, its parameter, and with each frame the callee that it awaits. If the task
      was parked, the scheduler keeps a handle that names no frame any more.
    */
    method Drop()
      requires Parked() || Finished()
      modifies heap`destroyed
      ensures forall f :: f in heap ==> f.destroyed
      ensures sched.toResume == old(sched.toResume)
      ensures old(Parked()) ==> sched.toResume == top && top.destroyed
    {
      DropFrom(task);
      self.Destroy();
    }

    /** ~Async: a frame dies after the temporaries in it, each once. */
    method DropFrom(f: Promise)
      requires if Finished() then f == task else Chain() && top.operand == null && f in alive && f != self
      modifies heap`destroyed
      ensures forall g :: g in heap ==> (g.destroyed <==> old(g.destroyed) || (g in alive && g.level >= f.level))
      decreases if Finished() then 0 else top.level - f.level
    {
      if Chain() {
        forall g | g in alive && g.level == f.level ensures g == f {
          LevelsDiffer(f, g);
        }
      }
      if f.operand != null {
        DropFrom(f.operand);
      }
      f.Destroy();
    }
  }

  /** `spawn_task`: runs the task up to its first wait for a datum, or to its end. */
  method Spawn(prog: Prog) returns (s: SpawnedTask)
    ensures fresh(s) && fresh(s.sched) && fresh(s.heap)
    ensures s.Parked() || s.Finished()
    ensures forall data :: s.Whole(data) == Eval(prog, data)
  {
    var sched := new Scheduler();
    s := new SpawnedTask(sched, prog);
    s.RunOn(s.task);
    forall data { AfterNothing(Eval(prog, data)); }
  }

  /**
    Spawns a program on its own scheduler and calls resumeWithData once per datum, as long as a
    coroutine waits for one: the outcome is that of direct-style evaluation with the same data.
  */
  method SpawnAndFeed(prog: Prog, data: seq<int>) returns (s: SpawnedTask, used: nat)
    ensures used <= |data|
    ensures match Eval(prog, data)
            case Value(t, v, unused) => s.Finished() && s.self.value == Some(v) && s.out == t && unused == data[used..]
            case Blocked(t) => s.Parked() && s.out == t && used == |data|
  {
    s := Spawn(prog);
    used := 0;
    assert data[0..] == data;
    while used < |data| && s.sched.toResume != null
      invariant used <= |data| && fresh(s) && fresh(s.sched) && fresh(s.heap)
      invariant s.Parked() || s.Finished()
      invariant s.Whole(data[used..]) == Eval(prog, data)
    {
      s.OneOfTwo();
      assert data[used..] == [data[used]] + data[used + 1..];
      s.ResumeWithData(data[used]);
      used := used + 1;
    }
    s.OneOfTwo();
    s.Settled(data[used..]);
  }

  /** The shipped program: input i and datum j give this result. */
  method RunOuter(prog: Prog, i: int, j: int) returns (result: int)
    requires prog == Outer(i)
    ensures result == (i + j) * 3 + 3
  {
    ShippedResult(i, j, i + j);
    var s, _ := SpawnAndFeed(prog, [j]);
    result := s.Result();
  }
}
