/**
  `coroutines/utils/cooperative_tasks_with_asynchrony`: a queue of coroutines ordered by the
  time at which each wants to go on, and a loop that sleeps until the earliest.
*/
module TimedTasks {
  import opened Common
  import opened Tally

  /** An entry of the priority queue: deadline and frame address, compared in this order. */
  type Timed = (int, int)

  predicate NotAfter(a: Timed, b: Timed) {
    a.0 < b.0 || (a.0 == b.0 && a.1 <= b.1)
  }

  /**
    One resumption: what was waited for, when it happened, which tasks it detached and for when,
    and what is awaited next, if anything.
  */
  datatype Wakeup = Wakeup(deadline: int, id: int, at: int, detached: set<Timed>, awaited: Option<int>)

  ghost function Left(pending: set<Timed>, w: Wakeup): set<Timed> {
    pending - {(w.deadline, w.id)} + w.detached + match w.awaited case Some(d) => {(d, w.id)} case None => {}
  }

  /**
    A run from the entries `pending` at time `now` to the empty queue: it resumes the earliest
    entry, not before its deadline, while the clock never goes back. Tasks detached on the way
    are pending for the time of their detachment.
  */
  ghost predicate Legal(pending: set<Timed>, now: int, log: seq<Wakeup>)
    decreases |log|
  {
    if log == [] then pending == {}
    else
      var w := log[0];
      && (w.deadline, w.id) in pending
      && (forall p :: p in pending ==> NotAfter((w.deadline, w.id), p))
      && w.at >= w.deadline && w.at >= now
      && (forall p :: p in w.detached ==> p.0 >= w.at)
      && Legal(Left(pending, w), w.at, log[1..])
  }

  /** From (p, t) the run `log` is legal as far as it goes and leads to (q, u). */
  ghost predicate LeadsTo(p: set<Timed>, t: int, log: seq<Wakeup>, q: set<Timed>, u: int) {
    forall rest :: Legal(q, u, rest) ==> Legal(p, t, log + rest)
  }

  lemma NothingYet(p: set<Timed>, t: int)
    ensures LeadsTo(p, t, [], p, t)
  {
    forall rest | Legal(p, t, rest) ensures Legal(p, t, [] + rest) {
      assert [] + rest == rest;
    }
  }

  lemma OneMore(p: set<Timed>, t: int, log: seq<Wakeup>, q: set<Timed>, u: int, w: Wakeup)
    requires LeadsTo(p, t, log, q, u) && (w.deadline, w.id) in q && w.at >= w.deadline && w.at >= u
    requires (forall k :: k in q ==> NotAfter((w.deadline, w.id), k)) && (forall k :: k in w.detached ==> k.0 >= w.at)
    ensures LeadsTo(p, t, log + [w], Left(q, w), w.at)
  {
    forall rest | Legal(Left(q, w), w.at, rest) ensures Legal(p, t, log + [w] + rest) {
      assert ([w] + rest)[1..] == rest;
      assert Legal(q, u, [w] + rest);
      assert log + ([w] + rest) == log + [w] + rest;
    }
  }

  lemma NothingLeft(p: set<Timed>, t: int, log: seq<Wakeup>, u: int)
    requires LeadsTo(p, t, log, {}, u)
    ensures Legal(p, t, log)
  {
    assert Legal({}, u, []);
    assert log + [] == log;
  }

  /** Nothing is resumed before its deadline, or out of the order of the clock. */
  lemma {:induction false} NeverEarly(pending: set<Timed>, now: int, log: seq<Wakeup>)
    requires Legal(pending, now, log)
    ensures forall k :: 0 <= k < |log| ==> log[k].at >= log[k].deadline && log[k].at >= now
    ensures forall k, l :: 0 <= k < l < |log| ==> log[k].at <= log[l].at
    decreases |log|
  {
    if log == [] {
    } else {
      NeverEarly(Left(pending, log[0]), log[0].at, log[1..]);
      assert forall k :: 1 <= k < |log| ==> log[k] == log[1..][k - 1];
    }
  }

  /** Whoever waits still when another is resumed does not wait for an earlier time. */
  lemma {:induction false} NothingOvertaken(pending: set<Timed>, now: int, log: seq<Wakeup>, p: Timed) returns (k: nat)
    requires Legal(pending, now, log) && p in pending
    ensures k < |log| && log[k].deadline == p.0 && log[k].id == p.1
    ensures forall l :: 0 <= l < k ==> NotAfter((log[l].deadline, log[l].id), p)
    decreases |log|
  {
    var w := log[0];
    if p == (w.deadline, w.id) {
      k := 0;
    } else {
      var rest := log[1..];
      var k' := NothingOvertaken(Left(pending, w), w.at, rest, p);
      k := k' + 1;
      assert forall l :: 1 <= l < |log| ==> log[l] == rest[l - 1];
    }
  }

  /** Of two pending entries the one for the earlier time is met first, and for one time that with the lower address. */
  lemma EarlierFirst(pending: set<Timed>, now: int, log: seq<Wakeup>, p: Timed, q: Timed) returns (k: nat, l: nat)
    requires Legal(pending, now, log) && p in pending && q in pending
    requires p.0 < q.0 || (p.0 == q.0 && p.1 < q.1)
    ensures k < l < |log|
    ensures log[k].deadline == p.0 && log[k].id == p.1 && log[l].deadline == q.0 && log[l].id == q.1
    ensures forall j :: 0 <= j < k ==> log[j].deadline != q.0 || log[j].id != q.1
  {
    k := NothingOvertaken(pending, now, log, p);
    l := NothingOvertaken(pending, now, log, q);
  }

  /** Every awaited deadline is no earlier than the one the task has just woken from. */
  ghost predicate Forward(log: seq<Wakeup>) {
    forall k :: 0 <= k < |log| && log[k].awaited.Some? ==> log[k].awaited.value >= log[k].deadline
  }

  ghost predicate Sorted(log: seq<Wakeup>) {
    forall k, l :: 0 <= k < l < |log| ==> log[k].deadline <= log[l].deadline
  }

  /** The deadlines are met in order if and only if no task awaits a time before the one it woke from. */
  lemma {:induction false} SortedIffForward(pending: set<Timed>, now: int, log: seq<Wakeup>)
    requires Legal(pending, now, log)
    ensures Sorted(log) <==> Forward(log)
    ensures log != [] && Forward(log) ==> forall k :: 0 <= k < |log| ==> log[0].deadline <= log[k].deadline
    decreases |log|
  {
    if log == [] {
    } else {
      var w, rest := log[0], log[1..];
      var pending' := Left(pending, w);
      SortedIffForward(pending', w.at, rest);
      assert forall k :: 1 <= k < |log| ==> log[k] == rest[k - 1];
      assert Forward(log) <==> Forward(rest) && (w.awaited.Some? ==> w.awaited.value >= w.deadline);
      if w.awaited.Some? && w.awaited.value < w.deadline {
        assert (w.awaited.value, w.id) in pending';
        assert rest != [] && rest[0].deadline <= w.awaited.value;
        assert log[1].deadline < log[0].deadline;
        assert !Sorted(log);
      } else if rest != [] {
        assert (rest[0].deadline, rest[0].id) in pending';
        assert w.deadline <= rest[0].deadline;
      }
    }
  }

  // ---------- The scheduler ----------

  /** What a task does in each of its resumptions: detach some tasks, then await a time or end. */
  datatype Plan =
    | Ends(detaches: seq<Plan>)
    | Awaits(detaches: seq<Plan>, rest: Plan)

  /** Resumptions that a task and all it detaches still need. */
  ghost function Resumes(p: Plan): int
    decreases p
  {
    1 + ResumesOfAll(p.detaches) + if p.Awaits? then Resumes(p.rest) else 0
  }

  ghost function ResumesOfAll(ps: seq<Plan>): int
    decreases ps
  {
    if ps == [] then 0 else ResumesOfAll(ps[..|ps| - 1]) + Resumes(ps[|ps| - 1])
  }

  lemma {:induction false} ResumesArePositive(p: Plan)
    ensures Resumes(p) >= 1
    decreases p
  {
    ResumesAreNonnegative(p.detaches);
    if p.Awaits? {
      ResumesArePositive(p.rest);
    }
  }

  lemma {:induction false} ResumesAreNonnegative(ps: seq<Plan>)
    ensures ResumesOfAll(ps) >= 0
    decreases ps
  {
    if ps == [] {
    } else {
      ResumesAreNonnegative(ps[..|ps| - 1]);
      ResumesArePositive(ps[|ps| - 1]);
    }
  }

  class Coroutine {
    const id: int
    var plan: Plan
    var done: bool
    ghost var destroyed: bool

    constructor (id: int, plan: Plan)
      ensures this.id == id && this.plan == plan && !done && !destroyed
    {
      this.id, this.plan, done, destroyed := id, plan, false, false;
    }

    /** The end of a resumption: at the next `co_await time_point`, any time at all, or at the end. */
    method Suspend() returns (awaited: Option<int>)
      requires !done && !destroyed
      modifies this`plan, this`done
      ensures awaited.None? <==> done
      ensures done <==> old(plan).Ends?
      ensures !done ==> plan == old(plan.rest)
    {
      if plan.Awaits? {
        plan := plan.rest;
        var time: int := *;
        awaited := Some(time);
      } else {
        done := true;
        awaited := None;
      }
    }

    /** coroutine_handle::done(), defined only on a frame that still exists. */
    predicate IsDone()
      reads this
      requires !destroyed
    {
      done
    }

    method Destroy()
      requires done && !destroyed
      modifies this`destroyed
      ensures destroyed
    {
      destroyed := true;
    }
  }

  ghost function Entries(keys: seq<Timed>): set<Timed> {
    set k | k in keys
  }

  ghost predicate Distinct(keys: seq<Timed>) {
    forall i, j :: 0 <= i < j < |keys| ==> keys[i].1 != keys[j].1
  }

  lemma EntriesWithout(keys: seq<Timed>, b: nat)
    requires b < |keys| && Distinct(keys)
    ensures Entries(Without(keys, b)) == Entries(keys) - {keys[b]}
    ensures Distinct(Without(keys, b))
    ensures forall i :: 0 <= i < |Without(keys, b)| ==> Without(keys, b)[i].1 != keys[b].1
  {
    var rest := Without(keys, b);
    forall k | k in Entries(keys) - {keys[b]} ensures k in rest {
      var i :| 0 <= i < |keys| && keys[i] == k;
      assert rest[if i < b then i else i - 1] == k;
    }
    assert forall i :: 0 <= i < |rest| ==> rest[i] == keys[if i < b then i else i + 1];
  }

  /** Some address is free. */
  lemma {:induction false} SomeFree(used: set<int>) returns (above: int)
    ensures forall i :: i in used ==> i < above
    decreases |used|
  {
    if i :| i in used {
      var rest := SomeFree(used - {i});
      above := if i < rest then rest else i + 1;
      assert forall k :: k in used ==> k == i || k in used - {i};
    } else {
      above := 0;
    }
  }

  class Scheduler {
    var pending: seq<(int, Coroutine)>
    var now: int                   // the system clock
    ghost var keys: seq<Timed>
    ghost var plans: seq<Plan>     // what the queued coroutines will still do
    ghost var heap: set<Coroutine>
    ghost var alive: set<Coroutine>

    ghost predicate Valid()
      reads this, heap
    {
      Queued() && |alive| == |pending|
    }

    ghost predicate Holds(active: Coroutine)
      reads this, heap
    {
      && Queued() && |alive| == |pending| + 1 && active in alive
      && forall i :: 0 <= i < |pending| ==> pending[i].1 != active && keys[i].1 != active.id
    }

    ghost predicate Queued()
      reads this, heap
    {
      && alive <= heap && (forall c :: c in heap ==> (c.destroyed <==> c !in alive))
      && |keys| == |pending| == |plans| && Distinct(keys)
      && (forall i :: 0 <= i < |pending| ==>
            && pending[i].1 in alive && !pending[i].1.done
            && keys[i] == (pending[i].0, pending[i].1.id) && plans[i] == pending[i].1.plan)
    }

    constructor (now: int)
      ensures Valid() && keys == [] && heap == {} && this.now == now
    {
      pending, keys, plans, heap, alive := [], [], [], {}, {};
      this.now := now;
    }

    /** `detach()`, before the scheduler runs or from `active`: enqueued for the present time. */
    method Detach(c: Coroutine, ghost active: Coroutine?)
      requires if active == null then Valid() else Holds(active) && active.id != c.id
      requires c !in heap && !c.done && !c.destroyed
      requires forall i :: 0 <= i < |keys| ==> keys[i].1 != c.id
      modifies this
      ensures if active == null then Valid() else Holds(active)
      ensures now >= old(now) && keys == old(keys) + [(now, c.id)] && heap == old(heap) + {c}
      ensures plans == old(plans) + [c.plan]
    {
      Tick();
      Insert(c);
    }

    method Insert(c: Coroutine)
      requires Queued() && c !in heap && !c.done && !c.destroyed
      requires forall i :: 0 <= i < |keys| ==> keys[i].1 != c.id
      modifies this`pending, this`keys, this`plans, this`heap, this`alive
      ensures Queued() && pending == old(pending) + [(now, c)] && keys == old(keys) + [(now, c.id)]
      ensures plans == old(plans) + [c.plan] && heap == old(heap) + {c}
      ensures alive == old(alive) + {c} && |alive| == |old(alive)| + 1
    {
      pending, keys := pending + [(now, c)], keys + [(now, c.id)];
      plans, heap, alive := plans + [c.plan], heap + {c}, alive + {c};
    }

    /** An address for a new frame: any that no other frame has. */
    method Allocate(active: Coroutine) returns (id: int)
      requires Holds(active)
      ensures id != active.id && forall i :: 0 <= i < |keys| ==> keys[i].1 != id
    {
      var used := {active.id} + set i | 0 <= i < |pending| :: pending[i].1.id;
      ghost var free := SomeFree(used);
      assert free !in used;
      id :| id !in used;
      forall i | 0 <= i < |keys| ensures keys[i].1 != id {
        assert pending[i].1.id in used;
      }
    }

    /** The tasks that a resumption detaches. */
    method DetachAll(active: Coroutine, detaches: seq<Plan>) returns (detached: set<Timed>)
      requires Holds(active)
      modifies this
      ensures Holds(active) && now >= old(now) && old(heap) <= heap && fresh(heap - old(heap))
      ensures Entries(keys) == Entries(old(keys)) + detached && forall p :: p in detached ==> p.0 >= old(now)
      ensures Sum(plans, Resumes) == Sum(old(plans), Resumes) + ResumesOfAll(detaches)
    {
      detached := {};
      for i := 0 to |detaches|
        invariant Holds(active) && now >= old(now) && old(heap) <= heap && fresh(heap - old(heap))
        invariant Entries(keys) == Entries(old(keys)) + detached && forall p :: p in detached ==> p.0 >= old(now)
        invariant Sum(plans, Resumes) == Sum(old(plans), Resumes) + ResumesOfAll(detaches[..i])
      {
        var p := DetachOne(active, detaches[i]);
        detached := detached + {p};
        assert detaches[..i + 1][..i] == detaches[..i];
      }
      assert detaches[..|detaches|] == detaches;
    }

    method DetachOne(active: Coroutine, plan: Plan) returns (p: Timed)
      requires Holds(active)
      modifies this
      ensures Holds(active) && now >= old(now) && old(heap) <= heap && fresh(heap - old(heap))
      ensures Entries(keys) == Entries(old(keys)) + {p} && p.0 == now
      ensures Sum(plans, Resumes) == Sum(old(plans), Resumes) + Resumes(plan)
    {
      var id := Allocate(active);
      var c := new Coroutine(id, plan);
      SumOfSnoc(plans, plan, Resumes);
      Detach(c, active);
      p := (now, id);
    }

    /** The clock goes on by itself. */
    method Tick()
      modifies this`now
      ensures now >= old(now)
    {
      var passed: int := *;
      if passed > 0 {
        now := now + passed;
      }
    }

    method SleepUntil(time: int)
      modifies this`now
      ensures now >= old(now) && now >= time
    {
      if now < time {
        now := time;
      }
      Tick();
    }

    /** top() of the priority queue ordered by std::greater. */
    method Top() returns (b: nat)
      requires Valid() && pending != []
      ensures b < |keys| && forall i :: 0 <= i < |keys| ==> NotAfter(keys[b], keys[i])
    {
      b := 0;
      for i := 1 to |pending|
        invariant b < i && forall j :: 0 <= j < i ==> NotAfter(keys[b], keys[j])
      {
        var best, next := pending[b], pending[i];
        if !NotAfter((best.0, best.1.id), (next.0, next.1.id)) {
          b := i;
        }
      }
    }

    method Take(b: nat) returns (time: int, active: Coroutine)
      requires Valid() && b < |pending|
      modifies this`pending, this`keys, this`plans
      ensures Sum(plans, Resumes) == Sum(old(plans), Resumes) - Resumes(active.plan)
      ensures Holds(active) && !active.done && !active.destroyed
      ensures keys == Without(old(keys), b) && old(keys)[b] == (time, active.id)
      ensures Entries(keys) == Entries(old(keys)) - {(time, active.id)}
    {
      EntriesWithout(keys, b);
      SumWithout(plans, b, Resumes);
      time, active := pending[b].0, pending[b].1;
      pending, keys, plans := Without(pending, b), Without(keys, b), Without(plans, b);
    }

    /** WakeupAwaitable::await_suspend */
    method Enqueue(active: Coroutine, time: int)
      requires Holds(active) && !active.done
      modifies this`pending, this`keys, this`plans
      ensures Valid() && Entries(keys) == Entries(old(keys)) + {(time, active.id)}
      ensures Sum(plans, Resumes) == Sum(old(plans), Resumes) + Resumes(active.plan)
    {
      SumOfSnoc(plans, active.plan, Resumes);
      plans := plans + [active.plan];
      pending, keys := pending + [(time, active)], keys + [(time, active.id)];
    }

    method Retire(active: Coroutine)
      requires Holds(active) && active.done && !active.destroyed
      modifies this`alive, active`destroyed
      ensures Valid()
    {
      active.Destroy();
      alive := alive - {active};
    }

    /** The rest of a resumption of `active` and what run() does after it. */
    method Finish(active: Coroutine) returns (awaited: Option<int>)
      requires Holds(active) && !active.done && !active.destroyed
      modifies this`pending, this`keys, this`plans, this`alive, active
      ensures Valid() && awaited.Some? == old(active.plan).Awaits?
      ensures Entries(keys) == Entries(old(keys)) + match awaited case Some(d) => {(d, active.id)} case None => {}
      ensures Sum(plans, Resumes) == Sum(old(plans), Resumes) +
              (if awaited.Some? then Resumes(old(active.plan.rest)) else 0)
    {
      awaited := active.Suspend();
      if awaited.Some? {
        Enqueue(active, awaited.value);
      }
      if active.IsDone() {
        Retire(active);
      }
    }

    /** One pass of the loop of run(). */
    method Turn() returns (w: Wakeup)
      requires Valid() && pending != []
      modifies this, heap
      ensures Valid() && old(heap) <= heap && fresh(heap - old(heap)) && now >= old(now)
      ensures (w.deadline, w.id) in Entries(old(keys)) && w.at >= w.deadline && old(now) <= w.at <= now
      ensures forall p :: p in w.detached ==> p.0 >= w.at
      ensures forall p :: p in Entries(old(keys)) ==> NotAfter((w.deadline, w.id), p)
      ensures Entries(keys) == Left(Entries(old(keys)), w)
      ensures Sum(plans, Resumes) == Sum(old(plans), Resumes) - 1
    {
      var b := Top();
      SleepUntil(pending[b].0);
      var time, active := Take(b);
      var at := now;
      var detached := DetachAll(active, active.plan.detaches);
      var awaited := Finish(active);
      w := Wakeup(time, active.id, at, detached, awaited);
    }

    lemma ResumesRemain()
      requires Valid()
      ensures Sum(plans, Resumes) >= 0
    {
      forall i | 0 <= i < |plans| ensures Resumes(plans[i]) >= 0 {
        ResumesArePositive(plans[i]);
      }
      SumIsNonnegative(plans, Resumes);
    }

    /** run(): a legal run from what is pending to the empty queue, with every coroutine destroyed. */
    method Run() returns (log: seq<Wakeup>)
      requires Valid()
      modifies this, heap
      ensures Valid() && pending == [] && forall c :: c in heap ==> c.destroyed
      ensures Legal(Entries(old(keys)), old(now), log)
      ensures |log| == Sum(old(plans), Resumes)
    {
      log := [];
      var last := now;
      NothingYet(Entries(keys), now);
      while pending != []
        invariant Valid() && old(heap) <= heap && fresh(heap - old(heap)) && last <= now
        invariant LeadsTo(Entries(old(keys)), old(now), log, Entries(keys), last)
        invariant |log| + Sum(plans, Resumes) == Sum(old(plans), Resumes)
        decreases Sum(plans, Resumes)
      {
        ghost var before, since := Entries(keys), last;
        var w := Turn();
        ResumesRemain();
        OneMore(Entries(old(keys)), old(now), log, before, since, w);
        log, last := log + [w], w.at;
      }
      assert Entries(keys) == {};
      NothingLeft(Entries(old(keys)), old(now), log, last);
    }
  }
}
