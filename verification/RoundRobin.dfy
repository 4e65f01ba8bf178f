/**
  `concurrency/queueScheduler.cpp` and `coroutines/utils/cooperative_tasks`: a queue of
  coroutines resumed in turn. In the first the loop puts a task back, in the second the task
  enqueues itself while it suspends. Tasks may spawn tasks.
*/
module RoundRobin {
  import opened Common
  import opened Tally

  /** What a task does in each of its resumptions: spawn some tasks, then suspend or end. */
  datatype Body =
    | End(spawns: seq<Task>)
    | WakeUp(spawns: seq<Task>, rest: Body)

  datatype Task = Task(id: int, body: Body)

  /** Resumptions that a task and all it spawns still need. */
  ghost function Work(b: Body): nat {
    1 + WorkOfAll(b.spawns) + if b.WakeUp? then Work(b.rest) else 0
  }

  ghost function WorkOf(t: Task): nat {
    Work(t.body)
  }

  ghost function WorkOfAll(ts: seq<Task>): nat {
    if ts == [] then 0 else WorkOf(ts[0]) + WorkOfAll(ts[1..])
  }

  lemma {:induction false} WorkOfConcat(a: seq<Task>, b: seq<Task>)
    ensures WorkOfAll(a + b) == WorkOfAll(a) + WorkOfAll(b)
  {
    if a == [] {
      assert a + b == b;
    } else {
      WorkOfConcat(a[1..], b);
      assert (a + b)[1..] == a[1..] + b;
    }
  }

  // ---------- The schedule ----------

  ghost function Again(t: Task): seq<Task> {
    if t.body.WakeUp? then [Task(t.id, t.body.rest)] else []
  }

  ghost function Next(q: seq<Task>): seq<Task>
    requires q != []
  {
    q[1..] + (q[0].body.spawns + Again(q[0]))
  }

  lemma NextInParts(q: seq<Task>)
    requires q != []
    ensures Next(q) == q[1..] + q[0].body.spawns + Again(q[0])
    ensures q[0].body.End? ==> Next(q) == q[1..] + q[0].body.spawns
  {
    assert q[0].body.spawns + [] == q[0].body.spawns;
  }

  lemma NextIsLessWork(q: seq<Task>)
    requires q != []
    ensures WorkOfAll(Next(q)) + 1 == WorkOfAll(q)
  {
    var t := q[0];
    WorkOfConcat(q[1..], t.body.spawns + Again(t));
    WorkOfConcat(t.body.spawns, Again(t));
    assert WorkOfAll(q) == Work(t.body) + WorkOfAll(q[1..]) by {
      assert WorkOf(t) == Work(t.body);
    }
    assert WorkOfAll(Again(t)) == if t.body.WakeUp? then Work(t.body.rest) else 0;
  }

  /** Who is resumed, in order. */
  ghost function Resumed(q: seq<Task>): seq<int>
    decreases WorkOfAll(q)
  {
    if q == [] then [] else NextIsLessWork(q); [q[0].id] + Resumed(Next(q))
  }

  /** As many resumptions as the tasks need and as all they spawn need. */
  lemma {:induction false} TotalResumes(q: seq<Task>)
    ensures |Resumed(q)| == WorkOfAll(q)
    decreases WorkOfAll(q)
  {
    if q == [] {
    } else {
      NextIsLessWork(q);
      TotalResumes(Next(q));
    }
  }

  ghost function Death(t: Task): seq<int> {
    if t.body.End? then [t.id] else []
  }

  /** Who is destroyed, in order. */
  ghost function Destroyed(q: seq<Task>): seq<int>
    decreases WorkOfAll(q)
  {
    if q == [] then []
    else
      NextIsLessWork(q);
      Death(q[0]) + Destroyed(Next(q))
  }

  /** From the queue q0, r0 resumed and d0 destroyed, the schedule has come to q, r and d. */
  ghost predicate OnSchedule(q0: seq<Task>, r0: seq<int>, d0: seq<int>, q: seq<Task>, r: seq<int>, d: seq<int>) {
    r + Resumed(q) == r0 + Resumed(q0) && d + Destroyed(q) == d0 + Destroyed(q0)
  }

  lemma OneTurnOn(q0: seq<Task>, r0: seq<int>, d0: seq<int>, q: seq<Task>, r: seq<int>, d: seq<int>)
    requires q != [] && OnSchedule(q0, r0, d0, q, r, d)
    ensures OnSchedule(q0, r0, d0, Next(q), r + [q[0].id], d + Death(q[0]))
    ensures WorkOfAll(Next(q)) < WorkOfAll(q)
  {
    NextIsLessWork(q);
    Associative(r, [q[0].id], Resumed(Next(q)));
    Associative(d, Death(q[0]), Destroyed(Next(q)));
  }

  lemma ScheduleOver(q0: seq<Task>, r0: seq<int>, d0: seq<int>, r: seq<int>, d: seq<int>)
    requires OnSchedule(q0, r0, d0, [], r, d)
    ensures r == r0 + Resumed(q0) && d == d0 + Destroyed(q0)
  {
    assert r + [] == r && d + [] == d;
  }

  // ---------- The schedule in rounds ----------

  ghost function Ids(q: seq<Task>): seq<int> {
    if q == [] then [] else [q[0].id] + Ids(q[1..])
  }

  /** What one round leaves behind: for each task in turn what it spawned, then itself. */
  ghost function Offspring(q: seq<Task>): seq<Task> {
    if q == [] then [] else q[0].body.spawns + Again(q[0]) + Offspring(q[1..])
  }

  lemma {:induction false} FinishRound(a: seq<Task>, b: seq<Task>)
    ensures Resumed(a + b) == Ids(a) + Resumed(b + Offspring(a))
    decreases |a|
  {
    if a == [] {
      assert a + b == b && b + Offspring(a) == b;
      assert Ids(a) + Resumed(b) == Resumed(b);
    } else {
      var t := a[0];
      var left := t.body.spawns + Again(t);
      assert (a + b)[1..] + left == a[1..] + (b + left);
      NextIsLessWork(a + b);
      FinishRound(a[1..], b + left);
      Associative(b, left, Offspring(a[1..]));
      Associative([t.id], Ids(a[1..]), Resumed(b + Offspring(a)));
    }
  }

  /** The queue is served in rounds: everybody in it once, in order, then what the round left. */
  lemma ServedInRounds(q: seq<Task>)
    ensures Resumed(q) == Ids(q) + Resumed(Offspring(q))
  {
    FinishRound(q, []);
    assert q + [] == q && [] + Offspring(q) == Offspring(q);
  }

  // ---------- Tasks that spawn nothing: the closed form ----------

  ghost predicate Spawnless(b: Body) {
    b.spawns == [] && (b.WakeUp? ==> Spawnless(b.rest))
  }

  ghost predicate AllSpawnless(q: seq<Task>) {
    forall i :: 0 <= i < |q| ==> Spawnless(q[i].body)
  }

  ghost function Resumes(b: Body): nat {
    1 + if b.WakeUp? then Resumes(b.rest) else 0
  }

  /** The tasks that need at least k resumptions, in queue order. */
  ghost function Level(q: seq<Task>, k: nat): seq<int> {
    if q == [] then []
    else (if Resumes(q[0].body) >= k then [q[0].id] else []) + Level(q[1..], k)
  }

  ghost function Levels(q: seq<Task>, lo: nat, hi: nat): seq<int>
    decreases hi - lo
  {
    if lo >= hi then [] else Level(q, lo) + Levels(q, lo + 1, hi)
  }

  lemma {:induction false} FirstLevel(q: seq<Task>)
    ensures Level(q, 1) == Ids(q)
  {
    if q == [] {
    } else {
      FirstLevel(q[1..]);
    }
  }

  lemma {:induction false} LevelsShift(q: seq<Task>, k: nat)
    requires AllSpawnless(q) && k >= 1
    ensures AllSpawnless(Offspring(q)) && Level(Offspring(q), k) == Level(q, k + 1)
  {
    if q == [] {
    } else {
      LevelsShift(q[1..], k);
      var t := q[0];
      assert t.body.spawns + Again(t) == Again(t);
      if t.body.WakeUp? {
        assert Offspring(q) == [Task(t.id, t.body.rest)] + Offspring(q[1..]);
        assert Offspring(q)[1..] == Offspring(q[1..]);
      } else {
        assert Offspring(q) == Offspring(q[1..]);
      }
    }
  }

  lemma FromLevel(q: seq<Task>, lo: nat, hi: nat)
    requires lo < hi
    ensures Levels(q, lo, hi) == Level(q, lo) + Levels(q, lo + 1, hi)
  {}

  lemma {:induction false} AllLevelsShift(q: seq<Task>, q': seq<Task>, lo: nat, hi: nat)
    requires forall k: nat :: k >= lo ==> Level(q', k) == Level(q, k + 1)
    ensures Levels(q', lo, hi) == Levels(q, lo + 1, hi + 1)
    decreases hi - lo
  {
    if lo >= hi {
    } else {
      FromLevel(q', lo, hi);
      FromLevel(q, lo + 1, hi + 1);
      AllLevelsShift(q, q', lo + 1, hi);
    }
  }

  /** Round robin: first all tasks, then those that need two resumptions or more, and so on. */
  lemma {:induction false} FifoClosedForm(q: seq<Task>, rounds: nat)
    requires AllSpawnless(q) && forall i :: 0 <= i < |q| ==> Resumes(q[i].body) <= rounds
    ensures Resumed(q) == Levels(q, 1, rounds + 1)
    decreases rounds
  {
    ServedInRounds(q);
    FirstLevel(q);
    if rounds == 0 {
      assert q == [];
    } else {
      LevelsShift(q, 1);
      OffspringNeedsLess(q, rounds);
      FifoClosedForm(Offspring(q), rounds - 1);
      forall k: nat | k >= 1 ensures Level(Offspring(q), k) == Level(q, k + 1) {
        LevelsShift(q, k);
      }
      AllLevelsShift(q, Offspring(q), 1, rounds);
    }
  }

  lemma {:induction false} OffspringNeedsLess(q: seq<Task>, rounds: nat)
    requires AllSpawnless(q) && forall i :: 0 <= i < |q| ==> Resumes(q[i].body) <= rounds
    ensures forall i :: 0 <= i < |Offspring(q)| ==> Resumes(Offspring(q)[i].body) <= rounds - 1
  {
    if q == [] {
    } else {
      OffspringNeedsLess(q[1..], rounds);
      assert q[0].body.spawns + Again(q[0]) == Again(q[0]);
    }
  }

  // ---------- Counts and fairness, with spawning ----------

  // A weight summed over tasks and all that they will spawn.

  ghost function SumIn(b: Body, f: Task -> nat): nat
    decreases b
  {
    SumOver(b.spawns, f) + if b.WakeUp? then SumIn(b.rest, f) else 0
  }

  ghost function SumOf(t: Task, f: Task -> nat): nat
    decreases t
  {
    f(t) + SumIn(t.body, f)
  }

  ghost function SumOver(ts: seq<Task>, f: Task -> nat): nat
    decreases ts
  {
    if ts == [] then 0 else SumOf(ts[0], f) + SumOver(ts[1..], f)
  }

  lemma {:induction false} SumOverConcat(a: seq<Task>, b: seq<Task>, f: Task -> nat)
    ensures SumOver(a + b, f) == SumOver(a, f) + SumOver(b, f)
  {
    if a == [] {
      assert a + b == b;
    } else {
      SumOverConcat(a[1..], b, f);
      assert (a + b)[1..] == a[1..] + b;
    }
  }

  lemma {:induction false} SumOverHas(ts: seq<Task>, i: nat, f: Task -> nat)
    requires i < |ts|
    ensures SumOver(ts, f) >= f(ts[i])
  {
    if i == 0 {
    } else {
      SumOverHas(ts[1..], i - 1, f);
    }
  }

  lemma SumOverNext(q: seq<Task>, f: Task -> nat)
    requires q != []
    ensures SumOver(Next(q), f) + f(q[0]) == SumOver(q, f) + (if q[0].body.WakeUp? then f(Again(q[0])[0]) else 0)
  {
    var t := q[0];
    SumOverConcat(q[1..], t.body.spawns + Again(t), f);
    SumOverConcat(t.body.spawns, Again(t), f);
    assert SumOver(q, f) == SumOf(t, f) + SumOver(q[1..], f) && SumOf(t, f) == f(t) + SumIn(t.body, f);
    if t.body.WakeUp? {
      var again := Again(t)[0];
      assert Again(t)[1..] == [];
      assert SumOver(Again(t), f) == SumOf(again, f) == f(again) + SumIn(t.body.rest, f);
    }
  }

  ghost function IsNamed(id: int): Task -> nat {
    (t: Task) => if t.id == id then 1 else 0
  }

  ghost function Needs(id: int): Task -> nat {
    (t: Task) => if t.id == id then Resumes(t.body) else 0
  }

  lemma WholeTraces(q: seq<Task>)
    requires q != []
    ensures |Resumed(q)| == |Resumed(Next(q))| + 1
    ensures ([q[0].id] + Resumed(Next(q)))[..|Resumed(q)|] == Resumed(q)
    ensures Resumed(Next(q))[..|Resumed(q)| - 1] == Resumed(Next(q))
  {
    NextIsLessWork(q);
  }

  /** The tasks of each name, queued or spawned, are resumed exactly as often as they need together. */
  lemma {:induction false} EachIsFinished(q: seq<Task>, id: int)
    ensures Count(Resumed(q), id) == SumOver(q, Needs(id))
    decreases WorkOfAll(q)
  {
    if q == [] {
    } else {
      NextIsLessWork(q);
      EachIsFinished(Next(q), id);
      WholeTraces(q);
      CountOfPrefix(q[0].id, Resumed(Next(q)), |Resumed(q)|, id);
      SumOverNext(q, Needs(id));
    }
  }

  /** No other task, queued or to be spawned, has the name of the task at i. */
  ghost predicate Unique(q: seq<Task>, i: nat)
    requires i < |q|
  {
    SumOver(q, IsNamed(q[i].id)) == 1
  }

  lemma {:induction false} NoneNamed(ts: seq<Task>, id: int)
    requires SumOver(ts, IsNamed(id)) == 0
    ensures SumOver(ts, Needs(id)) == 0
    decreases ts
  {
    if ts == [] {
    } else {
      NoneNamedOf(ts[0], id);
      NoneNamed(ts[1..], id);
    }
  }

  lemma {:induction false} NoneNamedOf(t: Task, id: int)
    requires SumOf(t, IsNamed(id)) == 0
    ensures SumOf(t, Needs(id)) == 0
    decreases t
  {
    NoneNamedIn(t.body, id);
    assert IsNamed(id)(t) == 0;
  }

  lemma {:induction false} NoneNamedIn(b: Body, id: int)
    requires SumIn(b, IsNamed(id)) == 0
    ensures SumIn(b, Needs(id)) == 0
    decreases b
  {
    NoneNamed(b.spawns, id);
    if b.WakeUp? {
      NoneNamedIn(b.rest, id);
    }
  }

  lemma {:induction false} NeedsOfUnique(q: seq<Task>, i: nat)
    requires i < |q| && Unique(q, i)
    ensures SumOver(q, Needs(q[i].id)) == Resumes(q[i].body)
  {
    var id, t := q[i].id, q[0];
    assert SumOver(q, IsNamed(id)) == IsNamed(id)(t) + SumIn(t.body, IsNamed(id)) + SumOver(q[1..], IsNamed(id));
    assert SumOver(q, Needs(id)) == Needs(id)(t) + SumIn(t.body, Needs(id)) + SumOver(q[1..], Needs(id));
    if i == 0 {
      NoneNamed(q[1..], id);
    } else {
      HeadIsAnother(q, i);
      SumOverHas(q[1..], i - 1, IsNamed(id));
      NeedsOfUnique(q[1..], i - 1);
    }
    NoneNamedIn(t.body, id);
  }

  /** A queued task with a name of its own is resumed exactly as often as it needs. */
  lemma OneIsFinished(q: seq<Task>, i: nat)
    requires i < |q| && Unique(q, i)
    ensures Count(Resumed(q), q[i].id) == Resumes(q[i].body)
  {
    EachIsFinished(q, q[i].id);
    NeedsOfUnique(q, i);
  }

  /** The task at i has not ended in the first n resumptions. */
  ghost predicate Unfinished(q: seq<Task>, n: nat, i: nat)
    requires n <= |Resumed(q)| && i < |q|
  {
    Count(Resumed(q)[..n], q[i].id) < Resumes(q[i].body)
  }

  lemma HeadIsAnother(q: seq<Task>, i: nat)
    requires 0 < i < |q| && Unique(q, i)
    ensures q[0].id != q[i].id
  {
    var f := IsNamed(q[i].id);
    SumOverHas(q[1..], i - 1, f);
    assert SumOver(q, f) == SumOf(q[0], f) + SumOver(q[1..], f) && SumOf(q[0], f) >= f(q[0]);
  }

  /** Where the task at i stands one resumption later, and how that one is counted. */
  lemma OneTurnLater(q: seq<Task>, n: nat, i: nat) returns (k: nat)
    requires 0 < n <= |Resumed(q)| && i < |q| && Unique(q, i) && Unfinished(q, n, i)
    ensures n - 1 <= |Resumed(Next(q))| && k == (if i == 0 then |Next(q)| - 1 else i - 1)
    ensures k < |Next(q)| && Next(q)[k].id == q[i].id && Unique(Next(q), k) && Unfinished(Next(q), n - 1, k)
    ensures Count(Resumed(q)[..n], q[i].id) ==
            Count(Resumed(Next(q))[..n - 1], q[i].id) + if i == 0 then 1 else 0
  {
    NextIsLessWork(q);
    CountOfPrefix(q[0].id, Resumed(Next(q)), n, q[i].id);
    SumOverNext(q, IsNamed(q[i].id));
    if i == 0 {
      k := |Next(q)| - 1;
    } else {
      HeadIsAnother(q, i);
      k := i - 1;
    }
  }

  /**
    At any moment, whatever is spawned meanwhile, a queued task that is not done has been resumed
    as often as any such task behind it, or once more.
  */
  lemma {:induction false} FifoIsFair(q: seq<Task>, n: nat, i: nat, j: nat)
    requires n <= |Resumed(q)| && i < j < |q| && Unique(q, i) && Unique(q, j)
    requires Unfinished(q, n, i) && Unfinished(q, n, j)
    ensures var r := Resumed(q)[..n]; 0 <= Count(r, q[i].id) - Count(r, q[j].id) <= 1
    decreases n
  {
    if n == 0 {
      assert Resumed(q)[..n] == [];
    } else {
      var i' := OneTurnLater(q, n, i);
      var j' := OneTurnLater(q, n, j);
      if i == 0 {
        FifoIsFair(Next(q), n - 1, j', i');
      } else {
        FifoIsFair(Next(q), n - 1, i', j');
      }
    }
  }

  // ---------- The shipped runs ----------

  lemma OneTurn(q: seq<Task>, next: seq<Task>)
    requires q != [] && Next(q) == next
    ensures Resumed(q) == [q[0].id] + Resumed(next) && Destroyed(q) == Death(q[0]) + Destroyed(next)
  {
    NextIsLessWork(q);
  }

  /** Two suspensions and the end. */
  const STAGES: Body := WakeUp([], WakeUp([], End([])))

  lemma RoundOfThree(a: int, b: int, c: int, x: Body)
    requires x.spawns == [] && x.WakeUp?
    ensures var q, r := [Task(a, x), Task(b, x), Task(c, x)], [Task(a, x.rest), Task(b, x.rest), Task(c, x.rest)];
            Resumed(q) == [a] + ([b] + ([c] + Resumed(r))) && Destroyed(q) == Destroyed(r)
  {
    var y := x.rest;
    OneTurn([Task(a, x), Task(b, x), Task(c, x)], [Task(b, x), Task(c, x), Task(a, y)]);
    OneTurn([Task(b, x), Task(c, x), Task(a, y)], [Task(c, x), Task(a, y), Task(b, y)]);
    OneTurn([Task(c, x), Task(a, y), Task(b, y)], [Task(a, y), Task(b, y), Task(c, y)]);
  }

  /** cooperative_tasks: three coroutines of three stages. */
  lemma ShippedCooperative(a: int, b: int, c: int)
    ensures var q := [Task(a, STAGES), Task(b, STAGES), Task(c, STAGES)];
            Resumed(q) == [a, b, c, a, b, c, a, b, c] && Destroyed(q) == [a, b, c]
  {
    var end := End([]);
    RoundOfThree(a, b, c, STAGES);
    RoundOfThree(a, b, c, STAGES.rest);
    OneTurn([Task(a, end), Task(b, end), Task(c, end)], [Task(b, end), Task(c, end)]);
    OneTurn([Task(b, end), Task(c, end)], [Task(c, end)]);
    OneTurn([Task(c, end)], []);
  }

  /** queueScheduler: two tasks of three stages. */
  lemma ShippedQueue(a: int, b: int)
    ensures var q := [Task(a, STAGES), Task(b, STAGES)];
            Resumed(q) == [a, b, a, b, a, b] && Destroyed(q) == [a, b]
  {
    var x, y, z := STAGES, STAGES.rest, End([]);
    OneTurn([Task(a, x), Task(b, x)], [Task(b, x), Task(a, y)]);
    OneTurn([Task(b, x), Task(a, y)], [Task(a, y), Task(b, y)]);
    OneTurn([Task(a, y), Task(b, y)], [Task(b, y), Task(a, z)]);
    OneTurn([Task(b, y), Task(a, z)], [Task(a, z), Task(b, z)]);
    OneTurn([Task(a, z), Task(b, z)], [Task(b, z)]);
    OneTurn([Task(b, z)], []);
  }

  /** A task that is spawned runs before its spawner runs again, and after those already waiting. */
  lemma SpawnedRunsFirst(a: int, b: int, c: int)
    ensures var q := [Task(a, WakeUp([Task(c, End([]))], End([]))), Task(b, End([]))];
            Resumed(q) == [a, b, c, a] && Destroyed(q) == [b, c, a]
  {
    var end := End([]);
    OneTurn([Task(a, WakeUp([Task(c, end)], end)), Task(b, end)], [Task(b, end), Task(c, end), Task(a, end)]);
    OneTurn([Task(b, end), Task(c, end), Task(a, end)], [Task(c, end), Task(a, end)]);
    OneTurn([Task(c, end), Task(a, end)], [Task(a, end)]);
    OneTurn([Task(a, end)], []);
  }

  // ---------- The two schedulers ----------

  class Coroutine {
    const id: int
    var body: Body
    var done: bool
    ghost var destroyed: bool

    constructor (t: Task)
      ensures id == t.id && body == t.body && !done && !destroyed
    {
      id, body, done, destroyed := t.id, t.body, false, false;
    }

    /** coroutine_handle::done(), defined only on a frame that still exists. */
    predicate IsDone()
      reads this
      requires !destroyed
    {
      done
    }

    method Destroy()
      requires done && !destroyed
      modifies this`destroyed
      ensures destroyed
    {
      destroyed := true;
    }
  }

  class Scheduler {
    var coroutines: seq<Coroutine>
    var resumed: seq<int>
    var destroyed: seq<int>
    ghost var queue: seq<Task>      // what the queued coroutines have still to do
    ghost var heap: set<Coroutine>  // every coroutine handed to the scheduler

    /** The queue holds exactly the handed coroutines not destroyed, each once and none done. */
    ghost predicate Valid()
      reads this, heap
    {
      Holds(null)
    }

    /** The same while `active` is being resumed. */
    ghost predicate Holds(active: Coroutine?)
      reads this, heap
    {
      && |queue| == |coroutines|
      && (forall i :: 0 <= i < |coroutines| ==>
            && coroutines[i] in heap && coroutines[i] != active
            && !coroutines[i].done && !coroutines[i].destroyed
            && queue[i] == Task(coroutines[i].id, coroutines[i].body))
      && (forall i, j :: 0 <= i < j < |coroutines| ==> coroutines[i] != coroutines[j])
      && (forall c :: c in heap && c != active && !c.destroyed ==> c in coroutines)
    }

    constructor ()
      ensures Valid() && queue == [] && heap == {} && resumed == destroyed == []
    {
      coroutines, resumed, destroyed, queue, heap := [], [], [], [], {};
    }

    method Enqueue(c: Coroutine, ghost active: Coroutine?)
      requires Holds(active) && (c == active || c !in heap) && !c.done && !c.destroyed
      modifies this`coroutines, this`queue, this`heap
      ensures Holds(if c == active then null else active)
      ensures queue == old(queue) + [Task(c.id, c.body)] && heap == old(heap) + {c}
    {
      coroutines := coroutines + [c];
      queue, heap := queue + [Task(c.id, c.body)], heap + {c};
    }

    /** `coro().detach()` for each task that `active` spawns while it runs. */
    method Spawn(spawns: seq<Task>, ghost active: Coroutine)
      requires Holds(active)
      modifies this`coroutines, this`queue, this`heap
      ensures Holds(active) && queue == old(queue) + spawns
      ensures old(heap) <= heap && fresh(heap - old(heap))
    {
      for i := 0 to |spawns|
        invariant Holds(active) && queue == old(queue) + spawns[..i]
        invariant old(heap) <= heap && fresh(heap - old(heap))
      {
        SpawnOne(spawns[i], active);
        assert spawns[..i + 1] == spawns[..i] + [spawns[i]];
        Associative(old(queue), spawns[..i], [spawns[i]]);
      }
    }

    method SpawnOne(t: Task, ghost active: Coroutine)
      requires Holds(active)
      modifies this`coroutines, this`queue, this`heap
      ensures Holds(active) && queue == old(queue) + [t]
      ensures old(heap) <= heap && fresh(heap - old(heap))
    {
      var c := new Coroutine(t);
      Enqueue(c, active);
    }

    method Pop() returns (active: Coroutine)
      requires Valid() && coroutines != []
      modifies this`coroutines, this`queue
      ensures Holds(active) && active in heap && !active.done && !active.destroyed
      ensures queue == old(queue)[1..] && old(queue)[0] == Task(active.id, active.body)
    {
      active := coroutines[0];
      coroutines, queue := coroutines[1..], queue[1..];
    }

    /** destroy() of a coroutine at its final suspension point. */
    method Retire(active: Coroutine)
      requires Holds(active) && active in heap && active.done && !active.destroyed
      modifies this`destroyed, active`destroyed
      ensures Valid() && destroyed == old(destroyed) + [active.id]
    {
      destroyed := destroyed + [active.id];
      active.Destroy();
    }

    /** A coroutine of cooperative_tasks: `co_await wake_up()` puts its handle back into the queue. */
    method ResumeSelfEnqueueing(active: Coroutine)
      requires Holds(active) && active in heap && !active.done && !active.destroyed
      modifies this`coroutines, this`queue, this`heap, active`body, active`done
      ensures old(heap) <= heap && fresh(heap - old(heap))
      ensures active.done == old(active.body).End? && Holds(if active.done then active else null)
      ensures queue == old(queue) + old(active.body.spawns) + Again(Task(active.id, old(active.body)))
    {
      Spawn(active.body.spawns, active);
      if active.body.WakeUp? {
        active.body := active.body.rest;
        Enqueue(active, active);
      } else {
        active.done := true;
      }
    }

    /** Scheduler::run of cooperative_tasks. */
    method RunSelfEnqueueing()
      requires Valid()
      modifies this, heap
      ensures Valid() && coroutines == [] && forall c :: c in heap ==> c.destroyed
      ensures resumed == old(resumed) + Resumed(old(queue))
      ensures destroyed == old(destroyed) + Destroyed(old(queue))
    {
      while coroutines != []
        invariant Valid() && old(heap) <= heap && fresh(heap - old(heap))
        invariant OnSchedule(old(queue), old(resumed), old(destroyed), queue, resumed, destroyed)
        decreases WorkOfAll(queue)
      {
        OneTurnOn(old(queue), old(resumed), old(destroyed), queue, resumed, destroyed);
        TurnSelfEnqueueing();
      }
      ScheduleOver(old(queue), old(resumed), old(destroyed), resumed, destroyed);
    }

    method TurnSelfEnqueueing()
      requires Valid() && coroutines != []
      modifies this, heap
      ensures Valid() && old(heap) <= heap && fresh(heap - old(heap))
      ensures queue == old(Next(queue))
      ensures resumed == old(resumed) + [old(queue)[0].id]
      ensures destroyed == old(destroyed) + Death(old(queue)[0])
    {
      NextInParts(queue);
      var active := Pop();
      resumed := resumed + [active.id];
      ResumeSelfEnqueueing(active);
      if active.IsDone() {
        Retire(active);
      }
    }

    /** A coroutine of queueScheduler: `co_await suspend()` only suspends it. */
    method ResumePlain(active: Coroutine)
      requires Holds(active) && active in heap && !active.done && !active.destroyed
      modifies this`coroutines, this`queue, this`heap, active`body, active`done
      ensures old(heap) <= heap && fresh(heap - old(heap)) && Holds(active)
      ensures active.done == old(active.body).End? && (!active.done ==> active.body == old(active.body.rest))
      ensures queue == old(queue) + old(active.body.spawns)
    {
      Spawn(active.body.spawns, active);
      if active.body.WakeUp? {
        active.body := active.body.rest;
      } else {
        active.done := true;
      }
    }

    /** Scheduler::schedule of queueScheduler: the loop puts an unfinished task back. */
    method Schedule()
      requires Valid()
      modifies this, heap
      ensures Valid() && coroutines == [] && forall c :: c in heap ==> c.destroyed
      ensures resumed == old(resumed) + Resumed(old(queue))
      ensures destroyed == old(destroyed) + Destroyed(old(queue))
    {
      while coroutines != []
        invariant Valid() && old(heap) <= heap && fresh(heap - old(heap))
        invariant OnSchedule(old(queue), old(resumed), old(destroyed), queue, resumed, destroyed)
        decreases WorkOfAll(queue)
      {
        OneTurnOn(old(queue), old(resumed), old(destroyed), queue, resumed, destroyed);
        Turn();
      }
      ScheduleOver(old(queue), old(resumed), old(destroyed), resumed, destroyed);
    }

    method Turn()
      requires Valid() && coroutines != []
      modifies this, heap
      ensures Valid() && old(heap) <= heap && fresh(heap - old(heap))
      ensures queue == old(Next(queue))
      ensures resumed == old(resumed) + [old(queue)[0].id]
      ensures destroyed == old(destroyed) + Death(old(queue)[0])
    {
      var active := Pop();
      resumed := resumed + [active.id];
      NextInParts(old(queue));
      ResumePlain(active);
      if !active.IsDone() {
        Enqueue(active, active);
      } else {
        Retire(active);
      }
    }
  }
}
