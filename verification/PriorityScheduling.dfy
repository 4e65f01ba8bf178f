/**
  `concurrency/stackScheduler.cpp` and the priority schedulers of `concurrency/problems/solutions`:
  a loop takes the first task of its container, resumes it once, and puts it back, with an
  updated priority, or destroys it.
*/
module PriorityScheduling {
  import opened Common
  import opened Tally

  /** A queued task: its priority, the address of its frame, and the resumptions it still needs. */
  datatype Job = Job(prio: int, id: int, left: nat)

  type Key = (int, int)

  function KeyOf(j: Job): Key { (j.prio, j.id) }

  /** std::stack, or std::priority_queue with a comparator on pairs and an updater. */
  datatype Policy =
    | Stack
    | Priority(less: (Key, Key) -> bool, update: int -> int)

  /** std::priority_queue::top: a job that no other comes after. */
  function Best(less: (Key, Key) -> bool, q: seq<Job>): (b: nat)
    requires q != []
    ensures b < |q|
  {
    var n := |q| - 1;
    if n == 0 then 0
    else
      var b := Best(less, q[..n]);
      if less(KeyOf(q[b]), KeyOf(q[n])) then n else b
  }

  function Pick(p: Policy, q: seq<Job>): (b: nat)
    requires q != []
    ensures b < |q|
  {
    match p
    case Stack => |q| - 1
    case Priority(less, _) => Best(less, q)
  }

  /** The job as it goes back into the container. */
  function Resumed(p: Policy, j: Job): Job
    requires j.left > 0
  {
    Job(if p.Priority? then p.update(j.prio) else j.prio, j.id, j.left - 1)
  }

  ghost function Next(p: Policy, q: seq<Job>): seq<Job>
    requires q != [] && Active(q)
  {
    var b := Pick(p, q);
    var j := Resumed(p, q[b]);
    Without(q, b) + if j.left > 0 then [j] else []
  }

  ghost predicate Active(q: seq<Job>) {
    forall i :: 0 <= i < |q| ==> q[i].left > 0
  }

  ghost function Left(j: Job): int { j.left }

  lemma NextSum(p: Policy, q: seq<Job>, weight: Job -> int)
    requires q != [] && Active(q)
    ensures var j := q[Pick(p, q)]; var j' := Resumed(p, j);
            Sum(Next(p, q), weight) == Sum(q, weight) - weight(j) + (if j'.left > 0 then weight(j') else 0)
  {
    var b := Pick(p, q);
    SumWithout(q, b, weight);
    var j := Resumed(p, q[b]);
    if j.left > 0 {
      SumOfSnoc(Without(q, b), j, weight);
    } else {
      assert Without(q, b) + [] == Without(q, b);
    }
  }

  lemma NextIsLess(p: Policy, q: seq<Job>)
    requires q != [] && Active(q)
    ensures Active(Next(p, q)) && Sum(Next(p, q), Left) == Sum(q, Left) - 1
  {
    NextSum(p, q, Left);
  }

  ghost function Total(q: seq<Job>): nat
    requires Active(q)
  {
    SumIsNonnegative(q, Left);
    Sum(q, Left)
  }

  /** The tasks resumed, in order. */
  ghost function Trace(p: Policy, q: seq<Job>): seq<int>
    requires Active(q)
    decreases Total(q)
  {
    if q == [] then []
    else
      NextIsLess(p, q);
      [q[Pick(p, q)].id] + Trace(p, Next(p, q))
  }

  lemma {:induction false} TotalResumes(p: Policy, q: seq<Job>)
    requires Active(q)
    ensures |Trace(p, q)| == Total(q)
    decreases Total(q)
  {
    if q == [] {
    } else {
      NextIsLess(p, q);
      TotalResumes(p, Next(p, q));
    }
  }

  // ---------- Contiguous blocks ----------

  ghost function Block(j: Job): seq<int> {
    seq(j.left, _ => j.id)
  }

  ghost function Blocks(order: seq<Job>): seq<int> {
    if order == [] then [] else Block(order[0]) + Blocks(order[1..])
  }

  ghost function Reversed(q: seq<Job>): seq<Job> {
    if q == [] then [] else [q[|q| - 1]] + Reversed(q[..|q| - 1])
  }

  lemma BlockHead(j: Job)
    requires j.left > 0
    ensures Block(j) == [j.id] + Block(j.(left := j.left - 1))
  {}

  /** A stack runs each task to its end, the last emplaced first. */
  lemma {:induction false} StackClosedForm(q: seq<Job>)
    requires Active(q)
    ensures Trace(Stack, q) == Blocks(Reversed(q))
    decreases Total(q)
  {
    if q == [] {
    } else {
      var n := |q| - 1;
      var j := q[n].(left := q[n].left - 1);
      NextIsLess(Stack, q);
      StackClosedForm(Next(Stack, q));
      BlockHead(q[n]);
      assert Without(q, n) == q[..n];
      if j.left > 0 {
        assert Next(Stack, q) == q[..n] + [j];
        assert Reversed(Next(Stack, q)) == [j] + Reversed(q[..n]) by {
          assert (q[..n] + [j])[..n] == q[..n];
        }
        assert ([j] + Reversed(q[..n]))[1..] == Reversed(q[..n]);
        assert Blocks(Reversed(Next(Stack, q))) == Block(j) + Blocks(Reversed(q[..n]));
      } else {
        assert Next(Stack, q) == q[..n];
        assert Block(j) == [];
      }
      assert ([q[n]] + Reversed(q[..n]))[1..] == Reversed(q[..n]);
      assert Blocks(Reversed(q)) == Block(q[n]) + Blocks(Reversed(q[..n]));
      Associative([q[n].id], Block(j), Blocks(Reversed(q[..n])));
    }
  }

  ghost predicate Distinct(q: seq<Job>) {
    forall i, j :: 0 <= i < j < |q| ==> q[i].id != q[j].id
  }

  lemma OneTurn(p: Policy, q: seq<Job>, next: seq<Job>, id: int)
    requires q != [] && Active(q) && Next(p, q) == next && q[Pick(p, q)].id == id
    ensures Active(next) && Trace(p, q) == [id] + Trace(p, next)
  {
    NextIsLess(p, q);
  }

  /** The shipped stack run: TaskA, then TaskB, three resumptions each. */
  lemma ShippedStack(a: int, b: int)
    ensures Trace(Stack, [Job(0, a, 3), Job(0, b, 3)]) == [b, b, b, a, a, a]
  {
    var q := [Job(0, a, 3), Job(0, b, 3)];
    StackClosedForm(q);
    assert q[..1] == [q[0]] && [q[0]][..0] == [];
    assert Reversed([q[0]]) == [q[0]] + Reversed([]) == [q[0]];
    assert Reversed(q) == [q[1]] + [q[0]] == [q[1], q[0]];
    assert [q[1], q[0]][1..] == [q[0]] && [q[0]][1..] == [];
    assert Blocks([q[0]]) == Block(q[0]) + [] == [a, a, a];
    assert Blocks([q[1], q[0]]) == [b, b, b] + [a, a, a];
  }

  // ---------- Aging ----------

  predicate PairLess(a: Key, b: Key) {
    a.0 < b.0 || (a.0 == b.0 && a.1 < b.1)
  }

  function OneLess(a: int): int {
    a - 1
  }

  /** std::identity */
  function Same(x: int): int { x }

  /** Scheduler<decltype([](int a) { return a - 1; })> */
  function Aging(): Policy {
    Priority(PairLess, OneLess)
  }

  lemma {:induction false} TopIsHighest(q: seq<Job>)
    requires q != []
    ensures forall i :: 0 <= i < |q| ==> q[i].prio <= q[Best(PairLess, q)].prio
  {
    var n := |q| - 1;
    if n == 0 {
    } else {
      TopIsHighest(q[..n]);
      assert forall i :: 0 <= i < n ==> q[..n][i] == q[i];
    }
  }

  /** Among tasks of equal priority the one at the greatest address is on top. */
  lemma {:induction false} TopHasGreatestAddress(q: seq<Job>)
    requires q != []
    ensures var top := q[Best(PairLess, q)];
            forall i :: 0 <= i < |q| && q[i].prio == top.prio ==> q[i].id <= top.id
  {
    var n := |q| - 1;
    if n == 0 {
    } else {
      TopHasGreatestAddress(q[..n]);
      TopIsHighest(q[..n]);
      assert forall i :: 0 <= i < n ==> q[..n][i] == q[i];
    }
  }

  lemma TopIs(q: seq<Job>, b: nat)
    requires b < |q| && forall i :: 0 <= i < |q| && i != b ==> PairLess(KeyOf(q[i]), KeyOf(q[b]))
    ensures Best(PairLess, q) == b
  {
    TopIsHighest(q);
    TopHasGreatestAddress(q);
  }

  lemma AgingTurn(q: seq<Job>, b: nat, j: Job, next: seq<Job>)
    requires Active(q) && b < |q| && q[b] == j
    requires forall i :: 0 <= i < |q| && i != b ==> PairLess(KeyOf(q[i]), KeyOf(j))
    requires next == Without(q, b) + if j.left > 1 then [Job(j.prio - 1, j.id, j.left - 1)] else []
    ensures Active(next) && Trace(Aging(), q) == [j.id] + Trace(Aging(), next)
  {
    TopIs(q, b);
    NextIsLess(Aging(), q);
  }

  function Older(j: Job): Job
    requires j.left > 0
  {
    Job(j.prio - 1, j.id, j.left - 1)
  }

  lemma FirstOfThree(x: Job, y: Job, z: Job)
    requires x.left > 1 && y.left > 0 && z.left > 0
    requires PairLess(KeyOf(y), KeyOf(x)) && PairLess(KeyOf(z), KeyOf(x))
    ensures Active([x, y, z]) && Active([y, z, Older(x)])
    ensures Trace(Aging(), [x, y, z]) == [x.id] + Trace(Aging(), [y, z, Older(x)])
  {
    assert Without([x, y, z], 0) == [y, z];
    AgingTurn([x, y, z], 0, x, [y, z, Older(x)]);
  }

  lemma SecondOfThree(x: Job, y: Job, z: Job)
    requires x.left > 1 && y.left > 0 && z.left > 0
    requires PairLess(KeyOf(y), KeyOf(x)) && PairLess(KeyOf(z), KeyOf(x))
    ensures Active([y, x, z]) && Active([y, z, Older(x)])
    ensures Trace(Aging(), [y, x, z]) == [x.id] + Trace(Aging(), [y, z, Older(x)])
  {
    assert Without([y, x, z], 1) == [y, z];
    AgingTurn([y, x, z], 1, x, [y, z, Older(x)]);
  }

  lemma ThirdOfThree(x: Job, y: Job, z: Job)
    requires x.left > 1 && y.left > 0 && z.left > 0
    requires PairLess(KeyOf(y), KeyOf(x)) && PairLess(KeyOf(z), KeyOf(x))
    ensures Active([y, z, x]) && Active([y, z, Older(x)])
    ensures Trace(Aging(), [y, z, x]) == [x.id] + Trace(Aging(), [y, z, Older(x)])
  {
    assert Without([y, z, x], 2) == [y, z];
    AgingTurn([y, z, x], 2, x, [y, z, Older(x)]);
  }

  lemma AgingPart1(a: int, b: int, c: int)
    requires a < b < c
    ensures var q, r := [Job(0, a, 7), Job(1, b, 7), Job(2, c, 7)], [Job(0, a, 7), Job(0, c, 5), Job(0, b, 6)];
            Active(q) && Active(r) && Trace(Aging(), q) == [c, c, b] + Trace(Aging(), r)
  {
    ThirdOfThree(Job(2, c, 7), Job(0, a, 7), Job(1, b, 7));
    ThirdOfThree(Job(1, c, 6), Job(0, a, 7), Job(1, b, 7));
    SecondOfThree(Job(1, b, 7), Job(0, a, 7), Job(0, c, 5));
    InThree(c, c, b, Trace(Aging(), [Job(0, a, 7), Job(0, c, 5), Job(0, b, 6)]));
  }

  lemma AgingPart2(a: int, b: int, c: int)
    requires a < b < c
    ensures var q, r := [Job(0, a, 7), Job(0, c, 5), Job(0, b, 6)], [Job(-1, c, 4), Job(-1, b, 5), Job(-1, a, 6)];
            Active(q) && Active(r) && Trace(Aging(), q) == [c, b, a] + Trace(Aging(), r)
  {
    SecondOfThree(Job(0, c, 5), Job(0, a, 7), Job(0, b, 6));
    SecondOfThree(Job(0, b, 6), Job(0, a, 7), Job(-1, c, 4));
    FirstOfThree(Job(0, a, 7), Job(-1, c, 4), Job(-1, b, 5));
    InThree(c, b, a, Trace(Aging(), [Job(-1, c, 4), Job(-1, b, 5), Job(-1, a, 6)]));
  }

  lemma InThree(u: int, v: int, w: int, rest: seq<int>)
    ensures [u] + ([v] + ([w] + rest)) == [u, v, w] + rest
  {}

  /** The shipped aging run, seven resumptions each, up to the first of TaskA, for ascending addresses. */
  lemma ShippedAging(a: int, b: int, c: int)
    requires a < b < c
    ensures var q, r := [Job(0, a, 7), Job(1, b, 7), Job(2, c, 7)], [Job(-1, c, 4), Job(-1, b, 5), Job(-1, a, 6)];
            && Active(q) && Active(r)
            && Trace(Aging(), q) == [c, c, b, c, b, a] + Trace(Aging(), r)
  {
    AgingPart1(a, b, c);
    AgingPart2(a, b, c);
    var rest := Trace(Aging(), [Job(-1, c, 4), Job(-1, b, 5), Job(-1, a, 6)]);
    assert [c, c, b] + ([c, b, a] + rest) == [c, c, b, c, b, a] + rest;
  }

  /**
    Tasks that have run, those below their initial priority, are within one of the top: nobody
    in the queue has a priority more than one higher.
  */
  ghost predicate Level(q: seq<Job>, initial: map<int, int>) {
    && (forall i :: 0 <= i < |q| ==> q[i].id in initial && q[i].prio <= initial[q[i].id])
    && (forall i, j :: 0 <= i < |q| && 0 <= j < |q| && q[i].prio < initial[q[i].id] ==> q[j].prio <= q[i].prio + 1)
  }

  lemma NextIsDistinct(p: Policy, q: seq<Job>)
    requires q != [] && Active(q) && Distinct(q)
    ensures Distinct(Next(p, q))
  {}

  lemma AgingKeepsLevel(q: seq<Job>, initial: map<int, int>)
    requires q != [] && Active(q) && Distinct(q) && Level(q, initial)
    ensures Level(Next(Aging(), q), initial)
  {
    TopIsHighest(q);
    var b, q' := Best(PairLess, q), Next(Aging(), q);
    assert forall i :: 0 <= i < |q'| ==> i < |q| - 1 ==> q'[i] == q[if i < b then i else i + 1];
  }

  /** The queue after n resumptions, or at the end. */
  ghost function After(p: Policy, q: seq<Job>, n: nat): seq<Job>
    requires Active(q)
    decreases n
  {
    if n == 0 || q == [] then q
    else
      NextIsLess(p, q);
      After(p, Next(p, q), n - 1)
  }

  lemma {:induction false} AgingStaysLevel(q: seq<Job>, initial: map<int, int>, n: nat)
    requires Active(q) && Distinct(q) && Level(q, initial)
    ensures Level(After(Aging(), q, n), initial)
    decreases n
  {
    if n > 0 && q != [] {
      NextIsLess(Aging(), q);
      NextIsDistinct(Aging(), q);
      AgingKeepsLevel(q, initial);
      AgingStaysLevel(Next(Aging(), q), initial, n - 1);
    }
  }

  /** Two unfinished tasks that have both run never differ by more than one in priority. */
  lemma AgingEvensOut(q: seq<Job>, n: nat, initial: map<int, int>, i: nat, j: nat)
    requires Active(q) && Distinct(q)
    requires forall k :: 0 <= k < |q| ==> q[k].id in initial && initial[q[k].id] == q[k].prio
    requires i < |After(Aging(), q, n)| && j < |After(Aging(), q, n)|
    ensures var a := After(Aging(), q, n);
            && a[i].id in initial && a[j].id in initial
            && (a[i].prio < initial[a[i].id] && a[j].prio < initial[a[j].id] ==> -1 <= a[i].prio - a[j].prio <= 1)
  {
    AgingStaysLevel(q, initial, n);
  }

  /** Where the job at position i of the next queue comes from. */
  lemma ComesFrom(p: Policy, q: seq<Job>, i: nat) returns (k: nat)
    requires q != [] && Active(q) && Distinct(q) && i < |Next(p, q)|
    ensures k < |q| && Next(p, q)[i] == if k == Pick(p, q) then Resumed(p, q[k]) else q[k]
    ensures q[k].id == q[Pick(p, q)].id <==> k == Pick(p, q)
  {
    var b := Pick(p, q);
    k := if i == |q| - 1 then b else if i < b then i else i + 1;
  }

  lemma CountStep(p: Policy, q: seq<Job>, n: nat, id: int)
    requires q != [] && Active(q) && 0 < n <= |Trace(p, q)|
    ensures Active(Next(p, q)) && n - 1 <= |Trace(p, Next(p, q))|
    ensures Count(Trace(p, q)[..n], id) ==
            Count(Trace(p, Next(p, q))[..n - 1], id) + if q[Pick(p, q)].id == id then 1 else 0
  {
    NextIsLess(p, q);
    CountOfPrefix(q[Pick(p, q)].id, Trace(p, Next(p, q)), n, id);
  }

  /** Current priority and resumptions so far add up to the initial priority. */
  lemma {:induction false} AgingCounts(p: Policy, q: seq<Job>, n: nat, i: nat) returns (k: nat)
    requires p.Priority? && forall x :: p.update(x) == x - 1
    requires Active(q) && Distinct(q) && n <= |Trace(p, q)|
    requires i < |After(p, q, n)|
    ensures var a := After(p, q, n)[i];
            var ran := Count(Trace(p, q)[..n], a.id);
            k < |q| && q[k].id == a.id && a.prio + ran == q[k].prio && a.left + ran == q[k].left
    decreases n
  {
    if n == 0 {
      k := i;
    } else {
      CountStep(p, q, n, After(p, q, n)[i].id);
      NextIsDistinct(p, q);
      k := AgingCounts(p, Next(p, q), n - 1, i);
      k := ComesFrom(p, q, k);
    }
  }

  /** How often a task may be resumed before one with priority x gets its first turn. */
  ghost function Ahead(x: int, id: int): Job -> int {
    (j: Job) => if j.id == id || j.prio < x then 0 else j.prio - x + 1
  }

  /** A task that has not run in the first n resumptions has been overtaken as often as priorities allow. */
  lemma {:induction false} FirstTurnComes(q: seq<Job>, i: nat, n: nat)
    requires Active(q) && Distinct(q) && i < |q| && n <= |Trace(Aging(), q)|
    requires q[i].id !in Trace(Aging(), q)[..n]
    ensures n <= Sum(q, Ahead(q[i].prio, q[i].id))
    decreases n
  {
    SumIsNonnegative(q, Ahead(q[i].prio, q[i].id));
    if n == 0 {
    } else {
      var p, q', b := Aging(), Next(Aging(), q), Pick(Aging(), q);
      NextIsLess(p, q);
      NextIsDistinct(p, q);
      assert Trace(p, q)[..n] == [q[b].id] + Trace(p, q')[..n - 1];
      assert Trace(p, q)[..n][0] == q[b].id;
      var i' := if i < b then i else i - 1;
      OvertakingCosts(q, i);
      WaiterStays(q, i);
      FirstTurnComes(q', i', n - 1);
    }
  }

  /** Whoever is resumed before the task at i uses up one of the turns it may have ahead of it. */
  lemma OvertakingCosts(q: seq<Job>, i: nat)
    requires Active(q) && Distinct(q) && i < |q| && i != Pick(Aging(), q)
    ensures var ahead := Ahead(q[i].prio, q[i].id); Sum(Next(Aging(), q), ahead) < Sum(q, ahead)
  {
    var ahead, j := Ahead(q[i].prio, q[i].id), q[Pick(Aging(), q)];
    NextSum(Aging(), q, ahead);
    TopIsHighest(q);
    assert j.id != q[i].id && j.prio >= q[i].prio;
  }

  lemma WaiterStays(q: seq<Job>, i: nat)
    requires Active(q) && i < |q| && i != Pick(Aging(), q)
    ensures var k := if i < Pick(Aging(), q) then i else i - 1; k < |Next(Aging(), q)| && Next(Aging(), q)[k] == q[i]
  {}

  // ---------- The schedulers ----------

  /** A coroutine that suspends `left - 1` times. */
  class Task {
    const id: int
    var left: nat
    var done: bool
    ghost var destroyed: bool

    constructor (id: int, resumes: nat)
      requires resumes > 0
      ensures this.id == id && left == resumes && !done && !destroyed
    {
      this.id, left, done, destroyed := id, resumes, false, false;
    }

    method Resume()
      requires !done && !destroyed && left > 0
      modifies this`left, this`done
      ensures left == old(left) - 1 && done == (left == 0)
    {
      left := left - 1;
      done := left == 0;
    }

    /** coroutine_handle::done(), defined only on a frame that still exists. */
    predicate IsDone()
      reads this
      requires !destroyed
    {
      done
    }

    method Destroy()
      requires done && !destroyed
      modifies this`destroyed
      ensures destroyed
    {
      destroyed := true;
    }
  }

  class Scheduler {
    const policy: Policy
    var tasks: seq<(int, Task)>
    var resumed: seq<int>
    ghost var jobs: seq<Job>    // the queue as values
    ghost var heap: set<Task>   // every task emplaced
    ghost var alive: set<Task>  // those not destroyed

    /** The queue holds exactly the emplaced tasks not destroyed, each once and none done. */
    ghost predicate Valid()
      reads this, heap
    {
      Queued() && |alive| == |tasks|
    }

    /** The same while `active`, out of the queue, is being resumed. */
    ghost predicate Holds(active: Task)
      reads this, heap
    {
      && Queued() && |alive| == |tasks| + 1 && active in alive
      && forall i :: 0 <= i < |tasks| ==> tasks[i].1 != active && jobs[i].id != active.id
    }

    ghost predicate Queued()
      reads this, heap
    {
      && alive <= heap && (forall t :: t in heap ==> (t.destroyed <==> t !in alive))
      && |jobs| == |tasks| && Distinct(jobs) && Active(jobs)
      && (forall i :: 0 <= i < |tasks| ==>
            var (prio, task) := tasks[i];
            task in alive && !task.done && jobs[i] == Job(prio, task.id, task.left))
    }

    constructor (policy: Policy)
      ensures Valid() && this.policy == policy && jobs == [] && heap == {} && resumed == []
    {
      this.policy := policy;
      tasks, resumed, jobs, heap, alive := [], [], [], {}, {};
    }

    /** emplace(), before the scheduler runs or while it resumes `active`. */
    method Emplace(prio: int, task: Task, ghost active: Task?)
      requires if active == null then Valid() else Holds(active) && active.id != task.id
      requires task !in heap && !task.done && !task.destroyed && task.left > 0
      requires forall i :: 0 <= i < |jobs| ==> jobs[i].id != task.id
      modifies this`tasks, this`jobs, this`heap, this`alive
      ensures if active == null then Valid() else Holds(active)
      ensures jobs == old(jobs) + [Job(prio, task.id, task.left)] && heap == old(heap) + {task}
    {
      Insert(prio, task);
    }

    method Insert(prio: int, task: Task)
      requires Queued() && task !in heap && !task.done && !task.destroyed && task.left > 0
      requires forall i :: 0 <= i < |jobs| ==> jobs[i].id != task.id
      modifies this`tasks, this`jobs, this`heap, this`alive
      ensures Queued() && tasks == old(tasks) + [(prio, task)]
      ensures jobs == old(jobs) + [Job(prio, task.id, task.left)] && heap == old(heap) + {task}
      ensures alive == old(alive) + {task} && |alive| == |old(alive)| + 1
    {
      tasks := tasks + [(prio, task)];
      jobs, heap, alive := jobs + [Job(prio, task.id, task.left)], heap + {task}, alive + {task};
    }

    /** top() of the container. */
    method Top() returns (b: nat)
      requires Valid() && tasks != []
      ensures b == Pick(policy, jobs)
    {
      match policy
      case Stack => b := |tasks| - 1;
      case Priority(less, _) =>
        b := 0;
        for i := 1 to |tasks|
          invariant b == Best(less, jobs[..i])
        {
          assert jobs[..i + 1][..i] == jobs[..i];
          var best, next := tasks[b], tasks[i];
          if less((best.0, best.1.id), (next.0, next.1.id)) {
            b := i;
          }
        }
        assert jobs[..|tasks|] == jobs;
    }

    method Take(b: nat) returns (prio: int, active: Task)
      requires Valid() && b < |tasks|
      modifies this`tasks, this`jobs
      ensures Holds(active) && !active.done && !active.destroyed
      ensures jobs == Without(old(jobs), b) && old(jobs)[b] == Job(prio, active.id, active.left)
    {
      prio, active := tasks[b].0, tasks[b].1;
      tasks, jobs := tasks[..b] + tasks[b + 1..], Without(jobs, b);
    }

    method PutBack(prio: int, active: Task)
      requires Holds(active) && !active.done && active.left > 0
      modifies this`tasks, this`jobs
      ensures Valid() && jobs == old(jobs) + [Job(prio, active.id, active.left)]
    {
      tasks, jobs := tasks + [(prio, active)], jobs + [Job(prio, active.id, active.left)];
    }

    method Retire(active: Task)
      requires Holds(active) && active.done && !active.destroyed
      modifies this`alive, active`destroyed
      ensures Valid()
    {
      active.Destroy();
      alive := alive - {active};
    }

    /** One pass of the loop of schedule(). */
    method Turn()
      requires Valid() && tasks != []
      modifies this`tasks, this`resumed, this`jobs, this`alive, heap
      ensures Valid() && jobs == old(Next(policy, jobs))
      ensures resumed == old(resumed) + [old(jobs[Pick(policy, jobs)].id)]
    {
      var b := Top();
      var prio, active := Take(b);
      active.Resume();
      resumed := resumed + [active.id];
      if !active.IsDone() {
        PutBack(match policy case Stack => prio case Priority(_, update) => update(prio), active);
      } else {
        Retire(active);
      }
    }

    /** schedule() */
    method Schedule()
      requires Valid()
      modifies this`tasks, this`resumed, this`jobs, this`alive, heap
      ensures Valid() && tasks == [] && forall t :: t in heap ==> t.destroyed
      ensures resumed == old(resumed) + Trace(policy, old(jobs))
    {
      while tasks != []
        invariant Valid()
        invariant resumed + Trace(policy, jobs) == old(resumed) + Trace(policy, old(jobs))
        decreases Total(jobs)
      {
        NextIsLess(policy, jobs);
        Associative(resumed, [jobs[Pick(policy, jobs)].id], Trace(policy, Next(policy, jobs)));
        Turn();
      }
    }
  }
}
