/**
  `concurrency/threadSafeQueue.cpp`: producers that number, push, unlock and only then notify,
  and consumers that wait for a non-empty queue, as interleaved atomic steps.
*/
module MonitorQueue {
  import opened Tally

  datatype Producer =
    | Fresh
    | Numbered(number: int)   // ++sharedCounter done
    | Locked(number: int)     // holds the mutex
    | Pushed                  // holds the mutex, number in the queue
    | Unlocked                // mutex released, notify_one still to come
    | Finished

  datatype Consumer =
    | Start
    | Checking                // holds the mutex, about to evaluate the predicate
    | Asleep                  // in condition_variable::wait
    | Woken                   // notified or woken spuriously, wants the mutex back
    | Ready                   // holds the mutex, the predicate was true
    | Popped(number: int)     // holds the mutex
    | Carrying(number: int)   // mutex released, number not yet added
    | Finished

  datatype Owner = Nobody | TheProducer(index: nat) | TheConsumer(index: nat)

  datatype State = State(
    producers: seq<Producer>, consumers: seq<Consumer>, mutex: Owner,
    queue: seq<int>, sharedCounter: int, sharedSum: int,
    pushed: seq<int>, removed: seq<int>)  // the last two record what push_back and pop_front did

  datatype Step =
    | Produce(index: nat)
    | NotifyOne(index: nat, sleeper: nat)
    | NotifyNobody(index: nat)
    | Consume(index: nat)
    | SpuriousWakeup(index: nat)

  function Initial(producers: nat, consumers: nat): State {
    State(seq(producers, _ => Fresh), seq(consumers, _ => Start), Nobody, [], 0, 0, [], [])
  }

  // ---------- The atomic steps ----------

  predicate Enabled(s: State, step: Step) {
    match step
    case Produce(i) =>
      i < |s.producers| &&
      (match s.producers[i]
       case Numbered(_) => s.mutex == Nobody
       case Unlocked => false
       case Finished => false
       case _ => true)
    case NotifyOne(i, j) =>
      i < |s.producers| && s.producers[i] == Unlocked && j < |s.consumers| && s.consumers[j] == Asleep
    case NotifyNobody(i) =>
      i < |s.producers| && s.producers[i] == Unlocked && forall j :: 0 <= j < |s.consumers| ==> s.consumers[j] != Asleep
    case Consume(i) =>
      i < |s.consumers| &&
      (match s.consumers[i]
       case Start => s.mutex == Nobody
       case Woken => s.mutex == Nobody
       case Asleep => false
       case Finished => false
       case _ => true)
    case SpuriousWakeup(i) => i < |s.consumers| && s.consumers[i] == Asleep
  }

  function AtProducer(s: State, i: nat, p: Producer): State
    requires i < |s.producers|
  {
    s.(producers := s.producers[i := p])
  }

  function AtConsumer(s: State, i: nat, c: Consumer): State
    requires i < |s.consumers|
  {
    s.(consumers := s.consumers[i := c])
  }

  function Do(s: State, step: Step): State
    requires Enabled(s, step)
    requires step.Consume? && s.consumers[step.index] == Ready ==> s.queue != []
  {
    match step
    case Produce(i) =>
      (match s.producers[i]
       case Fresh => AtProducer(s, i, Numbered(s.sharedCounter + 1)).(sharedCounter := s.sharedCounter + 1)
       case Numbered(n) => AtProducer(s, i, Locked(n)).(mutex := TheProducer(i))
       case Locked(n) => AtProducer(s, i, Pushed).(queue := s.queue + [n], pushed := s.pushed + [n])
       case _ => AtProducer(s, i, Unlocked).(mutex := Nobody))
    case NotifyOne(i, j) => AtConsumer(AtProducer(s, i, Producer.Finished), j, Woken)
    case NotifyNobody(i) => AtProducer(s, i, Producer.Finished)
    case Consume(i) =>
      (match s.consumers[i]
       case Checking =>
         if s.queue == [] then AtConsumer(s, i, Asleep).(mutex := Nobody) else AtConsumer(s, i, Ready)
       case Ready =>
         AtConsumer(s, i, Popped(s.queue[0])).(queue := s.queue[1..], removed := s.removed + [s.queue[0]])
       case Popped(n) => AtConsumer(s, i, Carrying(n)).(mutex := Nobody)
       case Carrying(n) => AtConsumer(s, i, Consumer.Finished).(sharedSum := s.sharedSum + n)
       case _ => AtConsumer(s, i, Checking).(mutex := TheConsumer(i)))
    case SpuriousWakeup(i) => AtConsumer(s, i, Woken)
  }

  // ---------- What is counted ----------

  ghost function Numbering(p: Producer): int { if p == Fresh then 0 else 1 }
  ghost function InHand(p: Producer): int { if p.Numbered? || p.Locked? then p.number else 0 }
  ghost function HasPushed(p: Producer): int { if p.Pushed? || p.Unlocked? || p.Finished? then 1 else 0 }
  ghost function OwesNotify(p: Producer): int { if p.Pushed? || p.Unlocked? then 1 else 0 }

  ghost function Sleeps(c: Consumer): int { if c.Asleep? then 1 else 0 }
  ghost function AwakeToPop(c: Consumer): int { if c.Start? || c.Checking? || c.Woken? || c.Ready? then 1 else 0 }
  ghost function HasPopped(c: Consumer): int { if c.Popped? || c.Carrying? || c.Finished? then 1 else 0 }
  ghost function Carried(c: Consumer): int { if c.Popped? || c.Carrying? then c.number else 0 }

  ghost function Itself(n: int): int { n }

  ghost function Triangle(n: int): int { n * (n + 1) / 2 }

  lemma TriangleNext(n: int)
    ensures Triangle(n + 1) == Triangle(n) + n + 1
  {
    assert (n + 1) * (n + 2) == n * (n + 1) + 2 * (n + 1);
  }

  // ---------- The invariant ----------

  /** The mutex excludes: exactly the thread that owns it is inside. */
  ghost predicate Exclusion(s: State) {
    && (forall i :: 0 <= i < |s.producers| ==>
          (s.producers[i].Locked? || s.producers[i].Pushed? <==> s.mutex == TheProducer(i)))
    && (forall i :: 0 <= i < |s.consumers| ==>
          (s.consumers[i].Checking? || s.consumers[i].Ready? || s.consumers[i].Popped? <==> s.mutex == TheConsumer(i)))
    && (forall i :: 0 <= i < |s.consumers| && s.consumers[i].Ready? ==> s.queue != [])
    && (s.mutex.TheProducer? ==> s.mutex.index < |s.producers|)
    && (s.mutex.TheConsumer? ==> s.mutex.index < |s.consumers|)
  }

  /** Nothing is lost, invented or reordered between the counter, the queue and the sum. */
  ghost predicate Conservation(s: State) {
    && s.removed + s.queue == s.pushed
    && s.sharedCounter == Sum(s.producers, Numbering)
    && |s.pushed| == Sum(s.producers, HasPushed)
    && |s.removed| == Sum(s.consumers, HasPopped)
    && Sum(s.pushed, Itself) + Sum(s.producers, InHand) == Triangle(s.sharedCounter)
    && s.sharedSum + Sum(s.consumers, Carried) == Sum(s.removed, Itself)
  }

  /** While somebody sleeps, every queued number has a consumer awake or a notification coming for it. */
  ghost predicate NoLostWakeup(s: State) {
    Sum(s.consumers, Sleeps) > 0 ==>
      |s.queue| <= Sum(s.consumers, AwakeToPop) + Sum(s.producers, OwesNotify)
  }

  ghost predicate Inv(s: State) {
    Exclusion(s) && Conservation(s) && NoLostWakeup(s)
  }

  lemma InitialInv(producers: nat, consumers: nat)
    ensures Inv(Initial(producers, consumers))
  {
    var s := Initial(producers, consumers);
    SumOfConstant(s.producers, Numbering, 0);
    SumOfConstant(s.producers, HasPushed, 0);
    SumOfConstant(s.producers, InHand, 0);
    SumOfConstant(s.consumers, HasPopped, 0);
    SumOfConstant(s.consumers, Carried, 0);
    SumOfConstant(s.consumers, Sleeps, 0);
  }

  lemma ProducerMoves(s: State, i: nat, p: Producer)
    requires i < |s.producers|
    ensures var before, after := s.producers, s.producers[i := p];
            && Sum(after, Numbering) == Sum(before, Numbering) - Numbering(before[i]) + Numbering(p)
            && Sum(after, InHand) == Sum(before, InHand) - InHand(before[i]) + InHand(p)
            && Sum(after, HasPushed) == Sum(before, HasPushed) - HasPushed(before[i]) + HasPushed(p)
            && Sum(after, OwesNotify) == Sum(before, OwesNotify) - OwesNotify(before[i]) + OwesNotify(p)
  {
    SumOfUpdate(s.producers, i, p, Numbering);
    SumOfUpdate(s.producers, i, p, InHand);
    SumOfUpdate(s.producers, i, p, HasPushed);
    SumOfUpdate(s.producers, i, p, OwesNotify);
  }

  lemma ConsumerMoves(s: State, i: nat, c: Consumer)
    requires i < |s.consumers|
    ensures var before, after := s.consumers, s.consumers[i := c];
            && Sum(after, Sleeps) == Sum(before, Sleeps) - Sleeps(before[i]) + Sleeps(c)
            && Sum(after, AwakeToPop) == Sum(before, AwakeToPop) - AwakeToPop(before[i]) + AwakeToPop(c)
            && Sum(after, HasPopped) == Sum(before, HasPopped) - HasPopped(before[i]) + HasPopped(c)
            && Sum(after, Carried) == Sum(before, Carried) - Carried(before[i]) + Carried(c)
  {
    SumOfUpdate(s.consumers, i, c, Sleeps);
    SumOfUpdate(s.consumers, i, c, AwakeToPop);
    SumOfUpdate(s.consumers, i, c, HasPopped);
    SumOfUpdate(s.consumers, i, c, Carried);
  }

  lemma CountsNonnegative(s: State)
    ensures Sum(s.consumers, AwakeToPop) >= 0 && Sum(s.producers, OwesNotify) >= 0
  {
    SumIsNonnegative(s.consumers, AwakeToPop);
    SumIsNonnegative(s.producers, OwesNotify);
  }

  /** No step pops an empty queue, and every step keeps the invariant. */
  lemma StepKeepsInv(s: State, step: Step)
    requires Inv(s) && Enabled(s, step)
    ensures step.Consume? && s.consumers[step.index] == Ready ==> s.queue != []
    ensures Inv(Do(s, step))
  {
    StepKeepsExclusion(s, step);
    match step
    case Produce(i) => ProduceKeepsCounts(s, i);
    case Consume(i) => ConsumeKeepsCounts(s, i);
    case _ => WakeKeepsCounts(s, step);
  }

  lemma StepKeepsExclusion(s: State, step: Step)
    requires Exclusion(s) && Enabled(s, step)
    ensures step.Consume? && s.consumers[step.index] == Ready ==> s.queue != []
    ensures Exclusion(Do(s, step))
  {}

  lemma ProduceKeepsCounts(s: State, i: nat)
    requires Conservation(s) && NoLostWakeup(s) && Enabled(s, Produce(i))
    ensures Conservation(Do(s, Produce(i))) && NoLostWakeup(Do(s, Produce(i)))
  {
    ProduceConserves(s, i);
    ProducerMoves(s, i, Do(s, Produce(i)).producers[i]);
  }

  lemma ProduceConserves(s: State, i: nat)
    requires Conservation(s) && Enabled(s, Produce(i))
    ensures Conservation(Do(s, Produce(i)))
  {
    ProducerMoves(s, i, Do(s, Produce(i)).producers[i]);
    if s.producers[i].Fresh? {
      TriangleNext(s.sharedCounter);
    } else if s.producers[i].Locked? {
      var n := s.producers[i].number;
      SumOfSnoc(s.pushed, n, Itself);
      assert s.removed + (s.queue + [n]) == s.pushed + [n];
    }
  }

  lemma HeadMoves(a: seq<int>, b: seq<int>)
    requires b != []
    ensures a + [b[0]] + b[1..] == a + b
  {}

  lemma ConsumeKeepsCounts(s: State, i: nat)
    requires Inv(s) && Enabled(s, Consume(i))
    ensures Conservation(Do(s, Consume(i))) && NoLostWakeup(Do(s, Consume(i)))
  {
    ConsumeConserves(s, i);
    ConsumerMoves(s, i, Do(s, Consume(i)).consumers[i]);
    CountsNonnegative(Do(s, Consume(i)));
  }

  lemma ConsumeConserves(s: State, i: nat)
    requires Inv(s) && Enabled(s, Consume(i))
    ensures Conservation(Do(s, Consume(i)))
  {
    ConsumerMoves(s, i, Do(s, Consume(i)).consumers[i]);
    if s.consumers[i].Ready? {
      SumOfSnoc(s.removed, s.queue[0], Itself);
      HeadMoves(s.removed, s.queue);
    }
  }

  lemma WakeKeepsCounts(s: State, step: Step)
    requires Inv(s) && Enabled(s, step) && !step.Produce? && !step.Consume?
    ensures Conservation(Do(s, step)) && NoLostWakeup(Do(s, step))
  {
    match step
    case NotifyOne(i, j) =>
      ProducerMoves(s, i, Producer.Finished);
      ConsumerMoves(s, j, Woken);
    case NotifyNobody(i) =>
      ProducerMoves(s, i, Producer.Finished);
      SumOfConstant(s.consumers, Sleeps, 0);
    case SpuriousWakeup(i) =>
      ConsumerMoves(s, i, Woken);
    case _ =>
  }

  // ---------- Whole runs ----------

  /** pop_front on an empty deque would be undefined. */
  predicate Safe(s: State, step: Step) {
    step.Consume? && step.index < |s.consumers| && s.consumers[step.index] == Ready ==> s.queue != []
  }

  ghost predicate Runs(s: State, steps: seq<Step>, t: State)
    decreases |steps|
  {
    if steps == [] then s == t
    else Enabled(s, steps[0]) && Safe(s, steps[0]) && Runs(Do(s, steps[0]), steps[1..], t)
  }

  lemma {:induction false} RunKeepsInv(s: State, steps: seq<Step>, t: State)
    requires Inv(s) && Runs(s, steps, t)
    ensures Inv(t) && |t.producers| == |s.producers| && |t.consumers| == |s.consumers|
    ensures forall step :: Enabled(t, step) ==> Safe(t, step)
    decreases |steps|
  {
    if steps == [] {
      forall step | Enabled(t, step) ensures Safe(t, step) {
        StepKeepsExclusion(t, step);
      }
    } else {
      StepKeepsInv(s, steps[0]);
      RunKeepsInv(Do(s, steps[0]), steps[1..], t);
    }
  }

  // ---------- What the records record ----------

  /** The number pushed is that of the producer that pushes it, behind all others; the one removed is the first. */
  lemma StepRecords(s: State, step: Step)
    requires Enabled(s, step) && Safe(s, step)
    ensures Do(s, step).pushed == s.pushed + (if step.Produce? && s.producers[step.index].Locked?
                                              then [s.producers[step.index].number] else [])
    ensures Do(s, step).removed == s.removed + (if step.Consume? && s.consumers[step.index].Ready?
                                                then [s.queue[0]] else [])
    ensures step.Consume? && s.consumers[step.index].Ready? ==>
              Do(s, step).consumers[step.index] == Popped(Do(s, step).removed[|s.removed|])
  {
    assert s.pushed + [] == s.pushed && s.removed + [] == s.removed;
  }

  /** Both records only grow, at their end. */
  lemma {:induction false} RecordsGrow(s: State, steps: seq<Step>, t: State)
    requires Runs(s, steps, t)
    ensures s.pushed <= t.pushed && s.removed <= t.removed
    decreases |steps|
  {
    if steps == [] {
    } else {
      StepRecords(s, steps[0]);
      RecordsGrow(Do(s, steps[0]), steps[1..], t);
    }
  }

  // ---------- What may happen ----------

  /** A producer waits for nothing but the mutex, and then only before it has pushed. */
  lemma ProducerWaitsForMutex(s: State, i: nat)
    requires i < |s.producers| && !s.producers[i].Finished?
    ensures (forall step :: Enabled(s, step) && !step.Consume? && !step.SpuriousWakeup? ==> step.index != i)
       <==> s.producers[i].Numbered? && s.mutex != Nobody
  {
    if s.producers[i] == Unlocked {
      if j :| 0 <= j < |s.consumers| && s.consumers[j] == Asleep {
        assert Enabled(s, NotifyOne(i, j));
      } else {
        assert Enabled(s, NotifyNobody(i));
      }
    } else {
      assert Enabled(s, Produce(i)) <==> (s.producers[i].Numbered? ==> s.mutex == Nobody);
    }
  }

  /** A consumer waits for the mutex, or sleeps until it is notified or wakes by itself. */
  lemma ConsumerWaits(s: State, i: nat)
    requires i < |s.consumers| && !s.consumers[i].Finished?
    ensures !Enabled(s, Consume(i)) <==>
            s.consumers[i].Asleep? || ((s.consumers[i].Start? || s.consumers[i].Woken?) && s.mutex != Nobody)
    ensures s.consumers[i].Asleep? ==>
              && Enabled(s, SpuriousWakeup(i)) && Do(s, SpuriousWakeup(i)) == s.(consumers := s.consumers[i := Woken])
    ensures s.consumers[i].Asleep? ==>
              forall p: nat :: p < |s.producers| && s.producers[p].Unlocked? ==> Enabled(s, NotifyOne(p, i))
  {}

  lemma {:induction false} OneStepMore(s: State, steps: seq<Step>, t: State, step: Step)
    requires Runs(s, steps, t) && Enabled(t, step) && Safe(t, step)
    ensures Runs(s, steps + [step], Do(t, step))
    decreases |steps|
  {
    if steps == [] {
      assert ([] + [step])[1..] == [];
      assert Runs(Do(s, step), [], Do(s, step));
    } else {
      OneStepMore(Do(s, steps[0]), steps[1..], t, step);
      assert (steps + [step])[1..] == steps[1..] + [step];
    }
  }

  /** n producers with their numbers, of which those in `done` have pushed, in this order. */
  ghost predicate Pushing(s: State, n: nat, done: seq<nat>) {
    && |s.producers| == n && s.mutex == Nobody
    && (forall i :: 0 <= i < n ==> s.producers[i] == if i in done then Unlocked else Numbered(i + 1))
    && s.pushed == seq(|done|, (k: nat) requires k < |done| => done[k] + 1)
  }

  /** Producers 0 to k - 1 have drawn their numbers, in this order. */
  lemma {:induction false} DrawNumbers(n: nat, m: nat, k: nat) returns (steps: seq<Step>, s: State)
    requires k <= n
    ensures Runs(Initial(n, m), steps, s) && s.sharedCounter == k && s.mutex == Nobody && s.pushed == []
    ensures |s.producers| == n && forall i :: 0 <= i < n ==> s.producers[i] == if i < k then Numbered(i + 1) else Fresh
  {
    if k == 0 {
      steps, s := [], Initial(n, m);
    } else {
      steps, s := DrawNumbers(n, m, k - 1);
      OneStepMore(Initial(n, m), steps, s, Produce(k - 1));
      steps, s := steps + [Produce(k - 1)], Do(s, Produce(k - 1));
    }
  }

  lemma PushOne(s0: State, steps: seq<Step>, s: State, n: nat, done: seq<nat>, i: nat) returns (more: seq<Step>, t: State)
    requires Runs(s0, steps, s) && Pushing(s, n, done) && i < n && i !in done
    ensures Runs(s0, more, t) && Pushing(t, n, done + [i])
  {
    var step := Produce(i);
    var locked := Do(s, step);
    var pushed := Do(locked, step);
    t := Do(pushed, step);
    OneStepMore(s0, steps, s, step);
    OneStepMore(s0, steps + [step], locked, step);
    OneStepMore(s0, steps + [step] + [step], pushed, step);
    more := steps + [step] + [step] + [step];
    assert t.pushed == seq(|done + [i]|, (k: nat) requires k < |done + [i]| => (done + [i])[k] + 1);
  }

  /** Whatever the order in which the numbers were drawn, they may be pushed in any order. */
  lemma {:induction false} AnyOrderOfPushes(n: nat, m: nat, order: seq<nat>) returns (steps: seq<Step>, t: State)
    requires (forall k :: 0 <= k < |order| ==> order[k] < n)
    requires forall j, k :: 0 <= j < k < |order| ==> order[j] != order[k]
    ensures Runs(Initial(n, m), steps, t) && Pushing(t, n, order)
  {
    if order == [] {
      steps, t := DrawNumbers(n, m, n);
    } else {
      var k := |order| - 1;
      steps, t := AnyOrderOfPushes(n, m, order[..k]);
      steps, t := PushOne(Initial(n, m), steps, t, n, order[..k], order[k]);
      assert order[..k] + [order[k]] == order;
    }
  }

  lemma TwoSteps(s: State, a: Step, b: Step, t: State)
    requires Enabled(s, a) && Safe(s, a) && Enabled(Do(s, a), b) && Safe(Do(s, a), b) && Do(Do(s, a), b) == t
    ensures Runs(s, [a, b], t)
  {
    assert [a, b][1..] == [b] && [b][1..] == [];
    assert Runs(t, [], t) && Runs(Do(s, a), [b], t);
  }

  lemma {:induction false} InTurn(s: State, a: seq<Step>, t: State, b: seq<Step>, u: State)
    requires Runs(s, a, t) && Runs(t, b, u)
    ensures Runs(s, a + b, u)
    decreases |a|
  {
    if a == [] {
      assert [] + b == b;
    } else {
      InTurn(Do(s, a[0]), a[1..], t, b, u);
      assert (a + b)[1..] == a[1..] + b;
    }
  }

  /** One producer and two consumers, the first of them asleep. */
  lemma FallsAsleep() returns (s: State)
    ensures s == State([Fresh], [Asleep, Start], Nobody, [], 0, 0, [], [])
    ensures Runs(Initial(1, 2), [Consume(0), Consume(0)], s)
  {
    s := State([Fresh], [Asleep, Start], Nobody, [], 0, 0, [], []);
    TwoSteps(Initial(1, 2), Consume(0), Consume(0), s);
  }

  lemma PushesAndUnlocks(s: State) returns (t: State)
    requires s == State([Fresh], [Asleep, Start], Nobody, [], 0, 0, [], [])
    ensures t == State([Unlocked], [Asleep, Start], Nobody, [1], 1, 0, [1], [])
    ensures Runs(s, [Produce(0), Produce(0)] + [Produce(0), Produce(0)], t)
  {
    var locked := State([Locked(1)], [Asleep, Start], TheProducer(0), [], 1, 0, [], []);
    t := State([Unlocked], [Asleep, Start], Nobody, [1], 1, 0, [1], []);
    TwoSteps(s, Produce(0), Produce(0), locked);
    TwoSteps(locked, Produce(0), Produce(0), t);
    InTurn(s, [Produce(0), Produce(0)], locked, [Produce(0), Produce(0)], t);
  }

  lemma OtherComesFirst(s: State) returns (t: State)
    requires s == State([Unlocked], [Asleep, Start], Nobody, [1], 1, 0, [1], [])
    ensures t == State([Producer.Finished], [Woken, Popped(1)], TheConsumer(1), [], 1, 0, [1], [1])
    ensures Runs(s, [NotifyOne(0, 0), Consume(1)] + [Consume(1), Consume(1)], t)
  {
    var checking := State([Producer.Finished], [Woken, Checking], TheConsumer(1), [1], 1, 0, [1], []);
    t := State([Producer.Finished], [Woken, Popped(1)], TheConsumer(1), [], 1, 0, [1], [1]);
    TwoSteps(s, NotifyOne(0, 0), Consume(1), checking);
    TwoSteps(checking, Consume(1), Consume(1), t);
    InTurn(s, [NotifyOne(0, 0), Consume(1)], checking, [Consume(1), Consume(1)], t);
  }

  lemma SleepsAgain(s: State) returns (t: State)
    requires s == State([Producer.Finished], [Woken, Popped(1)], TheConsumer(1), [], 1, 0, [1], [1])
    ensures t == State([Producer.Finished], [Asleep, Carrying(1)], Nobody, [], 1, 0, [1], [1])
    ensures Runs(s, [Consume(1), Consume(0)] + [Consume(0)], t)
  {
    var checking := State([Producer.Finished], [Checking, Carrying(1)], TheConsumer(0), [], 1, 0, [1], [1]);
    t := State([Producer.Finished], [Asleep, Carrying(1)], Nobody, [], 1, 0, [1], [1]);
    TwoSteps(s, Consume(1), Consume(0), checking);
    OneStepMore(s, [Consume(1), Consume(0)], checking, Consume(0));
  }

  /**
    A consumer that was notified may find the queue empty again, because another came first, and
    go back to sleep.
  */
  lemma NotificationMayBeVain() returns (steps: seq<Step>, t: State)
    ensures Runs(Initial(1, 2), steps, t)
    ensures t == State([Producer.Finished], [Asleep, Carrying(1)], Nobody, [], 1, 0, [1], [1])
  {
    var a := FallsAsleep();
    var b := PushesAndUnlocks(a);
    var c := OtherComesFirst(b);
    t := SleepsAgain(c);
    steps := [Consume(0), Consume(0)];
    InTurn(Initial(1, 2), steps, a, [Produce(0), Produce(0)] + [Produce(0), Produce(0)], b);
    steps := steps + ([Produce(0), Produce(0)] + [Produce(0), Produce(0)]);
    InTurn(Initial(1, 2), steps, b, [NotifyOne(0, 0), Consume(1)] + [Consume(1), Consume(1)], c);
    steps := steps + ([NotifyOne(0, 0), Consume(1)] + [Consume(1), Consume(1)]);
    InTurn(Initial(1, 2), steps, c, [Consume(1), Consume(0)] + [Consume(0)], t);
    steps := steps + ([Consume(1), Consume(0)] + [Consume(0)]);
  }

  /** A sleeping consumer may wake without any notification. */
  lemma WakesBySpuriousWakeup() returns (t: State)
    ensures Runs(Initial(1, 2), [Consume(0), Consume(0)] + [SpuriousWakeup(0)], t)
    ensures t == State([Fresh], [Woken, Start], Nobody, [], 0, 0, [], [])
  {
    var a := FallsAsleep();
    t := State([Fresh], [Woken, Start], Nobody, [], 0, 0, [], []);
    assert Do(a, SpuriousWakeup(0)) == t;
    OneStepMore(Initial(1, 2), [Consume(0), Consume(0)], a, SpuriousWakeup(0));
  }

  /** No thread can go on by itself. */
  ghost predicate Stuck(s: State) {
    forall step :: Enabled(s, step) ==> step.SpuriousWakeup?
  }

  lemma StuckThreads(s: State)
    requires Exclusion(s) && Stuck(s)
    ensures forall i :: 0 <= i < |s.producers| ==> s.producers[i].Finished?
    ensures forall i :: 0 <= i < |s.consumers| ==> s.consumers[i].Finished? || s.consumers[i].Asleep?
  {
    assert s.mutex.TheProducer? ==> Enabled(s, Produce(s.mutex.index));
    assert s.mutex.TheConsumer? ==> Enabled(s, Consume(s.mutex.index));
    assert s.mutex == Nobody;
    forall i | 0 <= i < |s.producers| ensures s.producers[i].Finished? {
      assert !Enabled(s, Produce(i)) && !Enabled(s, NotifyNobody(i));
      forall j | 0 <= j < |s.consumers| && s.consumers[j] == Asleep ensures s.producers[i] != Unlocked {
        assert !Enabled(s, NotifyOne(i, j));
      }
    }
    forall i | 0 <= i < |s.consumers| ensures s.consumers[i].Finished? || s.consumers[i].Asleep? {
      assert !Enabled(s, Consume(i));
    }
  }

  lemma {:induction false} SleepersAndFinished(cs: seq<Consumer>)
    requires forall i :: 0 <= i < |cs| ==> cs[i].Finished? || cs[i].Asleep?
    ensures Sum(cs, Sleeps) + Sum(cs, HasPopped) == |cs|
    ensures Sum(cs, AwakeToPop) == 0 && Sum(cs, Carried) == 0 && Sum(cs, Sleeps) >= 0
    ensures Sum(cs, Sleeps) == 0 <==> forall i :: 0 <= i < |cs| ==> cs[i].Finished?
  {
    if cs == [] {
    } else {
      var n := |cs| - 1;
      SleepersAndFinished(cs[..n]);
      assert forall i :: 0 <= i < n ==> cs[..n][i] == cs[i];
    }
  }

  /**
    Where no thread can go on, every producer has finished, and every consumer too exactly when
    there are not more consumers than producers. With as many of each all numbers are added up.
  */
  lemma StuckMeansDone(s: State)
    requires Inv(s) && Stuck(s)
    ensures forall i :: 0 <= i < |s.producers| ==> s.producers[i].Finished?
    ensures (forall i :: 0 <= i < |s.consumers| ==> s.consumers[i].Finished?) <==> |s.consumers| <= |s.producers|
    ensures |s.consumers| >= |s.producers| ==> s.queue == [] && s.sharedSum == Triangle(|s.producers|)
  {
    StuckThreads(s);
    SleepersAndFinished(s.consumers);
    SumOfConstant(s.producers, HasPushed, 1);
    SumOfConstant(s.producers, Numbering, 1);
    SumOfConstant(s.producers, InHand, 0);
    SumOfConstant(s.producers, OwesNotify, 0);
    assert |s.removed| + |s.queue| == |s.pushed|;
    if s.queue == [] {
      assert s.removed == s.pushed;
    }
  }

  // ---------- Runs end ----------

  ghost function ProducerRank(p: Producer): int {
    match p case Fresh => 7 case Numbered(_) => 6 case Locked(_) => 5 case Pushed => 4 case Unlocked => 3 case Finished => 0
  }

  ghost function ConsumerRank(c: Consumer): int {
    match c
    case Start => 9
    case Woken => 8
    case Checking => 7
    case Asleep => 6
    case Ready => 5
    case Popped(_) => 4
    case Carrying(_) => 3
    case Finished => 0
  }

  ghost function Rank(s: State): int {
    Sum(s.producers, ProducerRank) + Sum(s.consumers, ConsumerRank)
  }

  ghost function Spurious(steps: seq<Step>): nat {
    if steps == [] then 0 else Spurious(steps[1..]) + if steps[0].SpuriousWakeup? then 1 else 0
  }

  lemma StepLowersRank(s: State, step: Step)
    requires Enabled(s, step) && Safe(s, step)
    ensures Rank(Do(s, step)) < Rank(s) + if step.SpuriousWakeup? then 3 else 0
  {
    match step
    case Produce(i) => SumOfUpdate(s.producers, i, Do(s, step).producers[i], ProducerRank);
    case NotifyOne(i, j) =>
      SumOfUpdate(s.producers, i, Producer.Finished, ProducerRank);
      SumOfUpdate(s.consumers, j, Woken, ConsumerRank);
    case NotifyNobody(i) => SumOfUpdate(s.producers, i, Producer.Finished, ProducerRank);
    case Consume(i) => SumOfUpdate(s.consumers, i, Do(s, step).consumers[i], ConsumerRank);
    case SpuriousWakeup(i) => SumOfUpdate(s.consumers, i, Woken, ConsumerRank);
  }

  lemma {:induction false} RunIsShort(s: State, steps: seq<Step>, t: State)
    requires Runs(s, steps, t)
    ensures |steps| + Rank(t) <= Rank(s) + 3 * Spurious(steps)
    decreases |steps|
  {
    if steps == [] {
    } else {
      StepLowersRank(s, steps[0]);
      RunIsShort(Do(s, steps[0]), steps[1..], t);
    }
  }

  /**
    The program: n producers, n consumers, any interleaving. Without spurious wakeups a run has
    at most 16n steps, each spurious wakeup adds at most three, and a run that cannot go on has
    summed up 1..n with every thread finished.
  */
  lemma SumOfOneToN(n: nat, steps: seq<Step>, t: State)
    requires Runs(Initial(n, n), steps, t)
    ensures |steps| <= 16 * n + 3 * Spurious(steps)
    ensures t.removed <= t.pushed && |t.producers| == |t.consumers| == n
    ensures Stuck(t) ==>
              && t.sharedSum == n * (n + 1) / 2 && t.queue == []
              && (forall i :: 0 <= i < n ==> t.producers[i].Finished?)
              && (forall i :: 0 <= i < n ==> t.consumers[i].Finished?)
  {
    var s := Initial(n, n);
    InitialInv(n, n);
    RunKeepsInv(s, steps, t);
    RunIsShort(s, steps, t);
    SumOfConstant(s.producers, ProducerRank, 7);
    SumOfConstant(s.consumers, ConsumerRank, 9);
    SumIsNonnegative(t.producers, ProducerRank);
    SumIsNonnegative(t.consumers, ConsumerRank);
    if Stuck(t) {
      StuckMeansDone(t);
    }
  }
}
