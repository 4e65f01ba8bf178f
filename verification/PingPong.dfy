/**
  `pingPongSemaphore.cpp` and `pingPongAtomicFlags.cpp`: two threads pass a token back and
  forth until a shared counter exceeds a limit. The flag version is shown to refine the
  semaphore version, and to reach every state that it reaches.
*/
module PingPong {

  datatype Turn = PingTurn | PongTurn

  // ---------- Semaphores ----------

  datatype PingAt = PTest | PAcquire | PIncrement | PRelease | PExit
  datatype PongAt = QTest | QAcquire | QRelease | QExit

  /** `turns` records who took the token, in order. */
  datatype Sem = Sem(limit: int, ping: PingAt, pong: PongAt, toPing: int, toPong: int, counter: int, turns: seq<Turn>)

  datatype Thread = Ping | Pong

  /** main: signal2Ping is released before the threads start. */
  function Initial(limit: int): Sem {
    Sem(limit, PTest, QTest, 1, 0, 0, [])
  }

  predicate Enabled(s: Sem, t: Thread) {
    match t
    case Ping => s.ping != PExit && (s.ping == PAcquire ==> s.toPing > 0)
    case Pong => s.pong != QExit && (s.pong == QAcquire ==> s.toPong > 0)
  }

  function Do(s: Sem, t: Thread): Sem
    requires Enabled(s, t)
  {
    match t
    case Ping =>
      (match s.ping
       case PTest => s.(ping := if s.counter <= s.limit then PAcquire else PExit)
       case PAcquire => s.(ping := PIncrement, toPing := s.toPing - 1, turns := s.turns + [PingTurn])
       case PIncrement => s.(ping := PRelease, counter := s.counter + 1)
       case _ => s.(ping := PTest, toPong := s.toPong + 1))
    case Pong =>
      (match s.pong
       case QTest => s.(pong := if s.counter <= s.limit then QAcquire else QExit)
       case QAcquire => s.(pong := QRelease, toPong := s.toPong - 1, turns := s.turns + [PongTurn])
       case _ => s.(pong := QTest, toPing := s.toPing + 1))
  }

  ghost function Bit(b: bool): int { if b then 1 else 0 }

  ghost function PingHolds(s: Sem): int { Bit(s.ping == PIncrement || s.ping == PRelease) }
  ghost function PongHolds(s: Sem): int { Bit(s.pong == QRelease) }

  /** Exactly one token: in one of the semaphores or in the hands of one thread. */
  ghost predicate OneToken(s: Sem) {
    s.toPing >= 0 && s.toPong >= 0 && s.toPing + s.toPong + PingHolds(s) + PongHolds(s) == 1
  }

  ghost predicate Alternates(turns: seq<Turn>) {
    forall i :: 0 <= i < |turns| ==> turns[i] == if i % 2 == 0 then PingTurn else PongTurn
  }

  ghost predicate Inv(s: Sem) {
    && OneToken(s) && s.limit >= 0
    && 0 <= s.counter <= s.limit + 1
    && (s.ping == PAcquire || s.ping == PIncrement ==> s.counter <= s.limit)
    && (s.ping == PExit ==> s.counter == s.limit + 1)
    && (s.pong == QExit ==> s.counter == s.limit + 1)
    // pong never waits for a token that will not come
    && (s.pong == QAcquire && s.toPing == 1 ==> s.counter <= s.limit)
    && Alternates(s.turns)
    && (|s.turns| % 2 == 0 <==> s.toPing == 1 || s.pong == QRelease)
    && s.counter == (|s.turns| + 1) / 2 - Bit(s.ping == PIncrement)
  }

  /** Steps left at most, were every round still to come. */
  ghost function Rank(s: Sem): int {
    var rounds := s.limit + 1 - s.counter;
    var tokens := rounds + Bit(s.ping == PRelease) + s.toPong;  // tokens pong may still take
    (match s.ping
     case PTest => 4 * rounds + 1
     case PAcquire => 4 * rounds
     case PIncrement => 4 * rounds - 1
     case PRelease => 4 * rounds + 2
     case PExit => 0) +
    (match s.pong
     case QTest => 3 * tokens + 1
     case QAcquire => 3 * tokens
     case QRelease => 3 * tokens + 2
     case QExit => 0)
  }

  lemma StepKeepsInv(s: Sem, t: Thread)
    requires Inv(s) && Enabled(s, t)
    ensures Inv(Do(s, t))
    ensures 0 <= Rank(Do(s, t)) < Rank(s)
  {}

  /** A state in which neither thread can go on is the end: both have left their loops. */
  lemma StuckMeansDone(s: Sem)
    requires Inv(s) && !Enabled(s, Ping) && !Enabled(s, Pong)
    ensures s.ping == PExit && s.pong == QExit && s.counter == s.limit + 1
  {}

  /** A thread that is still in its loop waits only for a release that the other one can go on to make. */
  lemma WaitsForTheOther(s: Sem)
    requires Inv(s)
    ensures !Enabled(s, Ping) && s.ping != PExit ==> s.ping == PAcquire && s.toPing == 0 && Enabled(s, Pong)
    ensures !Enabled(s, Pong) && s.pong != QExit ==> s.pong == QAcquire && s.toPong == 0 && Enabled(s, Ping)
  {}

  /** counting_semaphore<1>::release is defined only while its count is 0. */
  ghost predicate ReleaseDefined(s: Sem, t: Thread) {
    match t
    case Ping => s.ping == PRelease ==> s.toPong == 0
    case Pong => s.pong == QRelease ==> s.toPing == 0
  }

  ghost predicate Runs(s: Sem, schedule: seq<Thread>, t: Sem)
    decreases |schedule|
  {
    if schedule == [] then s == t
    else Enabled(s, schedule[0]) && Runs(Do(s, schedule[0]), schedule[1..], t)
  }

  lemma {:induction false} RunKeepsInv(s: Sem, schedule: seq<Thread>, t: Sem)
    requires Inv(s) && Runs(s, schedule, t)
    ensures Inv(t) && t.limit == s.limit && |schedule| + Rank(t) <= Rank(s)
    decreases |schedule|
  {
    if schedule == [] {
    } else {
      StepKeepsInv(s, schedule[0]);
      RunKeepsInv(Do(s, schedule[0]), schedule[1..], t);
    }
  }

  /**
    Every interleaving, for every limit: there is always exactly one token and the threads take
    it in turns; every run ends, within 7 * (limit + 1) + 2 steps; and where it cannot go on
    both threads have left their loops and the counter is limit + 1.
  */
  lemma SemaphoresPass(limit: int, schedule: seq<Thread>, t: Sem)
    requires limit >= 0 && Runs(Initial(limit), schedule, t)
    ensures OneToken(t) && Alternates(t.turns)
    ensures forall th :: Enabled(t, th) ==> ReleaseDefined(t, th)
    ensures |schedule| <= 7 * (limit + 1) + 2
    ensures !Enabled(t, Ping) && !Enabled(t, Pong) ==> t.ping == PExit && t.pong == QExit && t.counter == limit + 1
  {
    RunKeepsInv(Initial(limit), schedule, t);
    RankNonnegative(t);
    if !Enabled(t, Ping) && !Enabled(t, Pong) {
      StuckMeansDone(t);
    }
  }

  lemma FirstThen(s: Sem, th: Thread, schedule: seq<Thread>, t: Sem)
    requires Enabled(s, th) && Runs(Do(s, th), schedule, t)
    ensures Runs(s, [th] + schedule, t)
  {
    assert ([th] + schedule)[1..] == schedule;
  }

  /** Both threads are about to test and the token is with ping. */
  ghost predicate Between(s: Sem) {
    s.ping == PTest && s.pong == QTest && s.toPing == 1 && s.toPong == 0 && s.counter <= s.limit
  }

  ghost predicate Ended(s: Sem) { s.ping == PExit && s.pong == QExit }

  ghost function PingTaken(s: Sem): Sem {
    s.(ping := PTest, toPing := s.toPing - 1, counter := s.counter + 1, toPong := s.toPong + 1, turns := s.turns + [PingTurn])
  }

  ghost function PongTaken(s: Sem): Sem {
    s.(pong := QTest, toPong := s.toPong - 1, toPing := s.toPing + 1, turns := s.turns + [PongTurn])
  }

  lemma PingTakes(s: Sem, schedule: seq<Thread>, t: Sem) returns (all: seq<Thread>)
    requires s.ping == PTest && s.toPing > 0 && s.counter <= s.limit && Runs(PingTaken(s), schedule, t)
    ensures Runs(s, all, t)
  {
    var s1 := Do(s, Ping);
    var s2 := Do(s1, Ping);
    var s3 := Do(s2, Ping);
    FirstThen(s3, Ping, schedule, t);
    FirstThen(s2, Ping, [Ping] + schedule, t);
    FirstThen(s1, Ping, [Ping] + ([Ping] + schedule), t);
    all := [Ping] + ([Ping] + ([Ping] + ([Ping] + schedule)));
    FirstThen(s, Ping, all[1..], t);
  }

  /** After pong's test has let it in. */
  lemma PongTakes(s: Sem, schedule: seq<Thread>, t: Sem) returns (all: seq<Thread>)
    requires s.pong == QAcquire && s.toPong > 0 && Runs(PongTaken(s), schedule, t)
    ensures Runs(s, all, t)
  {
    var s1 := Do(s, Pong);
    FirstThen(s1, Pong, schedule, t);
    all := [Pong] + ([Pong] + schedule);
    FirstThen(s, Pong, all[1..], t);
  }

  lemma BothExit(s: Sem) returns (schedule: seq<Thread>, t: Sem)
    requires s.ping == PTest && s.pong == QTest && s.counter > s.limit
    ensures Runs(s, schedule, t) && Ended(t) && t.turns == s.turns
  {
    t := s.(ping := PExit, pong := QExit);
    var s1 := Do(s, Pong);
    assert Runs(t, [], t);
    FirstThen(s1, Ping, [], t);
    schedule := [Pong] + ([Ping] + []);
    FirstThen(s, Pong, [Ping] + [], t);
  }

  /** Pong tests after ping's last increment, and leaves without its last turn. */
  lemma PongTestsLate(s: Sem) returns (schedule: seq<Thread>, t: Sem)
    requires Between(s) && s.counter == s.limit
    ensures Runs(s, schedule, t) && Ended(t) && |t.turns| == |s.turns| + 1
  {
    var schedule';
    schedule', t := BothExit(PingTaken(s));
    schedule := PingTakes(s, schedule', t);
  }

  /** Pong tests before ping's last increment, and takes one more turn. */
  lemma PongTestsEarly(s: Sem) returns (schedule: seq<Thread>, t: Sem)
    requires Between(s) && s.counter == s.limit
    ensures Runs(s, schedule, t) && Ended(t) && |t.turns| == |s.turns| + 2
  {
    var s1 := Do(s, Pong);
    var schedule';
    schedule', t := BothExit(PongTaken(PingTaken(s1)));
    schedule' := PongTakes(PingTaken(s1), schedule', t);
    schedule' := PingTakes(s1, schedule', t);
    schedule := [Pong] + schedule';
    FirstThen(s, Pong, schedule', t);
  }

  lemma {:induction false} EitherEnding(s: Sem, early: bool) returns (schedule: seq<Thread>, t: Sem)
    requires Between(s)
    ensures Runs(s, schedule, t) && Ended(t)
    ensures |t.turns| == |s.turns| + 2 * (s.limit - s.counter) + if early then 2 else 1
    decreases s.limit - s.counter
  {
    if s.counter == s.limit {
      if early {
        schedule, t := PongTestsEarly(s);
      } else {
        schedule, t := PongTestsLate(s);
      }
    } else {
      var s1 := Do(s, Pong);
      var s2 := PongTaken(PingTaken(s1));
      schedule, t := EitherEnding(s2, early);
      schedule := PongTakes(PingTaken(s1), schedule, t);
      schedule := PingTakes(s1, schedule, t);
      FirstThen(s, Pong, schedule, t);
      schedule := [Pong] + schedule;
    }
  }

  ghost predicate Reaches(s: Sem, t: Sem) {
    exists schedule :: Runs(s, schedule, t)
  }

  /**
    A complete run has 2 * limit + 1 turns or one more, and both happen for every limit: it
    depends on whether pong's last test comes before or after ping's last increment.
  */
  lemma TurnsOfCompleteRuns(limit: int, turns: int)
    requires limit >= 0
    ensures (exists t :: Reaches(Initial(limit), t) && Ended(t) && |t.turns| == turns) <==>
            turns == 2 * limit + 1 || turns == 2 * limit + 2
  {
    var s := Initial(limit);
    forall t | Reaches(s, t) && Ended(t) ensures |t.turns| == 2 * limit + 1 || |t.turns| == 2 * limit + 2 {
      var schedule :| Runs(s, schedule, t);
      RunKeepsInv(s, schedule, t);
    }
    if turns == 2 * limit + 1 || turns == 2 * limit + 2 {
      var _, t := EitherEnding(s, turns == 2 * limit + 2);
      assert Reaches(s, t);
    }
  }

  // ---------- Two atomic flags ----------

  datatype FlagPing = FTest | FWait | FBlocked | FClear | FIncrement | FSet | FNotify | FExit
  datatype FlagPong = GTest | GWait | GBlocked | GClear | GSet | GNotify | GExit

  datatype Flags = Flags(limit: int, ping: FlagPing, pong: FlagPong, flag1: bool, flag2: bool, counter: int, turns: seq<Turn>)

  datatype FlagStep = Go(thread: Thread) | SpuriousWakeup(thread: Thread)

  function InitialFlags(limit: int): Flags {
    Flags(limit, FTest, GTest, true, false, 0, [])
  }

  predicate FlagEnabled(f: Flags, step: FlagStep) {
    match step
    case Go(Ping) => f.ping != FExit && f.ping != FBlocked
    case Go(Pong) => f.pong != GExit && f.pong != GBlocked
    case SpuriousWakeup(Ping) => f.ping == FBlocked
    case SpuriousWakeup(Pong) => f.pong == GBlocked
  }

  /** atomic_flag::wait compares and blocks in one step; whoever is woken compares again. */
  function FlagDo(f: Flags, step: FlagStep): Flags
    requires FlagEnabled(f, step)
  {
    match step
    case Go(Ping) =>
      (match f.ping
       case FTest => f.(ping := if f.counter <= f.limit then FWait else FExit)
       case FWait => f.(ping := if f.flag1 then FClear else FBlocked)
       case FClear => f.(ping := FIncrement, flag1 := false, turns := f.turns + [PingTurn])
       case FIncrement => f.(ping := FSet, counter := f.counter + 1)
       case FSet => f.(ping := FNotify, flag2 := true)
       case _ => f.(ping := FTest, pong := if f.pong == GBlocked then GWait else f.pong))
    case Go(Pong) =>
      (match f.pong
       case GTest => f.(pong := if f.counter <= f.limit then GWait else GExit)
       case GWait => f.(pong := if f.flag2 then GClear else GBlocked)
       case GClear => f.(pong := GSet, flag2 := false, turns := f.turns + [PongTurn])
       case GSet => f.(pong := GNotify, flag1 := true)
       case _ => f.(pong := GTest, ping := if f.ping == FBlocked then FWait else f.ping))
    case SpuriousWakeup(Ping) => f.(ping := FWait)
    case SpuriousWakeup(Pong) => f.(pong := GWait)
  }

  /** The flags are the semaphores, and waiting, being blocked and clearing are the acquire. */
  ghost function Abstract(f: Flags): Sem {
    Sem(f.limit,
        (match f.ping
         case FTest => PTest case FNotify => PTest case FIncrement => PIncrement case FSet => PRelease case FExit => PExit
         case _ => PAcquire),
        (match f.pong
         case GTest => QTest case GNotify => QTest case GSet => QRelease case GExit => QExit
         case _ => QAcquire),
        Bit(f.flag1), Bit(f.flag2), f.counter, f.turns)
  }

  ghost predicate FlagInv(f: Flags) {
    Inv(Abstract(f)) && Awake(f)
  }

  ghost predicate Awake(f: Flags) {
    && (f.ping == FClear ==> f.flag1)
    && (f.pong == GClear ==> f.flag2)
    // whoever is blocked with its flag set is about to be notified
    && (f.ping == FBlocked && f.flag1 ==> f.pong == GNotify)
    && (f.pong == GBlocked && f.flag2 ==> f.ping == FNotify)
  }

  /** Each step of the flags is a step of the semaphores, or changes nothing there. */
  lemma FlagsRefineSemaphores(f: Flags, step: FlagStep)
    requires FlagInv(f) && FlagEnabled(f, step)
    ensures var s, s' := Abstract(f), Abstract(FlagDo(f, step));
            s' == s || (Enabled(s, step.thread) && s' == Do(s, step.thread))
    ensures FlagInv(FlagDo(f, step))
  {
    StaysAwake(f, step);
    var s, s' := Abstract(f), Abstract(FlagDo(f, step));
    match step.thread
    case Ping => PingRefines(f, step);
    case Pong => PongRefines(f, step);
    if s' != s {
      StepKeepsInv(s, step.thread);
    }
  }

  /** No wakeup is lost between the flags. */
  lemma StaysAwake(f: Flags, step: FlagStep)
    requires Awake(f) && FlagEnabled(f, step)
    ensures Awake(FlagDo(f, step))
  {}

  lemma PingRefines(f: Flags, step: FlagStep)
    requires FlagInv(f) && FlagEnabled(f, step) && step.thread == Ping
    ensures var s, s' := Abstract(f), Abstract(FlagDo(f, step)); s' == s || (Enabled(s, Ping) && s' == Do(s, Ping))
  {}

  lemma PongRefines(f: Flags, step: FlagStep)
    requires FlagInv(f) && FlagEnabled(f, step) && step.thread == Pong
    ensures var s, s' := Abstract(f), Abstract(FlagDo(f, step)); s' == s || (Enabled(s, Pong) && s' == Do(s, Pong))
  {}

  ghost function FlagRank(f: Flags): int {
    5 * Rank(Abstract(f)) +
    (match f.ping case FWait => 2 case FBlocked => 1 case FNotify => 2 case _ => 0) +
    (match f.pong case GWait => 2 case GBlocked => 1 case GNotify => 2 case _ => 0)
  }

  lemma FlagStepLowersRank(f: Flags, step: FlagStep)
    requires FlagInv(f) && FlagEnabled(f, step)
    ensures FlagRank(FlagDo(f, step)) < FlagRank(f) + if step.SpuriousWakeup? then 2 else 0
  {
    FlagsRefineSemaphores(f, step);
    var s, s' := Abstract(f), Abstract(FlagDo(f, step));
    if s' != s {
      StepKeepsInv(s, step.thread);
    }
  }

  ghost predicate FlagRuns(f: Flags, steps: seq<FlagStep>, g: Flags)
    decreases |steps|
  {
    if steps == [] then f == g
    else FlagEnabled(f, steps[0]) && FlagRuns(FlagDo(f, steps[0]), steps[1..], g)
  }

  ghost function Spurious(steps: seq<FlagStep>): nat {
    if steps == [] then 0 else Spurious(steps[1..]) + if steps[0].SpuriousWakeup? then 1 else 0
  }

  lemma {:induction false} FlagRunKeepsInv(f: Flags, steps: seq<FlagStep>, g: Flags)
    requires FlagInv(f) && FlagRuns(f, steps, g)
    ensures FlagInv(g) && g.limit == f.limit && |steps| + FlagRank(g) <= FlagRank(f) + 2 * Spurious(steps)
    decreases |steps|
  {
    if steps == [] {
    } else {
      FlagsRefineSemaphores(f, steps[0]);
      FlagStepLowersRank(f, steps[0]);
      FlagRunKeepsInv(FlagDo(f, steps[0]), steps[1..], g);
    }
  }

  /** The same results with flags; a spurious wakeup costs at most two more steps. */
  lemma FlagsPass(limit: int, steps: seq<FlagStep>, g: Flags)
    requires limit >= 0 && FlagRuns(InitialFlags(limit), steps, g)
    ensures !(g.flag1 && g.flag2) && Alternates(g.turns)
    ensures |steps| <= 5 * (7 * (limit + 1) + 2) + 2 * Spurious(steps)
    ensures (forall t :: !FlagEnabled(g, Go(t))) ==> g.ping == FExit && g.pong == GExit && g.counter == limit + 1
  {
    assert Abstract(InitialFlags(limit)) == Initial(limit);
    FlagRunKeepsInv(InitialFlags(limit), steps, g);
    RankNonnegative(Abstract(g));
    if forall t :: !FlagEnabled(g, Go(t)) {
      assert !FlagEnabled(g, Go(Ping)) && !FlagEnabled(g, Go(Pong));
      StuckMeansDone(Abstract(g));
    }
  }

  lemma RankNonnegative(s: Sem)
    requires Inv(s)
    ensures Rank(s) >= 0
  {}

  // ---------- What the semaphores can do, the flags can do ----------

  lemma StepThen(f: Flags, step: FlagStep, steps: seq<FlagStep>, g: Flags)
    requires FlagEnabled(f, step) && FlagRuns(FlagDo(f, step), steps, g)
    ensures FlagRuns(f, [step] + steps, g) && Spurious([step] + steps) == Spurious(steps) + if step.SpuriousWakeup? then 1 else 0
  {
    assert ([step] + steps)[1..] == steps;
  }

  /** One step of the flags without a spurious wakeup. */
  lemma One(f: Flags, t: Thread) returns (steps: seq<FlagStep>, g: Flags)
    requires FlagEnabled(f, Go(t))
    ensures FlagRuns(f, steps, g) && Spurious(steps) == 0 && g == FlagDo(f, Go(t))
  {
    g := FlagDo(f, Go(t));
    assert FlagRuns(g, [], g);
    StepThen(f, Go(t), [], g);
    steps := [Go(t)] + [];
  }

  /** The thread whose step comes next on the way to a step of t: t itself, unless it has to be notified first. */
  ghost function Next(f: Flags, t: Thread): Thread {
    if t == Ping && f.ping == FBlocked then Pong else if t == Pong && f.pong == GBlocked then Ping else t
  }

  lemma NextGetsCloser(f: Flags, t: Thread)
    requires FlagInv(f) && Enabled(Abstract(f), t)
    ensures FlagEnabled(f, Go(Next(f, t)))
    ensures var s, s' := Abstract(f), Abstract(FlagDo(f, Go(Next(f, t)))); s' == Do(s, t) || s' == s
  {}

  /** A step of the semaphores, made by the flags in as many as it takes. */
  lemma {:induction false} FlagsFollow(f: Flags, t: Thread) returns (steps: seq<FlagStep>, g: Flags)
    requires FlagInv(f) && Enabled(Abstract(f), t)
    ensures FlagRuns(f, steps, g) && Spurious(steps) == 0 && Abstract(g) == Do(Abstract(f), t)
    decreases FlagRank(f) + 1
  {
    var next := Next(f, t);
    NextGetsCloser(f, t);
    var f' := FlagDo(f, Go(next));
    if Abstract(f') == Do(Abstract(f), t) {
      steps, g := One(f, next);
    } else {
      FlagsRefineSemaphores(f, Go(next));
      FlagStepLowersRank(f, Go(next));
      RankNonnegative(Abstract(f'));
      steps, g := FlagsFollow(f', t);
      StepThen(f, Go(next), steps, g);
      steps := [Go(next)] + steps;
    }
  }

  lemma {:induction false} FlagRunsOn(f: Flags, steps: seq<FlagStep>, g: Flags, more: seq<FlagStep>, h: Flags)
    requires FlagRuns(f, steps, g) && FlagRuns(g, more, h)
    ensures FlagRuns(f, steps + more, h) && Spurious(steps + more) == Spurious(steps) + Spurious(more)
    decreases |steps|
  {
    if steps == [] {
      assert steps + more == more;
    } else {
      FlagRunsOn(FlagDo(f, steps[0]), steps[1..], g, more, h);
      StepThen(f, steps[0], steps[1..] + more, h);
      assert [steps[0]] + (steps[1..] + more) == steps + more;
    }
  }

  lemma {:induction false} FlagsFollowRun(f: Flags, schedule: seq<Thread>, t: Sem) returns (steps: seq<FlagStep>, g: Flags)
    requires FlagInv(f) && Runs(Abstract(f), schedule, t)
    ensures FlagRuns(f, steps, g) && Spurious(steps) == 0 && Abstract(g) == t
    decreases |schedule|
  {
    if schedule == [] {
      steps, g := [], f;
    } else {
      var first, g' := FlagsFollow(f, schedule[0]);
      FlagRunKeepsInv(f, first, g');
      var rest;
      rest, g := FlagsFollowRun(g', schedule[1..], t);
      FlagRunsOn(f, first, g', rest, g);
      steps := first + rest;
    }
  }

  lemma {:induction false} SemaphoresFollowRun(f: Flags, steps: seq<FlagStep>, g: Flags) returns (schedule: seq<Thread>)
    requires FlagInv(f) && FlagRuns(f, steps, g)
    ensures Runs(Abstract(f), schedule, Abstract(g))
    decreases |steps|
  {
    if steps == [] {
      schedule := [];
    } else {
      var f' := FlagDo(f, steps[0]);
      FlagsRefineSemaphores(f, steps[0]);
      schedule := SemaphoresFollowRun(f', steps[1..], g);
      if Abstract(f') != Abstract(f) {
        FirstThen(Abstract(f), steps[0].thread, schedule, Abstract(g));
        schedule := [steps[0].thread] + schedule;
      }
    }
  }

  ghost predicate FlagsReach(f: Flags, g: Flags, spurious: nat) {
    exists steps :: FlagRuns(f, steps, g) && Spurious(steps) == spurious
  }

  /**
    The two programs reach the same states: what the semaphores reach is what the flags reach,
    seen as semaphores, and the flags need no spurious wakeup for it.
  */
  lemma FlagsReachTheSame(limit: int, t: Sem)
    requires limit >= 0
    ensures Reaches(Initial(limit), t) ==> exists g :: FlagsReach(InitialFlags(limit), g, 0) && Abstract(g) == t
    ensures (exists g, n :: FlagsReach(InitialFlags(limit), g, n) && Abstract(g) == t) ==> Reaches(Initial(limit), t)
  {
    var f := InitialFlags(limit);
    assert Abstract(f) == Initial(limit);
    if schedule :| Runs(Initial(limit), schedule, t) {
      var _, g := FlagsFollowRun(f, schedule, t);
      assert FlagsReach(f, g, 0);
    }
    forall g, n | FlagsReach(f, g, n) ensures Reaches(Initial(limit), Abstract(g)) {
      var steps :| FlagRuns(f, steps, g) && Spurious(steps) == n;
      var _ := SemaphoresFollowRun(f, steps, g);
    }
  }

  /** A thread cannot go on exactly when it has left its loop or is blocked, and only the blocked one may be woken spuriously. */
  lemma BlockedOrOut(f: Flags, t: Thread)
    requires FlagInv(f)
    ensures var waits := if t == Ping then f.ping == FBlocked else f.pong == GBlocked;
            var out := if t == Ping then f.ping == FExit else f.pong == GExit;
            (FlagEnabled(f, Go(t)) <==> !waits && !out) && (FlagEnabled(f, SpuriousWakeup(t)) <==> waits)
  {}

  /** Pong may be blocked and woken without a notification any number of times before ping starts. */
  lemma {:induction false} PongWakesInVain(limit: int, times: nat) returns (steps: seq<FlagStep>)
    requires limit >= 0
    ensures FlagRuns(InitialFlags(limit), steps, InitialFlags(limit).(pong := GBlocked)) && Spurious(steps) == times
  {
    var f := InitialFlags(limit);
    if times == 0 {
      var first, f1 := One(f, Pong);
      var second, f2 := One(f1, Pong);
      FlagRunsOn(f, first, f1, second, f2);
      steps := first + second;
    } else {
      steps := PongWakesInVain(limit, times - 1);
      var blocked := f.(pong := GBlocked);
      var awake := f.(pong := GWait);
      var again, _ := One(awake, Pong);
      StepThen(blocked, SpuriousWakeup(Pong), again, blocked);
      FlagRunsOn(f, steps, blocked, [SpuriousWakeup(Pong)] + again, blocked);
      steps := steps + ([SpuriousWakeup(Pong)] + again);
    }
  }
}
