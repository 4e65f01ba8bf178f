/**
  The priority schedulers with priorities that stay as they are, for any comparator and any
  choice among the tasks that none comes after: when the tasks run one after the other.
*/
module FixedPriorities {
  import opened Common
  import opened Tally
  import opened PriorityScheduling

  /** Nothing in the queue comes before the job at i: std::priority_queue may have it on top. */
  ghost predicate Greatest(less: (Key, Key) -> bool, q: seq<Job>, i: int) {
    0 <= i < |q| && forall k :: 0 <= k < |q| ==> !less(KeyOf(q[i]), KeyOf(q[k]))
  }

  /** The job at i is resumed and put back, or destroyed. */
  ghost function TurnAt(q: seq<Job>, i: nat): seq<Job>
    requires i < |q| && q[i].left > 0
  {
    Without(q, i) + if q[i].left > 1 then [q[i].(left := q[i].left - 1)] else []
  }

  /** A run that resumes, each time, any job that may be on top. */
  ghost predicate Legal(less: (Key, Key) -> bool, q: seq<Job>, t: seq<int>)
    requires Active(q)
    decreases |t|
  {
    if t == [] then q == []
    else exists i {:trigger Greatest(less, q, i)} ::
      Greatest(less, q, i) && q[i].id == t[0] && Legal(less, TurnAt(q, i), t[1..])
  }

  /** No task is resumed, then another, then the first again. */
  ghost predicate Contiguous(t: seq<int>) {
    forall a, b, c :: 0 <= a <= b <= c < |t| && t[a] == t[c] ==> t[b] == t[a]
  }

  /** No job that has to be put back is tied with another. */
  ghost predicate NoTies(less: (Key, Key) -> bool, q: seq<Job>) {
    forall i, k :: 0 <= i < |q| && 0 <= k < |q| && i != k && q[i].left > 1 ==>
      less(KeyOf(q[i]), KeyOf(q[k])) || less(KeyOf(q[k]), KeyOf(q[i]))
  }

  // ---------- One turn ----------

  ghost function Origin(q: seq<Job>, i: nat, k: nat): nat {
    if k == |q| - 1 then i else if k < i then k else k + 1
  }

  /** Where the jobs of the next queue come from. */
  lemma TurnAtFrom(q: seq<Job>, i: nat, k: nat)
    requires i < |q| && q[i].left > 0 && k < |TurnAt(q, i)|
    ensures var o := Origin(q, i, k);
            && o < |q| && KeyOf(TurnAt(q, i)[k]) == KeyOf(q[o])
            && TurnAt(q, i)[k] == (if o == i then q[i].(left := q[i].left - 1) else q[o])
            && (o == i <==> k == |q| - 1)
  {}

  lemma TurnAtIsActive(q: seq<Job>, i: nat)
    requires Active(q) && Distinct(q) && i < |q|
    ensures Active(TurnAt(q, i)) && Distinct(TurnAt(q, i))
    ensures Total(TurnAt(q, i)) == Total(q) - 1
  {
    SumWithout(q, i, Left);
    if q[i].left > 1 {
      SumOfSnoc(Without(q, i), q[i].(left := q[i].left - 1), Left);
    } else {
      assert Without(q, i) + [] == Without(q, i);
    }
  }

  lemma TurnAtKeepsNoTies(less: (Key, Key) -> bool, q: seq<Job>, i: nat)
    requires Active(q) && i < |q| && NoTies(less, q)
    ensures NoTies(less, TurnAt(q, i))
  {
    var r := TurnAt(q, i);
    forall a, b | 0 <= a < |r| && 0 <= b < |r| && a != b && r[a].left > 1
      ensures less(KeyOf(r[a]), KeyOf(r[b])) || less(KeyOf(r[b]), KeyOf(r[a]))
    {
      TurnAtFrom(q, i, a);
      TurnAtFrom(q, i, b);
    }
  }

  lemma LegalTurn(less: (Key, Key) -> bool, q: seq<Job>, i: nat, t: seq<int>)
    requires Active(q) && Distinct(q) && Greatest(less, q, i) && Active(TurnAt(q, i)) && Legal(less, TurnAt(q, i), t)
    ensures Legal(less, q, [q[i].id] + t)
  {
    assert ([q[i].id] + t)[1..] == t;
  }

  lemma FirstTurn(less: (Key, Key) -> bool, q: seq<Job>, t: seq<int>) returns (i: nat)
    requires Active(q) && Distinct(q) && Legal(less, q, t) && t != []
    ensures Greatest(less, q, i) && t == [q[i].id] + t[1..]
    ensures Active(TurnAt(q, i)) && Distinct(TurnAt(q, i)) && Legal(less, TurnAt(q, i), t[1..])
  {
    i :| Greatest(less, q, i) && q[i].id == t[0] && Legal(less, TurnAt(q, i), t[1..]);
    TurnAtIsActive(q, i);
  }

  // ---------- Without ties: contiguous blocks ----------

  /** A job that is put back without a tie is the only one that may be on top. */
  lemma OnTopAgain(less: (Key, Key) -> bool, q: seq<Job>, i: nat, k: nat)
    requires Active(q) && NoTies(less, q) && Greatest(less, q, i) && q[i].left > 1
    requires Greatest(less, TurnAt(q, i), k)
    ensures k == |q| - 1
  {
    TurnAtFrom(q, i, k);
    TurnAtFrom(q, i, |q| - 1);
  }

  lemma BlocksHead(order: seq<Job>)
    requires order != [] && Active(order)
    ensures Blocks(order) != [] && Blocks(order)[0] == order[0].id
  {}

  lemma BlocksCons(j: Job, rest: seq<Job>)
    ensures Blocks([j] + rest) == Block(j) + Blocks(rest)
  {
    assert ([j] + rest)[1..] == rest;
  }

  ghost predicate Descending(less: (Key, Key) -> bool, order: seq<Job>) {
    forall i, k :: 0 <= i < k < |order| ==> !less(KeyOf(order[i]), KeyOf(order[k]))
  }

  /**
    Whatever the comparator and the choices among equals, without ties the trace is one
    contiguous block for each task, none before one that comes before it.
  */
  lemma {:induction false} PriorityClosedForm(less: (Key, Key) -> bool, q: seq<Job>, t: seq<int>) returns (order: seq<Job>)
    requires Active(q) && Distinct(q) && NoTies(less, q) && Legal(less, q, t)
    ensures t == Blocks(order) && multiset(order) == multiset(q)
    ensures Active(order) && Distinct(order) && Descending(less, order)
    decreases |t|
  {
    if t == [] {
      order := [];
    } else {
      var i := FirstTurn(less, q, t);
      TurnAtKeepsNoTies(less, q, i);
      order := PriorityClosedForm(less, TurnAt(q, i), t[1..]);
      if q[i].left == 1 {
        order := LastTurn(less, q, i, order);
      } else {
        order := EarlierTurn(less, q, i, t[1..], order);
      }
    }
  }

  lemma OthersOnly(q: seq<Job>, i: nat, order: seq<Job>)
    requires i < |q| && Distinct(q) && multiset(order) == multiset(Without(q, i))
    ensures multiset([q[i]] + order) == multiset(q)
    ensures forall k :: 0 <= k < |order| ==> order[k] in q && order[k].id != q[i].id
  {
    assert q == q[..i] + [q[i]] + q[i + 1..];
    forall k | 0 <= k < |order| ensures order[k] in q && order[k].id != q[i].id {
      assert order[k] in multiset(Without(q, i));
      var m :| 0 <= m < |q| - 1 && Without(q, i)[m] == order[k];
      assert order[k] == q[if m < i then m else m + 1];
    }
  }

  lemma InFront(less: (Key, Key) -> bool, q: seq<Job>, i: nat, order: seq<Job>)
    requires Active(q) && Distinct(q) && Greatest(less, q, i) && multiset(order) == multiset(Without(q, i))
    requires Distinct(order) && Descending(less, order)
    ensures var all := [q[i]] + order;
            multiset(all) == multiset(q) && Active(all) && Distinct(all) && Descending(less, all)
  {
    OthersOnly(q, i, order);
  }

  lemma LastTurn(less: (Key, Key) -> bool, q: seq<Job>, i: nat, rest: seq<Job>) returns (order: seq<Job>)
    requires Active(q) && Distinct(q) && Greatest(less, q, i) && q[i].left == 1
    requires multiset(rest) == multiset(TurnAt(q, i)) && Distinct(rest) && Descending(less, rest)
    ensures Blocks(order) == [q[i].id] + Blocks(rest) && multiset(order) == multiset(q)
    ensures Active(order) && Distinct(order) && Descending(less, order)
  {
    order := [q[i]] + rest;
    assert TurnAt(q, i) == Without(q, i);
    InFront(less, q, i, rest);
    BlocksCons(q[i], rest);
  }

  lemma EarlierTurn(less: (Key, Key) -> bool, q: seq<Job>, i: nat, t: seq<int>, later: seq<Job>) returns (order: seq<Job>)
    requires Active(q) && Distinct(q) && NoTies(less, q) && Greatest(less, q, i) && q[i].left > 1
    requires Active(TurnAt(q, i)) && Legal(less, TurnAt(q, i), t) && t == Blocks(later)
    requires multiset(later) == multiset(TurnAt(q, i)) && Active(later) && Distinct(later) && Descending(less, later)
    ensures Blocks(order) == [q[i].id] + Blocks(later) && multiset(order) == multiset(q)
    ensures Active(order) && Distinct(order) && Descending(less, order)
  {
    var j := q[i].(left := q[i].left - 1);
    FirstIsPutBack(less, q, i, t, later);
    var rest := later[1..];
    SameRest(later, Without(q, i), j);
    order := [q[i]] + rest;
    InFront(less, q, i, rest);
    BlocksCons(q[i], rest);
    BlocksCons(j, rest);
    BlockHead(q[i]);
    Associative([q[i].id], Block(j), Blocks(rest));
    assert later == [j] + rest;
  }

  lemma SameRest<T>(s: seq<T>, a: seq<T>, x: T)
    requires s != [] && s[0] == x && multiset(s) == multiset(a + [x])
    ensures multiset(s[1..]) == multiset(a)
  {
    assert s == [x] + s[1..];
    assert multiset(s) == multiset{x} + multiset(s[1..]);
    assert multiset(a + [x]) == multiset(a) + multiset{x};
    assert multiset(s[1..]) == multiset(s) - multiset{x};
  }

  lemma FirstIsPutBack(less: (Key, Key) -> bool, q: seq<Job>, i: nat, t: seq<int>, later: seq<Job>)
    requires Active(q) && Distinct(q) && NoTies(less, q) && Greatest(less, q, i) && q[i].left > 1
    requires Active(TurnAt(q, i)) && Legal(less, TurnAt(q, i), t) && t == Blocks(later)
    requires multiset(later) == multiset(TurnAt(q, i)) && Active(later)
    ensures later != [] && later[0] == q[i].(left := q[i].left - 1)
  {
    var r := TurnAt(q, i);
    var k :| Greatest(less, r, k) && r[k].id == t[0];
    OnTopAgain(less, q, i, k);
    assert |later| == |multiset(later)| == |r|;
    BlocksHead(later);
    assert later[0] in multiset(r);
    var m :| 0 <= m < |r| && r[m] == later[0];
    TurnAtFrom(q, i, m);
    TurnAtFrom(q, i, k);
  }

  lemma {:induction false} IdsOfBlocks(order: seq<Job>, k: nat) returns (m: nat)
    requires k < |Blocks(order)|
    ensures m < |order| && Blocks(order)[k] == order[m].id
  {
    if k < order[0].left {
      m := 0;
    } else {
      m := IdsOfBlocks(order[1..], k - order[0].left);
      m := m + 1;
    }
  }

  lemma {:induction false} BlocksAreContiguous(order: seq<Job>)
    requires Distinct(order)
    ensures Contiguous(Blocks(order))
  {
    if order == [] {
    } else {
      BlocksAreContiguous(order[1..]);
      var rest := Blocks(order[1..]);
      forall k | 0 <= k < |rest| ensures rest[k] != order[0].id {
        var m := IdsOfBlocks(order[1..], k);
      }
    }
  }

  // ---------- With ties: some run interleaves ----------

  /** Names a use of negative transitivity. */
  ghost predicate Via(a: Key, b: Key, c: Key) { true }

  /** What std::priority_queue asks of its comparator, on these keys. */
  ghost predicate StrictWeakOrder(less: (Key, Key) -> bool, keys: iset<Key>) {
    && (forall a, b {:trigger less(a, b)} :: a in keys && b in keys && less(a, b) ==> !less(b, a))
    && (forall a, b, c {:trigger Via(a, b, c)} ::
          a in keys && b in keys && c in keys && less(a, c) ==> less(a, b) || less(b, c))
  }

  ghost predicate Within(q: seq<Job>, keys: iset<Key>) {
    forall i :: 0 <= i < |q| ==> KeyOf(q[i]) in keys
  }

  lemma TurnAtStaysWithin(q: seq<Job>, i: nat, keys: iset<Key>)
    requires Active(q) && i < |q| && Within(q, keys)
    ensures Within(TurnAt(q, i), keys)
  {
    forall k | 0 <= k < |TurnAt(q, i)| ensures KeyOf(TurnAt(q, i)[k]) in keys {
      TurnAtFrom(q, i, k);
    }
  }

  lemma {:induction false} BestIsGreatest(less: (Key, Key) -> bool, keys: iset<Key>, q: seq<Job>)
    requires StrictWeakOrder(less, keys) && Within(q, keys) && q != []
    ensures Greatest(less, q, Best(less, q))
  {
    var n := |q| - 1;
    if n == 0 {
    } else {
      BestIsGreatest(less, keys, q[..n]);
      var b := Best(less, q[..n]);
      forall i | 0 <= i <= n ensures !less(KeyOf(q[Best(less, q)]), KeyOf(q[i])) {
        assert i < n ==> !less(KeyOf(q[b]), KeyOf(q[..n][i]));
        assert Via(KeyOf(q[n]), KeyOf(q[b]), KeyOf(q[i]));
      }
    }
  }

  ghost predicate Fixed(p: Policy) {
    p.Priority? && forall x :: p.update(x) == x
  }

  /** The scheduler's own run is one of them. */
  lemma {:induction false} BestTraceIsLegal(p: Policy, keys: iset<Key>, q: seq<Job>)
    requires Fixed(p) && StrictWeakOrder(p.less, keys) && Within(q, keys) && Active(q) && Distinct(q)
    ensures Legal(p.less, q, Trace(p, q))
    decreases Total(q)
  {
    if q == [] {
    } else {
      var b := Best(p.less, q);
      BestIsGreatest(p.less, keys, q);
      TurnAtIsActive(q, b);
      TurnAtStaysWithin(q, b, keys);
      assert Next(p, q) == TurnAt(q, b);
      BestTraceIsLegal(p, keys, TurnAt(q, b));
      LegalTurn(p.less, q, b, Trace(p, TurnAt(q, b)));
    }
  }

  /** Whoever is tied with a job that may be on top may be there too. */
  lemma TiedIsGreatest(less: (Key, Key) -> bool, keys: iset<Key>, q: seq<Job>, i: nat, k: nat)
    requires StrictWeakOrder(less, keys) && Within(q, keys) && Greatest(less, q, i) && k < |q|
    requires !less(KeyOf(q[k]), KeyOf(q[i]))
    ensures Greatest(less, q, k)
  {
    forall m | 0 <= m < |q| ensures !less(KeyOf(q[k]), KeyOf(q[m])) {
      assert Via(KeyOf(q[k]), KeyOf(q[i]), KeyOf(q[m]));
    }
  }

  /** Every queued task has its turn. */
  lemma {:induction false} EveryoneRuns(less: (Key, Key) -> bool, q: seq<Job>, t: seq<int>, i: nat)
    requires Active(q) && Distinct(q) && Legal(less, q, t) && i < |q|
    ensures q[i].id in t
    decreases |t|
  {
    var b := FirstTurn(less, q, t);
    if b != i {
      AtPosition(q, b, i);
      EveryoneRuns(less, TurnAt(q, b), t[1..], Position(b, i));
    }
  }

  /** Where the job at i stands when the one at b has been resumed. */
  ghost function Position(b: nat, i: nat): nat
    requires i != b
  {
    if i < b then i else i - 1
  }

  lemma AtPosition(q: seq<Job>, b: nat, i: nat)
    requires b < |q| && i < |q| && i != b && q[b].left > 0
    ensures Position(b, i) < |TurnAt(q, b)| && TurnAt(q, b)[Position(b, i)] == q[i]
  {}

  lemma StillGreatest(less: (Key, Key) -> bool, q: seq<Job>, b: nat, i: nat)
    requires Active(q) && b < |q| && i != b && Greatest(less, q, i)
    ensures Greatest(less, TurnAt(q, b), Position(b, i))
  {
    var r := TurnAt(q, b);
    AtPosition(q, b, i);
    forall k | 0 <= k < |r| ensures !less(KeyOf(q[i]), KeyOf(r[k])) {
      TurnAtFrom(q, b, k);
    }
  }

  /** The tied job, resumed once, then the other, then anybody up to the end. */
  lemma Interleaved(less: (Key, Key) -> bool, keys: iset<Key>, q: seq<Job>, i: nat, k: nat) returns (t: seq<int>)
    requires StrictWeakOrder(less, keys) && Within(q, keys) && Active(q) && Distinct(q)
    requires Greatest(less, q, i) && Greatest(less, q, k) && i != k && q[i].left > 1
    ensures Legal(less, q, t) && !Contiguous(t)
  {
    var p, q1 := Priority(less, Same), TurnAt(q, i);
    var k1, n := Position(i, k), |q| - 1;
    AtPosition(q, i, k);
    StillGreatest(less, q, i, k);
    TurnAtIsActive(q, i);
    TurnAtStaysWithin(q, i, keys);
    var q2 := TurnAt(q1, k1);
    AtPosition(q1, k1, n);
    TurnAtIsActive(q1, k1);
    TurnAtStaysWithin(q1, k1, keys);
    var rest := Trace(p, q2);
    BestTraceIsLegal(p, keys, q2);
    EveryoneRuns(less, q2, rest, Position(k1, n));
    LegalTurn(less, q1, k1, rest);
    LegalTurn(less, q, i, [q[k].id] + rest);
    t := [q[i].id] + ([q[k].id] + rest);
    Sandwich(q[i].id, q[k].id, rest);
  }

  lemma Sandwich(x: int, y: int, rest: seq<int>)
    requires x != y && x in rest
    ensures !Contiguous([x] + ([y] + rest))
  {
    var t := [x] + ([y] + rest);
    var c :| 0 <= c < |rest| && rest[c] == x;
    assert t[0] == t[c + 2] && t[1] != t[0];
  }

  lemma LaterStill(x: int, t: seq<int>)
    requires !Contiguous(t)
    ensures !Contiguous([x] + t)
  {
    var a, b, c :| 0 <= a <= b <= c < |t| && t[a] == t[c] && t[b] != t[a];
    var s := [x] + t;
    assert s[a + 1] == s[c + 1] && s[b + 1] != s[a + 1];
  }

  /** Runs until the tied pair may be on top, and lets it interleave. */
  lemma {:induction false} TiesBreakBlocks(less: (Key, Key) -> bool, keys: iset<Key>, q: seq<Job>, i: nat, k: nat)
    returns (t: seq<int>)
    requires StrictWeakOrder(less, keys) && Within(q, keys) && Active(q) && Distinct(q)
    requires i < |q| && k < |q| && i != k && q[i].left > 1
    requires !less(KeyOf(q[i]), KeyOf(q[k])) && !less(KeyOf(q[k]), KeyOf(q[i]))
    ensures Legal(less, q, t) && !Contiguous(t)
    decreases Total(q)
  {
    var b := Best(less, q);
    BestIsGreatest(less, keys, q);
    if b == i || b == k {
      TiedIsGreatest(less, keys, q, b, if b == i then k else i);
      t := Interleaved(less, keys, q, i, k);
    } else {
      AtPosition(q, b, i);
      AtPosition(q, b, k);
      TurnAtIsActive(q, b);
      TurnAtStaysWithin(q, b, keys);
      var rest := TiesBreakBlocks(less, keys, TurnAt(q, b), Position(b, i), Position(b, k));
      LegalTurn(less, q, b, rest);
      LaterStill(q[b].id, rest);
      t := [q[b].id] + rest;
    }
  }

  /**
    Every run, whatever the choices among equals, resumes the tasks in contiguous blocks if and
    only if no task that has to be put back is tied with another.
  */
  lemma ContiguousIffNoTies(less: (Key, Key) -> bool, keys: iset<Key>, q: seq<Job>)
    requires StrictWeakOrder(less, keys) && Within(q, keys) && Active(q) && Distinct(q)
    ensures (forall t :: Legal(less, q, t) ==> Contiguous(t)) <==> NoTies(less, q)
  {
    if NoTies(less, q) {
      forall t | Legal(less, q, t) ensures Contiguous(t) {
        var order := PriorityClosedForm(less, q, t);
        BlocksAreContiguous(order);
      }
    } else {
      var i, k :| 0 <= i < |q| && 0 <= k < |q| && i != k && q[i].left > 1
        && !less(KeyOf(q[i]), KeyOf(q[k])) && !less(KeyOf(q[k]), KeyOf(q[i]));
      var t := TiesBreakBlocks(less, keys, q, i, k);
    }
  }

  // ---------- The shipped comparators, and one that has ties ----------

  predicate PairGreater(a: Key, b: Key) {
    PairLess(b, a)
  }

  /** std::ranges::less and std::ranges::greater compare priorities, then addresses: no ties. */
  lemma ShippedHaveNoTies(keys: iset<Key>, q: seq<Job>)
    requires Distinct(q)
    ensures StrictWeakOrder(PairLess, keys) && NoTies(PairLess, q)
    ensures StrictWeakOrder(PairGreater, keys) && NoTies(PairGreater, q)
  {}

  /** With std::ranges::greater the lowest priority is on top, among equals the lowest address. */
  lemma {:induction false} TopOfGreater(q: seq<Job>)
    requires q != []
    ensures var top := q[Best(PairGreater, q)];
            forall i :: 0 <= i < |q| ==> top.prio <= q[i].prio && (q[i].prio == top.prio ==> top.id <= q[i].id)
  {
    var n := |q| - 1;
    if n == 0 {
    } else {
      TopOfGreater(q[..n]);
      assert forall i :: 0 <= i < n ==> q[..n][i] == q[i];
    }
  }

  lemma OrderOfTwo(less: (Key, Key) -> bool, order: seq<Job>, j: Job, k: Job)
    requires j != k && less(KeyOf(k), KeyOf(j))
    requires multiset(order) == multiset{j, k} && Descending(less, order)
    ensures order == [j, k]
  {
    assert |order| == |multiset(order)| == 2;
    assert order[0] in multiset(order) && order[1] in multiset(order);
    assert order == [order[0], order[1]];
  }

  lemma BlocksOfTwo(j: Job, k: Job)
    ensures Blocks([j, k]) == Block(j) + Block(k)
  {
    BlocksCons(k, []);
    BlocksCons(j, [k]);
    assert [k] + [] == [k] && [j] + [k] == [j, k] && Block(k) + [] == Block(k);
  }

  /** Two tasks run one after the other, the one that comes before first. */
  lemma TwoTasks(less: (Key, Key) -> bool, q: seq<Job>, t: seq<int>, j: Job, k: Job)
    requires Active(q) && Distinct(q) && NoTies(less, q) && Legal(less, q, t)
    requires j.id != k.id && less(KeyOf(k), KeyOf(j)) && multiset(q) == multiset{j, k}
    ensures t == Block(j) + Block(k)
  {
    var order := PriorityClosedForm(less, q, t);
    OrderOfTwo(less, order, j, k);
    BlocksOfTwo(j, k);
  }

  lemma ShippedTrace(less: (Key, Key) -> bool, q: seq<Job>)
    requires less == PairLess || less == PairGreater
    requires Active(q) && Distinct(q)
    ensures NoTies(less, q) && Legal(less, q, Trace(Priority(less, Same), q))
  {
    var keys := iset j | j in q :: KeyOf(j);
    ShippedHaveNoTies(keys, q);
    BestTraceIsLegal(Priority(less, Same), keys, q);
  }

  lemma ShippedPair(less: (Key, Key) -> bool, q: seq<Job>, t: seq<int>, j: Job, k: Job)
    requires less == PairLess || less == PairGreater
    requires Active(q) && Distinct(q) && t == Trace(Priority(less, Same), q)
    requires j.id != k.id && less(KeyOf(k), KeyOf(j)) && multiset(q) == multiset{j, k}
    ensures t == Block(j) + Block(k)
  {
    ShippedTrace(less, q);
    TwoTasks(less, q, t, j, k);
  }

  /** The shipped run with std::ranges::less: TaskA with priority 0, TaskB with 1, three resumptions each. */
  lemma ShippedLess(a: int, b: int, q: seq<Job>, t: seq<int>)
    requires a != b && q == [Job(0, a, 3), Job(1, b, 3)] && Active(q) && t == Trace(Priority(PairLess, Same), q)
    ensures t == [b, b, b, a, a, a]
  {
    var x, y := Job(0, a, 3), Job(1, b, 3);
    assert multiset(q) == multiset{x, y};
    ShippedPair(PairLess, q, t, y, x);
    assert Block(x) == [a, a, a] && Block(y) == [b, b, b];
  }

  /** The shipped run with std::ranges::greater. */
  lemma ShippedGreater(a: int, b: int, q: seq<Job>, t: seq<int>)
    requires a != b && q == [Job(0, a, 3), Job(1, b, 3)] && Active(q) && t == Trace(Priority(PairGreater, Same), q)
    ensures t == [a, a, a, b, b, b]
  {
    var x, y := Job(0, a, 3), Job(1, b, 3);
    assert multiset(q) == multiset{x, y};
    ShippedPair(PairGreater, q, t, x, y);
    assert Block(x) == [a, a, a] && Block(y) == [b, b, b];
  }

  predicate ByPriority(a: Key, b: Key) { a.0 < b.0 }

  /** The scheduler's own run of two tied tasks that need two resumptions each. */
  lemma TiedTrace()
    ensures var q := [Job(0, 1, 2), Job(0, 2, 2)];
            Active(q) && Trace(Priority(ByPriority, Same), q) == [1, 2, 1, 2]
  {
    var p := Priority(ByPriority, Same);
    OneTurn(p, [Job(0, 1, 2), Job(0, 2, 2)], [Job(0, 2, 2), Job(0, 1, 1)], 1);
    OneTurn(p, [Job(0, 2, 2), Job(0, 1, 1)], [Job(0, 1, 1), Job(0, 2, 1)], 2);
    OneTurn(p, [Job(0, 1, 1), Job(0, 2, 1)], [Job(0, 2, 1)], 1);
    OneTurn(p, [Job(0, 2, 1)], [], 2);
  }

  /** It is a run of the kind that is not contiguous. */
  lemma TiesInterleave(q: seq<Job>, t: seq<int>)
    requires q == [Job(0, 1, 2), Job(0, 2, 2)] && Active(q) && t == Trace(Priority(ByPriority, Same), q)
    ensures t == [1, 2, 1, 2] && Legal(ByPriority, q, t) && !Contiguous(t) && !NoTies(ByPriority, q)
  {
    TiedTrace();
    BestTraceIsLegal(Priority(ByPriority, Same), iset{(0, 1), (0, 2)}, q);
    Sandwich(1, 2, [1, 2]);
    assert [1] + ([2] + [1, 2]) == [1, 2, 1, 2];
    assert q[0].left > 1 && !ByPriority(KeyOf(q[0]), KeyOf(q[1]));
  }
}
