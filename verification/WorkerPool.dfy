// Bounded concurrency: `runWithConcurrency` in src/cli/commands/install.ts. One step runs a
// worker from one `await` to the next: it claims an index or learns that none is left, or its
// call settles.
module WorkerPool {

  datatype Option<+T> = None | Some(value: T)

  // A worker about to claim, inside a call, back from its loop, or ended by a failed call.
  datatype Worker = Ready | Calling(index: nat) | Returned | Threw(index: nat)

  datatype Action<R> = Claim(w: nat) | Resolve(w: nat, value: R) | Reject(w: nat)

  datatype State<R> = State(n: nat, next: nat, workers: seq<Worker>, results: map<nat, R>)

  function Min(a: int, b: int): int { if a < b then a else b }

  function WorkerCount(n: nat, limit: int): (count: nat)
    ensures count >= 1 && (limit >= 1 ==> count <= limit) && (n >= 1 ==> count <= n)
  {
    if Min(limit, n) < 1 then 1 else Min(limit, n)
  }

  function Start<R>(n: nat, limit: int): State<R> {
    State(n, 0, seq(WorkerCount(n, limit), _ => Ready), map[])
  }

  predicate Enabled<R>(s: State<R>, a: Action<R>) {
    a.w < |s.workers| && if a.Claim? then s.workers[a.w].Ready? else s.workers[a.w].Calling?
  }

  function Step<R>(s: State<R>, a: Action<R>): State<R>
    requires Enabled(s, a)
  {
    match a
    case Claim(w) =>
      var claimed := if s.next < s.n then Calling(s.next) else Returned;
      s.(next := s.next + 1, workers := s.workers[w := claimed])
    case Resolve(w, value) =>
      s.(results := s.results[s.workers[w].index := value], workers := s.workers[w := Ready])
    case Reject(w) =>
      s.(workers := s.workers[w := Threw(s.workers[w].index)])
  }

  // ----- schedules -----

  // The states a schedule passes through: `states[k]` is before action `k`.
  ghost predicate Schedule<R>(n: nat, limit: int, actions: seq<Action<R>>, states: seq<State<R>>) {
    |states| == |actions| + 1 && states[0] == Start(n, limit) &&
    forall k :: 0 <= k < |actions| ==> Enabled(states[k], actions[k]) && states[k + 1] == Step(states[k], actions[k])
  }

  predicate Stopped<R>(s: State<R>) {
    forall w :: 0 <= w < |s.workers| ==> s.workers[w].Returned? || s.workers[w].Threw?
  }

  predicate AllReturned<R>(s: State<R>) {
    forall w :: 0 <= w < |s.workers| ==> s.workers[w].Returned?
  }

  function Issued<R>(s: State<R>): nat { Min(s.next, s.n) }

  predicate Holds(worker: Worker, i: nat) {
    (worker.Calling? || worker.Threw?) && worker.index == i
  }

  predicate Held<R>(s: State<R>, i: nat) {
    exists w :: 0 <= w < |s.workers| && Holds(s.workers[w], i)
  }

  ghost predicate Inv<R>(s: State<R>) {
    && (forall i: nat :: i < Issued(s) <==> (i in s.results || Held(s, i)))
    && (forall i: nat :: i in s.results ==> !Held(s, i))
    && (forall v, w, i: nat :: 0 <= v < w < |s.workers| && Holds(s.workers[v], i) ==> !Holds(s.workers[w], i))
    && (forall w :: 0 <= w < |s.workers| && s.workers[w].Returned? ==> s.next >= s.n)
    && (forall w :: 0 <= w < |s.workers| && s.workers[w].Calling? ==> s.workers[w].index < s.n)
  }

  lemma StartInv<R>(n: nat, limit: int)
    ensures Inv<R>(Start(n, limit))
  {
  }

  // The workers other than `w` hold the same indices before and after.
  lemma HeldAfter<R>(s: State<R>, w: nat, worker: Worker, i: nat)
    requires w < |s.workers|
    ensures Held(s.(workers := s.workers[w := worker]), i) <==>
            Holds(worker, i) || exists v :: 0 <= v < |s.workers| && v != w && Holds(s.workers[v], i)
  {
    var t := s.(workers := s.workers[w := worker]);
    if Holds(worker, i) { assert Holds(t.workers[w], i); }
    if v :| 0 <= v < |s.workers| && v != w && Holds(s.workers[v], i) { assert Holds(t.workers[v], i); }
    if Held(t, i) {
      var v :| 0 <= v < |t.workers| && Holds(t.workers[v], i);
      assert v != w ==> Holds(s.workers[v], i);
    }
  }

  lemma StepInv<R>(s: State<R>, a: Action<R>)
    requires Inv(s) && Enabled(s, a)
    ensures Inv(Step(s, a))
  {
    var t := Step(s, a);
    forall i: nat
      ensures Held(t, i) <==>
              Holds(t.workers[a.w], i) || exists v :: 0 <= v < |s.workers| && v != a.w && Holds(s.workers[v], i)
      ensures Held(s, i) <==>
              Holds(s.workers[a.w], i) || exists v :: 0 <= v < |s.workers| && v != a.w && Holds(s.workers[v], i)
    {
      HeldAfter(s, a.w, t.workers[a.w], i);
      HeldAfter(s, a.w, s.workers[a.w], i);
      assert s.(workers := s.workers[a.w := s.workers[a.w]]) == s;
      assert Held(t, i) <==> Held(s.(workers := t.workers), i);
    }
  }

  // Every state of a schedule keeps the invariant and the number of workers.
  lemma {:induction false} ScheduleInv<R>(n: nat, limit: int, actions: seq<Action<R>>, states: seq<State<R>>, k: nat)
    requires Schedule(n, limit, actions, states) && k <= |actions|
    ensures Inv(states[k]) && states[k].n == n && |states[k].workers| == WorkerCount(n, limit)
    decreases k
  {
    if k == 0 {
      StartInv<R>(n, limit);
    } else {
      ScheduleInv(n, limit, actions, states, k - 1);
      StepInv(states[k - 1], actions[k - 1]);
    }
  }

  // ----- each index is claimed once -----

  // Action `k` calls the function on item `i`.
  predicate Calls<R>(actions: seq<Action<R>>, states: seq<State<R>>, k: nat, i: nat)
    requires |states| == |actions| + 1
  {
    k < |actions| && actions[k].Claim? && states[k].next == i && i < states[k].n
  }

  predicate Called<R>(actions: seq<Action<R>>, states: seq<State<R>>, i: nat)
    requires |states| == |actions| + 1
  {
    exists k: nat :: k < |actions| && Calls(actions, states, k, i)
  }

  lemma {:induction false} NextGrows<R>(n: nat, limit: int, actions: seq<Action<R>>, states: seq<State<R>>,
                                       j: nat, k: nat)
    requires Schedule(n, limit, actions, states) && j <= k <= |actions|
    ensures states[j].next <= states[k].next
    ensures j < k && actions[j].Claim? ==> states[j].next < states[k].next
    decreases k - j
  {
    if j < k {
      assert states[j + 1] == Step(states[j], actions[j]);
      NextGrows(n, limit, actions, states, j + 1, k);
    }
  }

  lemma {:induction false} ClaimOf<R>(n: nat, limit: int, actions: seq<Action<R>>, states: seq<State<R>>,
                                     m: nat, i: nat)
    returns (k: nat)
    requires Schedule(n, limit, actions, states) && m <= |actions| && i < n && i < states[m].next
    ensures k < m && Calls(actions, states, k, i)
    decreases m
  {
    ScheduleInv(n, limit, actions, states, m - 1);
    assert states[m] == Step(states[m - 1], actions[m - 1]);
    if i < states[m - 1].next {
      k := ClaimOf(n, limit, actions, states, m - 1, i);
    } else {
      k := m - 1;
    }
  }

  lemma ClaimedOnce<R>(n: nat, limit: int, actions: seq<Action<R>>, states: seq<State<R>>)
    requires Schedule(n, limit, actions, states)
    ensures forall i: nat :: Called(actions, states, i) <==> i < Issued(states[|actions|])
    ensures forall i: nat, j: nat, k: nat :: Calls(actions, states, j, i) && Calls(actions, states, k, i) ==> j == k
  {
    var end := |actions|;
    ScheduleInv(n, limit, actions, states, end);
    forall i: nat ensures i < Issued(states[end]) ==> Called(actions, states, i) {
      if i < Issued(states[end]) { var k := ClaimOf(n, limit, actions, states, end, i); }
    }
    forall i: nat, k: nat | Calls(actions, states, k, i) ensures i < Issued(states[end]) {
      ScheduleInv(n, limit, actions, states, k);
      NextGrows(n, limit, actions, states, k, end);
    }
    forall i: nat, j: nat, k: nat | Calls(actions, states, j, i) && Calls(actions, states, k, i) ensures j == k {
      if j < k { NextGrows(n, limit, actions, states, j, k); }
      if k < j { NextGrows(n, limit, actions, states, k, j); }
    }
  }

  // ----- calls in flight -----

  // The items whose call has not settled.
  function Busy(workers: seq<Worker>): set<nat> {
    set w: nat | w < |workers| && workers[w].Calling? :: workers[w].index
  }

  lemma BusyLast(workers: seq<Worker>)
    requires workers != []
    ensures var n := |workers| - 1;
            Busy(workers) == Busy(workers[..n]) + if workers[n].Calling? then {workers[n].index} else {}
  {
    var n := |workers| - 1;
    var mine: set<nat> := if workers[n].Calling? then {workers[n].index} else {};
    forall i | i in Busy(workers) ensures i in Busy(workers[..n]) + mine {
      var w: nat :| w < |workers| && workers[w].Calling? && workers[w].index == i;
      if w < n { assert workers[..n][w] == workers[w]; }
    }
    forall i | i in Busy(workers[..n]) ensures i in Busy(workers) {
      var w: nat :| w < n && workers[..n][w].Calling? && workers[..n][w].index == i;
      assert workers[w] == workers[..n][w];
    }
  }

  lemma {:induction false} BusyBound(workers: seq<Worker>)
    ensures |Busy(workers)| <= |workers|
    decreases |workers|
  {
    if workers != [] {
      var n := |workers| - 1;
      BusyBound(workers[..n]);
      BusyLast(workers);
    }
  }

  // At no time are more calls in flight than the limit allows, no two of them for one item,
  // and none for an item whose result is already stored.
  lemma InFlightBounded<R>(n: nat, limit: int, actions: seq<Action<R>>, states: seq<State<R>>, k: nat)
    requires Schedule(n, limit, actions, states) && k <= |actions|
    ensures |Busy(states[k].workers)| <= if Min(limit, n) < 1 then 1 else Min(limit, n)
    ensures forall v, w :: 0 <= v < w < |states[k].workers| &&
              states[k].workers[v].Calling? && states[k].workers[w].Calling?
              ==> states[k].workers[v].index != states[k].workers[w].index
    ensures Busy(states[k].workers) !! states[k].results.Keys
  {
    ScheduleInv(n, limit, actions, states, k);
    var s := states[k];
    BusyBound(s.workers);
    forall v, w | 0 <= v < w < |s.workers| && s.workers[v].Calling? && s.workers[w].Calling?
      ensures s.workers[v].index != s.workers[w].index
    {
      assert Holds(s.workers[v], s.workers[v].index);
      assert !Holds(s.workers[w], s.workers[v].index);
    }
    forall i | i in Busy(s.workers) ensures i !in s.results {
      var w: nat :| w < |s.workers| && s.workers[w].Calling? && s.workers[w].index == i;
      assert Holds(s.workers[w], i);
      assert Held(s, i);
    }
  }

  // The first `k` workers have claimed an item each, and nothing else happened.
  function AfterClaims<R>(n: nat, limit: int, k: nat): State<R> {
    State(n, k, seq(WorkerCount(n, limit), (w: nat) => if w < k then Calling(w) else Ready), map[])
  }

  lemma {:induction false} BusyFirst(workers: seq<Worker>, k: nat)
    requires k <= |workers| && forall w :: 0 <= w < |workers| ==> workers[w] == if w < k then Calling(w) else Ready
    ensures |Busy(workers)| == k && forall i | i in Busy(workers) :: i < k
    decreases |workers|
  {
    if workers != [] {
      var n := |workers| - 1;
      BusyFirst(workers[..n], if k <= n then k else n);
      BusyLast(workers);
    }
  }

  // The bound is reached: as many calls as the limit and the items allow can be in flight.
  lemma FullWidth<R(0)>(n: nat, limit: int) returns (actions: seq<Action<R>>, states: seq<State<R>>)
    requires n >= 1 && limit >= 1
    ensures Schedule(n, limit, actions, states) && |Busy(states[|actions|].workers)| == Min(limit, n)
  {
    var count := Min(limit, n);
    actions := seq(count, (k: nat) => Claim(k));
    states := seq(count + 1, (k: nat) => AfterClaims(n, limit, k));
    assert states[0].workers == Start<R>(n, limit).workers;
    forall k | 0 <= k < count ensures Enabled(states[k], actions[k]) && states[k + 1] == Step(states[k], actions[k]) {
      assert states[k + 1].workers == states[k].workers[k := Calling(k)];
    }
    BusyFirst(states[count].workers, count);
  }

  // ----- results -----

  // Action `k` is the end of the call on item `i`, with `value`.
  predicate Delivers<R(==)>(actions: seq<Action<R>>, states: seq<State<R>>, k: nat, i: nat, value: R)
    requires |states| == |actions| + 1
  {
    k < |actions| && actions[k] == Resolve(actions[k].w, value) && Enabled(states[k], actions[k]) &&
    states[k].workers[actions[k].w].index == i
  }

  lemma {:induction false} DeliveredStays<R>(n: nat, limit: int, actions: seq<Action<R>>, states: seq<State<R>>,
                                             k: nat, i: nat, value: R, m: nat)
    requires Schedule(n, limit, actions, states) && k < m <= |actions| && Delivers(actions, states, k, i, value)
    ensures i in states[m].results && states[m].results[i] == value
    decreases m
  {
    assert states[m] == Step(states[m - 1], actions[m - 1]);
    if k < m - 1 {
      DeliveredStays(n, limit, actions, states, k, i, value, m - 1);
      ScheduleInv(n, limit, actions, states, m - 1);
      var a := actions[m - 1];
      if a.Resolve? {
        var j := states[m - 1].workers[a.w].index;
        assert Holds(states[m - 1].workers[a.w], j);
        assert Held(states[m - 1], j);
      }
    }
  }

  lemma {:induction false} DeliveryOf<R>(n: nat, limit: int, actions: seq<Action<R>>, states: seq<State<R>>,
                                        m: nat, i: nat)
    returns (k: nat)
    requires Schedule(n, limit, actions, states) && m <= |actions| && i in states[m].results
    ensures k < m && Delivers(actions, states, k, i, states[m].results[i])
    decreases m
  {
    assert states[m] == Step(states[m - 1], actions[m - 1]);
    var a := actions[m - 1];
    if a.Resolve? && states[m - 1].workers[a.w].index == i {
      k := m - 1;
    } else {
      k := DeliveryOf(n, limit, actions, states, m - 1, i);
    }
  }

  predicate Delivered<R(==)>(actions: seq<Action<R>>, states: seq<State<R>>, i: nat, value: R)
    requires |states| == |actions| + 1
  {
    exists k: nat :: k < |actions| && Delivers(actions, states, k, i, value)
  }

  lemma CallInRange<R>(s: State<R>, w: nat)
    requires Inv(s) && w < |s.workers| && s.workers[w].Calling?
    ensures s.workers[w].index < s.n
  {
  }

  lemma AllDone<R>(s: State<R>)
    requires Inv(s) && AllReturned(s) && s.workers != []
    ensures forall i: nat :: i in s.results <==> i < s.n
  {
    assert s.workers[0].Returned?;
    forall i: nat ensures i in s.results <==> i < s.n {
      assert !Held(s, i);
    }
  }

  // When every worker has returned, exactly the items' indices have results, and the result
  // at an index is what the one call on that item delivered.
  lemma ResultsInPlace<R(!new)>(n: nat, limit: int, actions: seq<Action<R>>, states: seq<State<R>>)
    requires Schedule(n, limit, actions, states) && AllReturned(states[|actions|])
    ensures forall i: nat :: i in states[|actions|].results <==> i < n
    ensures forall i: nat, value ::
              Delivered(actions, states, i, value) <==> i < n && states[|actions|].results[i] == value
  {
    var end := |actions|;
    var s := states[end];
    ScheduleInv(n, limit, actions, states, end);
    AllDone(s);
    forall i: nat, value ensures Delivered(actions, states, i, value) <==> i < n && s.results[i] == value {
      if Delivered(actions, states, i, value) {
        var k: nat :| k < |actions| && Delivers(actions, states, k, i, value);
        DeliveredStays(n, limit, actions, states, k, i, value, end);
      } else if i < n && s.results[i] == value {
        var k := DeliveryOf(n, limit, actions, states, end, i);
      }
    }
  }

  // ----- every schedule ends -----

  function Weight(w: Worker): nat {
    match w
    case Ready => 1
    case Calling(_) => 2
    case Returned => 0
    case Threw(_) => 1
  }

  function Weights(workers: seq<Worker>): nat {
    if workers == [] then 0 else Weight(workers[0]) + Weights(workers[1..])
  }

  function Remaining<R>(s: State<R>): nat {
    2 * (s.n - Issued(s)) + Weights(s.workers)
  }

  lemma {:induction false} WeightsUpdate(workers: seq<Worker>, w: nat, worker: Worker)
    requires w < |workers|
    ensures Weights(workers[w := worker]) == Weights(workers) - Weight(workers[w]) + Weight(worker)
    decreases |workers|
  {
    if w == 0 {
      assert workers[0 := worker][1..] == workers[1..];
    } else {
      WeightsUpdate(workers[1..], w - 1, worker);
      assert workers[w := worker][1..] == workers[1..][w - 1 := worker];
    }
  }

  lemma StepSpends<R>(s: State<R>, a: Action<R>)
    requires Inv(s) && Enabled(s, a)
    ensures Remaining(Step(s, a)) == Remaining(s) - 1
  {
    WeightsUpdate(s.workers, a.w, Step(s, a).workers[a.w]);
  }

  lemma {:induction false} ReadyWeights(count: nat)
    ensures Weights(seq(count, _ => Ready)) == count
    decreases count
  {
    if count > 0 {
      ReadyWeights(count - 1);
      assert seq(count, _ => Ready)[1..] == seq(count - 1, _ => Ready);
    }
  }

  lemma {:induction false} Spent<R>(n: nat, limit: int, actions: seq<Action<R>>, states: seq<State<R>>, k: nat)
    requires Schedule(n, limit, actions, states) && k <= |actions|
    ensures k + Remaining(states[k]) == 2 * n + WorkerCount(n, limit)
    decreases k
  {
    if k == 0 {
      ReadyWeights(WorkerCount(n, limit));
    } else {
      Spent(n, limit, actions, states, k - 1);
      ScheduleInv(n, limit, actions, states, k - 1);
      StepSpends(states[k - 1], actions[k - 1]);
    }
  }

  lemma {:induction false} NoWeights(workers: seq<Worker>)
    requires forall w :: 0 <= w < |workers| ==> workers[w].Returned?
    ensures Weights(workers) == 0
    decreases |workers|
  {
    if workers != [] { NoWeights(workers[1..]); }
  }

  // Every schedule is finite: two steps an item and one a worker when no call fails, and no
  // schedule is longer. It can go on exactly as long as some worker has not stopped.
  lemma ScheduleLength<R(0,!new)>(n: nat, limit: int, actions: seq<Action<R>>, states: seq<State<R>>)
    requires Schedule(n, limit, actions, states)
    ensures var count := if Min(limit, n) < 1 then 1 else Min(limit, n);
            |actions| <= 2 * n + count && (AllReturned(states[|actions|]) ==> |actions| == 2 * n + count)
    ensures Stopped(states[|actions|]) <==> forall a :: !Enabled(states[|actions|], a)
  {
    var s := states[|actions|];
    Spent(n, limit, actions, states, |actions|);
    if AllReturned(s) {
      ScheduleInv(n, limit, actions, states, |actions|);
      assert s.workers[0].Returned?;
      NoWeights(s.workers);
    }
    if !Stopped(s) {
      var w :| 0 <= w < |s.workers| && !(s.workers[w].Returned? || s.workers[w].Threw?);
      assert Enabled(s, if s.workers[w].Ready? then Claim(w) else Reject(w));
    }
  }

  // ----- the pool as written -----

  class Pool<R> {
    const n: nat
    var next: nat
    var workers: seq<Worker>
    const results: array<Option<R>>

    ghost predicate Valid()
      reads this, results
    {
      results.Length == n && Inv(Value())
    }

    ghost function Value(): State<R>
      reads this, results
    {
      State(n, next, workers,
            map i: nat | i < results.Length && results[i].Some? :: results[i].value)
    }

    constructor (n: nat, limit: int)
      ensures Valid() && fresh(results) && this.n == n && Value() == Start(n, limit)
      ensures forall i :: 0 <= i < n ==> results[i].None?
    {
      this.n, next := n, 0;
      workers := seq(WorkerCount(n, limit), _ => Ready);
      results := new Option<R>[n](_ => None);
      new;
      StartInv<R>(n, limit);
      assert Value() == Start(n, limit);
    }

    method Claim(w: nat)
      requires Valid() && Enabled(Value(), Action.Claim(w))
      modifies this
      ensures Valid() && Value() == Step(old(Value()), Action.Claim(w))
      ensures results[..] == old(results[..])
    {
      ghost var was := Value();
      var i := next;
      next := next + 1;
      workers := workers[w := if i < n then Calling(i) else Returned];
      StepInv(was, Action.Claim(w));
      assert Value() == Step(was, Action.Claim(w));
    }

    method Resolve(w: nat, value: R)
      requires Valid() && Enabled(Value(), Action.Resolve(w, value))
      modifies this`workers, results
      ensures Valid() && Value() == Step(old(Value()), Action.Resolve(w, value))
      ensures results[..] == old(results[..])[old(workers)[w].index := Some(value)]
    {
      ghost var was := Value();
      var i := workers[w].index;
      assert i < results.Length by {
        assert Holds(workers[w], i);
        assert Held(was, i);
      }
      results[i] := Some(value);
      workers := workers[w := Ready];
      StepInv(was, Action.Resolve(w, value));
      assert Value().results == Step(was, Action.Resolve(w, value)).results;
    }

    method Reject(w: nat)
      requires Valid() && Enabled(Value(), Action.Reject(w))
      modifies this`workers
      ensures Valid() && Value() == Step(old(Value()), Action.Reject(w))
    {
      ghost var was := Value();
      workers := workers[w := Threw(workers[w].index)];
      StepInv(was, Action.Reject(w));
      assert Value() == Step(was, Action.Reject(w));
    }
  }

  // Under any schedule, item by item what the calls gave; a failure as soon as one call fails.
  // `call` is what the one call on an item does in this run: give a value, or fail.
  method RunWithConcurrency<T, R>(items: seq<T>, limit: int, call: (nat, T) -> Option<R>)
    returns (results: Option<seq<R>>)
    ensures results.Some? <==> forall i :: 0 <= i < |items| ==> call(i, items[i]).Some?
    ensures results.Some? ==> |results.value| == |items|
    ensures results.Some? ==> forall i :: 0 <= i < |items| ==> call(i, items[i]) == Some(results.value[i])
  {
    hide Inv, Remaining;
    var pool := new Pool<R>(|items|, limit);
    while exists w :: 0 <= w < |pool.workers| && !pool.workers[w].Returned?
      invariant pool.Valid() && pool.n == |items| && fresh(pool) && fresh(pool.results)
      invariant |pool.workers| >= 1 && forall w :: 0 <= w < |pool.workers| ==> !pool.workers[w].Threw?
      invariant forall i :: 0 <= i < |items| ==> pool.results[i].None? || pool.results[i] == call(i, items[i])
      decreases Remaining(pool.Value())
    {
      var w :| 0 <= w < |pool.workers| && !pool.workers[w].Returned?;
      ghost var was := pool.Value();
      if pool.workers[w].Ready? {
        StepSpends(was, Claim(w));
        pool.Claim(w);
      } else {
        CallInRange(was, w);
        var i := pool.workers[w].index;
        var outcome := call(i, items[i]);
        if outcome.None? {
          pool.Reject(w);
          return None;
        }
        StepSpends(was, Resolve(w, outcome.value));
        pool.Resolve(w, outcome.value);
      }
    }
    AllDone(pool.Value());
    forall i | 0 <= i < |items| ensures pool.results[i].Some? {
      assert i in pool.Value().results;
    }
    var stored := pool.results[..];
    return Some(seq(|items|, i requires 0 <= i < |stored| && stored[i].Some? => stored[i].value));
  }
}
