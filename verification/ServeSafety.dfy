// What every run of the registry keeps.
module ServeSafety {
  import opened ServeModel

  // ----- the invariant -----

  // Every index entry points at a resident run that carries the key.
  predicate IndexSound(st: State) {
    forall k | k in st.index :: st.index[k] in st.runs && st.runs[st.index[k]].key == Some(k)
  }

  // A run created since the start (`order >= base`) owns the index entry of its key.
  predicate IndexComplete(st: State, base: nat) {
    forall id | id in st.runs && st.runs[id].order >= base && st.runs[id].key.Some? ::
      st.runs[id].key.value in st.index && st.index[st.runs[id].key.value] == id
  }

  predicate Ordered(st: State) {
    && (forall id | id in st.runs :: st.runs[id].order < st.next)
    && (forall i, j | i in st.runs && j in st.runs && i != j :: st.runs[i].order != st.runs[j].order)
  }

  // A registered terminator has been called exactly when the run is marked cancelled.
  predicate Delivered(st: State) {
    forall id | id in st.runs && st.runs[id].handle :: st.runs[id].kills > 0 <==> st.runs[id].cancelled
  }

  predicate Capped(cfg: Config, st: State) {
    |RunningIds(st.runs)| <= cfg.maxConcurrent
  }

  ghost predicate Inv(cfg: Config, base: nat, s: System) {
    && IndexSound(s.st) && IndexComplete(s.st, base) && Ordered(s.st) && Delivered(s.st) && Capped(cfg, s.st)
    && s.st.runs.Keys <= s.used && base <= s.st.next
  }

  // ----- initial states -----

  predicate Seeded(initial: seq<(RunId, Rec)>, id: RunId) {
    exists i | 0 <= i < |initial| :: initial[i].0 == id
  }

  lemma {:induction false} SeedRuns(initial: seq<(RunId, Rec)>)
    requires Startable(initial)
    ensures Seed(initial).next == |initial|
    ensures forall id | id in Seed(initial).runs :: Seeded(initial, id)
    ensures forall i | 0 <= i < |initial| ::
              initial[i].0 in Seed(initial).runs && Seed(initial).runs[initial[i].0] == initial[i].1.(order := i)
  {
    if initial != [] {
      var n := |initial| - 1;
      var front := initial[..n];
      SeedRuns(front);
      hide Startable;
      assert Seed(initial) == SeedOne(Seed(front), initial[n].0, initial[n].1);
      hide Seed;
      forall id | id in Seed(initial).runs ensures Seeded(initial, id) {
        if id != initial[n].0 {
          var i :| 0 <= i < n && front[i].0 == id;
          assert initial[i].0 == id;
        }
      }
      forall i | 0 <= i < n
        ensures initial[i].0 in Seed(initial).runs && Seed(initial).runs[initial[i].0] == initial[i].1.(order := i)
      {
        assert front[i] == initial[i];
      }
    }
  }

  lemma {:induction false} SeedIndex(initial: seq<(RunId, Rec)>)
    requires Startable(initial)
    ensures IndexSound(Seed(initial))
  {
    if initial != [] {
      var n := |initial| - 1;
      var front := initial[..n];
      SeedIndex(front);
      SeedRuns(front);
      var before, st := Seed(front), Seed(initial);
      forall i | 0 <= i < n ensures front[i].0 != initial[n].0 {
        assert front[i] == initial[i];
      }
      assert !Seeded(front, initial[n].0);
    }
  }

  lemma StartInv(cfg: Config, initial: seq<(RunId, Rec)>)
    requires Startable(initial)
    ensures Inv(cfg, |initial|, Start(initial))
  {
    SeedRuns(initial);
    SeedIndex(initial);
    var st := Seed(initial);
    forall id | id in st.runs
      ensures st.runs[id].status.Terminal() && !st.runs[id].handle && st.runs[id].order < |initial|
    {
      assert Seeded(initial, id);
      var i :| 0 <= i < |initial| && initial[i].0 == id;
    }
    forall a, b | a in st.runs && b in st.runs && a != b ensures st.runs[a].order != st.runs[b].order {
      assert Seeded(initial, a) && Seeded(initial, b);
      var i :| 0 <= i < |initial| && initial[i].0 == a;
      var j :| 0 <= j < |initial| && initial[j].0 == b;
    }
    assert RunningIds(st.runs) == {};
  }

  // ----- every step keeps the invariant -----

  lemma SubsetSize<T>(a: set<T>, b: set<T>)
    requires a <= b
    ensures |a| <= |b|
  {
    if a != {} {
      var x :| x in a;
      SubsetSize(a - {x}, b - {x});
    }
  }

  // A step that changes one resident run without touching its identity.
  lemma UpdateInv(cfg: Config, base: nat, s: System, id: RunId, r: Rec)
    requires Inv(cfg, base, s) && id in s.st.runs
    requires var o := s.st.runs[id]; r.order == o.order && r.key == o.key && (r.status.Running? ==> o.status.Running?)
    requires r.handle ==> (r.kills > 0 <==> r.cancelled)
    ensures Inv(cfg, base, s.(st := s.st.(runs := s.st.runs[id := r])))
  {
    SubsetSize(RunningIds(s.st.runs[id := r]), RunningIds(s.st.runs));
  }

  lemma InsertOrdered(st: State, id: RunId, r: Rec)
    requires Ordered(st) && id !in st.runs && r.order == st.next
    ensures Ordered(State(st.runs[id := r], st.index, st.next + 1))
  {
  }

  lemma InsertIndex(st: State, base: nat, id: RunId, r: Rec)
    requires IndexSound(st) && IndexComplete(st, base) && id !in st.runs && r.key.None?
    ensures IndexSound(State(st.runs[id := r], st.index, st.next + 1))
    ensures IndexComplete(State(st.runs[id := r], st.index, st.next + 1), base)
  {
  }

  // A new run without a key, below the cap.
  lemma InsertInv(cfg: Config, base: nat, s: System, id: RunId, r: Rec)
    requires Inv(cfg, base, s) && id !in s.used && |RunningIds(s.st.runs)| < cfg.maxConcurrent
    requires r.order == s.st.next && r.key.None? && !r.handle
    ensures Inv(cfg, base, System(State(s.st.runs[id := r], s.st.index, s.st.next + 1), s.used + {id}))
  {
    var runs := s.st.runs[id := r];
    SubsetSize(RunningIds(runs), RunningIds(s.st.runs) + {id});
    InsertOrdered(s.st, id, r);
    InsertIndex(s.st, base, id, r);
  }

  // Reserving a free key for a run that has none.
  lemma ReserveInv(cfg: Config, base: nat, s: System, id: RunId, k: Key, r: Rec)
    requires Inv(cfg, base, s) && id in s.st.runs && k !in s.st.index && s.st.runs[id].key.None? && r.key == Some(k)
    requires var o := s.st.runs[id]; r.order == o.order && r.status == o.status && !r.handle
    ensures Inv(cfg, base, s.(st := s.st.(runs := s.st.runs[id := r], index := s.st.index[k := id])))
  {
    assert RunningIds(s.st.runs[id := r]) == RunningIds(s.st.runs);
  }

  lemma CreateInv(cfg: Config, base: nat, s: System, e: Event)
    requires Inv(cfg, base, s) && e.ECreate? && Enabled(s, e)
    ensures Inv(cfg, base, Next(cfg, s, e))
  {
    if |RunningIds(s.st.runs)| < cfg.maxConcurrent {
      InsertInv(cfg, base, s, e.id, FreshRec(s.st, e.workflow, e.principal, e.correlation, e.now));
    }
    if e.keyed.Some? {
      var k := e.keyed.value.key;
      if k !in s.st.index {
        assert s.st.index - {k} == s.st.index;
        var (started, reply) := StartRun(cfg, s.st, e.workflow, e.principal, e.correlation, e.id, e.now);
        if reply.Started? {
          var r := started.runs[e.id].(key := Some(k), argsHash := Some(e.keyed.value.hash));
          ReserveInv(cfg, base, System(started, s.used + {e.id}), e.id, k, r);
        }
      }
    }
  }

  lemma CancelAllInv(cfg: Config, base: nat, s: System)
    requires Inv(cfg, base, s)
    ensures Inv(cfg, base, s.(st := CancelAll(s.st)))
  {
    assert RunningIds(CancelAll(s.st).runs) == RunningIds(s.st.runs);
  }

  lemma DropInv(cfg: Config, base: nat, s: System, ids: set<RunId>)
    requires Inv(cfg, base, s)
    ensures Inv(cfg, base, s.(st := Drop(s.st, ids)))
  {
    SubsetSize(RunningIds(s.st.runs - ids), RunningIds(s.st.runs));
  }

  lemma EvictInv(cfg: Config, base: nat, s: System, now: Stamp)
    requires Inv(cfg, base, s)
    ensures Inv(cfg, base, s.(st := Evict(cfg, s.st, now)))
  {
    var aged := set id | id in s.st.runs && AgedOut(cfg, s.st.runs[id], now);
    DropInv(cfg, base, s, aged);
    var young := s.(st := Drop(s.st, aged));
    DropInv(cfg, base, young, Surplus(cfg, young.st.runs));
  }

  lemma NextInv(cfg: Config, base: nat, s: System, e: Event)
    requires Inv(cfg, base, s) && Enabled(s, e)
    ensures Inv(cfg, base, Next(cfg, s, e))
  {
    match e
    case ECreate(_, _, _, _, _, _) => CreateInv(cfg, base, s, e);
    case ERegister(id) => if id in s.st.runs { UpdateInv(cfg, base, s, id, Registered(s.st.runs[id])); }
    case ECancel(id, _) => if id in s.st.runs { UpdateInv(cfg, base, s, id, MarkCancelled(s.st.runs[id])); }
    case EHandle(id) => if id in s.st.runs { UpdateInv(cfg, base, s, id, MarkCancelled(s.st.runs[id])); }
    case ECancelAll => CancelAllInv(cfg, base, s);
    case ESettle(id, out, now, evictAt) =>
      var r := Settled(s.st.runs[id], out, now);
      UpdateInv(cfg, base, s, id, r);
      EvictInv(cfg, base, s.(st := s.st.(runs := s.st.runs[id := r])), evictAt);
  }

  lemma {:induction false} RunInv(cfg: Config, base: nat, s: System, events: seq<Event>, i: nat)
    requires Inv(cfg, base, s) && Valid(cfg, s, events) && i <= |events|
    ensures Inv(cfg, base, At(cfg, s, events, i))
  {
    if i > 0 {
      RunInv(cfg, base, s, events, i - 1);
      NextInv(cfg, base, At(cfg, s, events, i - 1), events[i - 1]);
    }
  }
}
