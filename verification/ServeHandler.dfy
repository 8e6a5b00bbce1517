// The run registry itself: records updated in place, a map of runs, an idempotency index
// and an order counter. Each method is one step of ServeModel.
module ServeHandler {
  import opened ServeModel
  import opened ServeSafety
  import opened ServeRetention

  // A run record, shared by the registry and by the executor's callbacks. Its fields are
  // gathered in one value, replaced on every update.
  class RunRecord {
    const runId: RunId
    var rec: Rec

    constructor (runId: RunId, rec: Rec)
      ensures this.runId == runId && this.rec == rec
    {
      this.runId, this.rec := runId, rec;
    }

    // Set the flag, then call the terminator if one is registered.
    method Cancel()
      modifies this
      ensures rec == MarkCancelled(old(rec))
    {
      rec := rec.(cancelled := true);
      if rec.handle { rec := rec.(kills := rec.kills + 1); }
    }

    // A terminator arrives; a cancel that came before it is honoured now.
    method Register()
      modifies this
      ensures rec == Registered(old(rec))
    {
      rec := rec.(handle := true, kills := 0);
      if rec.cancelled { Cancel(); }
    }
  }

  function Views(records: seq<RunRecord>): (r: seq<(RunId, Rec)>)
    reads records
    ensures |r| == |records|
    ensures forall i | 0 <= i < |r| :: r[i] == (records[i].runId, records[i].rec)
  {
    if records == [] then []
    else
      var n := |records| - 1;
      Views(records[..n]) + [(records[n].runId, records[n].rec)]
  }

  lemma PutOrdered(st: ServeModel.State, id: RunId, r: Rec, index: map<Key, RunId>)
    requires Ordered(st) && r.order == st.next
    ensures Ordered(ServeModel.State(st.runs[id := r], index, st.next + 1))
  {
  }

  lemma SameOrdered(st: ServeModel.State, id: RunId, r: Rec, index: map<Key, RunId>)
    requires Ordered(st) && id in st.runs && r.order == st.runs[id].order
    ensures Ordered(ServeModel.State(st.runs[id := r], index, st.next))
  {
  }

  lemma CancelAllOrdered(st: ServeModel.State)
    requires Ordered(st)
    ensures Ordered(ServeModel.CancelAll(st))
  {
  }

  lemma DropOrdered(st: ServeModel.State, ids: set<RunId>)
    requires Ordered(st)
    ensures Ordered(Drop(st, ids))
  {
  }

  lemma ReindexOrdered(st: ServeModel.State, index: map<Key, RunId>)
    requires Ordered(st)
    ensures Ordered(st.(index := index))
  {
  }

  lemma DropMore(st: ServeModel.State, ids: set<RunId>, id: RunId)
    requires id in st.runs && id !in ids
    ensures Drop(Drop(st, ids), {id}) == Drop(st, ids + {id})
  {
    var a, b := Drop(Drop(st, ids), {id}), Drop(st, ids + {id});
    assert a.runs == b.runs;
    assert a.index == b.index;
  }

  lemma SeedNone()
    ensures Seed([]) == ServeModel.State(map[], map[], 0) && Ordered(Seed([]))
  {
  }

  lemma SeedNext(views: seq<(RunId, Rec)>, i: nat)
    requires i < |views|
    ensures Seed(views[..i + 1]) == SeedOne(Seed(views[..i]), views[i].0, views[i].1)
  {
    assert views[..i + 1][..i] == views[..i];
  }

  class Handler {
    const cfg: Config
    var runs: map<RunId, RunRecord>
    var idempotencyIndex: map<Key, RunId>
    var orderCounter: nat

    ghost predicate Valid()
      reads this, runs.Values
    {
      && (forall id | id in runs :: runs[id].runId == id)
      && Ordered(State())
    }

    ghost function State(): ServeModel.State
      reads this, runs.Values
    {
      ServeModel.State(map id | id in runs :: runs[id].rec, idempotencyIndex, orderCounter)
    }

    constructor (cfg: Config, initial: seq<RunRecord>)
      requires forall i, j | 0 <= i < j < |initial| :: initial[i] != initial[j]
      modifies initial
      ensures Valid() && this.cfg == cfg
      ensures State() == Seed(old(Views(initial)))
    {
      hide Ordered, Seed, SeedOne;
      this.cfg := cfg;
      runs, idempotencyIndex, orderCounter := map[], map[], 0;
      new;
      SeedNone();
      ghost var views := Views(initial);
      for i := 0 to |initial|
        invariant runs.Values <= set r | r in initial[..i]
        invariant forall j | i <= j < |initial| :: (initial[j].runId, initial[j].rec) == views[j]
        invariant Valid() && State() == Seed(views[..i])
      {
        SeedRecord(initial[i]);
        SeedNext(views, i);
      }
      assert views[..|initial|] == views;
    }

    method SeedRecord(r: RunRecord)
      requires Valid() && r !in runs.Values
      modifies this, r
      ensures Valid() && State() == SeedOne(old(State()), r.runId, old(r.rec))
      ensures runs.Values <= old(runs.Values) + {r}
    {
      hide Ordered;
      ghost var before := State();
      r.rec := r.rec.(order := orderCounter);
      orderCounter := orderCounter + 1;
      runs := runs[r.runId := r];
      if r.rec.key.Some? { idempotencyIndex := idempotencyIndex[r.rec.key.value := r.runId]; }
      assert State().runs == before.runs[r.runId := r.rec];
      PutOrdered(before, r.runId, r.rec, idempotencyIndex);
    }

    method InFlight() returns (n: nat)
      ensures n == |RunningIds(State().runs)|
    {
      n := 0;
      ghost var recs := State().runs;
      var todo := runs.Keys;
      ghost var counted: set<RunId> := {};
      while todo != {}
        invariant todo <= runs.Keys
        invariant counted == RunningIds(recs) - todo && n == |counted|
        invariant recs.Keys == runs.Keys && forall id | id in runs :: recs[id] == runs[id].rec
        decreases todo
      {
        var id :| id in todo;
        if runs[id].rec.status.Running? {
          n := n + 1;
          counted := counted + {id};
        }
        todo := todo - {id};
      }
    }

    method StartRun(workflow: string, principal: string, correlation: Option<string>, id: RunId, now: Stamp)
      returns (reply: CreateReply, record: RunRecord?)
      requires Valid()
      modifies this
      ensures Valid()
      ensures (State(), reply) == ServeModel.StartRun(cfg, old(State()), workflow, principal, correlation, id, now)
      ensures reply.Started? <==> record != null
      ensures record != null ==> fresh(record) && id in runs && runs[id] == record
      ensures forall j | j in runs && j != id :: j in old(runs) && runs[j] == old(runs[j])
    {
      hide Ordered;
      var n := InFlight();
      if n >= cfg.maxConcurrent { return AtCapacity, null; }
      var rec := Rec(workflow, Running, now, None, None, None, None, None, false, false, 0, orderCounter,
                     None, Some(principal), correlation, None);
      var r := new RunRecord(id, rec);
      ghost var before := State();
      orderCounter := orderCounter + 1;
      runs := runs[id := r];
      assert State().runs == before.runs[id := rec];
      PutOrdered(before, id, rec, idempotencyIndex);
      return Started(id), r;
    }

    method CreateRun(workflow: string, principal: string, correlation: Option<string>, keyed: Option<Keyed>,
                     id: RunId, now: Stamp) returns (reply: CreateReply)
      requires Valid()
      modifies this
      ensures Valid()
      ensures (State(), reply) == Create(cfg, old(State()), workflow, principal, correlation, keyed, id, now)
    {
      hide Ordered;
      ghost var before := State();
      if keyed.Some? {
        var k := keyed.value.key;
        if k in idempotencyIndex {
          var existingId := idempotencyIndex[k];
          if existingId in runs {
            var existing := runs[existingId];
            if existing.rec.argsHash != Some(keyed.value.hash) { return Conflict; }
            return Existing(existing.runId);
          }
          idempotencyIndex := idempotencyIndex - {k};
        } else {
          assert before.index - {k} == before.index;
        }
        assert State() == before.(index := before.index - {k});
        ReindexOrdered(before, before.index - {k});
        reply := Launch(workflow, principal, correlation, keyed.value, id, now);
      } else {
        var record;
        reply, record := StartRun(workflow, principal, correlation, id, now);
      }
    }

    // Start the run and, with no await in between, reserve its key.
    method Launch(workflow: string, principal: string, correlation: Option<string>, keyed: Keyed, id: RunId, now: Stamp)
      returns (reply: CreateReply)
      requires Valid()
      modifies this
      ensures Valid()
      ensures var (started, r) := ServeModel.StartRun(cfg, old(State()), workflow, principal, correlation, id, now);
              reply == r &&
              State() == if r.AtCapacity? then started
                         else
                           var owned := started.runs[id].(key := Some(keyed.key), argsHash := Some(keyed.hash));
                           started.(runs := started.runs[id := owned], index := started.index[keyed.key := id])
    {
      hide Ordered;
      var record;
      reply, record := StartRun(workflow, principal, correlation, id, now);
      if record != null {
        ghost var started := State();
        record.rec := record.rec.(key := Some(keyed.key), argsHash := Some(keyed.hash));
        idempotencyIndex := idempotencyIndex[keyed.key := record.runId];
        assert State().runs == started.runs[id := record.rec];
        SameOrdered(started, id, record.rec, idempotencyIndex);
      }
    }

    method RegisterHandle(id: RunId)
      requires Valid()
      modifies runs.Values
      ensures Valid() && State() == ServeModel.RegisterHandle(old(State()), id)
    {
      hide Ordered;
      ghost var before := State();
      if id in runs {
        runs[id].Register();
        assert State().runs == before.runs[id := Registered(before.runs[id])];
        SameOrdered(before, id, Registered(before.runs[id]), before.index);
      }
    }

    method CancelRun(id: RunId, subject: Option<string>) returns (reply: CancelReply)
      requires Valid()
      modifies runs.Values
      ensures Valid() && (State(), reply) == ServeModel.CancelRun(old(State()), id, subject)
    {
      hide Ordered;
      ghost var before := State();
      if id !in runs { return NotFound; }
      var record := runs[id];
      if subject.Some? && record.rec.principal != subject { return NotFound; }
      if !record.rec.status.Running? { return AlreadyTerminal; }
      record.Cancel();
      assert State().runs == before.runs[id := MarkCancelled(before.runs[id])];
      SameOrdered(before, id, MarkCancelled(before.runs[id]), before.index);
      return Accepted;
    }

    // The wrapped terminator handed out on registration.
    method CancelByHandle(id: RunId)
      requires Valid()
      modifies runs.Values
      ensures Valid() && State() == ServeModel.CancelByHandle(old(State()), id)
    {
      hide Ordered;
      ghost var before := State();
      if id in runs && runs[id].rec.handle {
        runs[id].Cancel();
        assert State().runs == before.runs[id := MarkCancelled(before.runs[id])];
        SameOrdered(before, id, MarkCancelled(before.runs[id]), before.index);
      }
    }

    method CancelAll()
      requires Valid()
      modifies runs.Values
      ensures Valid() && State() == ServeModel.CancelAll(old(State()))
    {
      hide Ordered;
      ghost var before := State();
      var todo := runs.Keys;
      while todo != {}
        invariant todo <= runs.Keys && runs == old(runs)
        invariant idempotencyIndex == old(idempotencyIndex) && orderCounter == old(orderCounter)
        invariant forall id | id in runs ::
          runs[id].rec == if id in todo || !old(runs[id].rec).status.Running? then old(runs[id].rec)
                          else MarkCancelled(old(runs[id].rec))
        decreases todo
      {
        var id :| id in todo;
        var record := runs[id];
        if record.rec.status.Running? { record.Cancel(); }
        todo := todo - {id};
      }
      assert State().runs == ServeModel.CancelAll(before).runs;
      CancelAllOrdered(before);
    }

    // The executor's promise settled: `finalize` and `finalizeError`. The returned record
    // is what is handed to the persistence hook before eviction, which reads the clock again.
    method Finalize(record: RunRecord, out: Outcome, now: Stamp, evictAt: Stamp) returns (persisted: Rec)
      requires Valid() && record.runId in runs && runs[record.runId] == record
      modifies this, record
      ensures Valid()
      ensures persisted == Settled(old(record.rec), out, now) && record.rec == persisted
      ensures persisted.status == (if old(record.rec.cancelled) then Cancelled
                                   else if out.Threw? || out.isError then Failed else Succeeded)
      ensures persisted.endedAt == Some(now) && persisted.resultText == Some(out.text)
      ensures out.Returned? ==> persisted.exitStatus == out.exitStatus && persisted.signal == out.signal &&
                                persisted.runDir == out.runDir
      ensures out.Threw? ==> persisted.exitStatus == old(record.rec.exitStatus) &&
                             persisted.signal == old(record.rec.signal) && persisted.runDir == old(record.rec.runDir)
      ensures State() == Settle(cfg, old(State()), record.runId, out, now, evictAt)
    {
      hide Ordered;
      ghost var before, id := State(), record.runId;
      match out {
        case Returned(isError, exitStatus, signal, text, runDir) =>
          record.rec := record.rec.(endedAt := Some(now), exitStatus := exitStatus, signal := signal,
                                    resultText := Some(text), runDir := runDir);
          record.rec := record.rec.(
            status := if record.rec.cancelled then Cancelled else if isError then Failed else Succeeded);
        case Threw(text) =>
          record.rec := record.rec.(endedAt := Some(now), resultText := Some(text));
          record.rec := record.rec.(status := if record.rec.cancelled then Cancelled else Failed);
      }
      persisted := record.rec;
      assert persisted == Settled(before.runs[id], out, now);
      assert State().runs == before.runs[id := persisted];
      SameOrdered(before, id, persisted, before.index);
      EvictCompleted(evictAt);
    }

    method Evict(id: RunId)
      requires id in runs && runs[id].runId == id
      modifies this
      ensures State() == Drop(old(State()), {id})
      ensures runs == old(runs) - {id}
    {
      var record := runs[id];
      ghost var before := State();
      runs := runs - {record.runId};
      if record.rec.key.Some? {
        var k := record.rec.key.value;
        if k in idempotencyIndex && idempotencyIndex[k] == record.runId {
          idempotencyIndex := idempotencyIndex - {k};
        }
      }
      assert State().runs == Drop(before, {id}).runs;
      assert State().index == Drop(before, {id}).index;
    }

    method EvictCompleted(now: Stamp)
      requires Valid()
      modifies this
      ensures Valid() && runs.Values <= old(runs.Values)
      ensures State() == ServeModel.Evict(cfg, old(State()), now)
    {
      EvictAged(now);
      EvictSurplus();
    }

    method EvictAged(now: Stamp)
      requires Valid()
      modifies this
      ensures Valid() && runs.Values <= old(runs.Values)
      ensures State() ==
              Drop(old(State()), set id | id in old(State()).runs && AgedOut(cfg, old(State()).runs[id], now))
    {
      ghost var before := State();
      ghost var gone: set<RunId> := {};
      var todo := runs.Keys;
      assert Drop(before, {}) == before;
      if cfg.retainAgeSec > 0 {
        while todo != {}
          invariant todo <= runs.Keys && runs == old(runs) - gone
          invariant State() == Drop(before, gone)
          invariant gone == set id | id in before.runs && id !in todo && AgedOut(cfg, before.runs[id], now)
          decreases todo
        {
          var id :| id in todo;
          var r := runs[id].rec;
          assert r == State().runs[id] == before.runs[id];
          if r.status.Terminal() && r.endedAt.Some? && r.endedAt.value.ms.Some? && now.ms.Some? {
            if r.endedAt.value.ms.value < now.ms.value - cfg.retainAgeSec * 1000 {
              DropMore(before, gone, id);
              Evict(id);
              gone := gone + {id};
            }
          }
          todo := todo - {id};
        }
      }
      assert gone == set id | id in before.runs && AgedOut(cfg, before.runs[id], now);
    }

    // The terminal runs, oldest first.
    method TerminalByOrder() returns (ids: seq<RunId>)
      requires Valid()
      ensures SortedIds(State().runs, ids) && Members(ids) == TerminalIds(State().runs)
    {
      ids := [];
      ghost var recs := State().runs;
      var todo := runs.Keys;
      while todo != {}
        invariant todo <= runs.Keys
        invariant SortedIds(recs, ids) && Members(ids) == TerminalIds(recs) - todo
        decreases todo
      {
        var id :| id in todo;
        assert recs[id] == runs[id].rec;
        if runs[id].rec.status.Terminal() {
          var at := 0;
          while at < |ids| && runs[ids[at]].rec.order < runs[id].rec.order
            invariant at <= |ids|
            invariant forall j | 0 <= j < at :: recs[ids[j]].order < recs[id].order
          {
            assert recs[ids[at]] == runs[ids[at]].rec;
            at := at + 1;
          }
          InsertSorted(recs, ids, at, id);
          ids := ids[..at] + [id] + ids[at..];
        }
        todo := todo - {id};
      }
    }

    method EvictSurplus()
      requires Valid()
      modifies this
      ensures Valid() && runs.Values <= old(runs.Values)
      ensures State() == Drop(old(State()), Surplus(cfg, old(State()).runs))
    {
      hide Ordered, Surplus, Members, SortedIds, TerminalIds;
      ghost var before := State();
      if cfg.retainRuns > 0 {
        var terminal := TerminalByOrder();
        EvictOldest(terminal);
        SurplusIsPrefix(cfg, before.runs, terminal);
      } else {
        NoSurplus(cfg, before.runs);
        assert Drop(before, {}) == before;
      }
      DropOrdered(before, Surplus(cfg, before.runs));
    }

    // All but the newest `retainRuns` of the terminal runs.
    method EvictOldest(terminal: seq<RunId>)
      requires Valid() && SortedIds(State().runs, terminal)
      modifies this
      ensures runs == old(runs) - Members(terminal[..Overflow(cfg, terminal)])
      ensures State() == Drop(old(State()), Members(terminal[..Overflow(cfg, terminal)]))
    {
      hide Ordered, Drop, Members, SortedIds;
      ghost var before := State();
      NoneDropped(before, terminal);
      assert before.runs.Keys == runs.Keys;
      var i := 0;
      while i < |terminal| - cfg.retainRuns
        invariant 0 <= i <= Overflow(cfg, terminal)
        invariant State() == Drop(before, Members(terminal[..i]))
        invariant runs == old(runs) - Members(terminal[..i])
      {
        NextOldest(before, terminal, i);
        Evict(terminal[i]);
        i := i + 1;
      }
    }
  }

  function Overflow(cfg: Config, ids: seq<RunId>): (n: nat)
    ensures n <= |ids|
  {
    if |ids| <= cfg.retainRuns then 0 else |ids| - cfg.retainRuns
  }

  lemma NoneDropped(st: ServeModel.State, ids: seq<RunId>)
    ensures Members(ids[..0]) == {} && Drop(st, {}) == st
  {
  }

  lemma NextOldest(st: ServeModel.State, ids: seq<RunId>, i: nat)
    requires SortedIds(st.runs, ids) && i < |ids|
    ensures ids[i] in st.runs && ids[i] !in Members(ids[..i])
    ensures Members(ids[..i + 1]) == Members(ids[..i]) + {ids[i]}
    ensures Drop(Drop(st, Members(ids[..i])), {ids[i]}) == Drop(st, Members(ids[..i + 1]))
  {
    var gone := Members(ids[..i]);
    assert ids[..i + 1] == ids[..i] + [ids[i]];
    DropMore(st, gone, ids[i]);
  }

  function Members(ids: seq<RunId>): set<RunId> {
    set id | id in ids
  }

  // Distinct resident ids in ascending order of creation.
  predicate SortedIds(recs: map<RunId, Rec>, ids: seq<RunId>) {
    && (forall i | 0 <= i < |ids| :: ids[i] in recs)
    && (forall i, j | 0 <= i < j < |ids| :: recs[ids[i]].order < recs[ids[j]].order)
  }

  lemma InsertSorted(recs: map<RunId, Rec>, ids: seq<RunId>, at: nat, id: RunId)
    requires SortedIds(recs, ids) && at <= |ids| && id in recs
    requires forall j | 0 <= j < at :: recs[ids[j]].order < recs[id].order
    requires at < |ids| ==> recs[id].order < recs[ids[at]].order
    ensures SortedIds(recs, ids[..at] + [id] + ids[at..])
    ensures Members(ids[..at] + [id] + ids[at..]) == Members(ids) + {id}
  {
    hide Members, SortedIds;
    assert ids == ids[..at] + ids[at..];
    InsertMembers(ids[..at], id, ids[at..]);
    InsertOrders(recs, ids, at, id, ids[..at] + [id] + ids[at..]);
  }

  lemma InsertMembers(a: seq<RunId>, id: RunId, b: seq<RunId>)
    ensures Members(a + [id] + b) == Members(a + b) + {id}
  {
  }

  lemma InsertOrders(recs: map<RunId, Rec>, ids: seq<RunId>, at: nat, id: RunId, r: seq<RunId>)
    requires SortedIds(recs, ids) && at <= |ids| && id in recs
    requires forall j | 0 <= j < at :: recs[ids[j]].order < recs[id].order
    requires at < |ids| ==> recs[id].order < recs[ids[at]].order
    requires r == ids[..at] + [id] + ids[at..]
    ensures SortedIds(recs, r)
  {
    forall i | 0 <= i < |r| ensures r[i] in recs {
      assert r[i] == if i < at then ids[i] else if i == at then id else ids[i - 1];
    }
    forall i, j | 0 <= i < j < |r| ensures recs[r[i]].order < recs[r[j]].order {
      assert r[i] == if i < at then ids[i] else if i == at then id else ids[i - 1];
      assert r[j] == if j < at then ids[j] else if j == at then id else ids[j - 1];
      if i == at { assert recs[ids[at]].order <= recs[ids[j - 1]].order; }
    }
  }

  lemma NoSurplus(cfg: Config, recs: map<RunId, Rec>)
    requires cfg.retainRuns == 0
    ensures Surplus(cfg, recs) == {}
  {
  }

  lemma SurplusIsPrefix(cfg: Config, recs: map<RunId, Rec>, ids: seq<RunId>)
    requires cfg.retainRuns > 0 && SortedIds(recs, ids) && Members(ids) == TerminalIds(recs)
    ensures Surplus(cfg, recs) == Members(ids[..Overflow(cfg, ids)])
  {
    var n := Overflow(cfg, ids);
    forall i | 0 <= i < |ids| ensures |Newer(recs, ids[i])| == |ids| - 1 - i {
      NewerIsSuffix(recs, ids, i);
    }
    forall id | id in Surplus(cfg, recs) ensures id in ids[..n] {
      assert id in TerminalIds(recs) && id in Members(ids);
      var i :| 0 <= i < |ids| && ids[i] == id;
      assert ids[..n][i] == id;
    }
    forall id | id in ids[..n] ensures id in Surplus(cfg, recs) {
      var i :| 0 <= i < n && ids[..n][i] == id;
      assert ids[i] in Members(ids);
      assert id in TerminalIds(recs);
    }
  }

  lemma NewerIsSuffix(recs: map<RunId, Rec>, ids: seq<RunId>, i: nat)
    requires SortedIds(recs, ids) && Members(ids) == TerminalIds(recs) && i < |ids|
    ensures |Newer(recs, ids[i])| == |ids| - 1 - i
  {
    var rest := ids[i + 1..];
    assert Newer(recs, ids[i]) == Members(rest) by {
      forall id | id in Newer(recs, ids[i]) ensures id in rest {
        assert id in TerminalIds(recs) && id in Members(ids);
        var j :| 0 <= j < |ids| && ids[j] == id;
        assert j > i && rest[j - i - 1] == id;
      }
      forall id | id in rest ensures id in Newer(recs, ids[i]) {
        var j :| 0 <= j < |rest| && rest[j] == id;
        assert ids[i + 1 + j] == id && id in Members(ids);
        assert id in TerminalIds(recs);
      }
    }
    DistinctSize(rest);
  }

  lemma {:induction false} DistinctSize(s: seq<RunId>)
    requires forall i, j | 0 <= i < j < |s| :: s[i] != s[j]
    ensures |Members(s)| == |s|
  {
    if s != [] {
      var n := |s| - 1;
      DistinctSize(s[..n]);
      assert s == s[..n] + [s[n]];
      assert Members(s) == Members(s[..n]) + {s[n]};
    }
  }
}
