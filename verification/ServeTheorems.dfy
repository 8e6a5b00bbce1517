// Safety of the run registry over whole runs.
module ServeTheorems {
  import opened ServeModel
  import opened ServeSafety

  // ----- what later steps leave alone -----

  predicate Continues(r: Rec, r': Rec) {
    && r'.key == r.key && r'.argsHash == r.argsHash && r'.order == r.order
    && r'.workflow == r.workflow && r'.principal == r.principal && r'.startedAt == r.startedAt
    && r'.correlation == r.correlation
    && (r.status.Terminal() ==>
          r'.status == r.status && r'.endedAt == r.endedAt && r'.resultText == r.resultText && r'.runDir == r.runDir &&
          r'.exitStatus == r.exitStatus && r'.signal == r.signal)
    && (r.cancelled ==> r'.cancelled)
    && (r.handle ==> r'.handle)
  }

  lemma DropRuns(st: State, ids: set<RunId>, id: RunId)
    ensures id in Drop(st, ids).runs <==> id in st.runs && id !in ids
    ensures id in Drop(st, ids).runs ==> Drop(st, ids).runs[id] == st.runs[id]
  {
  }

  lemma EvictRuns(cfg: Config, st: State, now: Stamp, id: RunId)
    ensures id in Evict(cfg, st, now).runs ==> id in st.runs && Evict(cfg, st, now).runs[id] == st.runs[id]
    ensures id in st.runs && st.runs[id].status.Running? ==> id in Evict(cfg, st, now).runs
  {
    var aged := set j | j in st.runs && AgedOut(cfg, st.runs[j], now);
    DropRuns(st, aged, id);
    DropRuns(Drop(st, aged), Surplus(cfg, Drop(st, aged).runs), id);
  }

  lemma CreateRuns(cfg: Config, st: State, e: Event, id: RunId)
    requires e.ECreate? && id != e.id
    ensures var after := Create(cfg, st, e.workflow, e.principal, e.correlation, e.keyed, e.id, e.now).0;
            (id in after.runs <==> id in st.runs) && (id in st.runs ==> after.runs[id] == st.runs[id])
  {
  }

  lemma NextKeeps(cfg: Config, s: System, e: Event, id: RunId)
    requires Enabled(s, e) && id in s.used
    ensures id in Next(cfg, s, e).used
    ensures id in Next(cfg, s, e).st.runs ==>
              id in s.st.runs && Continues(s.st.runs[id], Next(cfg, s, e).st.runs[id])
    ensures id in s.st.runs && s.st.runs[id].status.Running? ==> id in Next(cfg, s, e).st.runs || e.ESettle?
  {
    hide Evict, Create;
    match e
    case ECreate(_, _, _, _, _, _) => CreateRuns(cfg, s.st, e, id);
    case ESettle(a, out, now, evictAt) =>
      EvictRuns(cfg, s.st.(runs := s.st.runs[a := Settled(s.st.runs[a], out, now)]), evictAt, id);
    case _ =>
  }

  lemma ContinuesTrans(a: Rec, b: Rec, c: Rec)
    requires Continues(a, b) && Continues(b, c)
    ensures Continues(a, c)
  {
  }

  // A run's identity never changes, its terminal status never changes, and a run that has
  // left the registry does not come back.
  lemma {:induction false} Lifecycle(cfg: Config, s: System, events: seq<Event>, i: nat, j: nat, id: RunId)
    requires Valid(cfg, s, events) && i <= j <= |events| && id in At(cfg, s, events, i).used
    ensures var a, b := At(cfg, s, events, i), At(cfg, s, events, j);
            id in b.used && (id in b.st.runs ==> id in a.st.runs && Continues(a.st.runs[id], b.st.runs[id]))
    decreases j
  {
    hide Next;
    if i < j {
      Lifecycle(cfg, s, events, i, j - 1, id);
      var a, m := At(cfg, s, events, i), At(cfg, s, events, j - 1);
      NextKeeps(cfg, m, events[j - 1], id);
      var b := Next(cfg, m, events[j - 1]);
      if id in b.st.runs { ContinuesTrans(a.st.runs[id], m.st.runs[id], b.st.runs[id]); }
    }
  }

  // ----- idempotent creation -----

  function ReplyAt(cfg: Config, s: System, events: seq<Event>, i: nat): CreateReply
    requires i < |events| && events[i].ECreate?
  {
    var e := events[i];
    Create(cfg, At(cfg, s, events, i).st, e.workflow, e.principal, e.correlation, e.keyed, e.id, e.now).1
  }

  // The branch that drops an index entry whose run is gone is never taken.
  lemma NoStaleIndex(cfg: Config, initial: seq<(RunId, Rec)>, events: seq<Event>, i: nat, k: Key)
    requires Startable(initial) && Valid(cfg, Start(initial), events) && i <= |events|
    ensures var st := At(cfg, Start(initial), events, i).st;
            k in st.index ==> st.index[k] in st.runs && st.runs[st.index[k]].key == Some(k)
  {
    StartInv(cfg, initial);
    RunInv(cfg, |initial|, Start(initial), events, i);
  }

  // The index entry of a resident run is not touched by a step that leaves the run resident.
  lemma NextOwner(cfg: Config, base: nat, s: System, e: Event, k: Key)
    requires Inv(cfg, base, s) && Enabled(s, e)
    requires k in s.st.index && s.st.index[k] in Next(cfg, s, e).st.runs
    ensures k in Next(cfg, s, e).st.index && Next(cfg, s, e).st.index[k] == s.st.index[k]
  {
  }

  // A key stays with its run for as long as the run is resident, through any events, whether
  // this process started the run or loaded it.
  lemma {:induction false} KeyStays(cfg: Config, base: nat, s: System, events: seq<Event>, i: nat, j: nat, k: Key)
    requires Inv(cfg, base, s) && Valid(cfg, s, events) && i <= j <= |events|
    requires var a, b := At(cfg, s, events, i).st, At(cfg, s, events, j).st; k in a.index && a.index[k] in b.runs
    ensures var a, b := At(cfg, s, events, i).st, At(cfg, s, events, j).st; k in b.index && b.index[k] == a.index[k]
    decreases j
  {
    hide Next, Inv, Continues, Enabled;
    if i < j {
      var id := At(cfg, s, events, i).st.index[k];
      var m := At(cfg, s, events, j - 1);
      RunInv(cfg, base, s, events, i);
      RunInv(cfg, base, s, events, j - 1);
      OwnerIsUsed(cfg, base, At(cfg, s, events, i), k);
      Lifecycle(cfg, s, events, i, j - 1, id);
      NextKeeps(cfg, m, events[j - 1], id);
      KeyStays(cfg, base, s, events, i, j - 1, k);
      NextOwner(cfg, base, m, events[j - 1], k);
    }
  }

  lemma OwnerIsUsed(cfg: Config, base: nat, s: System, k: Key)
    requires Inv(cfg, base, s) && k in s.st.index
    ensures s.st.index[k] in s.used && s.st.index[k] in s.st.runs && s.st.runs[s.st.index[k]].key == Some(k)
  {
  }

  // Once a key belongs to a run, started by this process or loaded, every later create with
  // the key returns that run or conflicts, and changes nothing, for as long as it is resident.
  lemma CreateOnce(cfg: Config, initial: seq<(RunId, Rec)>, events: seq<Event>, i: nat, j: nat)
    requires Startable(initial) && Valid(cfg, Start(initial), events) && i <= j < |events|
    requires KeyedCreate(events, j) && events[j].keyed.value.key in At(cfg, Start(initial), events, i).st.index
    requires var a, b := At(cfg, Start(initial), events, i).st, At(cfg, Start(initial), events, j).st;
             a.index[events[j].keyed.value.key] in b.runs
    ensures var st := At(cfg, Start(initial), events, i).st;
            var id := st.index[events[j].keyed.value.key];
            id in st.runs &&
            ReplyAt(cfg, Start(initial), events, j) ==
              if st.runs[id].argsHash == Some(events[j].keyed.value.hash) then Existing(id) else Conflict
    ensures At(cfg, Start(initial), events, j + 1).st == At(cfg, Start(initial), events, j).st
  {
    hide Next, Inv, Startable;
    var s, k, base := Start(initial), events[j].keyed.value.key, |initial|;
    StartInv(cfg, initial);
    RunInv(cfg, base, s, events, i);
    RunInv(cfg, base, s, events, j);
    OwnerIsUsed(cfg, base, At(cfg, s, events, i), k);
    KeyStays(cfg, base, s, events, i, j, k);
    Lifecycle(cfg, s, events, i, j, At(cfg, s, events, i).st.index[k]);
    OwnerReplies(cfg, At(cfg, s, events, j), events[j]);
  }

  predicate KeyedCreate(events: seq<Event>, i: nat)
    requires i < |events|
  {
    events[i].ECreate? && events[i].keyed.Some?
  }

  lemma OwnerReplies(cfg: Config, s: System, e: Event)
    requires e.ECreate? && e.keyed.Some? && e.keyed.value.key in s.st.index
    requires s.st.index[e.keyed.value.key] in s.st.runs
    ensures var id := s.st.index[e.keyed.value.key];
            Create(cfg, s.st, e.workflow, e.principal, e.correlation, e.keyed, e.id, e.now).1 ==
            if s.st.runs[id].argsHash == Some(e.keyed.value.hash) then Existing(id) else Conflict
    ensures Next(cfg, s, e).st == s.st
  {
  }

  // A create with a key that starts a run gives it the key.
  lemma StartTakesKey(cfg: Config, s: System, e: Event)
    requires e.ECreate? && e.keyed.Some?
    requires Create(cfg, s.st, e.workflow, e.principal, e.correlation, e.keyed, e.id, e.now).1.Started?
    ensures var st := Next(cfg, s, e).st; e.keyed.value.key in st.index && st.index[e.keyed.value.key] == e.id
  {
  }

  // Of two creates that start runs under one key, the second comes after the first run left
  // the registry: the executor runs at most once per key while that run is resident.
  lemma StartedOnce(cfg: Config, initial: seq<(RunId, Rec)>, events: seq<Event>, i: nat, j: nat)
    requires Startable(initial) && Valid(cfg, Start(initial), events) && i < j < |events|
    requires KeyedCreate(events, i) && KeyedCreate(events, j)
    requires events[i].keyed.value.key == events[j].keyed.value.key
    requires ReplyAt(cfg, Start(initial), events, i).Started? && ReplyAt(cfg, Start(initial), events, j).Started?
    ensures events[i].id !in At(cfg, Start(initial), events, j).st.runs
  {
    hide Next, Startable, Create;
    StartTakesKey(cfg, At(cfg, Start(initial), events, i), events[i]);
    if events[i].id in At(cfg, Start(initial), events, j).st.runs {
      CreateOnce(cfg, initial, events, i + 1, j);
    }
  }

  // ----- when a create starts a run -----

  predicate Unkeyed(initial: seq<(RunId, Rec)>, k: Key, from: int) {
    forall i :: from <= i < |initial| && 0 <= i ==> initial[i].1.key != Some(k)
  }

  // The newest of the seeded runs that carry the key.
  predicate NewestKeyed(initial: seq<(RunId, Rec)>, k: Key, i: nat) {
    i < |initial| && initial[i].1.key == Some(k) && Unkeyed(initial, k, i + 1)
  }

  lemma {:induction false} SeedIndexLast(initial: seq<(RunId, Rec)>, k: Key, i: nat)
    requires NewestKeyed(initial, k, i)
    ensures k in Seed(initial).index && Seed(initial).index[k] == initial[i].0
    decreases |initial|
  {
    var n := |initial| - 1;
    if i < n {
      assert initial[n].1.key != Some(k);
      assert Unkeyed(initial[..n], k, i + 1);
      SeedIndexLast(initial[..n], k, i);
    }
  }

  lemma {:induction false} SeedIndexIsLast(initial: seq<(RunId, Rec)>, k: Key) returns (i: nat)
    requires k in Seed(initial).index
    ensures NewestKeyed(initial, k, i) && initial[i].0 == Seed(initial).index[k]
    decreases |initial|
  {
    var n := |initial| - 1;
    if initial[n].1.key == Some(k) {
      i := n;
    } else {
      i := SeedIndexIsLast(initial[..n], k);
      assert initial[..n][i] == initial[i];
      forall j | i + 1 <= j < |initial| ensures initial[j].1.key != Some(k) {
        if j < n { assert initial[..n][j] == initial[j]; }
      }
    }
  }

  // A run that answers for a key: one started since the start under the key, or the newest of
  // the loaded runs that carry it. An older loaded run with the key answers for nothing.
  predicate Answers(initial: seq<(RunId, Rec)>, r: Rec, k: Key) {
    r.key == Some(k) && (r.order >= |initial| || Unkeyed(initial, k, r.order + 1))
  }

  predicate Answered(initial: seq<(RunId, Rec)>, runs: map<RunId, Rec>, k: Key) {
    exists id | id in runs :: Answers(initial, runs[id], k)
  }

  // A run that appears in a step was created by it.
  lemma NewRun(cfg: Config, base: nat, s: System, e: Event, id: RunId)
    requires Inv(cfg, base, s) && Enabled(s, e) && id in Next(cfg, s, e).st.runs && id !in s.used
    ensures Next(cfg, s, e).st.runs[id].order >= base
  {
    if e.ECreate? && id != e.id { CreateRuns(cfg, s.st, e, id); }
  }

  lemma {:induction false} Origin(cfg: Config, initial: seq<(RunId, Rec)>, events: seq<Event>, j: nat, id: RunId)
    requires Startable(initial) && Valid(cfg, Start(initial), events) && j <= |events|
    requires id in At(cfg, Start(initial), events, j).st.runs
    ensures id in Seed(initial).runs || At(cfg, Start(initial), events, j).st.runs[id].order >= |initial|
    decreases j
  {
    hide Next, Inv, Startable, Enabled;
    if j > 0 {
      var s := Start(initial);
      var m, e := At(cfg, s, events, j - 1), events[j - 1];
      StartInv(cfg, initial);
      RunInv(cfg, |initial|, s, events, j - 1);
      assert Enabled(m, e);
      if id in m.used {
        NextKeeps(cfg, m, e, id);
        Origin(cfg, initial, events, j - 1, id);
      } else {
        NewRun(cfg, |initial|, m, e, id);
      }
    }
  }

  lemma EvictIndex(cfg: Config, st: State, now: Stamp, k: Key)
    ensures k in Evict(cfg, st, now).index ==> k in st.index && Evict(cfg, st, now).index[k] == st.index[k]
  {
    hide AgedOut, Surplus;
  }

  lemma CreateIndex(cfg: Config, base: nat, s: System, e: Event, k: Key)
    requires Inv(cfg, base, s) && e.ECreate? && k in Next(cfg, s, e).st.index
    ensures var t := Next(cfg, s, e).st;
            (k in s.st.index && t.index[k] == s.st.index[k]) ||
            (t.index[k] in t.runs && t.runs[t.index[k]].order >= base)
  {
    if Create(cfg, s.st, e.workflow, e.principal, e.correlation, e.keyed, e.id, e.now).1.Started? {
      StartedRec(cfg, s, e);
    }
  }

  // An entry that appears in a step belongs to a run the step started.
  lemma NextIndex(cfg: Config, base: nat, s: System, e: Event, k: Key)
    requires Inv(cfg, base, s) && Enabled(s, e) && k in Next(cfg, s, e).st.index
    ensures var t := Next(cfg, s, e).st;
            t.index[k] in t.runs &&
            ((k in s.st.index && t.index[k] == s.st.index[k]) || t.runs[t.index[k]].order >= base)
  {
    hide Inv, Evict, Create, Enabled;
    NextInv(cfg, base, s, e);
    OwnerIsUsed(cfg, base, Next(cfg, s, e), k);
    match e
    case ECreate(_, _, _, _, _, _) => CreateIndex(cfg, base, s, e, k);
    case ESettle(id, out, now, evictAt) =>
      if id in s.st.runs {
        EvictIndex(cfg, s.st.(runs := s.st.runs[id := Settled(s.st.runs[id], out, now)]), evictAt, k);
      }
    case _ =>
  }

  // An index entry is the seeded one or belongs to a run started since.
  lemma {:induction false} IndexOrigin(cfg: Config, initial: seq<(RunId, Rec)>, events: seq<Event>, j: nat, k: Key)
    requires Startable(initial) && Valid(cfg, Start(initial), events) && j <= |events|
    requires k in At(cfg, Start(initial), events, j).st.index
    ensures var st := At(cfg, Start(initial), events, j).st;
            st.index[k] in st.runs &&
            ((k in Seed(initial).index && st.index[k] == Seed(initial).index[k]) ||
             st.runs[st.index[k]].order >= |initial|)
    decreases j
  {
    hide Next, Inv, Startable, Enabled;
    var s := Start(initial);
    StartInv(cfg, initial);
    if j == 0 {
      OwnerIsUsed(cfg, |initial|, s, k);
    } else {
      var m, e := At(cfg, s, events, j - 1), events[j - 1];
      RunInv(cfg, |initial|, s, events, j - 1);
      assert Enabled(m, e);
      NextIndex(cfg, |initial|, m, e, k);
      if k in m.st.index {
        IndexOrigin(cfg, initial, events, j - 1, k);
        OwnerIsUsed(cfg, |initial|, m, k);
        NextKeeps(cfg, m, e, m.st.index[k]);
      }
    }
  }

  // A seeded run that is still resident is the run that was seeded.
  lemma SeededResident(cfg: Config, initial: seq<(RunId, Rec)>, events: seq<Event>, j: nat, id: RunId) returns (i: nat)
    requires Startable(initial) && Valid(cfg, Start(initial), events) && j <= |events|
    requires id in At(cfg, Start(initial), events, j).st.runs && id in Seed(initial).runs
    ensures var r := At(cfg, Start(initial), events, j).st.runs[id];
            i < |initial| && initial[i].0 == id && r.order == i && r.key == initial[i].1.key
  {
    hide Next;
    SeedRuns(initial);
    assert Seeded(initial, id);
    i :| 0 <= i < |initial| && initial[i].0 == id;
    Lifecycle(cfg, Start(initial), events, 0, j, id);
  }

  lemma IndexedAnswers(cfg: Config, initial: seq<(RunId, Rec)>, events: seq<Event>, j: nat, k: Key)
    requires Startable(initial) && Valid(cfg, Start(initial), events) && j <= |events|
    requires k in At(cfg, Start(initial), events, j).st.index
    ensures Answered(initial, At(cfg, Start(initial), events, j).st.runs, k)
  {
    hide Next, Inv, Startable, Seed;
    var st := At(cfg, Start(initial), events, j).st;
    var id := st.index[k];
    IndexOrigin(cfg, initial, events, j, k);
    NoStaleIndex(cfg, initial, events, j, k);
    if st.runs[id].order < |initial| {
      var last := SeedIndexIsLast(initial, k);
      IndexedIsSeeded(cfg, initial, k);
      var i := SeededResident(cfg, initial, events, j, id);
      SameId(initial, i, last);
    }
    assert Answers(initial, st.runs[id], k);
  }

  lemma IndexedIsSeeded(cfg: Config, initial: seq<(RunId, Rec)>, k: Key)
    requires Startable(initial) && k in Seed(initial).index
    ensures Seed(initial).index[k] in Seed(initial).runs
  {
    StartInv(cfg, initial);
  }

  lemma SameId(initial: seq<(RunId, Rec)>, i: nat, j: nat)
    requires Startable(initial) && i < |initial| && j < |initial| && initial[i].0 == initial[j].0
    ensures i == j
  {
  }

  lemma AnswersIndexed(cfg: Config, initial: seq<(RunId, Rec)>, events: seq<Event>, j: nat, k: Key)
    requires Startable(initial) && Valid(cfg, Start(initial), events) && j <= |events|
    requires Answered(initial, At(cfg, Start(initial), events, j).st.runs, k)
    ensures k in At(cfg, Start(initial), events, j).st.index
  {
    hide Next, Startable, Seed;
    var s := Start(initial);
    var st := At(cfg, s, events, j).st;
    var id :| id in st.runs && Answers(initial, st.runs[id], k);
    StartInv(cfg, initial);
    RunInv(cfg, |initial|, s, events, j);
    if st.runs[id].order < |initial| {
      Origin(cfg, initial, events, j, id);
      var i := SeededResident(cfg, initial, events, j, id);
      SeedIndexLast(initial, k, i);
      KeyStays(cfg, |initial|, s, events, 0, j, k);
    }
  }

  // A keyed create starts a run if and only if the cap leaves room and no resident run
  // answers for the key.
  lemma StartsExactlyWhen(cfg: Config, initial: seq<(RunId, Rec)>, events: seq<Event>, j: nat)
    requires Startable(initial) && Valid(cfg, Start(initial), events)
    requires j < |events| && KeyedCreate(events, j)
    ensures var runs := At(cfg, Start(initial), events, j).st.runs;
            ReplyAt(cfg, Start(initial), events, j) == Started(events[j].id) <==>
            !Answered(initial, runs, events[j].keyed.value.key) && |RunningIds(runs)| < cfg.maxConcurrent
  {
    hide Next, Startable, Answered, Inv;
    var s, k := Start(initial), events[j].keyed.value.key;
    StartInv(cfg, initial);
    RunInv(cfg, |initial|, s, events, j);
    if k in At(cfg, s, events, j).st.index { IndexedAnswers(cfg, initial, events, j, k); }
    if Answered(initial, At(cfg, s, events, j).st.runs, k) { AnswersIndexed(cfg, initial, events, j, k); }
    CreateIsFresh(cfg, s, events, j);
    StartsWhenFree(cfg, |initial|, At(cfg, s, events, j), events[j]);
  }

  lemma CreateIsFresh(cfg: Config, s: System, events: seq<Event>, j: nat)
    requires Valid(cfg, s, events) && j < |events| && events[j].ECreate?
    ensures events[j].id !in At(cfg, s, events, j).used
  {
    hide At;
    assert Enabled(At(cfg, s, events, j), events[j]);
  }

  lemma StartsWhenFree(cfg: Config, base: nat, s: System, e: Event)
    requires Inv(cfg, base, s) && e.ECreate? && e.keyed.Some? && e.id !in s.used
    ensures Create(cfg, s.st, e.workflow, e.principal, e.correlation, e.keyed, e.id, e.now).1 == Started(e.id) <==>
            e.keyed.value.key !in s.st.index && |RunningIds(s.st.runs)| < cfg.maxConcurrent
  {
  }

  lemma StartedLater(cfg: Config, initial: seq<(RunId, Rec)>, events: seq<Event>, i: nat)
    requires Startable(initial) && Valid(cfg, Start(initial), events) && i < |events|
    requires events[i].ECreate? && ReplyAt(cfg, Start(initial), events, i) == Started(events[i].id)
    ensures var after := At(cfg, Start(initial), events, i + 1);
            && events[i].id in after.used && events[i].id in after.st.runs
            && CreatedBy(after.st.runs[events[i].id], events[i])
            && after.st.runs[events[i].id].order >= |initial|
  {
    hide Next;
    StartInv(cfg, initial);
    RunInv(cfg, |initial|, Start(initial), events, i);
    StartedRec(cfg, At(cfg, Start(initial), events, i), events[i]);
  }

  predicate CreatedBy(r: Rec, e: Event)
    requires e.ECreate?
  {
    && r.status.Running? && !r.cancelled && !r.handle
    && r.key == (if e.keyed.Some? then Some(e.keyed.value.key) else None)
    && r.argsHash == (if e.keyed.Some? then Some(e.keyed.value.hash) else None)
    && r.workflow == e.workflow && r.principal == Some(e.principal) && r.correlation == e.correlation
    && r.startedAt == e.now && Unended(r)
  }

  // Nothing is recorded yet of how the run ended.
  predicate Unended(r: Rec) {
    r.endedAt.None? && r.exitStatus.None? && r.signal.None? && r.resultText.None? && r.runDir.None?
  }

  // The record a successful create leaves behind.
  lemma StartedRec(cfg: Config, s: System, e: Event)
    requires e.ECreate? && Create(cfg, s.st, e.workflow, e.principal, e.correlation, e.keyed, e.id, e.now).1.Started?
    ensures var after := Next(cfg, s, e);
            && e.id in after.used && e.id in after.st.runs
            && CreatedBy(after.st.runs[e.id], e) && after.st.runs[e.id].order == s.st.next
  {
  }

  // ----- cancellation -----

  // Event `e` sets the cancel flag of run `id`.
  predicate Cancels(s: System, e: Event, id: RunId)
    requires id in s.st.runs
  {
    match e
    case ECancel(a, subject) =>
      a == id && s.st.runs[id].status.Running? &&
      (subject.Some? ==> s.st.runs[id].principal == Some(subject.value))
    case EHandle(a) => a == id && s.st.runs[id].handle
    case ECancelAll => s.st.runs[id].status.Running?
    case _ => false
  }

  lemma NextCancelled(cfg: Config, s: System, e: Event, id: RunId)
    requires Enabled(s, e) && id in s.used && id in s.st.runs && id in Next(cfg, s, e).st.runs
    ensures Next(cfg, s, e).st.runs[id].cancelled <==> s.st.runs[id].cancelled || Cancels(s, e, id)
  {
    match e
    case ECreate(_, _, _, _, _, _) => CreateRuns(cfg, s.st, e, id);
    case ESettle(a, out, now, evictAt) =>
      EvictRuns(cfg, s.st.(runs := s.st.runs[a := Settled(s.st.runs[a], out, now)]), evictAt, id);
    case _ =>
  }

  predicate CancelledBetween(cfg: Config, s: System, events: seq<Event>, i: nat, j: nat, id: RunId)
    requires j <= |events|
  {
    exists m | i <= m < j :: id in At(cfg, s, events, m).st.runs && Cancels(At(cfg, s, events, m), events[m], id)
  }

  lemma {:induction false} FlagHistory(cfg: Config, s: System, events: seq<Event>, i: nat, j: nat, id: RunId)
    requires Valid(cfg, s, events) && i <= j <= |events| && id in At(cfg, s, events, i).used
    requires id in At(cfg, s, events, i).st.runs && id in At(cfg, s, events, j).st.runs
    ensures At(cfg, s, events, j).st.runs[id].cancelled <==>
            At(cfg, s, events, i).st.runs[id].cancelled || CancelledBetween(cfg, s, events, i, j, id)
    decreases j
  {
    hide Next;
    hide Cancels;
    hide Continues;
    if i < j {
      var m := At(cfg, s, events, j - 1);
      Lifecycle(cfg, s, events, i, j - 1, id);
      NextKeeps(cfg, m, events[j - 1], id);
      FlagHistory(cfg, s, events, i, j - 1, id);
      NextCancelled(cfg, m, events[j - 1], id);
      if CancelledBetween(cfg, s, events, i, j, id) {
        var n :| i <= n < j && id in At(cfg, s, events, n).st.runs && Cancels(At(cfg, s, events, n), events[n], id);
        assert n == j - 1 || CancelledBetween(cfg, s, events, i, j - 1, id);
      }
    }
  }

  // A run that settles ends `cancelled` exactly when some cancel reached it before.
  lemma EndsCancelled(cfg: Config, initial: seq<(RunId, Rec)>, events: seq<Event>, i: nat, j: nat)
    requires Startable(initial) && Valid(cfg, Start(initial), events) && i < j < |events|
    requires events[i].ECreate? && ReplyAt(cfg, Start(initial), events, i) == Started(events[i].id)
    requires events[j].ESettle? && events[j].id == events[i].id
    ensures var id, r := events[i].id, At(cfg, Start(initial), events, j).st.runs[events[j].id];
            && r.status.Running?
            && (Settled(r, events[j].out, events[j].now).status == Cancelled <==>
                CancelledBetween(cfg, Start(initial), events, i + 1, j, id))
  {
    hide *;
    var s, id := Start(initial), events[i].id;
    SettlesRunning(cfg, s, events, j);
    StartedLater(cfg, initial, events, i);
    FlagHistory(cfg, s, events, i + 1, j, id);
    CreatedUncancelled(At(cfg, s, events, i + 1).st.runs[id], events[i]);
    SettledStatus(At(cfg, s, events, j).st.runs[id], events[j].out, events[j].now);
  }

  lemma SettlesRunning(cfg: Config, s: System, events: seq<Event>, j: nat)
    requires Valid(cfg, s, events) && j < |events| && events[j].ESettle?
    ensures var runs := At(cfg, s, events, j).st.runs; events[j].id in runs && runs[events[j].id].status.Running?
  {
    hide At;
    assert Enabled(At(cfg, s, events, j), events[j]);
  }

  lemma CreatedUncancelled(r: Rec, e: Event)
    requires e.ECreate? && CreatedBy(r, e)
    ensures !r.cancelled && !r.handle
  {
  }

  lemma SettledStatus(r: Rec, out: Outcome, now: Stamp)
    ensures Settled(r, out, now).status == Cancelled <==> r.cancelled
  {
  }

  lemma ResidentIsUsed(cfg: Config, initial: seq<(RunId, Rec)>, events: seq<Event>, i: nat, id: RunId)
    requires Startable(initial) && Valid(cfg, Start(initial), events) && i <= |events|
    requires id in At(cfg, Start(initial), events, i).st.runs
    ensures id in At(cfg, Start(initial), events, i).used
  {
    hide Next;
    StartInv(cfg, initial);
    RunInv(cfg, |initial|, Start(initial), events, i);
  }

  lemma RegisterDelivers(cfg: Config, s: System, id: RunId)
    requires id in s.st.runs && s.st.runs[id].cancelled
    ensures var r := Next(cfg, s, ERegister(id)).st.runs[id]; r.handle && r.kills > 0
  {
  }

  // A cancel that came before the terminator was registered reaches it on registration.
  lemma CancelIsDelivered(cfg: Config, initial: seq<(RunId, Rec)>, events: seq<Event>, m: nat, n: nat, id: RunId)
    requires Startable(initial) && Valid(cfg, Start(initial), events) && m < n < |events|
    requires id in At(cfg, Start(initial), events, m).st.runs
    requires Cancels(At(cfg, Start(initial), events, m), events[m], id)
    requires events[n] == ERegister(id) && id in At(cfg, Start(initial), events, n).st.runs
    ensures var r := At(cfg, Start(initial), events, n + 1).st.runs[id]; r.handle && r.kills > 0
  {
    var s := Start(initial);
    hide Next;
    hide Cancels;
    hide Startable;
    ResidentIsUsed(cfg, initial, events, m, id);
    Lifecycle(cfg, s, events, m, n, id);
    FlagHistory(cfg, s, events, m, n, id);
    assert CancelledBetween(cfg, s, events, m, n, id);
    RegisterDelivers(cfg, At(cfg, s, events, n), id);
  }

  // In every reachable state a registered terminator was called if and only if the run is
  // marked cancelled.
  lemma KilledExactlyWhenCancelled(cfg: Config, initial: seq<(RunId, Rec)>, events: seq<Event>, i: nat, id: RunId)
    requires Startable(initial) && Valid(cfg, Start(initial), events) && i <= |events|
    requires id in At(cfg, Start(initial), events, i).st.runs
    ensures var r := At(cfg, Start(initial), events, i).st.runs[id]; r.handle ==> (r.kills > 0 <==> r.cancelled)
  {
    StartInv(cfg, initial);
    RunInv(cfg, |initial|, Start(initial), events, i);
  }

  // ----- the terminator -----

  predicate RegisteredBetween(events: seq<Event>, i: nat, j: nat, id: RunId)
    requires j <= |events|
  {
    exists m :: i <= m < j && events[m] == ERegister(id)
  }

  lemma NextHandle(cfg: Config, s: System, e: Event, id: RunId)
    requires Enabled(s, e) && id in s.used && id in s.st.runs && id in Next(cfg, s, e).st.runs
    ensures Next(cfg, s, e).st.runs[id].handle <==> s.st.runs[id].handle || e == ERegister(id)
  {
    hide Evict, Create;
    match e
    case ECreate(_, _, _, _, _, _) => CreateRuns(cfg, s.st, e, id);
    case ESettle(a, out, now, evictAt) =>
      EvictRuns(cfg, s.st.(runs := s.st.runs[a := Settled(s.st.runs[a], out, now)]), evictAt, id);
    case _ =>
  }

  lemma {:induction false} HandleHistory(cfg: Config, s: System, events: seq<Event>, i: nat, j: nat, id: RunId)
    requires Valid(cfg, s, events) && i <= j <= |events| && id in At(cfg, s, events, i).used
    requires id in At(cfg, s, events, i).st.runs && id in At(cfg, s, events, j).st.runs
    ensures At(cfg, s, events, j).st.runs[id].handle <==>
            At(cfg, s, events, i).st.runs[id].handle || RegisteredBetween(events, i, j, id)
    decreases j
  {
    hide Next;
    hide Continues;
    if i < j {
      var m := At(cfg, s, events, j - 1);
      Lifecycle(cfg, s, events, i, j - 1, id);
      NextKeeps(cfg, m, events[j - 1], id);
      HandleHistory(cfg, s, events, i, j - 1, id);
      NextHandle(cfg, m, events[j - 1], id);
      if RegisteredBetween(events, i, j, id) {
        var n :| i <= n < j && events[n] == ERegister(id);
        assert n == j - 1 || RegisteredBetween(events, i, j - 1, id);
      }
    }
  }

  // The terminator of a run this process started is there exactly when it was registered, and
  // was called exactly when a cancel reached the run, whichever came first.
  lemma TerminatorCalled(cfg: Config, initial: seq<(RunId, Rec)>, events: seq<Event>, i: nat, j: nat)
    requires Startable(initial) && Valid(cfg, Start(initial), events) && i < j <= |events|
    requires events[i].ECreate? && ReplyAt(cfg, Start(initial), events, i) == Started(events[i].id)
    requires events[i].id in At(cfg, Start(initial), events, j).st.runs
    ensures var id := events[i].id;
            var r := At(cfg, Start(initial), events, j).st.runs[id];
            (r.handle <==> RegisteredBetween(events, i + 1, j, id)) &&
            (r.handle ==> (r.kills > 0 <==> CancelledBetween(cfg, Start(initial), events, i + 1, j, id)))
  {
    hide *;
    var s, id := Start(initial), events[i].id;
    StartedLater(cfg, initial, events, i);
    CreatedUncancelled(At(cfg, s, events, i + 1).st.runs[id], events[i]);
    FlagHistory(cfg, s, events, i + 1, j, id);
    HandleHistory(cfg, s, events, i + 1, j, id);
    KilledExactlyWhenCancelled(cfg, initial, events, j, id);
  }
}
