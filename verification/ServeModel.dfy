// The run registry of `jaiph serve` as a state machine: src/cli/serve/handler.ts.
// Every piece of the handler that runs between two awaits is one step.
module ServeModel {

  datatype Option<+T> = None | Some(value: T)

  type RunId = string
  type Key = string
  type Hash = string

  // A timestamp with the milliseconds `Date.parse` reads from it, if it reads any.
  datatype Stamp = Stamp(iso: string, ms: Option<int>)

  datatype Status = Running | Succeeded | Failed | Cancelled | Interrupted {
    predicate Terminal() { !Running? }
  }

  // `handle` says that the executor registered its terminator and `kills` how often the
  // registered terminator was called.
  datatype Rec = Rec(
    workflow: string, status: Status, startedAt: Stamp, endedAt: Option<Stamp>,
    exitStatus: Option<int>, signal: Option<string>, resultText: Option<string>, runDir: Option<string>,
    cancelled: bool, handle: bool, kills: nat, order: nat,
    key: Option<Key>, principal: Option<string>, correlation: Option<string>, argsHash: Option<Hash>)

  datatype Config = Config(maxConcurrent: nat, retainRuns: nat, retainAgeSec: nat)

  datatype State = State(runs: map<RunId, Rec>, index: map<Key, RunId>, next: nat)

  // What the executor's promise settles with.
  datatype Outcome =
    | Returned(isError: bool, exitStatus: Option<int>, signal: Option<string>, text: string, runDir: Option<string>)
    | Threw(text: string)

  // The idempotency header of a create request, already scoped to principal and workflow.
  datatype Keyed = Keyed(key: Key, hash: Hash)

  datatype CreateReply = Existing(id: RunId) | Conflict | AtCapacity | Started(id: RunId)
  datatype CancelReply = NotFound | AlreadyTerminal | Accepted

  // ----- seeding from persisted records -----

  function SeedOne(st: State, id: RunId, r: Rec): State {
    State(st.runs[id := r.(order := st.next)],
          if r.key.Some? then st.index[r.key.value := id] else st.index,
          st.next + 1)
  }

  function Seed(initial: seq<(RunId, Rec)>): State {
    if initial == [] then State(map[], map[], 0)
    else
      var last := initial[|initial| - 1];
      SeedOne(Seed(initial[..|initial| - 1]), last.0, last.1)
  }

  // ----- creating runs -----

  function RunningIds(runs: map<RunId, Rec>): set<RunId> {
    set id | id in runs && runs[id].status.Running?
  }

  function TerminalIds(runs: map<RunId, Rec>): set<RunId> {
    set id | id in runs && runs[id].status.Terminal()
  }

  function FreshRec(st: State, workflow: string, principal: string, correlation: Option<string>, now: Stamp): Rec {
    Rec(workflow, Running, now, None, None, None, None, None, false, false, 0, st.next,
        None, Some(principal), correlation, None)
  }

  function StartRun(cfg: Config, st: State, workflow: string, principal: string, correlation: Option<string>,
                    id: RunId, now: Stamp): (State, CreateReply)
  {
    if |RunningIds(st.runs)| >= cfg.maxConcurrent then (st, AtCapacity)
    else
      (State(st.runs[id := FreshRec(st, workflow, principal, correlation, now)], st.index, st.next + 1), Started(id))
  }

  function Create(cfg: Config, st: State, workflow: string, principal: string, correlation: Option<string>,
                  keyed: Option<Keyed>, id: RunId, now: Stamp): (State, CreateReply)
  {
    if keyed.None? then StartRun(cfg, st, workflow, principal, correlation, id, now)
    else
      var k := keyed.value.key;
      if k in st.index && st.index[k] in st.runs then
        if st.runs[st.index[k]].argsHash != Some(keyed.value.hash) then (st, Conflict)
        else (st, Existing(st.index[k]))
      else
        var clean := st.(index := st.index - {k});
        var (started, reply) := StartRun(cfg, clean, workflow, principal, correlation, id, now);
        if reply.AtCapacity? then (clean, AtCapacity)
        else
          var r := started.runs[id].(key := Some(k), argsHash := Some(keyed.value.hash));
          (started.(runs := started.runs[id := r], index := started.index[k := id]), reply)
  }

  // ----- cancelling -----

  function MarkCancelled(r: Rec): Rec {
    r.(cancelled := true, kills := if r.handle then r.kills + 1 else r.kills)
  }

  function Registered(r: Rec): Rec {
    r.(handle := true, kills := if r.cancelled then 1 else 0)
  }

  predicate Visible(r: Rec, subject: Option<string>) {
    subject.None? || r.principal == subject
  }

  function RegisterHandle(st: State, id: RunId): State {
    if id in st.runs then st.(runs := st.runs[id := Registered(st.runs[id])]) else st
  }

  // `subject` is none for a principal that sees every run.
  function CancelRun(st: State, id: RunId, subject: Option<string>): (State, CancelReply) {
    if id !in st.runs || !Visible(st.runs[id], subject) then (st, NotFound)
    else if st.runs[id].status.Terminal() then (st, AlreadyTerminal)
    else (st.(runs := st.runs[id := MarkCancelled(st.runs[id])]), Accepted)
  }

  // The wrapped terminator, handed out when the executor registers: no status check.
  function CancelByHandle(st: State, id: RunId): State {
    if id in st.runs && st.runs[id].handle then st.(runs := st.runs[id := MarkCancelled(st.runs[id])]) else st
  }

  function CancelAll(st: State): State {
    st.(runs := map id | id in st.runs ::
          if st.runs[id].status.Running? then MarkCancelled(st.runs[id]) else st.runs[id])
  }

  // ----- settling and eviction -----

  function Settled(r: Rec, out: Outcome, now: Stamp): Rec {
    match out
    case Returned(isError, exitStatus, signal, text, runDir) =>
      r.(endedAt := Some(now), exitStatus := exitStatus, signal := signal, resultText := Some(text), runDir := runDir,
         status := if r.cancelled then Cancelled else if isError then Failed else Succeeded)
    case Threw(text) =>
      r.(endedAt := Some(now), resultText := Some(text), status := if r.cancelled then Cancelled else Failed)
  }

  predicate AgedOut(cfg: Config, r: Rec, now: Stamp) {
    && cfg.retainAgeSec > 0 && r.status.Terminal()
    && r.endedAt.Some? && r.endedAt.value.ms.Some? && now.ms.Some?
    && r.endedAt.value.ms.value < now.ms.value - cfg.retainAgeSec * 1000
  }

  function Newer(runs: map<RunId, Rec>, id: RunId): set<RunId>
    requires id in runs
  {
    set j | j in runs && runs[j].status.Terminal() && runs[j].order > runs[id].order
  }

  // The terminal runs with at least `retainRuns` newer terminal runs beside them.
  function Surplus(cfg: Config, runs: map<RunId, Rec>): set<RunId> {
    if cfg.retainRuns == 0 then {}
    else set id | id in runs && runs[id].status.Terminal() && |Newer(runs, id)| >= cfg.retainRuns
  }

  // Remove runs together with the index entries that are theirs.
  function Drop(st: State, ids: set<RunId>): State {
    State(st.runs - ids,
          map k | k in st.index &&
            !(st.index[k] in ids && st.index[k] in st.runs && st.runs[st.index[k]].key == Some(k))
            :: st.index[k],
          st.next)
  }

  function Evict(cfg: Config, st: State, now: Stamp): State {
    var young := Drop(st, set id | id in st.runs && AgedOut(cfg, st.runs[id], now));
    Drop(young, Surplus(cfg, young.runs))
  }

  // The clock is read twice: at the end of the run, and after persisting it for eviction.
  function Settle(cfg: Config, st: State, id: RunId, out: Outcome, now: Stamp, evictAt: Stamp): State {
    if id !in st.runs then st
    else Evict(cfg, st.(runs := st.runs[id := Settled(st.runs[id], out, now)]), evictAt)
  }

  // ----- runs of the registry -----

  datatype Event =
    | ECreate(workflow: string, principal: string, correlation: Option<string>, keyed: Option<Keyed>, id: RunId,
              now: Stamp)
    | ERegister(id: RunId)
    | ECancel(id: RunId, subject: Option<string>)
    | EHandle(id: RunId)
    | ECancelAll
    | ESettle(id: RunId, out: Outcome, now: Stamp, evictAt: Stamp)

  // `used` holds every run id there has ever been.
  datatype System = System(st: State, used: set<RunId>)

  function Next(cfg: Config, s: System, e: Event): System {
    match e
    case ECreate(w, p, c, keyed, id, now) => System(Create(cfg, s.st, w, p, c, keyed, id, now).0, s.used + {id})
    case ERegister(id) => s.(st := RegisterHandle(s.st, id))
    case ECancel(id, subject) => s.(st := CancelRun(s.st, id, subject).0)
    case EHandle(id) => s.(st := CancelByHandle(s.st, id))
    case ECancelAll => s.(st := CancelAll(s.st))
    case ESettle(id, out, now, evictAt) => s.(st := Settle(cfg, s.st, id, out, now, evictAt))
  }

  // Run ids are fresh, and an executor settles a run it is still executing.
  predicate Enabled(s: System, e: Event) {
    match e
    case ECreate(_, _, _, _, id, _) => id !in s.used
    case ESettle(id, _, _, _) => id in s.st.runs && s.st.runs[id].status.Running?
    case _ => true
  }

  function At(cfg: Config, s: System, events: seq<Event>, i: nat): System
    requires i <= |events|
  {
    if i == 0 then s else Next(cfg, At(cfg, s, events, i - 1), events[i - 1])
  }

  predicate Valid(cfg: Config, s: System, events: seq<Event>) {
    forall i | 0 <= i < |events| :: Enabled(At(cfg, s, events, i), events[i])
  }

  // ----- initial systems -----

  predicate Startable(initial: seq<(RunId, Rec)>) {
    && (forall i, j | 0 <= i < j < |initial| :: initial[i].0 != initial[j].0)
    && (forall i | 0 <= i < |initial| :: initial[i].1.status.Terminal() && !initial[i].1.handle)
  }

  function Start(initial: seq<(RunId, Rec)>): System {
    System(Seed(initial), Seed(initial).runs.Keys)
  }
}
