// What is recorded of a run when it ends, and who may cancel it.
module ServeOutcomes {
  import opened ServeModel
  import opened ServeSafety
  import opened ServeTheorems

  // ----- the end of a run -----

  // The record of a run that ended: `cancelled` before all else, then by what came back.
  predicate Records(r: Rec, cancelled: bool, out: Outcome, now: Stamp) {
    && r.status == (if cancelled then Cancelled else if out.Threw? || out.isError then Failed else Succeeded)
    && r.endedAt == Some(now) && r.resultText == Some(out.text)
    && r.exitStatus == (if out.Returned? then out.exitStatus else None)
    && r.signal == (if out.Returned? then out.signal else None)
    && r.runDir == (if out.Returned? then out.runDir else None)
  }

  // The record still says what the run was created with.
  predicate CreatedFor(r: Rec, e: Event)
    requires e.ECreate?
  {
    && r.workflow == e.workflow && r.principal == Some(e.principal) && r.correlation == e.correlation
    && r.startedAt == e.now
    && r.key == (if e.keyed.Some? then Some(e.keyed.value.key) else None)
    && r.argsHash == (if e.keyed.Some? then Some(e.keyed.value.hash) else None)
  }

  lemma NextUnended(cfg: Config, s: System, e: Event, id: RunId)
    requires Enabled(s, e) && id in s.used && id in s.st.runs && id in Next(cfg, s, e).st.runs
    requires Next(cfg, s, e).st.runs[id].status.Running?
    ensures Unended(Next(cfg, s, e).st.runs[id]) <==> Unended(s.st.runs[id])
  {
    hide Create, Evict;
    match e
    case ECreate(_, _, _, _, _, _) => CreateRuns(cfg, s.st, e, id);
    case ESettle(a, out, now, evictAt) =>
      EvictRuns(cfg, s.st.(runs := s.st.runs[a := Settled(s.st.runs[a], out, now)]), evictAt, id);
    case _ =>
  }

  lemma {:induction false} StaysUnended(cfg: Config, s: System, events: seq<Event>, i: nat, j: nat, id: RunId)
    requires Valid(cfg, s, events) && i <= j <= |events| && id in At(cfg, s, events, i).used
    requires id in At(cfg, s, events, i).st.runs && Unended(At(cfg, s, events, i).st.runs[id])
    requires id in At(cfg, s, events, j).st.runs && At(cfg, s, events, j).st.runs[id].status.Running?
    ensures Unended(At(cfg, s, events, j).st.runs[id])
    decreases j
  {
    hide Next, Unended, Enabled;
    if i < j {
      var m := At(cfg, s, events, j - 1);
      assert Enabled(m, events[j - 1]);
      Lifecycle(cfg, s, events, i, j - 1, id);
      NextKeeps(cfg, m, events[j - 1], id);
      StaysUnended(cfg, s, events, i, j - 1, id);
      NextUnended(cfg, m, events[j - 1], id);
    }
  }

  lemma SettledRecords(r: Rec, out: Outcome, now: Stamp)
    requires Unended(r)
    ensures Records(Settled(r, out, now), r.cancelled, out, now)
  {
  }

  lemma NextSettled(cfg: Config, s: System, e: Event)
    requires e.ESettle? && e.id in s.st.runs
    ensures e.id in Next(cfg, s, e).st.runs ==>
              Next(cfg, s, e).st.runs[e.id] == Settled(s.st.runs[e.id], e.out, e.now)
  {
    EvictRuns(cfg, s.st.(runs := s.st.runs[e.id := Settled(s.st.runs[e.id], e.out, e.now)]), e.evictAt, e.id);
  }

  // The run event `i` started, at its settlement: running, marked as cancelled exactly when a
  // cancel reached it, and nothing recorded yet of its end.
  lemma BeforeSettling(cfg: Config, initial: seq<(RunId, Rec)>, events: seq<Event>, i: nat, j: nat)
    requires Startable(initial) && Valid(cfg, Start(initial), events) && i < j < |events|
    requires events[i].ECreate? && ReplyAt(cfg, Start(initial), events, i) == Started(events[i].id)
    requires events[j].ESettle? && events[j].id == events[i].id
    ensures var id, runs := events[i].id, At(cfg, Start(initial), events, j).st.runs;
            id in runs && Unended(runs[id]) && CreatedFor(runs[id], events[i]) &&
            (runs[id].cancelled <==> CancelledBetween(cfg, Start(initial), events, i + 1, j, id))
  {
    hide Next, Startable, Cancels, Create, At, Valid, Enabled, ReplyAt, CancelledBetween;
    var s, id := Start(initial), events[i].id;
    SettlesRunning(cfg, s, events, j);
    StartedLater(cfg, initial, events, i);
    Lifecycle(cfg, s, events, i + 1, j, id);
    FlagHistory(cfg, s, events, i + 1, j, id);
    StaysUnended(cfg, s, events, i + 1, j, id);
  }

  // How every run this process started ends: if it is still resident after its settlement,
  // the record says `cancelled` exactly when a cancel reached it, else whether it failed, and
  // what the executor returned; and it still says what the run was created with.
  lemma EndsAs(cfg: Config, initial: seq<(RunId, Rec)>, events: seq<Event>, i: nat, j: nat)
    requires Startable(initial) && Valid(cfg, Start(initial), events) && i < j < |events|
    requires events[i].ECreate? && ReplyAt(cfg, Start(initial), events, i) == Started(events[i].id)
    requires events[j].ESettle? && events[j].id == events[i].id
    ensures var id, runs := events[i].id, At(cfg, Start(initial), events, j + 1).st.runs;
            id in runs ==>
              CreatedFor(runs[id], events[i]) &&
              Records(runs[id], CancelledBetween(cfg, Start(initial), events, i + 1, j, id), events[j].out,
                      events[j].now)
  {
    hide Next, Startable, Cancels, Create, Valid, Enabled, ReplyAt, CancelledBetween, Records, Unended;
    var s, id := Start(initial), events[i].id;
    BeforeSettling(cfg, initial, events, i, j);
    var r := At(cfg, s, events, j).st.runs[id];
    NextSettled(cfg, At(cfg, s, events, j), events[j]);
    SettledRecords(r, events[j].out, events[j].now);
  }

  // ----- who may cancel -----

  // A principal that does not see every run may cancel its own running runs, and no others
  // exist for it; a cancel sets the flag and calls the terminator, and changes nothing else.
  lemma CancelExactly(st: State, id: RunId, subject: Option<string>)
    ensures var (after, reply) := CancelRun(st, id, subject);
            var visible := id in st.runs && (subject.Some? ==> st.runs[id].principal == Some(subject.value));
            && (reply == NotFound <==> !visible)
            && (reply == Accepted <==> visible && st.runs[id].status == Running)
            && (reply != Accepted ==> after == st)
            && (reply == Accepted ==>
                  after.index == st.index && after.next == st.next && after.runs.Keys == st.runs.Keys &&
                  (forall other :: other in st.runs && other != id ==> after.runs[other] == st.runs[other]) &&
                  after.runs[id] == st.runs[id].(cancelled := true, kills := after.runs[id].kills) &&
                  after.runs[id].kills == st.runs[id].kills + (if st.runs[id].handle then 1 else 0))
  {
  }
}
