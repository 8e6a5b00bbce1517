// The durable run records of `jaiph serve`: src/cli/serve/run-store.ts.
module RunStore {
  import opened ServeModel
  import opened ServeOutcomes
  import opened ServeSafety
  import opened ServeScenarios
  import opened ServeTheorems
  import opened TextOrder

  const SCHEMA_VERSION := 1

  const INTERRUPTED_TEXT := "run interrupted: the serving process exited before this run reached a terminal state"

  const TAMPERED_TEXT :=
    "run journal failed integrity verification: the audit chain is broken, truncated, or forged"

  type DirName = string

  // ----- the disk -----

  datatype Persisted = Persisted(
    runId: RunId, workflow: string, status: Status, startedAt: Stamp, endedAt: Option<Stamp>,
    exitStatus: Option<int>, signal: Option<string>, resultText: Option<string>,
    key: Option<Key>, principal: Option<string>, correlation: Option<string>, argsHash: Option<Hash>)

  // `run.json`: absent, not a record at all, or a record of some schema version.
  datatype RecordFile = NoRecord | NotARecord | Record(version: int, run: Persisted)

  // The journal by its first line: `Begins` is a WORKFLOW_START with a run id.
  datatype Journal = NoJournal | Headless | Begins(runId: RunId, workflow: Option<string>, ts: Option<Stamp>)

  // `tampered` is the verdict on the journal's chain and `writable` whether writes succeed.
  datatype RunDir = RunDir(journal: Journal, file: RecordFile, tampered: bool, writable: bool)

  type Disk = map<DirName, RunDir>

  // A run with the id it is registered under.
  datatype Run = Run(id: RunId, rec: Rec)

  function Public(run: Run): Persisted {
    var r := run.rec;
    Persisted(run.id, r.workflow, r.status, r.startedAt, r.endedAt, r.exitStatus, r.signal, r.resultText,
              r.key, r.principal, r.correlation, r.argsHash)
  }

  // The write goes through a temporary file, so it happens whole or not at all.
  function Written(d: RunDir, run: Run): RunDir {
    if d.writable then d.(file := Record(SCHEMA_VERSION, Public(run))) else d
  }

  function Persist(disk: Disk, run: Run): Disk {
    if run.rec.runDir.None? || run.rec.runDir.value !in disk then disk
    else disk[run.rec.runDir.value := Written(disk[run.rec.runDir.value], run)]
  }

  // ----- loading one directory -----

  function Reload(name: DirName, d: RunDir): Option<Run> {
    if !d.file.Record? || d.file.version != SCHEMA_VERSION then None
    else
      var p := d.file.run;
      Some(Run(p.runId,
               Rec(p.workflow, p.status, p.startedAt, p.endedAt, p.exitStatus, p.signal, p.resultText, Some(name),
                   p.status.Cancelled?, false, 0, 0, p.key, p.principal, p.correlation, p.argsHash)))
  }

  function Reconcile(name: DirName, d: RunDir, now: Stamp): Option<Run> {
    match d.journal
    case Begins(runId, workflow, ts) =>
      Some(Run(runId,
               Rec(if workflow.Some? then workflow.value else "", Interrupted,
                   if ts.Some? then ts.value else now, Some(now), None, None, Some(INTERRUPTED_TEXT), Some(name),
                   false, false, 0, 0, None, None, None, None)))
    case _ => None
  }

  function Overridden(run: Run, tampered: bool): Run {
    if tampered then run.(rec := run.rec.(status := Failed, resultText := Some(TAMPERED_TEXT))) else run
  }

  // The run found in a directory, and the directory afterwards.
  function LoadDir(name: DirName, d: RunDir, now: Stamp): (Option<Run>, RunDir) {
    var reloaded := Reload(name, d);
    if reloaded.Some? then (Some(Overridden(reloaded.value, d.tampered)), d)
    else
      var fixed := Reconcile(name, d, now);
      if fixed.None? then (None, d) else (Some(Overridden(fixed.value, d.tampered)), Written(d, fixed.value))
  }

  function AfterLoad(disk: Disk, now: Stamp): Disk {
    map name | name in disk :: LoadDir(name, disk[name], now).1
  }

  // ----- one directory across restarts -----

  // What a terminal run is after a restart: its public fields, and fresh bookkeeping.
  function Restored(r: Rec): Rec {
    r.(order := 0, handle := false, kills := 0)
  }

  // A persisted run is reloaded with its public fields, whatever the clock shows, save that a
  // journal that does not verify overrides status and result.
  lemma PersistedComesBack(disk: Disk, run: Run, now: Stamp)
    requires run.rec.runDir.Some? && run.rec.runDir.value in disk
    requires disk[run.rec.runDir.value].writable
    requires run.rec.cancelled <==> run.rec.status.Cancelled?
    ensures var name := run.rec.runDir.value;
            var d := Persist(disk, run)[name];
            LoadDir(name, d, now) == (Some(Overridden(run.(rec := Restored(run.rec)), d.tampered)), d)
  {
  }

  // A run is reported as running exactly when its intact record says so.
  lemma ReportedRunning(name: DirName, d: RunDir, now: Stamp)
    requires LoadDir(name, d, now).0.Some?
    ensures LoadDir(name, d, now).0.value.rec.status.Running? <==>
            Reload(name, d).Some? && d.file.run.status.Running? && !d.tampered
  {
  }

  // The load right after a load gives the same run at any clock, exactly when the directory
  // did not have to be reconciled, or could be written, or the clock stands still.
  lemma SecondLoadSame(name: DirName, d: RunDir, now: Stamp, later: Stamp)
    ensures LoadDir(name, LoadDir(name, d, now).1, later).0 == LoadDir(name, d, now).0 <==>
            Reload(name, d).Some? || !d.journal.Begins? || d.writable || now == later
  {
    if d.journal.Begins? && Reload(name, d).None? {
      var run := Reconcile(name, d, now).value;
      if d.writable {
        assert Reload(name, Written(d, run)) == Some(run);
      } else {
        assert Reconcile(name, d, later).value.rec.endedAt == Some(later);
      }
    }
  }

  // A run whose executor threw has no run directory, so its outcome is not persisted.
  lemma ThrownIsNotPersisted(disk: Disk, id: RunId, r: Rec, text: string, now: Stamp)
    requires r.runDir.None?
    ensures Persist(disk, Run(id, Settled(r, Threw(text), now))) == disk
  {
  }

  // ----- the listing -----

  datatype Found = Found(name: DirName, run: Run)

  predicate Ascending(found: seq<Found>) {
    forall i, j :: 0 <= i < j < |found| ==> Less(found[i].name, found[j].name)
  }

  predicate FoundIn(disk: Disk, now: Stamp, f: Found) {
    f.name in disk && LoadDir(f.name, disk[f.name], now).0 == Some(f.run)
  }

  predicate Has(found: seq<Found>, name: DirName) {
    exists i :: 0 <= i < |found| && found[i].name == name
  }

  // One run per directory that has one, by ascending directory name.
  predicate Listing(disk: Disk, now: Stamp, found: seq<Found>) {
    && Ascending(found)
    && (forall i :: 0 <= i < |found| ==> FoundIn(disk, now, found[i]))
    && (forall name :: name in disk && LoadDir(name, disk[name], now).0.Some? ==> Has(found, name))
  }

  lemma Distinct(found: seq<Found>, i: nat, j: nat)
    requires Ascending(found) && i < |found| && j < |found| && found[i].name == found[j].name
    ensures i == j
  {
    NotLessSelf(found[i].name);
  }

  // After a common beginning, a name of one listing is not found earlier in the other.
  lemma NotEarlier(disk: Disk, now: Stamp, a: seq<Found>, b: seq<Found>, k: nat)
    returns (j: nat)
    requires Listing(disk, now, a) && Listing(disk, now, b) && k < |a| && k <= |b| && a[..k] == b[..k]
    ensures k <= j < |b| && b[j] == a[k]
  {
    assert FoundIn(disk, now, a[k]);
    assert Has(b, a[k].name);
    j :| 0 <= j < |b| && b[j].name == a[k].name;
    assert FoundIn(disk, now, b[j]);
    if j < k {
      assert a[..k][j] == b[..k][j];
      Distinct(a, j, k);
    }
  }

  lemma {:induction false} ListingUnique(disk: Disk, now: Stamp, a: seq<Found>, b: seq<Found>, n: nat)
    requires Listing(disk, now, a) && Listing(disk, now, b) && n <= |a|
    ensures n <= |b| && a[..n] == b[..n]
    decreases n
  {
    if n > 0 {
      var k := n - 1;
      ListingUnique(disk, now, a, b, k);
      var j := NotEarlier(disk, now, a, b, k);
      var i := NotEarlier(disk, now, b, a, k);
      assert j > k ==> Less(b[k].name, a[k].name);
      assert i > k ==> Less(a[k].name, b[k].name);
      if Less(b[k].name, a[k].name) { LessAsym(b[k].name, a[k].name); }
      assert a[k] == b[k];
      assert a[..n] == a[..k] + [a[k]] && b[..n] == b[..k] + [b[k]];
    }
  }

  // The listing does not depend on the order in which the directories were read.
  lemma OneListing(disk: Disk, now: Stamp, a: seq<Found>, b: seq<Found>)
    requires Listing(disk, now, a) && Listing(disk, now, b)
    ensures a == b
  {
    ListingUnique(disk, now, a, b, |a|);
    ListingUnique(disk, now, b, a, |b|);
  }

  // A second restart, whenever it happens, loads what the first one did.
  lemma RestartFixedPoint(disk: Disk, now: Stamp, later: Stamp, a: seq<Found>, b: seq<Found>)
    requires forall name :: name in disk ==> disk[name].writable
    requires Listing(disk, now, a) && Listing(AfterLoad(disk, now), later, b)
    ensures a == b
  {
    var after := AfterLoad(disk, now);
    forall name | name in disk ensures LoadDir(name, after[name], later).0 == LoadDir(name, disk[name], now).0 {
      SecondLoadSame(name, disk[name], now, later);
    }
    forall i | 0 <= i < |a| ensures FoundIn(after, later, a[i]) {
      assert FoundIn(disk, now, a[i]);
    }
    assert Listing(after, later, a);
    OneListing(after, later, a, b);
  }

  // ----- the disk beside a running registry -----

  ghost predicate NoneRunning(disk: Disk) {
    forall name :: name in disk && disk[name].file.Record? ==> disk[name].file.run.status.Terminal()
  }

  // The run an event settles, as it is handed to the store.
  function SettledRun(s: System, e: Event): Run
    requires e.ESettle? && e.id in s.st.runs
  {
    Run(e.id, Settled(s.st.runs[e.id], e.out, e.now))
  }

  function DiskNext(s: System, disk: Disk, e: Event): Disk {
    if e.ESettle? && e.id in s.st.runs then Persist(disk, SettledRun(s, e)) else disk
  }

  function DiskAt(cfg: Config, s: System, disk: Disk, events: seq<Event>, i: nat): Disk
    requires i <= |events|
  {
    if i == 0 then disk
    else DiskNext(At(cfg, s, events, i - 1), DiskAt(cfg, s, disk, events, i - 1), events[i - 1])
  }

  // Event `i` settles a run in the directory `name`.
  predicate SettlesIn(cfg: Config, s: System, events: seq<Event>, i: nat, name: DirName)
    requires i < |events|
  {
    var at := At(cfg, s, events, i);
    events[i].ESettle? && events[i].id in at.st.runs && SettledRun(at, events[i]).rec.runDir == Some(name)
  }

  lemma {:induction false} DiskFrame(cfg: Config, s: System, disk: Disk, events: seq<Event>, i: nat, j: nat,
                                    name: DirName)
    requires i <= j <= |events| && name in DiskAt(cfg, s, disk, events, i)
    requires forall m :: i <= m < j ==> !SettlesIn(cfg, s, events, m, name)
    ensures name in DiskAt(cfg, s, disk, events, j)
    ensures DiskAt(cfg, s, disk, events, j)[name] == DiskAt(cfg, s, disk, events, i)[name]
    decreases j
  {
    if i < j {
      DiskFrame(cfg, s, disk, events, i, j - 1, name);
      assert !SettlesIn(cfg, s, events, j - 1, name);
    }
  }

  // Runs only write `run.json`.
  lemma {:induction false} DiskShape(cfg: Config, s: System, disk: Disk, events: seq<Event>, i: nat, name: DirName)
    requires i <= |events| && name in disk
    ensures name in DiskAt(cfg, s, disk, events, i)
    ensures DiskAt(cfg, s, disk, events, i)[name] == disk[name].(file := DiskAt(cfg, s, disk, events, i)[name].file)
  {
    if i > 0 { DiskShape(cfg, s, disk, events, i - 1, name); }
  }

  lemma {:induction false} DiskNeverRunning(cfg: Config, s: System, disk: Disk, events: seq<Event>, i: nat)
    requires NoneRunning(disk) && i <= |events|
    ensures NoneRunning(DiskAt(cfg, s, disk, events, i))
  {
    if i > 0 { DiskNeverRunning(cfg, s, disk, events, i - 1); }
  }

  // One life of the server, from its load to a crash at any point: no record says `running`
  // afterwards, so the next load reports no run as running.
  lemma LifeLeavesNoneRunning(cfg: Config, s: System, disk: Disk, now: Stamp, events: seq<Event>, i: nat,
                              later: Stamp, found: seq<Found>)
    requires NoneRunning(disk) && i <= |events|
    requires Listing(DiskAt(cfg, s, AfterLoad(disk, now), events, i), later, found)
    ensures NoneRunning(DiskAt(cfg, s, AfterLoad(disk, now), events, i))
    ensures forall j :: 0 <= j < |found| ==> found[j].run.rec.status.Terminal()
  {
    var after := DiskAt(cfg, s, AfterLoad(disk, now), events, i);
    DiskNeverRunning(cfg, s, AfterLoad(disk, now), events, i);
    forall j | 0 <= j < |found| ensures found[j].run.rec.status.Terminal() {
      assert FoundIn(after, later, found[j]);
      ReportedRunning(found[j].name, after[found[j].name], later);
    }
  }

  lemma SettledFlag(r: Rec, out: Outcome, now: Stamp)
    ensures Settled(r, out, now).cancelled == r.cancelled
  {
  }

  lemma PersistFrame(disk: Disk, run: Run)
    ensures Persist(disk, run).Keys == disk.Keys
    ensures forall name :: name in disk ==>
              Persist(disk, run)[name] == disk[name].(file := Persist(disk, run)[name].file)
  {
  }

  // After any run of the registry, a load finds each run it settled in a directory of its own
  // as it was settled, evicted since or not; a tampered journal overrides status and result.
  lemma SettledSurvives(cfg: Config, s: System, disk: Disk, events: seq<Event>, i: nat, j: nat, name: DirName,
                        now: Stamp)
    requires i < j <= |events| && SettlesIn(cfg, s, events, i, name)
    requires forall m :: i < m < j ==> !SettlesIn(cfg, s, events, m, name)
    requires name in disk && disk[name].writable
    ensures var run := SettledRun(At(cfg, s, events, i), events[i]);
            var after := DiskAt(cfg, s, disk, events, j);
            name in after &&
            LoadDir(name, after[name], now).0 == Some(Overridden(run.(rec := Restored(run.rec)), disk[name].tampered))
  {
    hide At, LoadDir, Persist, Settled, Overridden;
    var run := SettledRun(At(cfg, s, events, i), events[i]);
    DiskShape(cfg, s, disk, events, i, name);
    SettledStatus(At(cfg, s, events, i).st.runs[events[i].id], events[i].out, events[i].now);
    SettledFlag(At(cfg, s, events, i).st.runs[events[i].id], events[i].out, events[i].now);
    PersistedComesBack(DiskAt(cfg, s, disk, events, i), run, now);
    PersistFrame(DiskAt(cfg, s, disk, events, i), run);
    DiskFrame(cfg, s, disk, events, i + 1, j, name);
  }

  // ----- what is written and what is loaded, field by field -----

  // The record file of a run that ended.
  predicate WrittenAs(p: Persisted, create: Event, cancelled: bool, out: Outcome, now: Stamp)
    requires create.ECreate?
  {
    && p.runId == create.id && p.workflow == create.workflow && p.principal == Some(create.principal)
    && p.correlation == create.correlation && p.startedAt == create.now
    && p.key == (if create.keyed.Some? then Some(create.keyed.value.key) else None)
    && p.argsHash == (if create.keyed.Some? then Some(create.keyed.value.hash) else None)
    && p.status == (if cancelled then Cancelled else if out.Threw? || out.isError then Failed else Succeeded)
    && p.endedAt == Some(now) && p.resultText == Some(out.text)
    && p.exitStatus == (if out.Returned? then out.exitStatus else None)
    && p.signal == (if out.Returned? then out.signal else None)
  }

  lemma WritesPublic(r: Rec, create: Event, cancelled: bool, out: Outcome, now: Stamp)
    requires create.ECreate? && CreatedFor(r, create) && Unended(r) && r.cancelled == cancelled
    ensures WrittenAs(Public(Run(create.id, Settled(r, out, now))), create, cancelled, out, now)
    ensures Settled(r, out, now).runDir == if out.Returned? then out.runDir else None
  {
  }

  // What the settlement of a run writes: into the directory the executor returned, if it can
  // be written, how the run ended; and nothing else.
  lemma SettlementWrites(cfg: Config, initial: seq<(RunId, Rec)>, disk: Disk, events: seq<Event>, i: nat, j: nat)
    requires Startable(initial) && Valid(cfg, Start(initial), events) && i < j < |events|
    requires events[i].ECreate? && ReplyAt(cfg, Start(initial), events, i) == Started(events[i].id)
    requires events[j].ESettle? && events[j].id == events[i].id
    ensures var before := DiskAt(cfg, Start(initial), disk, events, j);
            var after, out := DiskAt(cfg, Start(initial), disk, events, j + 1), events[j].out;
            if out.Returned? && out.runDir.Some? && out.runDir.value in before && before[out.runDir.value].writable then
              var name := out.runDir.value;
              after.Keys == before.Keys &&
              (forall other :: other in before && other != name ==> after[other] == before[other]) &&
              after[name] == before[name].(file := after[name].file) &&
              after[name].file.Record? && after[name].file.version == SCHEMA_VERSION &&
              WrittenAs(after[name].file.run, events[i],
                        CancelledBetween(cfg, Start(initial), events, i + 1, j, events[i].id), out, events[j].now)
            else after == before
  {
    hide Next, Startable, Create, Valid, ReplyAt, CancelledBetween, At, WrittenAs, CreatedFor, Settled, Unended, Public;
    BeforeSettling(cfg, initial, events, i, j);
    var r := At(cfg, Start(initial), events, j).st.runs[events[i].id];
    WritesPublic(r, events[i], r.cancelled, events[j].out, events[j].now);
  }

  // How the run found in a directory with an intact record is reported.
  predicate ReloadedAs(run: Run, name: DirName, p: Persisted, tampered: bool) {
    && run.id == p.runId && run.rec.workflow == p.workflow && run.rec.startedAt == p.startedAt
    && run.rec.endedAt == p.endedAt && run.rec.exitStatus == p.exitStatus && run.rec.signal == p.signal
    && run.rec.runDir == Some(name) && run.rec.key == p.key && run.rec.principal == p.principal
    && run.rec.correlation == p.correlation && run.rec.argsHash == p.argsHash
    && run.rec.status == (if tampered then Failed else p.status)
    && run.rec.resultText == (if tampered then Some(TAMPERED_TEXT) else p.resultText)
    && (run.rec.cancelled <==> p.status == Cancelled)
  }

  // How a run that was cut off is reported.
  predicate CutOffAs(run: Run, name: DirName, id: RunId, workflow: Option<string>, ts: Option<Stamp>, now: Stamp,
                     tampered: bool)
  {
    && run.id == id && run.rec.workflow == (if workflow.Some? then workflow.value else "")
    && run.rec.startedAt == (if ts.Some? then ts.value else now) && run.rec.endedAt == Some(now)
    && run.rec.exitStatus.None? && run.rec.signal.None? && run.rec.runDir == Some(name)
    && run.rec.key.None? && run.rec.argsHash.None? && run.rec.principal.None? && run.rec.correlation.None?
    && run.rec.status == (if tampered then Failed else Interrupted)
    && run.rec.resultText == Some(if tampered then TAMPERED_TEXT else INTERRUPTED_TEXT)
    && !run.rec.cancelled
  }

  predicate Intact(d: RunDir) {
    d.file.Record? && d.file.version == SCHEMA_VERSION
  }

  predicate ReportedAs(run: Run, name: DirName, d: RunDir, now: Stamp) {
    if Intact(d) then ReloadedAs(run, name, d.file.run, d.tampered)
    else
      d.journal.Begins? &&
      CutOffAs(run, name, d.journal.runId, d.journal.workflow, d.journal.ts, now, d.tampered)
  }

  // Every listing of a load holds exactly the runs of the directories with an intact record,
  // as recorded, and of those whose journal begins with a run but that have none, as cut off.
  lemma ListedAs(disk: Disk, now: Stamp, found: seq<Found>, name: DirName)
    requires Listing(disk, now, found) && name in disk
    ensures Has(found, name) <==> Intact(disk[name]) || disk[name].journal.Begins?
    ensures forall i :: 0 <= i < |found| && found[i].name == name ==> ReportedAs(found[i].run, name, disk[name], now)
  {
    hide Ascending;
    forall i | 0 <= i < |found| && found[i].name == name ensures FoundIn(disk, now, found[i]) {}
  }

  // The record of a run that was cut off, as the load writes it: before the verdict on its journal.
  predicate CutOffRecord(p: Persisted, id: RunId, workflow: Option<string>, ts: Option<Stamp>, now: Stamp) {
    && p.runId == id && p.workflow == (if workflow.Some? then workflow.value else "")
    && p.startedAt == (if ts.Some? then ts.value else now) && p.endedAt == Some(now)
    && p.status == Interrupted && p.resultText == Some(INTERRUPTED_TEXT)
    && p.exitStatus.None? && p.signal.None? && p.key.None? && p.argsHash.None?
    && p.principal.None? && p.correlation.None?
  }

  // A load writes that record where there is none and one can be written, and nothing else.
  lemma LoadWrites(disk: Disk, now: Stamp, name: DirName)
    requires name in disk
    ensures AfterLoad(disk, now).Keys == disk.Keys
    ensures var before, after := disk[name], AfterLoad(disk, now)[name];
            if !Intact(before) && before.journal.Begins? && before.writable then
              var j := before.journal;
              after == before.(file := after.file) &&
              after.file.Record? && after.file.version == SCHEMA_VERSION &&
              CutOffRecord(after.file.run, j.runId, j.workflow, j.ts, now)
            else after == before
  {
  }

  // No write into the directory succeeded during a life of the server.
  ghost predicate Untouched(cfg: Config, s: System, disk: Disk, events: seq<Event>, name: DirName)
    requires name in disk
  {
    !disk[name].writable || forall m :: 0 <= m < |events| ==> !SettlesIn(cfg, s, events, m, name)
  }

  // A run that a crash cut off is loaded as interrupted, or as failed if its journal does not
  // verify: after any life that wrote no record into its directory, which had none before.
  lemma CutOffByCrash(cfg: Config, s: System, disk: Disk, events: seq<Event>, name: DirName, now: Stamp,
                      found: seq<Found>)
    requires name in disk && disk[name].journal.Begins? && !Intact(disk[name])
    requires Untouched(cfg, s, disk, events, name)
    requires Listing(DiskAt(cfg, s, disk, events, |events|), now, found)
    ensures exists i :: 0 <= i < |found| && found[i].name == name &&
              var j := disk[name].journal;
              CutOffAs(found[i].run, name, j.runId, j.workflow, j.ts, now, disk[name].tampered)
  {
    hide At, LoadDir, CutOffAs, ReloadedAs, Listing;
    if disk[name].writable {
      DiskFrame(cfg, s, disk, events, 0, |events|, name);
    } else {
      UnwritableStays(cfg, s, disk, events, |events|, name);
    }
    ListedAs(DiskAt(cfg, s, disk, events, |events|), now, found, name);
    assert Has(found, name);
  }

  // ----- the registry after a restart -----

  function Initial(found: seq<Found>): (r: seq<(RunId, Rec)>)
    ensures |r| == |found|
  {
    seq(|found|, i requires 0 <= i < |found| => (found[i].run.id, found[i].run.rec))
  }

  // What a load returns satisfies what every theorem about the registry starts from.
  lemma LoadedIsStartable(disk: Disk, now: Stamp, found: seq<Found>)
    requires Listing(disk, now, found) && NoneRunning(disk)
    requires forall i, j :: 0 <= i < j < |found| ==> found[i].run.id != found[j].run.id
    ensures Startable(Initial(found))
  {
    forall i | 0 <= i < |found| ensures Initial(found)[i].1.status.Terminal() && !Initial(found)[i].1.handle {
      assert FoundIn(disk, now, found[i]);
      ReportedRunning(found[i].name, disk[found[i].name], now);
    }
  }

  // No run found in a later directory carries the key.
  predicate NewestWith(found: seq<Found>, k: Key, name: DirName) {
    forall i :: 0 <= i < |found| && found[i].run.rec.key == Some(k) ==> !Less(name, found[i].name)
  }

  // A create repeated at any time after a restart gets the run it started before: nothing is
  // executed twice while the run is resident, although it may have been evicted from memory
  // before the restart.
  lemma IdempotentAcrossRestart(cfg: Config, s: System, disk: Disk, events: seq<Event>, i: nat, name: DirName,
                                now: Stamp, found: seq<Found>, later: seq<Event>, j: nat)
    requires i < |events| && SettlesIn(cfg, s, events, i, name)
    requires forall m :: i < m < |events| ==> !SettlesIn(cfg, s, events, m, name)
    requires name in disk && disk[name].writable
    requires Listing(DiskAt(cfg, s, disk, events, |events|), now, found) && Startable(Initial(found))
    requires Valid(cfg, Start(Initial(found)), later) && j < |later| && KeyedCreate(later, j)
    requires SettledRun(At(cfg, s, events, i), events[i]).rec.key == Some(later[j].keyed.value.key)
    requires NewestWith(found, later[j].keyed.value.key, name)
    requires events[i].id in At(cfg, Start(Initial(found)), later, j).st.runs
    ensures var run := SettledRun(At(cfg, s, events, i), events[i]);
            ReplyAt(cfg, Start(Initial(found)), later, j) ==
            if run.rec.argsHash == Some(later[j].keyed.value.hash) then Existing(run.id) else Conflict
    ensures At(cfg, Start(Initial(found)), later, j + 1).st == At(cfg, Start(Initial(found)), later, j).st
  {
    var run, k := SettledRun(At(cfg, s, events, i), events[i]), later[j].keyed.value.key;
    SettledSurvives(cfg, s, disk, events, i, |events|, name, now);
    var loaded := Overridden(run.(rec := Restored(run.rec)), disk[name].tampered);
    LoadedOwner(DiskAt(cfg, s, disk, events, |events|), now, found, Found(name, loaded), k);
    CreateOnce(cfg, Initial(found), later, 0, j);
  }

  // The newest found run with a key owns it in the seeded registry.
  lemma LoadedOwner(disk: Disk, now: Stamp, found: seq<Found>, f: Found, k: Key)
    requires Listing(disk, now, found) && Startable(Initial(found)) && FoundIn(disk, now, f)
    requires f.run.rec.key == Some(k) && NewestWith(found, k, f.name)
    ensures var st := Seed(Initial(found));
            k in st.index && st.index[k] == f.run.id && f.run.id in st.runs &&
            st.runs[f.run.id].argsHash == f.run.rec.argsHash
  {
    assert Has(found, f.name);
    var n: nat :| n < |found| && found[n].name == f.name;
    assert FoundIn(disk, now, found[n]);
    var initial := Initial(found);
    assert initial[n] == (f.run.id, f.run.rec);
    forall j | n + 1 <= j < |initial| ensures initial[j].1.key != Some(k) {
      assert Less(found[n].name, found[j].name);
    }
    SeedIndexLast(initial, k, n);
    SeedRuns(initial);
    assert Seed(initial).runs[initial[n].0] == initial[n].1.(order := n);
  }

  // ----- when a key is forgotten -----

  predicate RecordKeeps(d: RunDir, k: Key) {
    d.file.Record? && d.file.version == SCHEMA_VERSION && d.file.run.key == Some(k)
  }

  predicate OnDisk(disk: Disk, k: Key) {
    exists name :: name in disk && RecordKeeps(disk[name], k)
  }

  predicate CarriedBy(initial: seq<(RunId, Rec)>, k: Key) {
    exists i :: 0 <= i < |initial| && initial[i].1.key == Some(k)
  }

  lemma {:induction false} SeedIndexExactly(initial: seq<(RunId, Rec)>, k: Key)
    ensures k in Seed(initial).index <==> CarriedBy(initial, k)
    decreases |initial|
  {
    if initial != [] {
      var n := |initial| - 1;
      SeedIndexExactly(initial[..n], k);
      if i :| 0 <= i < |initial| && initial[i].1.key == Some(k) {
        assert i < n ==> initial[..n][i] == initial[i];
      }
      if i :| 0 <= i < n && initial[..n][i].1.key == Some(k) { assert initial[i].1.key == Some(k); }
    }
  }

  lemma LoadedKeys(disk: Disk, now: Stamp, found: seq<Found>, k: Key)
    requires Listing(disk, now, found)
    ensures CarriedBy(Initial(found), k) <==> OnDisk(disk, k)
  {
    var initial := Initial(found);
    if i :| 0 <= i < |initial| && initial[i].1.key == Some(k) {
      assert FoundIn(disk, now, found[i]);
      assert RecordKeeps(disk[found[i].name], k);
    }
    if name :| name in disk && RecordKeeps(disk[name], k) {
      assert Has(found, name);
      var i :| 0 <= i < |found| && found[i].name == name;
      assert FoundIn(disk, now, found[i]);
      assert initial[i].1.key == Some(k);
    }
  }

  // Right after a load a keyed create starts a run if and only if no record of the current
  // schema version on the disk carries the key.
  lemma LoadStartsExactlyWhen(cfg: Config, disk: Disk, now: Stamp, found: seq<Found>, again: Event)
    requires Listing(disk, now, found) && Startable(Initial(found)) && cfg.maxConcurrent > 0
    requires again.ECreate? && again.keyed.Some?
    ensures Create(cfg, Seed(Initial(found)), again.workflow, again.principal, again.correlation, again.keyed,
                   again.id, again.now).1.Started? <==>
            !OnDisk(disk, again.keyed.value.key)
  {
    var initial, k := Initial(found), again.keyed.value.key;
    LoadedKeys(disk, now, found, k);
    SeedIndexExactly(initial, k);
    StartInv(cfg, initial);
    NoneRunningAtStart(initial);
  }

  // The last directory that holds a record with the key.
  predicate NewestOnDisk(disk: Disk, k: Key, name: DirName) {
    name in disk && RecordKeeps(disk[name], k) &&
    forall other :: other in disk && RecordKeeps(disk[other], k) ==> !Less(name, other)
  }

  // A resident run stands for the key: it was started under the key since the load, which
  // found `base` runs, or is the one whose record lies in the last directory with the key.
  predicate StandsFor(disk: Disk, base: nat, runs: map<RunId, Rec>, k: Key) {
    (exists id :: id in runs && runs[id].order >= base && runs[id].key == Some(k)) ||
    (exists name :: name in disk && NewestOnDisk(disk, k, name) && disk[name].file.run.runId in runs)
  }

  // The newest keyed run of a listing lies in the last directory that holds the key.
  lemma NewestFound(disk: Disk, now: Stamp, found: seq<Found>, k: Key, i: nat)
    requires Listing(disk, now, found) && NewestKeyed(Initial(found), k, i)
    ensures NewestOnDisk(disk, k, found[i].name) && disk[found[i].name].file.run.runId == found[i].run.id
  {
    var initial := Initial(found);
    assert FoundIn(disk, now, found[i]);
    forall other | other in disk && RecordKeeps(disk[other], k) ensures !Less(found[i].name, other) {
      assert Has(found, other);
      var j :| 0 <= j < |found| && found[j].name == other;
      assert FoundIn(disk, now, found[j]);
      assert initial[j].1.key == Some(k);
      assert j <= i;
      if j < i { LessAsym(other, found[i].name); } else { NotLessSelf(other); }
    }
  }

  lemma FoundNewest(disk: Disk, now: Stamp, found: seq<Found>, k: Key, name: DirName) returns (i: nat)
    requires Listing(disk, now, found) && NewestOnDisk(disk, k, name)
    ensures NewestKeyed(Initial(found), k, i) && found[i].run.id == disk[name].file.run.runId
  {
    var initial := Initial(found);
    assert Has(found, name);
    i :| 0 <= i < |found| && found[i].name == name;
    assert FoundIn(disk, now, found[i]);
    forall j | i + 1 <= j < |initial| ensures initial[j].1.key != Some(k) {
      LaterIsUnkeyed(disk, now, found, k, i, j);
    }
  }

  lemma LaterIsUnkeyed(disk: Disk, now: Stamp, found: seq<Found>, k: Key, i: nat, j: nat)
    requires Listing(disk, now, found) && i < j < |found| && NewestOnDisk(disk, k, found[i].name)
    ensures found[j].run.rec.key != Some(k)
  {
    assert FoundIn(disk, now, found[j]);
    assert Less(found[i].name, found[j].name);
  }

  lemma AnsweredOnDisk(cfg: Config, disk: Disk, now: Stamp, found: seq<Found>, later: seq<Event>, j: nat, k: Key)
    requires Listing(disk, now, found) && Startable(Initial(found))
    requires Valid(cfg, Start(Initial(found)), later) && j <= |later|
    ensures var runs := At(cfg, Start(Initial(found)), later, j).st.runs;
            Answered(Initial(found), runs, k) <==> StandsFor(disk, |found|, runs, k)
  {
    hide At, Startable, Listing, Valid;
    var initial := Initial(found);
    var runs := At(cfg, Start(initial), later, j).st.runs;
    if Answered(initial, runs, k) {
      var id :| id in runs && Answers(initial, runs[id], k);
      if runs[id].order < |found| {
        Origin(cfg, initial, later, j, id);
        var i := SeededResident(cfg, initial, later, j, id);
        NewestFound(disk, now, found, k, i);
        assert found[i].run.id == id;
      }
    }
    if name :| name in disk && NewestOnDisk(disk, k, name) && disk[name].file.run.runId in runs {
      var i := FoundNewest(disk, now, found, k, name);
      NewestAnswers(cfg, initial, later, j, k, i);
    }
    if id :| id in runs && runs[id].order >= |found| && runs[id].key == Some(k) {
      assert Answers(initial, runs[id], k);
    }
  }

  lemma NewestAnswers(cfg: Config, initial: seq<(RunId, Rec)>, later: seq<Event>, j: nat, k: Key, i: nat)
    requires Startable(initial) && Valid(cfg, Start(initial), later) && j <= |later|
    requires NewestKeyed(initial, k, i) && initial[i].0 in At(cfg, Start(initial), later, j).st.runs
    ensures Answered(initial, At(cfg, Start(initial), later, j).st.runs, k)
  {
    hide At;
    SeedRuns(initial);
    var n := SeededResident(cfg, initial, later, j, initial[i].0);
    SameId(initial, i, n);
    assert Answers(initial, At(cfg, Start(initial), later, j).st.runs[initial[i].0], k);
  }

  // At any time after a load a keyed create starts a run if and only if the cap leaves room
  // and no resident run stands for the key.
  lemma RestartStartsExactlyWhen(cfg: Config, disk: Disk, now: Stamp, found: seq<Found>, later: seq<Event>, j: nat)
    requires Listing(disk, now, found) && Startable(Initial(found))
    requires Valid(cfg, Start(Initial(found)), later) && j < |later| && KeyedCreate(later, j)
    ensures var runs := At(cfg, Start(Initial(found)), later, j).st.runs;
            ReplyAt(cfg, Start(Initial(found)), later, j) == Started(later[j].id) <==>
            !StandsFor(disk, |found|, runs, later[j].keyed.value.key) && |RunningIds(runs)| < cfg.maxConcurrent
  {
    hide At, Startable, Valid, Answered, StandsFor, ReplyAt;
    StartsExactlyWhen(cfg, Initial(found), later, j);
    AnsweredOnDisk(cfg, disk, now, found, later, j, later[j].keyed.value.key);
  }

  // The last event before `n` that settles a run in the directory.
  predicate LastIn(cfg: Config, s: System, events: seq<Event>, n: nat, name: DirName, m: nat)
    requires n <= |events|
  {
    m < n && SettlesIn(cfg, s, events, m, name) && forall l :: m < l < n ==> !SettlesIn(cfg, s, events, l, name)
  }

  predicate LastKeeps(cfg: Config, s: System, events: seq<Event>, name: DirName, m: nat, k: Key) {
    LastIn(cfg, s, events, |events|, name, m) && SettledRun(At(cfg, s, events, m), events[m]).rec.key == Some(k)
  }

  predicate SettledWithin(cfg: Config, s: System, events: seq<Event>, n: nat, name: DirName)
    requires n <= |events|
  {
    exists m: nat :: m < n && LastIn(cfg, s, events, n, name, m)
  }

  // A directory holds the key after a life of the server if the last run that settled in it
  // carries the key, or none settled in it or could be written and it held the key before.
  predicate KeyKept(cfg: Config, s: System, disk: Disk, events: seq<Event>, name: DirName, k: Key) {
    name in disk &&
    if disk[name].writable && SettledWithin(cfg, s, events, |events|, name)
    then exists m: nat :: m < |events| && LastKeeps(cfg, s, events, name, m, k)
    else RecordKeeps(disk[name], k)
  }

  lemma {:induction false} LastOrNone(cfg: Config, s: System, events: seq<Event>, n: nat, name: DirName)
    requires n <= |events|
    ensures SettledWithin(cfg, s, events, n, name) || forall l :: 0 <= l < n ==> !SettlesIn(cfg, s, events, l, name)
    decreases n
  {
    if n > 0 {
      var p := n - 1;
      LastOrNone(cfg, s, events, p, name);
      if SettlesIn(cfg, s, events, p, name) {
        assert LastIn(cfg, s, events, n, name, p);
      } else if SettledWithin(cfg, s, events, p, name) {
        var m: nat :| m < p && LastIn(cfg, s, events, p, name, m);
        assert LastIn(cfg, s, events, n, name, m);
      }
    }
  }

  lemma {:induction false} UnwritableStays(cfg: Config, s: System, disk: Disk, events: seq<Event>, n: nat,
                                          name: DirName)
    requires n <= |events| && name in disk && !disk[name].writable
    ensures name in DiskAt(cfg, s, disk, events, n) && DiskAt(cfg, s, disk, events, n)[name] == disk[name]
  {
    if n > 0 { UnwritableStays(cfg, s, disk, events, n - 1, name); }
  }

  lemma FileAfterLife(cfg: Config, s: System, disk: Disk, events: seq<Event>, name: DirName, k: Key)
    requires name in disk
    ensures name in DiskAt(cfg, s, disk, events, |events|)
    ensures RecordKeeps(DiskAt(cfg, s, disk, events, |events|)[name], k) <==> KeyKept(cfg, s, disk, events, name, k)
  {
    var n := |events|;
    DiskShape(cfg, s, disk, events, n, name);
    LastOrNone(cfg, s, events, n, name);
    if !disk[name].writable {
      UnwritableStays(cfg, s, disk, events, n, name);
    } else if SettledWithin(cfg, s, events, n, name) {
      var m: nat :| m < n && LastIn(cfg, s, events, n, name, m);
      FileOfLast(cfg, s, disk, events, name, m);
      forall l: nat | l < n && LastKeeps(cfg, s, events, name, l, k) ensures l == m {
        OneLast(cfg, s, events, n, name, l, m);
      }
      if SettledRun(At(cfg, s, events, m), events[m]).rec.key == Some(k) {
        assert LastKeeps(cfg, s, events, name, m, k);
      }
    } else {
      DiskFrame(cfg, s, disk, events, 0, n, name);
    }
  }

  lemma OneLast(cfg: Config, s: System, events: seq<Event>, n: nat, name: DirName, l: nat, m: nat)
    requires n <= |events| && LastIn(cfg, s, events, n, name, l) && LastIn(cfg, s, events, n, name, m)
    ensures l == m
  {
  }

  lemma FileOfLast(cfg: Config, s: System, disk: Disk, events: seq<Event>, name: DirName, m: nat)
    requires name in disk && disk[name].writable && LastIn(cfg, s, events, |events|, name, m)
    ensures name in DiskAt(cfg, s, disk, events, |events|)
    ensures DiskAt(cfg, s, disk, events, |events|)[name].file ==
            Record(SCHEMA_VERSION, Public(SettledRun(At(cfg, s, events, m), events[m])))
  {
    hide At, Settled, DiskAt, Public;
    DiskShape(cfg, s, disk, events, m, name);
    SettleWrites(cfg, s, disk, events, name, m);
    DiskFrame(cfg, s, disk, events, m + 1, |events|, name);
  }

  lemma SettleWrites(cfg: Config, s: System, disk: Disk, events: seq<Event>, name: DirName, m: nat)
    requires m < |events| && SettlesIn(cfg, s, events, m, name)
    requires name in DiskAt(cfg, s, disk, events, m) && DiskAt(cfg, s, disk, events, m)[name].writable
    ensures name in DiskAt(cfg, s, disk, events, m + 1)
    ensures DiskAt(cfg, s, disk, events, m + 1)[name].file ==
            Record(SCHEMA_VERSION, Public(SettledRun(At(cfg, s, events, m), events[m])))
  {
    hide Settled, Public;
  }

  // Across a life of the server, up to a crash at any point, and the load after it: a keyed
  // create starts a run again if and only if no directory kept the key. A run loses its key
  // by not having settled, by settling without a run directory (as every run does whose
  // executor threw), and by settling in a directory that is gone or cannot be written.
  lemma KeyForgottenExactlyWhen(cfg: Config, s: System, disk: Disk, events: seq<Event>, now: Stamp, found: seq<Found>,
                                again: Event)
    requires Listing(DiskAt(cfg, s, disk, events, |events|), now, found) && Startable(Initial(found))
    requires cfg.maxConcurrent > 0 && again.ECreate? && again.keyed.Some?
    ensures Create(cfg, Seed(Initial(found)), again.workflow, again.principal, again.correlation, again.keyed,
                   again.id, again.now).1.Started? <==>
            forall name :: !KeyKept(cfg, s, disk, events, name, again.keyed.value.key)
  {
    var after, k := DiskAt(cfg, s, disk, events, |events|), again.keyed.value.key;
    LoadStartsExactlyWhen(cfg, after, now, found, again);
    SameNames(cfg, s, disk, events, |events|);
    forall name | name in disk
      ensures RecordKeeps(after[name], k) <==> KeyKept(cfg, s, disk, events, name, k)
    {
      FileAfterLife(cfg, s, disk, events, name, k);
    }
    if name :| KeyKept(cfg, s, disk, events, name, k) { assert RecordKeeps(after[name], k); }
    if name :| name in after && RecordKeeps(after[name], k) { assert KeyKept(cfg, s, disk, events, name, k); }
  }

  lemma {:induction false} SameNames(cfg: Config, s: System, disk: Disk, events: seq<Event>, n: nat)
    requires n <= |events|
    ensures DiskAt(cfg, s, disk, events, n).Keys == disk.Keys
  {
    if n > 0 { SameNames(cfg, s, disk, events, n - 1); }
  }

  // ----- two lives in which a key is forgotten -----

  // The disk of one run: its journal has begun, no record is written yet.
  function Begun(name: DirName, id: RunId): Disk {
    map[name := RunDir(Begins(id, None, None), NoRecord, false, true)]
  }

  // Create, crash before the run settles, load, create again: the workflow runs twice.
  lemma CrashRunsTwice(cfg: Config, name: DirName, first: Event, again: Event, now: Stamp)
    requires cfg.maxConcurrent > 0 && first.ECreate? && again.ECreate? && first.keyed.Some?
    requires again.keyed == first.keyed
    ensures var disk, events := Begun(name, first.id), [first];
            var found := [Found(name, Reconcile(name, disk[name], now).value)];
            Valid(cfg, Start([]), events) && ReplyAt(cfg, Start([]), events, 0) == Started(first.id) &&
            Listing(DiskAt(cfg, Start([]), disk, events, 1), now, found) && Startable(Initial(found)) &&
            Create(cfg, Seed(Initial(found)), again.workflow, again.principal, again.correlation, again.keyed,
                   again.id, again.now).1 == Started(again.id)
  {
    var disk, events := Begun(name, first.id), [first];
    EmptyStart();
    FirstCreate(cfg, first);
    assert At(cfg, Start([]), events, 0) == Empty();
    assert DiskAt(cfg, Start([]), disk, events, 1) == disk;
    BegunRestarts(cfg, name, first.id, again, now);
  }

  // The same when the executor threw: the run settled, but its outcome was not persisted.
  lemma ThrowRunsTwice(cfg: Config, name: DirName, first: Event, again: Event, text: string, end: Stamp, evictAt: Stamp,
                       now: Stamp)
    requires cfg.maxConcurrent > 0 && first.ECreate? && again.ECreate? && first.keyed.Some?
    requires again.keyed == first.keyed
    ensures var disk, events := Begun(name, first.id), [first, ESettle(first.id, Threw(text), end, evictAt)];
            var found := [Found(name, Reconcile(name, disk[name], now).value)];
            Valid(cfg, Start([]), events) && ReplyAt(cfg, Start([]), events, 0) == Started(first.id) &&
            Listing(DiskAt(cfg, Start([]), disk, events, 2), now, found) && Startable(Initial(found)) &&
            Create(cfg, Seed(Initial(found)), again.workflow, again.principal, again.correlation, again.keyed,
                   again.id, again.now).1 == Started(again.id)
  {
    hide Next, Create;
    var disk, events := Begun(name, first.id), [first, ESettle(first.id, Threw(text), end, evictAt)];
    EmptyStart();
    FirstCreate(cfg, first);
    assert At(cfg, Start([]), events, 0) == Empty();
    assert At(cfg, Start([]), events, 1) == Next(cfg, Empty(), first);
    assert DiskAt(cfg, Start([]), disk, events, 1) == disk;
    FirstHasNoDir(cfg, first);
    ThrownIsNotPersisted(disk, first.id, At(cfg, Start([]), events, 1).st.runs[first.id], text, end);
    assert DiskAt(cfg, Start([]), disk, events, 2) == disk;
    BegunRestarts(cfg, name, first.id, again, now);
  }

  lemma FirstHasNoDir(cfg: Config, e: Event)
    requires cfg.maxConcurrent > 0 && e.ECreate?
    ensures var runs := Next(cfg, Empty(), e).st.runs; e.id in runs && runs[e.id].runDir.None?
  {
    assert RunningIds(map[]) == {};
  }

  lemma BegunRestarts(cfg: Config, name: DirName, id: RunId, again: Event, now: Stamp)
    requires cfg.maxConcurrent > 0 && again.ECreate? && again.keyed.Some?
    ensures var found := [Found(name, Reconcile(name, Begun(name, id)[name], now).value)];
            Listing(Begun(name, id), now, found) && Startable(Initial(found)) &&
            Create(cfg, Seed(Initial(found)), again.workflow, again.principal, again.correlation, again.keyed,
                   again.id, again.now).1 == Started(again.id)
  {
    hide Create;
    var disk := Begun(name, id);
    var found := [Found(name, Reconcile(name, disk[name], now).value)];
    assert FoundIn(disk, now, found[0]);
    assert found[0].name == name && Has(found, name);
    LoadStartsExactlyWhen(cfg, disk, now, found, again);
    StartedIsAgain(cfg, Seed(Initial(found)), again);
  }

  lemma StartedIsAgain(cfg: Config, st: State, e: Event)
    requires e.ECreate?
    ensures var r := Create(cfg, st, e.workflow, e.principal, e.correlation, e.keyed, e.id, e.now).1;
            r.Started? ==> r.id == e.id
  {
  }

  lemma NoneRunningAtStart(initial: seq<(RunId, Rec)>)
    requires Startable(initial)
    ensures RunningIds(Seed(initial).runs) == {}
  {
    SeedRuns(initial);
    var runs := Seed(initial).runs;
    forall id | id in runs ensures runs[id].status.Terminal() {
      assert Seeded(initial, id);
      var i :| 0 <= i < |initial| && initial[i].0 == id;
    }
  }

  // ----- the store as written -----

  function Insert(found: seq<Found>, f: Found): seq<Found> {
    if found == [] || Less(f.name, found[0].name) then [f] + found
    else [found[0]] + Insert(found[1..], f)
  }

  lemma {:induction false} InsertKeeps(found: seq<Found>, f: Found)
    ensures |Insert(found, f)| == |found| + 1
    ensures forall x :: x in Insert(found, f) <==> x in found || x == f
    decreases |found|
  {
    if found != [] && !Less(f.name, found[0].name) {
      InsertKeeps(found[1..], f);
      assert found == [found[0]] + found[1..];
    }
  }

  lemma {:induction false} InsertAscending(found: seq<Found>, f: Found)
    requires Ascending(found) && forall x :: x in found ==> x.name != f.name
    ensures Ascending(Insert(found, f))
    decreases |found|
  {
    var r := Insert(found, f);
    if found == [] {
    } else if Less(f.name, found[0].name) {
      forall i, j | 0 <= i < j < |r| ensures Less(r[i].name, r[j].name) {
        assert r[j] == found[j - 1];
        if i == 0 {
          if j > 1 { LessTrans(f.name, found[0].name, found[j - 1].name); }
        } else {
          assert r[i] == found[i - 1];
        }
      }
    } else {
      var tail := Insert(found[1..], f);
      InsertAscending(found[1..], f);
      InsertKeeps(found[1..], f);
      LessTotal(f.name, found[0].name);
      forall x | x in tail ensures Less(found[0].name, x.name) {
        if x in found[1..] {
          var i :| 0 <= i < |found[1..]| && found[1..][i] == x;
          assert found[i + 1] == x;
        }
      }
      forall i, j | 0 <= i < j < |r| ensures Less(r[i].name, r[j].name) {
        assert r[j] == tail[j - 1];
        if i > 0 { assert r[i] == tail[i - 1]; } else { assert r[j] in tail; }
      }
    }
  }

  function Runs(found: seq<Found>): seq<Run> {
    seq(|found|, i requires 0 <= i < |found| => found[i].run)
  }

  // The listing of the directories in `names`.
  ghost predicate ListingOf(disk: Disk, now: Stamp, names: set<DirName>, found: seq<Found>) {
    && Ascending(found)
    && (forall x :: x in found ==> x.name in names && FoundIn(disk, now, x))
    && (forall name :: name in names && name in disk && LoadDir(name, disk[name], now).0.Some? ==>
          exists x :: x in found && x.name == name)
  }

  lemma Scanned(disk: Disk, now: Stamp, names: set<DirName>, found: seq<Found>, name: DirName)
    requires ListingOf(disk, now, names, found) && name in disk && name !in names
    ensures var run := LoadDir(name, disk[name], now).0;
            ListingOf(disk, now, names + {name}, if run.None? then found else Insert(found, Found(name, run.value)))
  {
    var run := LoadDir(name, disk[name], now).0;
    if run.Some? {
      var f := Found(name, run.value);
      InsertKeeps(found, f);
      InsertAscending(found, f);
    }
  }

  class Store {
    var disk: Disk

    method PersistRunRecord(run: Run)
      modifies this
      ensures disk == Persist(old(disk), run)
    {
      if run.rec.runDir.Some? {
        var name := run.rec.runDir.value;
        if name in disk { disk := disk[name := Written(disk[name], run)]; }
      }
    }

    // One turn of the load: the run of a directory, with the tamper verdict applied.
    method LoadRunDir(name: DirName, now: Stamp) returns (run: Option<Run>)
      requires name in disk
      modifies this
      ensures run == LoadDir(name, old(disk)[name], now).0
      ensures disk == old(disk)[name := LoadDir(name, old(disk)[name], now).1]
    {
      var d := disk[name];
      run := Reload(name, d);
      if run.None? {
        run := Reconcile(name, d, now);
        if run.None? {
          assert disk == disk[name := d];
          return;
        }
        PersistRunRecord(run.value);
      }
      if d.tampered {
        run := Some(run.value.(rec := run.value.rec.(status := Failed, resultText := Some(TAMPERED_TEXT))));
      }
    }

    // The directories are read in any order; the records are returned by directory name.
    method LoadPersistedRuns(now: Stamp) returns (runs: seq<Run>)
      modifies this
      ensures disk == AfterLoad(old(disk), now)
      ensures exists found :: Listing(old(disk), now, found) && runs == Runs(found)
    {
      hide LoadDir, ListingOf, Listing, Insert, Runs;
      ghost var start := disk;
      var found: seq<Found> := [];
      var left := disk.Keys;
      ListingOfNone(start, now);
      while left != {}
        invariant disk.Keys == start.Keys && left <= disk.Keys
        invariant forall name :: name in disk ==>
                    disk[name] == if name in left then start[name] else LoadDir(name, start[name], now).1
        invariant ListingOf(start, now, disk.Keys - left, found)
      {
        var name :| name in left;
        ghost var before := disk.Keys - left;
        left := left - {name};
        assert disk.Keys - left == before + {name};
        Scanned(start, now, before, found, name);
        var run := LoadRunDir(name, now);
        if run.Some? { found := Insert(found, Found(name, run.value)); }
      }
      assert disk.Keys - left == start.Keys;
      ListingFromAll(start, now, found);
      return Runs(found);
    }
  }

  lemma ListingOfNone(disk: Disk, now: Stamp)
    ensures ListingOf(disk, now, disk.Keys - disk.Keys, [])
  {
  }

  lemma ListingFromAll(disk: Disk, now: Stamp, found: seq<Found>)
    requires ListingOf(disk, now, disk.Keys, found)
    ensures Listing(disk, now, found)
  {
    forall i | 0 <= i < |found| ensures FoundIn(disk, now, found[i]) { assert found[i] in found; }
    forall name | name in disk && LoadDir(name, disk[name], now).0.Some? ensures Has(found, name) {
      var x :| x in found && x.name == name;
    }
  }
}
