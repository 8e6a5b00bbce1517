// The concurrency cap and the retention limits of the run registry.
module ServeRetention {
  import opened ServeModel
  import opened ServeSafety
  import opened ServeTheorems

  function Settlement(s: System, e: Event): State
    requires e.ESettle? && Enabled(s, e)
  {
    s.st.(runs := s.st.runs[e.id := Settled(s.st.runs[e.id], e.out, e.now)])
  }

  // ----- the surplus is what lies beyond the newest `retainRuns` terminal runs -----

  lemma {:induction false} Oldest(runs: map<RunId, Rec>, ids: set<RunId>) returns (m: RunId)
    requires ids != {} && ids <= runs.Keys
    ensures m in ids && forall j | j in ids :: runs[m].order <= runs[j].order
    decreases ids
  {
    m :| m in ids;
    if ids != {m} {
      var rest := Oldest(runs, ids - {m});
      if runs[rest].order < runs[m].order { m := rest; }
    }
  }

  lemma {:induction false} Newest(runs: map<RunId, Rec>, ids: set<RunId>) returns (m: RunId)
    requires ids != {} && ids <= runs.Keys
    ensures m in ids && forall j | j in ids :: runs[j].order <= runs[m].order
    decreases ids
  {
    m :| m in ids;
    if ids != {m} {
      var rest := Newest(runs, ids - {m});
      if runs[rest].order > runs[m].order { m := rest; }
    }
  }

  lemma KeptAtMost(cfg: Config, st: State)
    requires Ordered(st) && cfg.retainRuns > 0
    ensures |TerminalIds(st.runs) - Surplus(cfg, st.runs)| <= cfg.retainRuns
  {
    var kept := TerminalIds(st.runs) - Surplus(cfg, st.runs);
    if kept != {} {
      var m := Oldest(st.runs, kept);
      forall j | j in kept - {m} ensures j in Newer(st.runs, m) {
        assert st.runs[j].order != st.runs[m].order;
      }
      SubsetSize(kept - {m}, Newer(st.runs, m));
      assert kept == (kept - {m}) + {m};
    }
  }

  lemma DropsOnlyWhenFull(cfg: Config, st: State)
    requires Ordered(st) && Surplus(cfg, st.runs) != {}
    ensures |TerminalIds(st.runs) - Surplus(cfg, st.runs)| == cfg.retainRuns
  {
    var dropped := Surplus(cfg, st.runs);
    var kept := TerminalIds(st.runs) - dropped;
    var b := Newest(st.runs, dropped);
    forall j | j in Newer(st.runs, b) ensures j in kept {
      assert j in TerminalIds(st.runs);
    }
    SubsetSize(Newer(st.runs, b), kept);
    KeptAtMost(cfg, st);
  }

  lemma NewerGrows(st: State, a: RunId, b: RunId)
    requires a in st.runs && b in st.runs && st.runs[a].order <= st.runs[b].order
    ensures |Newer(st.runs, b)| <= |Newer(st.runs, a)|
  {
    SubsetSize(Newer(st.runs, b), Newer(st.runs, a));
  }

  // ----- one settle -----

  // The run ended more than `retainAgeSec` seconds before `now`, as far as both times can be read.
  predicate Expired(cfg: Config, r: Rec, now: Stamp) {
    && cfg.retainAgeSec > 0 && r.status != Running
    && match (r.endedAt, now.ms)
       case (Some(Stamp(_, Some(ended))), Some(ms)) => ms - ended > 1000 * cfg.retainAgeSec
       case _ => false
  }

  // No running run is dropped; what is dropped is aged out or surplus; among the runs that
  // did not age out the kept terminal ones are the newest, exactly `retainRuns` of them as
  // soon as one had to go.
  predicate Retains(cfg: Config, before: map<RunId, Rec>, after: map<RunId, Rec>, now: Stamp) {
    && after.Keys <= before.Keys
    && (forall id | id in after :: after[id] == before[id] && !Expired(cfg, before[id], now))
    && RunningIds(after) == RunningIds(before)
    && (forall a, b | a in TerminalIds(after) && b in before.Keys - after.Keys ::
          Expired(cfg, before[b], now) || before[b].order < before[a].order)
    && (forall b | b in before.Keys - after.Keys ::
          Expired(cfg, before[b], now) || (cfg.retainRuns > 0 && |TerminalIds(after)| == cfg.retainRuns))
    && (cfg.retainRuns > 0 ==> |TerminalIds(after)| <= cfg.retainRuns)
  }

  lemma WithoutTerminal(runs: map<RunId, Rec>, ids: set<RunId>)
    requires ids <= TerminalIds(runs)
    ensures TerminalIds(runs - ids) == TerminalIds(runs) - ids && RunningIds(runs - ids) == RunningIds(runs)
    ensures TerminalIds(runs) <= runs.Keys
  {
  }

  lemma DropSurplus(cfg: Config, st: State, now: Stamp)
    requires Ordered(st) && forall id | id in st.runs :: !Expired(cfg, st.runs[id], now)
    ensures Retains(cfg, st.runs, st.runs - Surplus(cfg, st.runs), now)
  {
    hide Expired;
    hide Ordered;
    SurplusIsTerminal(cfg, st.runs);
    hide Surplus;
    var surplus := Surplus(cfg, st.runs);
    var after := st.runs - surplus;
    WithoutTerminal(st.runs, surplus);
    hide RunningIds, TerminalIds;
    if cfg.retainRuns > 0 { KeptAtMost(cfg, st); }
    if surplus != {} { DropsOnlyWhenFull(cfg, st); }
    forall a, b | a in TerminalIds(after) && b in st.runs.Keys - after.Keys
      ensures st.runs[b].order < st.runs[a].order
    {
      SurplusIsOlder(cfg, st, a, b);
    }
  }

  lemma SurplusIsTerminal(cfg: Config, runs: map<RunId, Rec>)
    ensures Surplus(cfg, runs) <= TerminalIds(runs)
    ensures cfg.retainRuns == 0 ==> Surplus(cfg, runs) == {}
  {
  }

  lemma SurplusIsOlder(cfg: Config, st: State, a: RunId, b: RunId)
    requires a in TerminalIds(st.runs) - Surplus(cfg, st.runs) && b in Surplus(cfg, st.runs)
    ensures st.runs[b].order < st.runs[a].order
  {
    if st.runs[a].order <= st.runs[b].order { NewerGrows(st, a, b); }
  }

  lemma DropAged(cfg: Config, before: map<RunId, Rec>, young: map<RunId, Rec>, after: map<RunId, Rec>, now: Stamp)
    requires young == before - (set id | id in before && Expired(cfg, before[id], now))
    requires Retains(cfg, young, after, now)
    ensures Retains(cfg, before, after, now)
  {
    assert RunningIds(young) == RunningIds(before);
    forall b | b in before.Keys - after.Keys
      ensures Expired(cfg, before[b], now) || b in young.Keys - after.Keys
    {
    }
  }

  lemma EvictRetains(cfg: Config, st: State, now: Stamp)
    requires Ordered(st)
    ensures Retains(cfg, st.runs, Evict(cfg, st, now).runs, now)
  {
    hide Retains;
    var young := Drop(st, set id | id in st.runs && AgedOut(cfg, st.runs[id], now));
    assert forall id | id in st.runs :: AgedOut(cfg, st.runs[id], now) <==> Expired(cfg, st.runs[id], now);
    DropSurplus(cfg, young, now);
    DropAged(cfg, st.runs, young.runs, Evict(cfg, st, now).runs, now);
  }

  lemma SettleRetention(cfg: Config, base: nat, s: System, e: Event)
    requires Inv(cfg, base, s) && e.ESettle? && Enabled(s, e)
    ensures Retains(cfg, Settlement(s, e).runs, Next(cfg, s, e).st.runs, e.evictAt)
    ensures RunningIds(Next(cfg, s, e).st.runs) == RunningIds(s.st.runs) - {e.id}
  {
    hide Evict;
    var before := Settlement(s, e);
    assert Ordered(before);
    EvictRetains(cfg, before, e.evictAt);
    assert RunningIds(before.runs) == RunningIds(s.st.runs) - {e.id};
  }

  // ----- over whole runs -----

  lemma NeverAboveCap(cfg: Config, initial: seq<(RunId, Rec)>, events: seq<Event>, i: nat)
    requires Startable(initial) && Valid(cfg, Start(initial), events) && i <= |events|
    ensures |RunningIds(At(cfg, Start(initial), events, i).st.runs)| <= cfg.maxConcurrent
  {
    hide Next;
    StartInv(cfg, initial);
    RunInv(cfg, |initial|, Start(initial), events, i);
  }

  lemma NoNewTerminal(cfg: Config, s: System, e: Event)
    requires Enabled(s, e) && !e.ESettle? && s.st.runs.Keys <= s.used
    ensures TerminalIds(Next(cfg, s, e).st.runs) <= TerminalIds(s.st.runs)
  {
    forall id | id in TerminalIds(Next(cfg, s, e).st.runs) ensures id in TerminalIds(s.st.runs) {
      if e.ECreate? && id != e.id { CreateRuns(cfg, s.st, e, id); }
    }
  }

  lemma RunsSplit(runs: map<RunId, Rec>)
    ensures |runs| == |RunningIds(runs)| + |TerminalIds(runs)|
  {
    assert runs.Keys == RunningIds(runs) + TerminalIds(runs);
  }

  lemma NextBounded(cfg: Config, base: nat, s: System, e: Event)
    requires Inv(cfg, base, s) && Enabled(s, e) && cfg.retainRuns > 0
    requires e.ESettle? || |TerminalIds(s.st.runs)| <= cfg.retainRuns
    ensures |TerminalIds(Next(cfg, s, e).st.runs)| <= cfg.retainRuns
  {
    hide Next;
    if e.ESettle? {
      SettleRetention(cfg, base, s, e);
    } else {
      NoNewTerminal(cfg, s, e);
      SubsetSize(TerminalIds(Next(cfg, s, e).st.runs), TerminalIds(s.st.runs));
    }
  }

  // From the first settle on, the registry stays within both limits.
  lemma {:induction false} Bounded(cfg: Config, initial: seq<(RunId, Rec)>, events: seq<Event>, i: nat, j: nat)
    requires Startable(initial) && Valid(cfg, Start(initial), events) && i < j <= |events|
    requires cfg.retainRuns > 0 && events[i].ESettle?
    ensures var runs := At(cfg, Start(initial), events, j).st.runs;
            |TerminalIds(runs)| <= cfg.retainRuns && |runs| <= cfg.maxConcurrent + cfg.retainRuns
    decreases j
  {
    hide Next;
    hide Startable;
    hide RunningIds;
    hide TerminalIds;
    var s := Start(initial);
    var m, e := At(cfg, s, events, j - 1), events[j - 1];
    StartInv(cfg, initial);
    RunInv(cfg, |initial|, s, events, j - 1);
    assert Enabled(m, e);
    if !e.ESettle? { Bounded(cfg, initial, events, i, j - 1); }
    NextBounded(cfg, |initial|, m, e);
    NeverAboveCap(cfg, initial, events, j);
    RunsSplit(At(cfg, s, events, j).st.runs);
  }
}
