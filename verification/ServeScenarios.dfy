// Runs of the registry from given starts, step by step.
module ServeScenarios {
  import opened ServeModel
  import opened ServeTheorems

  function Empty(): System { System(State(map[], map[], 0), {}) }

  lemma EmptyStart()
    ensures Startable([]) && Start([]) == Empty()
  {
  }

  lemma FirstCreate(cfg: Config, e: Event)
    requires cfg.maxConcurrent > 0 && e.ECreate?
    ensures Create(cfg, Empty().st, e.workflow, e.principal, e.correlation, e.keyed, e.id, e.now).1 == Started(e.id)
    ensures var s := Next(cfg, Empty(), e); e.id in s.st.runs && CreatedBy(s.st.runs[e.id], e)
  {
    assert RunningIds(map[]) == {};
  }

  // ----- two loaded runs with one key -----

  // A finished run with key `k`.
  function Ended(k: Key, ms: int): Rec {
    Rec("w", Succeeded, Stamp("", None), Some(Stamp("", Some(ms))), None, None, None, None, false, false, 0, 0,
        Some(k), None, None, None)
  }

  // Two records carry the key and the later one ended earlier, which takes a clock that was
  // set back. Once that one has aged out, a create with the key starts a run beside the other.
  lemma OlderTwinIsPassedOver(k: Key, h: Hash)
    ensures var cfg, initial := Config(2, 0, 1), [("a", Ended(k, 5000)), ("b", Ended(k, 1000))];
            var at := Stamp("", Some(3000));
            var events := [ECreate("w", "p", None, None, "c", at), ESettle("c", Threw(""), at, at),
                           ECreate("w", "p", None, Some(Keyed(k, h)), "d", at)];
            var runs := At(cfg, Start(initial), events, 2).st.runs;
            Startable(initial) && Valid(cfg, Start(initial), events) &&
            "a" in runs && runs["a"].key == Some(k) && "b" !in runs &&
            ReplyAt(cfg, Start(initial), events, 2) == Started("d")
  {
    hide Create, Evict;
    var cfg, initial := Config(2, 0, 1), [("a", Ended(k, 5000)), ("b", Ended(k, 1000))];
    var at := Stamp("", Some(3000));
    var first, settle := ECreate("w", "p", None, None, "c", at), ESettle("c", Threw(""), at, at);
    var again := ECreate("w", "p", None, Some(Keyed(k, h)), "d", at);
    var events := [first, settle, again];
    var s0 := Start(initial);
    TwinSeed(k, initial);
    TwinCreate(cfg, k, s0, at);
    var s1 := Next(cfg, s0, first);
    TwinSettle(cfg, k, s1, at);
    var s2 := Next(cfg, s1, settle);
    assert At(cfg, s0, events, 0) == s0 && At(cfg, s0, events, 1) == s1 && At(cfg, s0, events, 2) == s2;
    TwinAgain(cfg, k, h, s2, at);
  }

  lemma TwinSeed(k: Key, initial: seq<(RunId, Rec)>)
    requires initial == [("a", Ended(k, 5000)), ("b", Ended(k, 1000))]
    ensures Startable(initial)
    ensures Start(initial) ==
            System(State(map["a" := Ended(k, 5000), "b" := Ended(k, 1000).(order := 1)], map[k := "b"], 2), {"a", "b"})
  {
    assert initial[..1] == [("a", Ended(k, 5000))] && initial[..1][..0] == [];
    assert Seed([]) == State(map[], map[], 0);
    assert Seed(initial[..1]) == SeedOne(Seed([]), "a", Ended(k, 5000));
  }

  lemma TwinCreate(cfg: Config, k: Key, s: System, at: Stamp)
    requires cfg.maxConcurrent == 2
    requires s.st.runs == map["a" := Ended(k, 5000), "b" := Ended(k, 1000).(order := 1)] && s.st.index == map[k := "b"]
    ensures var t := Next(cfg, s, ECreate("w", "p", None, None, "c", at));
            t.st == State(s.st.runs["c" := FreshRec(s.st, "w", "p", None, at)], s.st.index, s.st.next + 1) &&
            t.used == s.used + {"c"}
  {
    assert RunningIds(s.st.runs) == {};
  }

  lemma TwinSettle(cfg: Config, k: Key, s: System, at: Stamp)
    requires cfg.retainRuns == 0 && cfg.retainAgeSec == 1 && at.ms == Some(3000)
    requires s.st.runs.Keys == {"a", "b", "c"} && s.st.runs["a"] == Ended(k, 5000) && s.st.runs["c"].status.Running?
    requires s.st.runs["b"] == Ended(k, 1000).(order := 1) && s.st.index == map[k := "b"]
    ensures var t := Next(cfg, s, ESettle("c", Threw(""), at, at));
            t.used == s.used && t.st.runs.Keys == {"a", "c"} && t.st.runs["a"] == Ended(k, 5000) &&
            t.st.runs["c"].status.Terminal() && t.st.index == map[]
  {
    var r := Settled(s.st.runs["c"], Threw(""), at);
    var st := s.st.(runs := s.st.runs["c" := r]);
    var aged := set id | id in st.runs && AgedOut(cfg, st.runs[id], at);
    assert aged == {"b"} by {
      assert AgedOut(cfg, st.runs["b"], at) && !AgedOut(cfg, st.runs["a"], at) && !AgedOut(cfg, st.runs["c"], at);
    }
    assert Drop(st, aged).runs.Keys == {"a", "c"};
    assert Drop(st, aged).index == map[];
  }

  lemma TwinAgain(cfg: Config, k: Key, h: Hash, s: System, at: Stamp)
    requires cfg.maxConcurrent == 2 && s.st.runs.Keys == {"a", "c"} && s.st.index == map[]
    requires s.st.runs["a"].status.Terminal() && s.st.runs["c"].status.Terminal()
    ensures Create(cfg, s.st, "w", "p", None, Some(Keyed(k, h)), "d", at).1 == Started("d")
  {
    assert RunningIds(s.st.runs) == {};
  }
}
