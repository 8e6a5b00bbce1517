// The import closure: `loadModuleGraph` in src/transpile/module-graph.ts.
module ModuleGraph {

  type FilePath = string

  datatype Option<+T> = None | Some(value: T)

  datatype Import = Import(alias: string, path: string)

  // A file on disk: what the parser makes of it.
  datatype Source = Unparsable | Module(imports: seq<Import>)

  // The disk during one load, and the resolution of an import path against its importer.
  datatype World = World(files: map<FilePath, Source>, resolve: (FilePath, string) -> FilePath)

  // ----- reachability -----

  // Alias to resolved path: a later import of the same alias replaces the earlier one.
  function ImportMap(w: World, file: FilePath, imports: seq<Import>): (m: map<string, FilePath>)
    ensures forall i :: 0 <= i < |imports| ==> imports[i].alias in m
  {
    if imports == [] then map[]
    else
      var last := imports[|imports| - 1];
      ImportMap(w, file, imports[..|imports| - 1])[last.alias := w.resolve(file, last.path)]
  }

  // The map by position: an alias stands for the last import that names it.
  lemma {:induction false} LastImportWins(w: World, file: FilePath, imports: seq<Import>, i: nat)
    requires i < |imports|
    requires forall j :: i < j < |imports| ==> imports[j].alias != imports[i].alias
    ensures ImportMap(w, file, imports)[imports[i].alias] == w.resolve(file, imports[i].path)
    decreases |imports|
  {
    if i < |imports| - 1 { LastImportWins(w, file, imports[..|imports| - 1], i); }
  }

  predicate Good(w: World, file: FilePath) {
    file in w.files && w.files[file].Module?
  }

  predicate Imports(w: World, a: FilePath, b: FilePath) {
    Good(w, a) && b in ImportMap(w, a, w.files[a].imports).Values
  }

  // A chain of imports, each file importing the next.
  predicate Chain(w: World, chain: seq<FilePath>) {
    forall i :: 0 < i < |chain| ==> Imports(w, chain[i - 1], chain[i])
  }

  ghost predicate Reachable(w: World, entry: FilePath, file: FilePath) {
    exists chain :: |chain| > 0 && chain[0] == entry && chain[|chain| - 1] == file && Chain(w, chain)
  }

  lemma Extend(w: World, entry: FilePath, a: FilePath, b: FilePath)
    requires Reachable(w, entry, a) && Imports(w, a, b)
    ensures Reachable(w, entry, b)
  {
    var chain :| |chain| > 0 && chain[0] == entry && chain[|chain| - 1] == a && Chain(w, chain);
    var longer := chain + [b];
    assert Chain(w, longer);
  }

  ghost predicate ClosedUnder(w: World, files: set<FilePath>) {
    forall a, b {:trigger Imports(w, a, b)} :: a in files && Imports(w, a, b) ==> b in files
  }

  // What is reachable is in every set that holds the entry and is closed under imports.
  lemma {:induction false} ReachableInClosed(w: World, chain: seq<FilePath>, files: set<FilePath>)
    requires |chain| > 0 && chain[0] in files && Chain(w, chain) && ClosedUnder(w, files)
    ensures chain[|chain| - 1] in files
    decreases |chain|
  {
    if |chain| > 1 {
      var n := |chain| - 1;
      assert Imports(w, chain[n - 1], chain[n]);
      ReachableInClosed(w, chain[..n], files);
      assert chain[..n][n - 1] in files;
    }
  }

  // ----- the graph -----

  datatype Importer = Importer(file: FilePath, alias: string)

  datatype Load =
    | Loaded(modules: map<FilePath, map<string, FilePath>>)
    | NotFound(file: FilePath, importer: Option<Importer>)
    | ParseError(file: FilePath)

  // Every file once, with its imports, in the least set closed under them.
  ghost predicate Closure(w: World, entry: FilePath, modules: map<FilePath, map<string, FilePath>>) {
    (forall f :: f in modules <==> Reachable(w, entry, f)) &&
    (forall f :: f in modules ==> Good(w, f) && modules[f] == ImportMap(w, f, w.files[f].imports))
  }

  lemma ClosureIsLeast(w: World, entry: FilePath, modules: map<FilePath, map<string, FilePath>>, files: set<FilePath>)
    requires Closure(w, entry, modules)
    ensures entry in modules && ClosedUnder(w, modules.Keys)
    ensures entry in files && ClosedUnder(w, files) ==> modules.Keys <= files
  {
    assert Reachable(w, entry, entry) by { assert Chain(w, [entry]); }
    forall a, b | a in modules && Imports(w, a, b) ensures b in modules { Extend(w, entry, a, b); }
    if entry in files && ClosedUnder(w, files) {
      forall f | f in modules ensures f in files {
        var chain :| |chain| > 0 && chain[0] == entry && chain[|chain| - 1] == f && Chain(w, chain);
        ReachableInClosed(w, chain, files);
      }
    }
  }

  // ----- the walk -----

  datatype Queued = Queued(file: FilePath, importer: Option<Importer>)

  // What holds between two turns of the loop.
  ghost predicate Walking(w: World, entry: FilePath, modules: map<FilePath, map<string, FilePath>>,
                          queue: seq<Queued>)
  {
    && (forall f :: f in modules ==> Reachable(w, entry, f) && Good(w, f) &&
                                     modules[f] == ImportMap(w, f, w.files[f].imports))
    && (forall q :: q in queue ==> Reachable(w, entry, q.file) && Explained(entry, modules, q))
    && Waits(modules, queue, entry)
    && Covered(w, modules, queue)
  }

  predicate Explained(entry: FilePath, modules: map<FilePath, map<string, FilePath>>, q: Queued) {
    match q.importer
    case None => q.file == entry
    case Some(i) => i.file in modules && i.alias in modules[i.file] && modules[i.file][i.alias] == q.file
  }

  predicate Waits(modules: map<FilePath, map<string, FilePath>>, queue: seq<Queued>, file: FilePath) {
    file in modules || exists q :: q in queue && q.file == file
  }

  ghost predicate Covered(w: World, modules: map<FilePath, map<string, FilePath>>, queue: seq<Queued>) {
    forall a, b {:trigger Imports(w, a, b)} :: a in modules && Imports(w, a, b) ==> Waits(modules, queue, b)
  }

  predicate TargetsWait(imports: map<string, FilePath>, modules: map<FilePath, map<string, FilePath>>,
                        queue: seq<Queued>)
  {
    forall alias :: alias in imports ==> Waits(modules, queue, imports[alias])
  }

  lemma WalkDone(w: World, entry: FilePath, modules: map<FilePath, map<string, FilePath>>)
    requires Walking(w, entry, modules, [])
    ensures Closure(w, entry, modules)
  {
    assert Waits(modules, [], entry);
    forall f | Reachable(w, entry, f) ensures f in modules {
      var chain :| |chain| > 0 && chain[0] == entry && chain[|chain| - 1] == f && Chain(w, chain);
      assert ClosedUnder(w, modules.Keys);
      ReachableInClosed(w, chain, modules.Keys);
    }
  }

  // The queue entries of one module: each import whose target is not loaded yet.
  method Enqueue(w: World, current: FilePath, imports: seq<Import>, modules: map<FilePath, map<string, FilePath>>,
                 queue: seq<Queued>)
    returns (r: seq<Queued>)
    requires current in modules && modules[current] == ImportMap(w, current, imports)
    ensures Enqueued(current, modules[current], queue, r)
    ensures TargetsWait(modules[current], modules, r)
  {
    r := queue;
    for i := 0 to |imports|
      invariant Enqueued(current, modules[current], queue, r)
      invariant forall j :: 0 <= j < i ==> Waits(modules, r, modules[current][imports[j].alias])
    {
      var target := modules[current][imports[i].alias];
      if target !in modules {
        var item := Queued(target, Some(Importer(current, imports[i].alias)));
        ghost var before := r;
        r := r + [item];
        assert r[|queue|..] == before[|queue|..] + [item];
        assert item in r;
      }
    }
    forall alias | alias in modules[current] ensures Waits(modules, r, modules[current][alias]) {
      AliasIsImported(w, current, imports, alias);
    }
  }

  lemma {:induction false} AliasIsImported(w: World, file: FilePath, imports: seq<Import>, alias: string)
    requires alias in ImportMap(w, file, imports)
    ensures exists i :: 0 <= i < |imports| && imports[i].alias == alias
    decreases |imports|
  {
    var n := |imports| - 1;
    if imports[n].alias != alias {
      AliasIsImported(w, file, imports[..n], alias);
      var i :| 0 <= i < n && imports[..n][i].alias == alias;
      assert imports[i].alias == alias;
    }
  }

  // The queue after the module at its head was loaded: the rest, and what it imports.
  predicate Enqueued(file: FilePath, imports: map<string, FilePath>, rest: seq<Queued>, queue: seq<Queued>) {
    rest <= queue &&
    forall q :: q in queue[|rest|..] ==>
      q.importer.Some? && q.importer.value.file == file &&
      q.importer.value.alias in imports && imports[q.importer.value.alias] == q.file
  }

  lemma StepExplained(w: World, entry: FilePath, modules: map<FilePath, map<string, FilePath>>, head: Queued,
                      rest: seq<Queued>, queue: seq<Queued>, imports: map<string, FilePath>, q: Queued)
    requires Walking(w, entry, modules, [head] + rest) && head.file !in modules && Good(w, head.file)
    requires imports == ImportMap(w, head.file, w.files[head.file].imports)
    requires Enqueued(head.file, imports, rest, queue) && q in queue
    ensures Reachable(w, entry, q.file) && Explained(entry, modules[head.file := imports], q)
  {
    assert head in [head] + rest;
    var i :| 0 <= i < |queue| && queue[i] == q;
    if i < |rest| {
      assert q == rest[i] && q in [head] + rest;
    } else {
      assert q == queue[|rest|..][i - |rest|];
      assert q.file in imports.Values;
      Extend(w, entry, head.file, q.file);
    }
  }

  lemma StepCovered(w: World, modules: map<FilePath, map<string, FilePath>>, head: Queued,
                    rest: seq<Queued>, queue: seq<Queued>, imports: map<string, FilePath>)
    requires Covered(w, modules, [head] + rest) && head.file !in modules && Good(w, head.file)
    requires imports == ImportMap(w, head.file, w.files[head.file].imports)
    requires rest <= queue && TargetsWait(imports, modules[head.file := imports], queue)
    ensures Covered(w, modules[head.file := imports], queue)
  {
    var more := modules[head.file := imports];
    forall a, b | a in more && Imports(w, a, b) ensures Waits(more, queue, b) {
      if a == head.file {
        assert b in imports.Values;
        var alias :| alias in imports && imports[alias] == b;
      } else {
        assert Waits(modules, [head] + rest, b);
        StillWaits(modules, head, rest, queue, more, b);
      }
    }
  }

  lemma WalkStep(w: World, entry: FilePath, modules: map<FilePath, map<string, FilePath>>, head: Queued,
                 rest: seq<Queued>, queue: seq<Queued>, imports: map<string, FilePath>)
    requires Walking(w, entry, modules, [head] + rest) && head.file !in modules && Good(w, head.file)
    requires imports == ImportMap(w, head.file, w.files[head.file].imports)
    requires Enqueued(head.file, imports, rest, queue)
    requires TargetsWait(imports, modules[head.file := imports], queue)
    ensures Walking(w, entry, modules[head.file := imports], queue)
  {
    hide Covered, Explained, Waits, TargetsWait, Reachable, ImportMap;
    var more := modules[head.file := imports];
    assert head in [head] + rest;
    forall q | q in queue ensures Reachable(w, entry, q.file) && Explained(entry, more, q) {
      StepExplained(w, entry, modules, head, rest, queue, imports, q);
    }

    StillWaits(modules, head, rest, queue, more, entry);
    StepCovered(w, modules, head, rest, queue, imports);
  }

  lemma StillWaits(modules: map<FilePath, map<string, FilePath>>, head: Queued, rest: seq<Queued>, queue: seq<Queued>,
                   more: map<FilePath, map<string, FilePath>>, file: FilePath)
    requires Waits(modules, [head] + rest, file) && rest <= queue
    requires modules.Keys <= more.Keys && head.file in more
    ensures Waits(more, queue, file)
  {
    if file !in more {
      var q :| q in [head] + rest && q.file == file;
      assert q in rest;
      assert q in queue;
    }
  }

  lemma WalkSkip(w: World, entry: FilePath, modules: map<FilePath, map<string, FilePath>>, head: Queued,
                 rest: seq<Queued>)
    requires Walking(w, entry, modules, [head] + rest) && head.file in modules
    ensures Walking(w, entry, modules, rest)
  {
    assert forall q :: q in rest ==> q in [head] + rest;
    StillWaits(modules, head, rest, rest, modules, entry);
    forall a, b | a in modules && Imports(w, a, b) ensures Waits(modules, rest, b) {
      StillWaits(modules, head, rest, rest, modules, b);
    }
  }

  lemma WalkStart(w: World, entry: FilePath)
    ensures Walking(w, entry, map[], [Queued(entry, None)])
  {
    var queue := [Queued(entry, None)];
    assert Reachable(w, entry, entry) by { assert Chain(w, [entry]); }
    assert Waits(map[], queue, entry) by { assert queue[0] in queue; }
  }

  // ----- breadth first -----

  // A chain of at most `d` imports leads from the entry to the file.
  ghost predicate Within(w: World, entry: FilePath, file: FilePath, d: nat)
    decreases d
  {
    if d == 0 then file == entry
    else Within(w, entry, file, d - 1) || exists a :: Within(w, entry, a, d - 1) && Imports(w, a, file)
  }

  lemma {:induction false} WithinMore(w: World, entry: FilePath, file: FilePath, d: nat, e: nat)
    requires Within(w, entry, file, d) && d <= e
    ensures Within(w, entry, file, e)
    decreases e
  {
    if d < e { WithinMore(w, entry, file, d, e - 1); }
  }

  // Wanted at distance `d` at most: loaded there, or waiting there.
  predicate Due(dist: map<FilePath, nat>, queue: seq<Queued>, levels: seq<nat>, file: FilePath, d: nat)
    requires |levels| == |queue|
  {
    (file in dist && dist[file] <= d) || exists i :: 0 <= i < |queue| && queue[i].file == file && levels[i] <= d
  }

  // Levels ascend by one at most, and no file was loaded beyond the first of them.
  predicate Levels(dist: map<FilePath, nat>, queue: seq<Queued>, levels: seq<nat>) {
    && |levels| == |queue|
    && (forall i, j :: 0 <= i <= j < |levels| ==> levels[i] <= levels[j] <= levels[i] + 1)
    && (forall f, i :: f in dist && 0 <= i < |levels| ==> dist[f] <= levels[i])
  }

  ghost predicate Distances(w: World, entry: FilePath, dist: map<FilePath, nat>, queue: seq<Queued>, levels: seq<nat>)
    requires |levels| == |queue|
  {
    && (forall i :: 0 <= i < |levels| ==> Within(w, entry, queue[i].file, levels[i]))
    && (forall f :: f in dist ==> Within(w, entry, f, dist[f]))
    && (forall f, d: nat :: f in dist && Within(w, entry, f, d) ==> dist[f] <= d)
  }

  ghost predicate TargetsDue(w: World, entry: FilePath, dist: map<FilePath, nat>, queue: seq<Queued>, levels: seq<nat>)
    requires |levels| == |queue|
  {
    && (forall a, b {:trigger Imports(w, a, b)} ::
          a in dist && Imports(w, a, b) ==> Due(dist, queue, levels, b, dist[a] + 1))
    && Due(dist, queue, levels, entry, 0)
  }

  // The files loaded, with their distances, and the queue with the level of each entry.
  ghost predicate Breadth(w: World, entry: FilePath, dist: map<FilePath, nat>, queue: seq<Queued>, levels: seq<nat>) {
    && Levels(dist, queue, levels) && Distances(w, entry, dist, queue, levels)
    && TargetsDue(w, entry, dist, queue, levels)
  }

  lemma BreadthStart(w: World, entry: FilePath)
    ensures Breadth(w, entry, map[], [Queued(entry, None)], [0])
  {
    var queue, levels: seq<nat> := [Queued(entry, None)], [0];
    assert queue[0].file == entry && levels[0] <= 0;
    assert Due(map[], queue, levels, entry, 0);
  }

  // What is near is loaded, or something as near waits.
  lemma {:induction false} NearFirst(w: World, entry: FilePath, dist: map<FilePath, nat>, queue: seq<Queued>,
                                     levels: seq<nat>, file: FilePath, d: nat)
    requires Breadth(w, entry, dist, queue, levels) && Within(w, entry, file, d)
    ensures (file in dist && dist[file] <= d) || exists i :: 0 <= i < |levels| && levels[i] <= d
    decreases d
  {
    if d > 0 {
      if Within(w, entry, file, d - 1) {
        NearFirst(w, entry, dist, queue, levels, file, d - 1);
      } else {
        var a :| Within(w, entry, a, d - 1) && Imports(w, a, file);
        NearFirst(w, entry, dist, queue, levels, a, d - 1);
      }
    }
  }

  // The file at the head is no nearer than its level, and everything nearer is loaded.
  lemma HeadIsNearest(w: World, entry: FilePath, dist: map<FilePath, nat>, queue: seq<Queued>, levels: seq<nat>)
    requires Breadth(w, entry, dist, queue, levels) && queue != [] && queue[0].file !in dist
    ensures forall d: nat :: Within(w, entry, queue[0].file, d) <==> levels[0] <= d
    ensures forall f, d: nat :: d < levels[0] && Within(w, entry, f, d) ==> f in dist
  {
    forall d: nat ensures Within(w, entry, queue[0].file, d) <==> levels[0] <= d {
      if levels[0] <= d { WithinMore(w, entry, queue[0].file, levels[0], d); }
      if Within(w, entry, queue[0].file, d) { NearFirst(w, entry, dist, queue, levels, queue[0].file, d); }
    }
    forall f, d: nat | d < levels[0] && Within(w, entry, f, d) ensures f in dist {
      NearFirst(w, entry, dist, queue, levels, f, d);
    }
  }

  lemma DueStays(dist: map<FilePath, nat>, queue: seq<Queued>, levels: seq<nat>, more: map<FilePath, nat>,
                 longer: seq<Queued>, higher: seq<nat>, file: FilePath, d: nat)
    requires queue != [] && |levels| == |queue| && |higher| == |longer| && Due(dist, queue, levels, file, d)
    requires queue[1..] <= longer && levels[1..] <= higher
    requires queue[0].file in more && more[queue[0].file] <= levels[0]
    requires forall f :: f in dist ==> f in more && more[f] <= dist[f]
    ensures Due(more, longer, higher, file, d)
  {
    if !(file in dist && dist[file] <= d) {
      var i :| 0 <= i < |queue| && queue[i].file == file && levels[i] <= d;
      if i > 0 { assert longer[i - 1] == queue[1..][i - 1] && higher[i - 1] == levels[1..][i - 1]; }
    }
  }

  lemma BreadthSkip(w: World, entry: FilePath, dist: map<FilePath, nat>, queue: seq<Queued>, levels: seq<nat>)
    requires Breadth(w, entry, dist, queue, levels) && queue != [] && queue[0].file in dist
    ensures levels != [] && Breadth(w, entry, dist, queue[1..], levels[1..])
  {
    hide Due, Within;
    forall a, b | a in dist && Imports(w, a, b) ensures Due(dist, queue[1..], levels[1..], b, dist[a] + 1) {
      DueStays(dist, queue, levels, dist, queue[1..], levels[1..], b, dist[a] + 1);
    }
    DueStays(dist, queue, levels, dist, queue[1..], levels[1..], entry, 0);
  }

  lemma BreadthStep(w: World, entry: FilePath, dist: map<FilePath, nat>, queue: seq<Queued>, levels: seq<nat>,
                    modules: map<FilePath, map<string, FilePath>>, longer: seq<Queued>)
    returns (more: map<FilePath, nat>, higher: seq<nat>)
    requires Breadth(w, entry, dist, queue, levels) && queue != [] && queue[0].file !in dist && Good(w, queue[0].file)
    requires var h := queue[0].file;
             modules.Keys == dist.Keys + {h} && modules[h] == ImportMap(w, h, w.files[h].imports) &&
             Enqueued(h, modules[h], queue[1..], longer) && TargetsWait(modules[h], modules, longer)
    ensures more == dist[queue[0].file := levels[0]] && Breadth(w, entry, more, longer, higher)
  {
    hide Distances, TargetsDue, TargetsWait;
    more := dist[queue[0].file := levels[0]];
    higher := levels[1..] + seq(|longer| - |queue| + 1, _ => levels[0] + 1);
    StepDistances(w, entry, dist, queue, levels, modules, longer, more, higher);
    StepTargets(w, entry, dist, queue, levels, modules, longer, more, higher);
  }

  // The distances and levels of a step: the new entries lie one level further.
  predicate Longer(dist: map<FilePath, nat>, queue: seq<Queued>, levels: seq<nat>, longer: seq<Queued>,
                   more: map<FilePath, nat>, higher: seq<nat>)
  {
    && queue != [] && |levels| == |queue| && |higher| == |longer| && queue[1..] <= longer && levels[1..] <= higher
    && more == dist[queue[0].file := levels[0]]
    && (forall i :: |queue| - 1 <= i < |higher| ==> higher[i] == levels[0] + 1)
  }

  lemma StepDistances(w: World, entry: FilePath, dist: map<FilePath, nat>, queue: seq<Queued>, levels: seq<nat>,
                      modules: map<FilePath, map<string, FilePath>>, longer: seq<Queued>,
                      more: map<FilePath, nat>, higher: seq<nat>)
    requires Breadth(w, entry, dist, queue, levels) && Longer(dist, queue, levels, longer, more, higher)
    requires queue[0].file !in dist && Good(w, queue[0].file) && queue[0].file in modules
    requires var h := queue[0].file;
             modules[h] == ImportMap(w, h, w.files[h].imports) && Enqueued(h, modules[h], queue[1..], longer)
    ensures Distances(w, entry, more, longer, higher)
  {
    hide TargetsDue, Within;
    var h := queue[0].file;
    HeadIsNearest(w, entry, dist, queue, levels);
    forall i | 0 <= i < |higher| ensures Within(w, entry, longer[i].file, higher[i]) {
      if i < |queue| - 1 {
        assert longer[i] == queue[1..][i] && higher[i] == levels[1..][i];
      } else {
        assert longer[i] == longer[|queue[1..]|..][i - |queue[1..]|];
        ImportedWithin(w, entry, h, modules[h], longer[i].file, levels[0]);
      }
    }
  }

  lemma StepTargets(w: World, entry: FilePath, dist: map<FilePath, nat>, queue: seq<Queued>, levels: seq<nat>,
                    modules: map<FilePath, map<string, FilePath>>, longer: seq<Queued>,
                    more: map<FilePath, nat>, higher: seq<nat>)
    requires Breadth(w, entry, dist, queue, levels) && Longer(dist, queue, levels, longer, more, higher)
    requires queue[0].file !in dist && Good(w, queue[0].file) && modules.Keys == more.Keys
    requires var h := queue[0].file;
             modules[h] == ImportMap(w, h, w.files[h].imports) && TargetsWait(modules[h], modules, longer)
    ensures TargetsDue(w, entry, more, longer, higher)
  {
    hide Distances, Due;
    forall a, b | a in more && Imports(w, a, b) ensures Due(more, longer, higher, b, more[a] + 1) {
      if a == queue[0].file {
        assert forall i | 0 <= i < |queue| - 1 :: higher[i] == levels[1..][i];
        HeadTargetDue(w, dist, queue, levels, modules, longer, more, higher, b);
      } else {
        DueStays(dist, queue, levels, more, longer, higher, b, dist[a] + 1);
      }
    }
    DueStays(dist, queue, levels, more, longer, higher, entry, 0);
  }

  lemma ImportedWithin(w: World, entry: FilePath, h: FilePath, imports: map<string, FilePath>, file: FilePath, l: nat)
    requires Good(w, h) && imports == ImportMap(w, h, w.files[h].imports) && Within(w, entry, h, l)
    requires exists alias :: alias in imports && imports[alias] == file
    ensures Within(w, entry, file, l + 1)
  {
    var alias :| alias in imports && imports[alias] == file;
    assert file in imports.Values;
    assert Imports(w, h, file);
  }

  lemma HeadTargetDue(w: World, dist: map<FilePath, nat>, queue: seq<Queued>, levels: seq<nat>,
                      modules: map<FilePath, map<string, FilePath>>, longer: seq<Queued>,
                      more: map<FilePath, nat>, higher: seq<nat>, b: FilePath)
    requires queue != [] && Good(w, queue[0].file) && Imports(w, queue[0].file, b)
    requires |levels| == |queue| && |higher| == |longer| && more == dist[queue[0].file := levels[0]]
    requires modules.Keys == more.Keys
    requires modules[queue[0].file] == ImportMap(w, queue[0].file, w.files[queue[0].file].imports)
    requires TargetsWait(modules[queue[0].file], modules, longer)
    requires forall f :: f in dist ==> dist[f] <= levels[0]
    requires forall i :: 0 <= i < |higher| ==> higher[i] <= levels[0] + 1
    ensures Due(more, longer, higher, b, levels[0] + 1)
  {
    var m := modules[queue[0].file];
    var alias :| alias in m && m[alias] == b;
    assert Waits(modules, longer, b);
    if b !in modules {
      var q :| q in longer && q.file == b;
      var i :| 0 <= i < |longer| && longer[i] == q;
    }
  }

  // The file is reachable; an importer given for it is, too, and imports it by that alias.
  ghost predicate Blamed(w: World, entry: FilePath, file: FilePath, importer: Option<Importer>) {
    Reachable(w, entry, file) &&
    match importer
    case None => file == entry
    case Some(i) =>
      Reachable(w, entry, i.file) && Good(w, i.file) &&
      var m := ImportMap(w, i.file, w.files[i.file].imports);
      i.alias in m && m[i.alias] == file
  }

  lemma HeadBlamed(w: World, entry: FilePath, modules: map<FilePath, map<string, FilePath>>, head: Queued,
                   rest: seq<Queued>)
    requires Walking(w, entry, modules, [head] + rest)
    ensures Blamed(w, entry, head.file, head.importer)
  {
    assert head in [head] + rest;
  }

  // Every file nearer to the entry than this one was parsed before, and is good.
  ghost predicate NearestBad(w: World, entry: FilePath, file: FilePath, parsed: seq<FilePath>) {
    forall f, d: nat :: Within(w, entry, f, d) && !Within(w, entry, file, d) ==> f in parsed && Good(w, f)
  }

  // The nearer files come first.
  ghost predicate NearestFirst(w: World, entry: FilePath, parsed: seq<FilePath>) {
    forall i, j, d: nat :: 0 <= i < j < |parsed| && Within(w, entry, parsed[j], d) ==> Within(w, entry, parsed[i], d)
  }

  // `parsed` lists the files read and parsed, in order.
  method LoadModuleGraph(w: World, entry: FilePath) returns (r: Load, parsed: seq<FilePath>)
    ensures r.Loaded? <==> forall f :: Reachable(w, entry, f) ==> Good(w, f)
    ensures r.Loaded? ==> Closure(w, entry, r.modules) && (forall f :: f in parsed <==> f in r.modules)
    ensures r.NotFound? ==> Blamed(w, entry, r.file, r.importer) && r.file !in w.files
    ensures r.ParseError? ==> Reachable(w, entry, r.file) && r.file in w.files && w.files[r.file].Unparsable?
    ensures !r.Loaded? ==> NearestBad(w, entry, r.file, parsed)
    ensures NearestFirst(w, entry, parsed)
    ensures forall i, j :: 0 <= i < j < |parsed| ==> parsed[i] != parsed[j]
  {
    hide Walking, Closure, Reachable, ImportMap, Enqueued, TargetsWait, Breadth, Within;
    var modules: map<FilePath, map<string, FilePath>> := map[];
    var queue := [Queued(entry, None)];
    parsed := [];
    ghost var dist: map<FilePath, nat>, levels := map[], [0];
    WalkStart(w, entry);
    BreadthStart(w, entry);
    while queue != []
      invariant Walking(w, entry, modules, queue)
      invariant forall f :: f in parsed <==> f in modules
      invariant forall i, j :: 0 <= i < j < |parsed| ==> parsed[i] != parsed[j]
      invariant Breadth(w, entry, dist, queue, levels) && dist.Keys == modules.Keys
      invariant NearestFirst(w, entry, parsed)
      decreases w.files.Keys - modules.Keys, |queue|
    {
      var head := queue[0];
      ghost var whole := queue;
      assert queue == [head] + queue[1..];
      queue := queue[1..];
      HeadBlamed(w, entry, modules, head, queue);
      if head.file in modules {
        WalkSkip(w, entry, modules, head, queue);
        BreadthSkip(w, entry, dist, whole, levels);
        levels := levels[1..];
        continue;
      }
      NextParsed(w, entry, modules, whole, levels, dist, parsed);
      if head.file !in w.files { return NotFound(head.file, head.importer), parsed; }
      parsed := parsed + [head.file];
      if w.files[head.file].Unparsable? { return ParseError(head.file), parsed; }
      var imports := w.files[head.file].imports;
      var node := ImportMap(w, head.file, imports);
      ghost var loaded := modules;
      modules := modules[head.file := node];
      var longer := Enqueue(w, head.file, imports, modules, queue);
      WalkStep(w, entry, loaded, head, queue, longer, node);
      dist, levels := BreadthStep(w, entry, dist, whole, levels, modules, longer);
      queue := longer;
      assert head.file in w.files.Keys - loaded.Keys;
    }
    WalkDone(w, entry, modules);
    ClosureIsGood(w, entry, modules);
    return Loaded(modules), parsed;
  }

  // The file at the head is a nearest one left.
  lemma NextParsed(w: World, entry: FilePath, modules: map<FilePath, map<string, FilePath>>, queue: seq<Queued>,
                   levels: seq<nat>, dist: map<FilePath, nat>, parsed: seq<FilePath>)
    requires Walking(w, entry, modules, queue) && Breadth(w, entry, dist, queue, levels) && dist.Keys == modules.Keys
    requires queue != [] && queue[0].file !in dist && forall f :: f in parsed <==> f in modules
    requires NearestFirst(w, entry, parsed)
    ensures NearestBad(w, entry, queue[0].file, parsed)
    ensures NearestBad(w, entry, queue[0].file, parsed + [queue[0].file])
    ensures NearestFirst(w, entry, parsed + [queue[0].file])
  {
    hide Within, Reachable, ImportMap, Explained, Waits, Covered, Due;
    HeadIsNearest(w, entry, dist, queue, levels);
    var longer := parsed + [queue[0].file];
    forall i, j, d: nat | 0 <= i < j < |longer| && Within(w, entry, longer[j], d)
      ensures Within(w, entry, longer[i], d)
    {
      assert longer[i] == parsed[i] && parsed[i] in parsed;
      if j == |parsed| { WithinMore(w, entry, parsed[i], dist[parsed[i]], d); }
    }
  }

  lemma ClosureIsGood(w: World, entry: FilePath, modules: map<FilePath, map<string, FilePath>>)
    requires Closure(w, entry, modules)
    ensures forall f :: Reachable(w, entry, f) ==> Good(w, f)
  {
  }

  // An import shadowed by a later one of the same alias is not followed, so its target may be
  // missing.
  lemma ShadowedImportIsNotLoaded(alias: string, a: string, b: string)
    requires a != b && "entry" != a && "entry" != b
    ensures var w := World(map["entry" := Module([Import(alias, a), Import(alias, b)]), b := Module([])],
                           (importer, path) => path);
            !Reachable(w, "entry", a) && Reachable(w, "entry", b) &&
            forall f :: Reachable(w, "entry", f) ==> Good(w, f)
  {
    var imports := [Import(alias, a), Import(alias, b)];
    var w := World(map["entry" := Module(imports), b := Module([])], (importer, path) => path);
    var first := [Import(alias, a)];
    assert imports[..1] == first && first[..0] == [];
    assert ImportMap(w, "entry", first) == map[alias := a];
    assert ImportMap(w, "entry", imports) == map[alias := b];
    var files := {"entry", b};
    assert ImportMap(w, b, []) == map[];
    assert ClosedUnder(w, files);
    forall f | Reachable(w, "entry", f) ensures f in files {
      var chain :| |chain| > 0 && chain[0] == "entry" && chain[|chain| - 1] == f && Chain(w, chain);
      ReachableInClosed(w, chain, files);
    }
    var m := ImportMap(w, "entry", imports);
    assert m[alias] == b && alias in m;
    assert Imports(w, "entry", b);
    assert Chain(w, ["entry", b]);
    var chain := ["entry", b];
    assert chain[|chain| - 1] == b;
  }
}
