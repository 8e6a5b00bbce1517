// The binding discipline of workflow bodies: `walkStepTree` in src/transpile/validate.ts.
module Bindings {

  datatype Option<+T> = None | Some(value: T)

  datatype Step =
    | Const(name: string)
    | Exec(capture: Option<string>, onCatch: Clause, onRecover: Clause)
    | If(body: seq<Step>, elseArm: Arm)
    | For(iterVar: string, body: seq<Step>)
    | Other(what: string)

  datatype Clause = NoClause | Clause(failure: string, steps: seq<Step>)

  datatype Arm = NoArm | Arm(steps: seq<Step>)

  // ----- the walk -----

  // The names bound in the scope after a successful walk, or a rebinding.
  datatype Walk = Bound(names: set<string>) | Rebound

  function BindName(name: string, names: set<string>, scripts: set<string>): Walk {
    if name in names || name in scripts then Rebound else Bound(names + {name})
  }

  function WalkSteps(steps: seq<Step>, names: set<string>, scripts: set<string>): Walk
    decreases steps, 1
  {
    if steps == [] then Bound(names)
    else
      var first := WalkStep(steps[0], names, scripts);
      if first.Rebound? then Rebound else WalkSteps(steps[1..], first.names, scripts)
  }

  function WalkStep(s: Step, names: set<string>, scripts: set<string>): Walk
    decreases s, 1
  {
    match s
    case Const(n) => BindName(n, names, scripts)
    case Exec(capture, onCatch, onRecover) =>
      var a := if capture.None? then Bound(names) else BindName(capture.value, names, scripts);
      if a.Rebound? then Rebound
      else
        var b := WalkClause(onCatch, a.names, scripts);
        if b.Rebound? then Rebound else WalkClause(onRecover, b.names, scripts)
    case If(body, elseArm) =>
      var a := WalkSteps(body, names, scripts);
      if a.Rebound? || elseArm.NoArm? then a else WalkSteps(elseArm.steps, a.names, scripts)
    case For(v, body) =>
      if v in names then Rebound
      else if WalkSteps(body, names + {v}, scripts).Rebound? then Rebound
      else Bound(names)
    case Other(_) => Bound(names)
  }

  function WalkClause(c: Clause, names: set<string>, scripts: set<string>): Walk
    decreases c, 0
  {
    if c.NoClause? then Bound(names) else WalkSteps(c.steps, names, scripts)
  }

  // ----- executions -----

  // What an execution binds: a name in the current scope, or a scope of its own that first
  // introduces some names (the loop variable) and ends again.
  datatype Event = Bind(name: string) | Enter(introduced: set<string>, inside: seq<Event>)

  // No name is bound while it is already bound in the scope or around it, and none that is
  // bound is the name of a script.
  predicate Disciplined(events: seq<Event>, names: set<string>, scripts: set<string>) {
    events == [] ||
    match events[0]
    case Bind(n) => n !in names && n !in scripts && Disciplined(events[1..], names + {n}, scripts)
    case Enter(x, inside) =>
      x !! names && Disciplined(inside, names + x, scripts) && Disciplined(events[1..], names, scripts)
  }

  function After(events: seq<Event>, names: set<string>): set<string> {
    if events == [] then names
    else After(events[1..], if events[0].Bind? then names + {events[0].name} else names)
  }

  // How one step is executed. A step list is followed as far as there are choices, so runs
  // that stop early are executions too.
  datatype Choice = Choice(
    thenArm: bool, arm: seq<Choice>,            // an `if`: which arm, and its run
    iterations: seq<seq<Choice>>,               // a `for`: one run of the body per line
    binds: When, catchRun: Runs, recoverRun: Runs)

  datatype When = Never | First | Last

  // A clause body runs in the scope of its step, at most once, or in scopes of its own, any
  // number of times.
  datatype Runs = Skipped | InScope(run: seq<Choice>) | Apart(runs: seq<seq<Choice>>)

  function Execute(steps: seq<Step>, choices: seq<Choice>): seq<Event>
    decreases steps, 1, |choices|
  {
    if steps == [] || choices == [] then []
    else ExecuteStep(steps[0], choices[0]) + Execute(steps[1..], choices[1..])
  }

  function ExecuteStep(s: Step, c: Choice): seq<Event>
    decreases s, 2, 0
  {
    match s
    case Const(n) => [Bind(n)]
    case Exec(capture, onCatch, onRecover) =>
      var mine := if capture.None? || c.binds.Never? then [] else [Bind(capture.value)];
      var clauses := ExecuteClause(onCatch, c.catchRun) + ExecuteClause(onRecover, c.recoverRun);
      if c.binds.First? then mine + clauses else clauses + mine
    case If(body, elseArm) =>
      if c.thenArm then Execute(body, c.arm)
      else if elseArm.Arm? then Execute(elseArm.steps, c.arm)
      else []
    case For(v, body) => Scopes({v}, body, c.iterations)
    case Other(_) => []
  }

  function ExecuteClause(c: Clause, r: Runs): seq<Event>
    decreases c, 2, 0
  {
    if c.NoClause? then []
    else
      match r
      case Skipped => []
      case InScope(run) => Execute(c.steps, run)
      case Apart(runs) => Scopes({}, c.steps, runs)
  }

  function Scopes(introduced: set<string>, steps: seq<Step>, runs: seq<seq<Choice>>): seq<Event>
    decreases steps, 2, |runs|
  {
    if runs == [] then []
    else [Enter(introduced, Execute(steps, runs[0]))] + Scopes(introduced, steps, runs[1..])
  }

  // ----- soundness -----

  lemma {:induction false} Concat(a: seq<Event>, b: seq<Event>, names: set<string>, scripts: set<string>)
    ensures Disciplined(a + b, names, scripts) <==>
            Disciplined(a, names, scripts) && Disciplined(b, After(a, names), scripts)
    ensures After(a + b, names) == After(b, After(a, names))
    decreases |a|
  {
    if a == [] {
      assert a + b == b;
    } else {
      Concat(a[1..], b, if a[0].Bind? then names + {a[0].name} else names, scripts);
      assert (a + b)[1..] == a[1..] + b;
    }
  }

  lemma {:induction false} WalkGrows(steps: seq<Step>, names: set<string>, scripts: set<string>)
    ensures var w := WalkSteps(steps, names, scripts); w.Bound? ==> names <= w.names
    decreases steps, 1
  {
    if steps != [] {
      StepGrows(steps[0], names, scripts);
      var first := WalkStep(steps[0], names, scripts);
      if first.Bound? { WalkGrows(steps[1..], first.names, scripts); }
    }
  }

  lemma {:induction false} StepGrows(s: Step, names: set<string>, scripts: set<string>)
    ensures var w := WalkStep(s, names, scripts); w.Bound? ==> names <= w.names
    decreases s, 1
  {
    match s
    case Exec(capture, onCatch, onRecover) =>
      var a := if capture.None? then Bound(names) else BindName(capture.value, names, scripts);
      if a.Bound? {
        ClauseGrows(onCatch, a.names, scripts);
        var b := WalkClause(onCatch, a.names, scripts);
        if b.Bound? { ClauseGrows(onRecover, b.names, scripts); }
      }
    case If(body, elseArm) =>
      WalkGrows(body, names, scripts);
      var a := WalkSteps(body, names, scripts);
      if a.Bound? && elseArm.Arm? { WalkGrows(elseArm.steps, a.names, scripts); }
    case _ =>
  }

  lemma {:induction false} ClauseGrows(c: Clause, names: set<string>, scripts: set<string>)
    ensures var w := WalkClause(c, names, scripts); w.Bound? ==> names <= w.names
    decreases c, 0
  {
    if c.Clause? { WalkGrows(c.steps, names, scripts); }
  }

  // After a successful walk every execution, from any of the names the walk knew, keeps the
  // discipline and binds no more than the walk recorded.
  lemma {:induction false} StepsSound(steps: seq<Step>, choices: seq<Choice>, names: set<string>, known: set<string>,
                                      scripts: set<string>)
    requires WalkSteps(steps, known, scripts).Bound? && names <= known
    ensures Disciplined(Execute(steps, choices), names, scripts)
    ensures After(Execute(steps, choices), names) <= WalkSteps(steps, known, scripts).names
    decreases steps, 1, |choices|
  {
    WalkGrows(steps, known, scripts);
    if steps != [] && choices != [] {
      var first := WalkStep(steps[0], known, scripts);
      var done := ExecuteStep(steps[0], choices[0]);
      StepSound(steps[0], choices[0], names, known, scripts);
      StepsSound(steps[1..], choices[1..], After(done, names), first.names, scripts);
      Concat(done, Execute(steps[1..], choices[1..]), names, scripts);
    }
  }

  lemma {:induction false} StepSound(s: Step, c: Choice, names: set<string>, known: set<string>, scripts: set<string>)
    requires WalkStep(s, known, scripts).Bound? && names <= known
    ensures Disciplined(ExecuteStep(s, c), names, scripts)
    ensures After(ExecuteStep(s, c), names) <= WalkStep(s, known, scripts).names
    decreases s, 2, 0
  {
    match s
    case Const(n) =>
    case Exec(capture, onCatch, onRecover) => ExecSound(s, c, names, known, scripts);
    case If(body, elseArm) =>
      if c.thenArm {
        StepsSound(body, c.arm, names, known, scripts);
        if elseArm.Arm? { WalkGrows(elseArm.steps, WalkSteps(body, known, scripts).names, scripts); }
      } else {
        WalkGrows(body, known, scripts);
        if elseArm.Arm? {
          StepsSound(elseArm.steps, c.arm, names, WalkSteps(body, known, scripts).names, scripts);
        }
      }
    case For(v, body) => ScopesSound({v}, body, c.iterations, names, known, scripts);
    case Other(_) =>
  }

  lemma {:induction false} ExecSound(s: Step, c: Choice, names: set<string>, known: set<string>, scripts: set<string>)
    requires s.Exec? && WalkStep(s, known, scripts).Bound? && names <= known
    ensures Disciplined(ExecuteStep(s, c), names, scripts)
    ensures After(ExecuteStep(s, c), names) <= WalkStep(s, known, scripts).names
    decreases s, 1, 0
  {
    var a := if s.capture.None? then Bound(known) else BindName(s.capture.value, known, scripts);
    var b := WalkClause(s.onCatch, a.names, scripts);
    var mine := if s.capture.None? || c.binds.Never? then [] else [Bind(s.capture.value)];
    var x, y := ExecuteClause(s.onCatch, c.catchRun), ExecuteClause(s.onRecover, c.recoverRun);
    ClauseGrows(s.onCatch, a.names, scripts);
    ClauseGrows(s.onRecover, b.names, scripts);
    var start := if c.binds.First? then After(mine, names) else names;
    if mine != [] {
      assert mine[1..] == [] && After(mine, names) == names + {s.capture.value};
    }
    ClauseSound(s.onCatch, c.catchRun, start, a.names, scripts);
    ClauseSound(s.onRecover, c.recoverRun, After(x, start), b.names, scripts);
    Concat(x, y, start, scripts);
    if c.binds.First? {
      Concat(mine, x + y, names, scripts);
    } else {
      Concat(x + y, mine, names, scripts);
      if mine != [] { CaptureStaysFree(s, c, names, known, scripts); }
    }
  }

  // Walking the clauses after the capture keeps them from binding its name.
  lemma {:induction false} CaptureStaysFree(s: Step, c: Choice, names: set<string>, known: set<string>,
                                           scripts: set<string>)
    requires s.Exec? && s.capture.Some? && WalkStep(s, known, scripts).Bound? && names <= known
    ensures var clauses := ExecuteClause(s.onCatch, c.catchRun) + ExecuteClause(s.onRecover, c.recoverRun);
            s.capture.value !in After(clauses, names)
    decreases s, 0, 0
  {
    var n := s.capture.value;
    var a := known + {n};
    var b := WalkClause(s.onCatch, a, scripts);
    var x, y := ExecuteClause(s.onCatch, c.catchRun), ExecuteClause(s.onRecover, c.recoverRun);
    ClauseGrows(s.onCatch, a, scripts);
    ClauseGrows(s.onRecover, b.names, scripts);
    ClauseSound(s.onCatch, c.catchRun, names + {n}, a, scripts);
    ClauseSound(s.onRecover, c.recoverRun, After(x, names + {n}), b.names, scripts);
    Concat(x, y, names + {n}, scripts);
    NeverRebinds(x + y, names, n, scripts);
  }

  lemma {:induction false} NeverRebinds(events: seq<Event>, names: set<string>, n: string, scripts: set<string>)
    requires Disciplined(events, names + {n}, scripts) && n !in names
    ensures n !in After(events, names)
    decreases |events|
  {
    if events != [] {
      if events[0].Bind? {
        assert names + {n} + {events[0].name} == (names + {events[0].name}) + {n};
        NeverRebinds(events[1..], names + {events[0].name}, n, scripts);
      } else {
        NeverRebinds(events[1..], names, n, scripts);
      }
    }
  }

  lemma {:induction false} ClauseSound(c: Clause, r: Runs, names: set<string>, known: set<string>, scripts: set<string>)
    requires WalkClause(c, known, scripts).Bound? && names <= known
    ensures Disciplined(ExecuteClause(c, r), names, scripts)
    ensures After(ExecuteClause(c, r), names) <= WalkClause(c, known, scripts).names
    decreases c, 2, 0
  {
    ClauseGrows(c, known, scripts);
    if c.Clause? {
      match r
      case Skipped =>
      case InScope(run) => StepsSound(c.steps, run, names, known, scripts);
      case Apart(runs) =>
        assert known + {} == known;
        ScopesSound({}, c.steps, runs, names, known, scripts);
    }
  }

  lemma {:induction false} ScopesSound(introduced: set<string>, steps: seq<Step>, runs: seq<seq<Choice>>,
                                       names: set<string>, known: set<string>, scripts: set<string>)
    requires WalkSteps(steps, known + introduced, scripts).Bound? && names <= known && introduced !! known
    ensures Disciplined(Scopes(introduced, steps, runs), names, scripts)
    ensures After(Scopes(introduced, steps, runs), names) == names
    decreases steps, 2, |runs|
  {
    if runs != [] {
      StepsSound(steps, runs[0], names + introduced, known + introduced, scripts);
      ScopesSound(introduced, steps, runs[1..], names, known, scripts);
    }
  }

  // The theorem for a declaration with the given parameters.
  lemma BindingSoundness(steps: seq<Step>, params: set<string>, scripts: set<string>)
    requires WalkSteps(steps, params, scripts).Bound?
    ensures forall choices :: Disciplined(Execute(steps, choices), params, scripts)
  {
    forall choices ensures Disciplined(Execute(steps, choices), params, scripts) {
      StepsSound(steps, choices, params, params, scripts);
    }
  }

  // ----- what the walk decides -----

  // The one trace that takes every branch: both arms of every `if`, every clause in its
  // step's scope after the capture, and each loop body once.
  function Everything(steps: seq<Step>): seq<Event>
    decreases steps, 1
  {
    if steps == [] then [] else EverythingOf(steps[0]) + Everything(steps[1..])
  }

  function EverythingOf(s: Step): seq<Event>
    decreases s, 1
  {
    match s
    case Const(n) => [Bind(n)]
    case Exec(capture, onCatch, onRecover) =>
      (if capture.None? then [] else [Bind(capture.value)]) + EverythingIn(onCatch) + EverythingIn(onRecover)
    case If(body, elseArm) => Everything(body) + (if elseArm.NoArm? then [] else Everything(elseArm.steps))
    case For(v, body) => [Enter({v}, Everything(body))]
    case Other(_) => []
  }

  function EverythingIn(c: Clause): seq<Event>
    decreases c, 0
  {
    if c.NoClause? then [] else Everything(c.steps)
  }

  predicate Agrees(w: Walk, events: seq<Event>, names: set<string>, scripts: set<string>) {
    if Disciplined(events, names, scripts) then w == Bound(After(events, names)) else w == Rebound
  }

  lemma OneBind(n: string, names: set<string>, scripts: set<string>)
    ensures Agrees(BindName(n, names, scripts), [Bind(n)], names, scripts)
  {
    var e := [Bind(n)];
    assert e[1..] == [];
    assert After(e, names) == After(e[1..], names + {n}) == names + {n};
    assert Disciplined(e[1..], names + {n}, scripts);
    assert Disciplined(e, names, scripts) <==> n !in names && n !in scripts;
  }

  lemma OneScope(v: string, inside: seq<Event>, names: set<string>, scripts: set<string>)
    ensures Disciplined([Enter({v}, inside)], names, scripts) <==>
            v !in names && Disciplined(inside, names + {v}, scripts)
    ensures After([Enter({v}, inside)], names) == names
  {
    var e := [Enter({v}, inside)];
    assert e[1..] == [];
    assert {v} !! names <==> v !in names;
    assert After(e, names) == After(e[1..], names);
  }

  // The walk succeeds exactly when that trace keeps the discipline.
  lemma {:induction false} WalkIsEverything(steps: seq<Step>, names: set<string>, scripts: set<string>)
    ensures Agrees(WalkSteps(steps, names, scripts), Everything(steps), names, scripts)
    decreases steps, 1
  {
    if steps != [] {
      StepIsEverything(steps[0], names, scripts);
      Concat(EverythingOf(steps[0]), Everything(steps[1..]), names, scripts);
      var first := WalkStep(steps[0], names, scripts);
      if first.Bound? { WalkIsEverything(steps[1..], first.names, scripts); }
    }
  }

  lemma {:induction false} StepIsEverything(s: Step, names: set<string>, scripts: set<string>)
    ensures Agrees(WalkStep(s, names, scripts), EverythingOf(s), names, scripts)
    decreases s, 1
  {
    match s
    case Const(n) => OneBind(n, names, scripts);
    case Exec(capture, onCatch, onRecover) =>
      var a := if capture.None? then Bound(names) else BindName(capture.value, names, scripts);
      var mine := if capture.None? then [] else [Bind(capture.value)];
      var x, y := EverythingIn(onCatch), EverythingIn(onRecover);
      if capture.Some? { OneBind(capture.value, names, scripts); }
      assert Agrees(a, mine, names, scripts);
      Concat(mine + x, y, names, scripts);
      Concat(mine, x, names, scripts);
      if a.Bound? {
        ClauseIsEverything(onCatch, a.names, scripts);
        var b := WalkClause(onCatch, a.names, scripts);
        if b.Bound? { ClauseIsEverything(onRecover, b.names, scripts); }
      }
    case If(body, elseArm) =>
      WalkIsEverything(body, names, scripts);
      var a := WalkSteps(body, names, scripts);
      var rest := if elseArm.NoArm? then [] else Everything(elseArm.steps);
      Concat(Everything(body), rest, names, scripts);
      if a.Bound? && elseArm.Arm? { WalkIsEverything(elseArm.steps, a.names, scripts); }
    case For(v, body) =>
      WalkIsEverything(body, names + {v}, scripts);
      OneScope(v, Everything(body), names, scripts);
    case Other(_) =>
  }

  lemma {:induction false} ClauseIsEverything(c: Clause, names: set<string>, scripts: set<string>)
    ensures Agrees(WalkClause(c, names, scripts), EverythingIn(c), names, scripts)
    decreases c, 0
  {
    if c.Clause? { WalkIsEverything(c.steps, names, scripts); }
  }

  // The converse of soundness does not hold: a name bound in both arms of an `if` is
  // refused although no execution binds it twice.
  lemma BothArmsRefused(n: string, choices: seq<Choice>)
    ensures var steps := [If([Const(n)], Arm([Const(n)]))];
            WalkSteps(steps, {}, {}).Rebound? && Disciplined(Execute(steps, choices), {}, {})
  {
    var arm := [Const(n)];
    var s := If(arm, Arm(arm));
    assert WalkSteps(arm, {}, {}) == Bound({n}) by { assert {} + {n} == {n}; }
    assert WalkSteps(arm, {n}, {}).Rebound?;
    assert WalkStep(s, {}, {}).Rebound?;
    if choices != [] {
      var c := choices[0];
      StepsSound(arm, c.arm, {}, {}, {});
      assert ExecuteStep(s, c) == Execute(arm, c.arm);
      assert Execute([s], choices) == Execute(arm, c.arm) + Execute([], choices[1..]);
      assert Execute([s], choices) == Execute(arm, c.arm);
    }
  }

  // ----- the flat list -----

  // One entry of the flat list, with the failure binding of the innermost clause around it.
  datatype Entry = Entry(step: Step, failure: Option<string>)

  function Flatten(steps: seq<Step>, failure: Option<string>): seq<Entry>
    decreases steps, 1
  {
    if steps == [] then [] else [Entry(steps[0], failure)] + Below(steps[0], failure) + Flatten(steps[1..], failure)
  }

  function Below(s: Step, failure: Option<string>): seq<Entry>
    decreases s, 1
  {
    match s
    case Exec(_, onCatch, onRecover) => BelowClause(onCatch) + BelowClause(onRecover)
    case If(body, elseArm) =>
      Flatten(body, failure) + (if elseArm.NoArm? then [] else Flatten(elseArm.steps, failure))
    case For(_, body) => Flatten(body, failure)
    case _ => []
  }

  function BelowClause(c: Clause): seq<Entry>
    decreases c, 0
  {
    if c.NoClause? then [] else Flatten(c.steps, Some(c.failure))
  }

  // The number of steps in a tree, and how often a given step occurs in it.
  function Occurrences(x: Step, steps: seq<Step>): nat
    decreases steps, 1
  {
    if steps == [] then 0
    else (if steps[0] == x then 1 else 0) + OccurrencesIn(x, steps[0]) + Occurrences(x, steps[1..])
  }

  function OccurrencesIn(x: Step, s: Step): nat
    decreases s, 1
  {
    match s
    case Exec(_, onCatch, onRecover) =>
      (if onCatch.NoClause? then 0 else Occurrences(x, onCatch.steps))
      + (if onRecover.NoClause? then 0 else Occurrences(x, onRecover.steps))
    case If(body, elseArm) => Occurrences(x, body) + (if elseArm.NoArm? then 0 else Occurrences(x, elseArm.steps))
    case For(_, body) => Occurrences(x, body)
    case _ => 0
  }

  function Listed(x: Step, entries: seq<Entry>): nat {
    if entries == [] then 0 else (if entries[0].step == x then 1 else 0) + Listed(x, entries[1..])
  }

  lemma {:induction false} ListedConcat(x: Step, a: seq<Entry>, b: seq<Entry>)
    ensures Listed(x, a + b) == Listed(x, a) + Listed(x, b)
    decreases |a|
  {
    if a == [] {
      assert a + b == b;
    } else {
      ListedConcat(x, a[1..], b);
      assert (a + b)[1..] == a[1..] + b;
    }
  }

  // Every step of the tree is listed as often as it occurs, else arms and clauses included.
  lemma {:induction false} FlattenListsAll(x: Step, steps: seq<Step>, failure: Option<string>)
    ensures Listed(x, Flatten(steps, failure)) == Occurrences(x, steps)
    decreases steps, 1
  {
    if steps != [] {
      var head, below, rest := [Entry(steps[0], failure)], Below(steps[0], failure), Flatten(steps[1..], failure);
      BelowListsAll(x, steps[0], failure);
      FlattenListsAll(x, steps[1..], failure);
      ListedConcat(x, head + below, rest);
      ListedConcat(x, head, below);
      assert head[1..] == [];
    }
  }

  lemma {:induction false} BelowListsAll(x: Step, s: Step, failure: Option<string>)
    ensures Listed(x, Below(s, failure)) == OccurrencesIn(x, s)
    decreases s, 1
  {
    match s
    case Exec(_, onCatch, onRecover) =>
      ListedConcat(x, BelowClause(onCatch), BelowClause(onRecover));
      if onCatch.Clause? { FlattenListsAll(x, onCatch.steps, Some(onCatch.failure)); }
      if onRecover.Clause? { FlattenListsAll(x, onRecover.steps, Some(onRecover.failure)); }
    case If(body, elseArm) =>
      FlattenListsAll(x, body, failure);
      var rest := if elseArm.NoArm? then [] else Flatten(elseArm.steps, failure);
      ListedConcat(x, Flatten(body, failure), rest);
      if elseArm.Arm? { FlattenListsAll(x, elseArm.steps, failure); }
    case For(_, body) => FlattenListsAll(x, body, failure);
    case _ =>
  }

  // ----- the walker as written -----

  // The bindings map of one scope: shared by the blocks of that scope, copied for a loop.
  class Scope {
    var names: set<string>

    constructor (names: set<string>)
      ensures this.names == names
    {
      this.names := names;
    }

    method CheckBinding(name: string, scripts: set<string>) returns (ok: bool)
      modifies this
      ensures ok <==> BindName(name, old(names), scripts).Bound?
      ensures ok ==> names == old(names) + {name}
    {
      if name in names || name in scripts { return false; }
      names := names + {name};
      return true;
    }
  }

  class Walker {
    const scripts: set<string>
    var flat: seq<Entry>

    constructor (scripts: set<string>)
      ensures this.scripts == scripts && flat == []
    {
      this.scripts, flat := scripts, [];
    }

    // `ok` is false when an error was reported, which ends the walk.
    method Descend(steps: seq<Step>, scope: Scope, failure: Option<string>) returns (ok: bool)
      modifies this, scope
      ensures ok <==> WalkSteps(steps, old(scope.names), scripts).Bound?
      ensures ok ==> scope.names == WalkSteps(steps, old(scope.names), scripts).names
      ensures ok ==> flat == old(flat) + Flatten(steps, failure)
      decreases steps, 1
    {
      hide WalkStep, Below;
      if steps == [] { return true; }
      var s := steps[0];
      flat := flat + [Entry(s, failure)];
      ok := Visit(s, scope, failure);
      if !ok { return false; }
      ok := Descend(steps[1..], scope, failure);
    }

    method DescendClause(c: Clause, scope: Scope) returns (ok: bool)
      modifies this, scope
      ensures ok <==> WalkClause(c, old(scope.names), scripts).Bound?
      ensures ok ==> scope.names == WalkClause(c, old(scope.names), scripts).names
      ensures ok ==> flat == old(flat) + BelowClause(c)
      decreases c, 0
    {
      ok := true;
      if c.Clause? { ok := Descend(c.steps, scope, Some(c.failure)); }
    }

    method Visit(s: Step, scope: Scope, failure: Option<string>) returns (ok: bool)
      modifies this, scope
      ensures ok <==> WalkStep(s, old(scope.names), scripts).Bound?
      ensures ok ==> scope.names == WalkStep(s, old(scope.names), scripts).names
      ensures ok ==> flat == old(flat) + Below(s, failure)
      decreases s, 1
    {
      hide WalkSteps, WalkClause, Flatten, BelowClause;
      ok := true;
      match s {
        case Const(n) => ok := scope.CheckBinding(n, scripts);
        case Exec(capture, onCatch, onRecover) =>
          if capture.Some? {
            ok := scope.CheckBinding(capture.value, scripts);
            if !ok { return; }
          }
          ok := DescendClause(onCatch, scope);
          if !ok { return; }
          ok := DescendClause(onRecover, scope);
        case If(body, elseArm) =>
          ok := Descend(body, scope, failure);
          if ok && elseArm.Arm? { ok := Descend(elseArm.steps, scope, failure); }
        case For(v, body) =>
          if v in scope.names { return false; }
          var inner := new Scope(scope.names + {v});
          ok := Descend(body, inner, failure);
        case Other(_) =>
      }
    }
  }

  // A declaration's walk: the parameters are bound first.
  method WalkStepTree(steps: seq<Step>, params: set<string>, scripts: set<string>)
    returns (flat: Option<seq<Entry>>)
    ensures flat == if WalkSteps(steps, params, scripts).Bound? then Some(Flatten(steps, None)) else None
    ensures flat.Some? ==> forall choices :: Disciplined(Execute(steps, choices), params, scripts)
    ensures flat.Some? ==> forall x :: Listed(x, flat.value) == Occurrences(x, steps)
  {
    var walker := new Walker(scripts);
    var seed := new Scope(params);
    var ok := walker.Descend(steps, seed, None);
    if !ok { return None; }
    BindingSoundness(steps, params, scripts);
    forall x ensures Listed(x, Flatten(steps, None)) == Occurrences(x, steps) {
      FlattenListsAll(x, steps, None);
    }
    assert [] + Flatten(steps, None) == Flatten(steps, None);
    return Some(walker.flat);
  }
}
