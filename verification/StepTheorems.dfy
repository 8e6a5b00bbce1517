// The laws relating printer and parser of workflow bodies.
module StepTheorems {
  import opened StepTree
  import opened StepPrinter
  import opened BlockParser
  import opened StepRoundTrip

  // ----- printing, then parsing -----

  // A printed body as it stands in a file: its lines, the closing brace, whatever follows.
  function Printed(t: seq<Step>, rest: seq<Line>): seq<Line> {
    EmitSteps(t) + [Close] + rest
  }

  // What any printed tree is read back as, and exactly when it is read back at all.
  lemma Reparse(t: seq<Step>, opts: Opts, rest: seq<Line>)
    requires Placed(t, opts)
    ensures var lines, n := Printed(t, rest), |EmitSteps(t)|;
            var r := ParseBody(lines, 0, opts, []);
            if Accepted(t) && ClausesClose(lines, 0, n) then r == BodyOk(Normalize(t, opts), n + 1, ByBrace)
            else r.BodyErr?
  {
    var lines, n := Printed(t, rest), |EmitSteps(t)|;
    assert lines[0..n] == EmitSteps(t) && lines[n] == Close;
    BodyReads(lines, 0, opts, [], t, n);
  }

  // Blanks stand only where they are kept, never first and never doubled.
  predicate Spaced(steps: seq<Step>, opts: Opts)
    decreases steps, 0
  {
    && (forall i | 0 <= i < |steps| && steps[i].Blank? :: opts.keepBlanks && i > 0 && !steps[i - 1].Blank?)
    && (forall s <- steps :: SpacedStep(s, opts))
  }

  predicate SpacedStep(s: Step, opts: Opts)
    decreases s, 1
  {
    match s
    case If(_, b, e) => Spaced(b, THEN_BODY) && (e.Else? ==> Spaced(e.steps, PLAIN))
    case For(_, _, b) => Spaced(b, opts)
    case Attached(_, _, _, b) => Spaced(b, PLAIN)
    case _ => true
  }

  lemma {:induction false} SpacedIsNormal(acc: seq<Step>, steps: seq<Step>, opts: Opts)
    requires Spaced(acc + steps, opts)
    ensures NormOnto(acc, steps, opts) == acc + steps
    decreases steps, 0
  {
    if steps == [] {
      assert acc + steps == acc;
    } else {
      var s := steps[0];
      assert (acc + steps)[|acc|] == s;
      assert acc + steps == (acc + [s]) + steps[1..];
      SpacedIsNormal(acc + [s], steps[1..], opts);
      if s.Blank? {
        assert |acc| > 0 && (acc + steps)[|acc| - 1] == acc[|acc| - 1];
        assert PushBlank(acc, opts) == acc + [s];
      } else {
        SpacedStepIsNormal(s, opts);
      }
    }
  }

  lemma {:induction false} SpacedStepIsNormal(s: Step, opts: Opts)
    requires SpacedStep(s, opts)
    ensures NormStep(s, opts) == s
    decreases s, 1
  {
    match s
    case If(_, b, e) =>
      assert [] + b == b;
      SpacedIsNormal([], b, THEN_BODY);
      if e.Else? {
        assert [] + e.steps == e.steps;
        SpacedIsNormal([], e.steps, PLAIN);
        assert NormElse(e) == Else(Normalize(e.steps, PLAIN)) == e;
      }
    case For(_, _, b) =>
      assert [] + b == b;
      SpacedIsNormal([], b, opts);
    case Attached(_, _, _, b) =>
      assert [] + b == b;
      SpacedIsNormal([], b, PLAIN);
    case _ =>
  }

  lemma SpacedPush(acc: seq<Step>, s: Step, opts: Opts)
    requires Spaced(acc, opts) && SpacedStep(s, opts)
    requires s.Blank? ==> opts.keepBlanks && acc != [] && !LastIsBlank(acc)
    ensures Spaced(acc + [s], opts)
  {
    var t := acc + [s];
    forall i | 0 <= i < |t| && t[i].Blank?
      ensures opts.keepBlanks && i > 0 && !t[i - 1].Blank?
    {
      if i < |acc| { assert acc[i].Blank?; }
    }
    forall x | x in t ensures SpacedStep(x, opts) {
      assert x in acc || x == s;
    }
  }

  lemma {:induction false} NormalIsSpaced(acc: seq<Step>, steps: seq<Step>, opts: Opts)
    requires Spaced(acc, opts)
    ensures Spaced(NormOnto(acc, steps, opts), opts)
    decreases steps, 0
  {
    if steps != [] {
      var s := steps[0];
      if s.Blank? {
        if PushBlank(acc, opts) != acc { SpacedPush(acc, Blank, opts); }
        NormalIsSpaced(PushBlank(acc, opts), steps[1..], opts);
      } else {
        NormalStepIsSpaced(s, opts);
        SpacedPush(acc, NormStep(s, opts), opts);
        NormalIsSpaced(acc + [NormStep(s, opts)], steps[1..], opts);
      }
    }
  }

  lemma {:induction false} NormalStepIsSpaced(s: Step, opts: Opts)
    requires !s.Blank?
    ensures SpacedStep(NormStep(s, opts), opts) && !NormStep(s, opts).Blank?
    decreases s, 1
  {
    match s
    case If(_, b, e) =>
      NormalIsSpaced([], b, THEN_BODY);
      if e.Else? {
        NormalIsSpaced([], e.steps, PLAIN);
        assert NormElse(e) == Else(Normalize(e.steps, PLAIN));
      }
    case For(_, _, b) => NormalIsSpaced([], b, opts);
    case Attached(_, _, _, b) => NormalIsSpaced([], b, PLAIN);
    case _ =>
  }

  lemma NormalExactlyWhenSpaced(t: seq<Step>, opts: Opts)
    ensures Normalize(t, opts) == t <==> Spaced(t, opts)
  {
    NormalIsSpaced([], t, opts);
    if Spaced(t, opts) {
      assert [] + t == t;
      SpacedIsNormal([], t, opts);
    }
  }

  // The round trip: a printed tree comes back as itself exactly when its blanks are spaced,
  // the parser accepts its shape and every clause's brace scan succeeds.
  lemma RoundTrip(t: seq<Step>, opts: Opts, rest: seq<Line>)
    requires Placed(t, opts)
    ensures var lines, n := Printed(t, rest), |EmitSteps(t)|;
            ParseBody(lines, 0, opts, []) == BodyOk(t, n + 1, ByBrace) <==>
            Spaced(t, opts) && Accepted(t) && ClausesClose(lines, 0, n)
  {
    Reparse(t, opts, rest);
    NormalExactlyWhenSpaced(t, opts);
  }

  // ----- when the brace scan succeeds -----

  // Lines that raise the scan's depth and are not matched by a closing brace: the arms of
  // an if chain after the first, and any comment or statement that ends in `{`.
  function Unmatched(steps: seq<Step>): nat
    decreases steps, 0
  {
    if steps == [] then 0 else UnmatchedStep(steps[0]) + Unmatched(steps[1..])
  }

  function UnmatchedStep(s: Step): nat
    decreases s, 1
  {
    match s
    case Comment(t) => if EndsWithBrace(t) then 1 else 0
    case Blank => 0
    case Leaf(l) => if EndsInBrace(l) then 1 else 0
    case If(_, b, e) => Unmatched(b) + UnmatchedElse(e)
    case For(_, _, b) => Unmatched(b)
    case Attached(_, _, _, b) => Unmatched(b)
  }

  function UnmatchedElse(e: ElsePart): nat
    decreases e, 1
  {
    if e.NoElse? then 0
    else if LoneIf(e.steps) then 1 + Unmatched(e.steps[0].body) + UnmatchedElse(e.steps[0].elseBody)
    else 1 + Unmatched(e.steps)
  }

  lemma {:induction false} ScanPastSteps(lines: seq<Line>, p: nat, steps: seq<Step>, q: nat, opts: Opts, d: nat)
    requires p <= q <= |lines| && lines[p..q] == EmitSteps(steps) && Placed(steps, opts) && d >= 1
    ensures ScanCloses(lines, p, d) == ScanCloses(lines, q, d + Unmatched(steps))
    decreases steps, 0
  {
    if steps == [] {
      assert p == q;
    } else {
      var m := p + |EmitStep(steps[0])|;
      Cut(lines, p, q, EmitStep(steps[0]), EmitSteps(steps[1..]));
      ScanPastStep(lines, p, steps[0], m, opts, d);
      ScanPastSteps(lines, m, steps[1..], q, opts, d + UnmatchedStep(steps[0]));
    }
  }

  lemma {:induction false} ScanPastStep(lines: seq<Line>, p: nat, s: Step, q: nat, opts: Opts, d: nat)
    requires p < q <= |lines| && lines[p..q] == EmitStep(s) && PlacedStep(s, opts) && d >= 1
    ensures ScanCloses(lines, p, d) == ScanCloses(lines, q, d + UnmatchedStep(s))
    decreases s, 1
  {
    match s
    case If(c, b, e) =>
      ScanPastArm(lines, p, IfHead(c), s, q, d);
    case For(v, src, b) => ScanPastBraced(lines, p, ForHead(v, src), b, q, opts, d);
    case Attached(c, k, f, b) => ScanPastBraced(lines, p, Host(c, k, f), b, q, PLAIN, d);
    case _ => assert lines[p] == lines[p..q][0];
  }

  lemma {:induction false} ScanPastBraced(lines: seq<Line>, p: nat, head: Line, b: seq<Step>, q: nat, opts: Opts,
                                         d: nat)
    requires p < q <= |lines| && lines[p..q] == [head] + EmitSteps(b) + [Close]
    requires EndsInBrace(head) && Placed(b, opts) && d >= 1
    ensures ScanCloses(lines, p, d) == ScanCloses(lines, q, d + Unmatched(b))
    decreases b, 1
  {
    CutHead(lines, p, q, head, EmitSteps(b), [Close]);
    ScanPastSteps(lines, p + 1, b, q - 1, opts, d + 1);
  }

  lemma {:induction false} ScanPastArm(lines: seq<Line>, p: nat, head: Line, s: Step, q: nat, d: nat)
    requires s.If? && PlacedStep(s, PLAIN) && EndsInBrace(head) && !head.Close? && d >= 1
    requires p < q <= |lines| && lines[p..q] == [head] + EmitSteps(s.body) + EmitTail(s.elseBody)
    ensures ScanCloses(lines, p, d) == ScanCloses(lines, q, d + UnmatchedStep(s))
    decreases s, 0
  {
    var m := p + 1 + |EmitSteps(s.body)|;
    CutHead(lines, p, q, head, EmitSteps(s.body), EmitTail(s.elseBody));
    ScanPastSteps(lines, p + 1, s.body, m, THEN_BODY, d + 1);
    ScanPastTail(lines, m, s.elseBody, q, d + 1 + Unmatched(s.body));
  }

  lemma {:induction false} ScanPastTail(lines: seq<Line>, p: nat, e: ElsePart, q: nat, d: nat)
    requires p < q <= |lines| && lines[p..q] == EmitTail(e) && d >= 2
    requires e.Else? ==> Placed(e.steps, PLAIN)
    ensures ScanCloses(lines, p, d) == ScanCloses(lines, q, d - 1 + UnmatchedElse(e))
    decreases e, 0
  {
    assert lines[p] == lines[p..q][0];
    if e.NoElse? {
      assert q == p + 1;
    } else if LoneIf(e.steps) {
      var arm := e.steps[0];
      assert PlacedStep(arm, PLAIN);
      ScanPastArm(lines, p, ElseIfArm(arm.cond), arm, q, d);
    } else {
      ScanPastBraced(lines, p, ElseArm, e.steps, q, PLAIN, d);
    }
  }

  // A clause whose block has no unmatched opener is always accepted by the scan; one with
  // `k` of them only if the lines after the clause go on to close `k` more braces.
  lemma ClauseScan(lines: seq<Line>, p: nat, call: string, k: Clause, f: string, b: seq<Step>, q: nat)
    requires p < q <= |lines| && lines[p..q] == EmitStep(Attached(call, k, f, b)) && Placed(b, PLAIN)
    ensures ScanCloses(lines, p + 1, 1) <==> Unmatched(b) == 0 || ScanCloses(lines, q, Unmatched(b))
  {
    CutHead(lines, p, q, Host(call, k, f), EmitSteps(b), [Close]);
    ScanPastSteps(lines, p + 1, b, q - 1, PLAIN, 1);
  }

  // No clause block holds an else arm or a line ending in an opening brace of its own.
  predicate PlainClauses(steps: seq<Step>)
    decreases steps, 0
  {
    forall s <- steps :: PlainClausesStep(s)
  }

  predicate PlainClausesStep(s: Step)
    decreases s, 1
  {
    match s
    case If(_, b, e) => PlainClauses(b) && (e.Else? ==> PlainClauses(e.steps))
    case For(_, _, b) => PlainClauses(b)
    case Attached(_, _, _, b) => Unmatched(b) == 0
    case _ => true
  }

  lemma {:induction false} PlainWhenMatched(steps: seq<Step>)
    requires Unmatched(steps) == 0
    ensures PlainClauses(steps)
    decreases steps, 0
  {
    if steps != [] {
      PlainWhenMatched(steps[1..]);
      match steps[0] {
        case If(_, b, e) =>
          PlainWhenMatched(b);
          assert UnmatchedElse(e) == 0;
        case For(_, _, b) => PlainWhenMatched(b);
        case _ =>
      }
      assert PlainClausesStep(steps[0]);
      assert steps == [steps[0]] + steps[1..];
    }
  }

  lemma {:induction false} PlainStepsClose(lines: seq<Line>, p: nat, steps: seq<Step>, q: nat, opts: Opts)
    requires p <= q <= |lines| && lines[p..q] == EmitSteps(steps)
    requires Placed(steps, opts) && PlainClauses(steps)
    ensures ClausesClose(lines, p, q)
    decreases steps, 0
  {
    if steps != [] {
      var m := p + |EmitStep(steps[0])|;
      Cut(lines, p, q, EmitStep(steps[0]), EmitSteps(steps[1..]));
      PlainStepCloses(lines, p, steps[0], m, opts);
      PlainStepsClose(lines, m, steps[1..], q, opts);
    }
  }

  lemma {:induction false} PlainStepCloses(lines: seq<Line>, p: nat, s: Step, q: nat, opts: Opts)
    requires p < q <= |lines| && lines[p..q] == EmitStep(s)
    requires PlacedStep(s, opts) && PlainClausesStep(s)
    ensures ClausesClose(lines, p, q)
    decreases s, 1
  {
    match s
    case If(c, b, e) =>
      var m := p + 1 + |EmitSteps(b)|;
      CutHead(lines, p, q, IfHead(c), EmitSteps(b), EmitTail(e));
      PlainStepsClose(lines, p + 1, b, m, THEN_BODY);
      PlainTailCloses(lines, m, e, q);
    case For(v, src, b) => PlainBracedCloses(lines, p, ForHead(v, src), b, q, opts);
    case Attached(c, k, f, b) =>
      PlainWhenMatched(b);
      PlainBracedCloses(lines, p, Host(c, k, f), b, q, PLAIN);
      ClauseScan(lines, p, c, k, f, b, q);
    case _ => assert lines[p] == lines[p..q][0];
  }

  lemma {:induction false} PlainBracedCloses(lines: seq<Line>, p: nat, head: Line, b: seq<Step>, q: nat, opts: Opts)
    requires p < q <= |lines| && lines[p..q] == [head] + EmitSteps(b) + [Close]
    requires Placed(b, opts) && PlainClauses(b)
    ensures lines[p] == head && ClausesClose(lines, p + 1, q)
    decreases b, 1
  {
    CutHead(lines, p, q, head, EmitSteps(b), [Close]);
    PlainStepsClose(lines, p + 1, b, q - 1, opts);
  }

  lemma {:induction false} PlainTailCloses(lines: seq<Line>, p: nat, e: ElsePart, q: nat)
    requires p < q <= |lines| && lines[p..q] == EmitTail(e)
    requires e.Else? ==> Placed(e.steps, PLAIN) && PlainClauses(e.steps)
    ensures ClausesClose(lines, p, q)
    decreases e, 0
  {
    assert lines[p] == lines[p..q][0];
    if e.NoElse? {
    } else if LoneIf(e.steps) {
      var arm := e.steps[0];
      var m := p + 1 + |EmitSteps(arm.body)|;
      CutHead(lines, p, q, ElseIfArm(arm.cond), EmitSteps(arm.body), EmitTail(arm.elseBody));
      assert PlacedStep(arm, PLAIN) && PlainClausesStep(arm);
      PlainStepsClose(lines, p + 1, arm.body, m, THEN_BODY);
      PlainTailCloses(lines, m, arm.elseBody, q);
    } else {
      PlainBracedCloses(lines, p, ElseArm, e.steps, q, PLAIN);
    }
  }

  // Trees without those openers inside clauses round-trip wherever they stand in a file.
  lemma PlainRoundTrip(t: seq<Step>, opts: Opts, rest: seq<Line>)
    requires Placed(t, opts) && Spaced(t, opts) && Accepted(t) && PlainClauses(t)
    ensures ParseBody(Printed(t, rest), 0, opts, []) == BodyOk(t, |EmitSteps(t)| + 1, ByBrace)
  {
    var lines := Printed(t, rest);
    assert lines[0..|EmitSteps(t)|] == EmitSteps(t);
    PlainStepsClose(lines, 0, t, |EmitSteps(t)|, opts);
    RoundTrip(t, opts, rest);
  }
}
