// The trees the block parser returns, and reprinting them.
module StepNormalForm {
  import opened StepTree
  import opened StepPrinter
  import opened BlockParser
  import opened StepRoundTrip
  import opened StepTheorems

  // No clause block is empty.
  predicate Filled(steps: seq<Step>)
    decreases steps, 0
  {
    forall s <- steps :: FilledStep(s)
  }

  predicate FilledStep(s: Step)
    decreases s, 1
  {
    match s
    case If(_, b, e) => Filled(b) && (e.Else? ==> Filled(e.steps))
    case For(_, _, b) => Filled(b)
    case Attached(_, _, _, b) => b != [] && Filled(b)
    case _ => true
  }

  predicate Shaped(steps: seq<Step>, opts: Opts) {
    Spaced(steps, opts) && Placed(steps, opts) && Filled(steps)
  }

  predicate ShapedStep(s: Step, opts: Opts) {
    SpacedStep(s, opts) && PlacedStep(s, opts) && FilledStep(s)
  }

  lemma ShapedPush(acc: seq<Step>, s: Step, opts: Opts)
    requires Shaped(acc, opts) && ShapedStep(s, opts)
    requires s.Blank? ==> opts.keepBlanks && acc != [] && !LastIsBlank(acc)
    ensures Shaped(acc + [s], opts)
  {
    SpacedPush(acc, s, opts);
    forall x | x in acc + [s] ensures PlacedStep(x, opts) && FilledStep(x) {
      assert x in acc || x == s;
    }
  }

  // Whatever the lines, a body that parses is spaced, well placed and filled.
  lemma {:induction false} BodyShaped(lines: seq<Line>, idx: nat, opts: Opts, acc: seq<Step>)
    requires Shaped(acc, opts)
    ensures var r := ParseBody(lines, idx, opts, acc); r.BodyOk? ==> Shaped(r.steps, opts)
    decreases |lines| - idx, 3
  {
    if idx < |lines| {
      var line := lines[idx];
      if line.Empty? {
        if PushBlank(acc, opts) != acc { ShapedPush(acc, Blank, opts); }
        BodyShaped(lines, idx + 1, opts, PushBlank(acc, opts));
      } else if line.Note? {
        ShapedPush(acc, Comment(line.text), opts);
        BodyShaped(lines, idx + 1, opts, acc + [Comment(line.text)]);
      } else if !line.Close? && !(opts.elseCloses && ElseLike(line)) {
        StepShaped(lines, idx, opts);
        var one := ParseStep(lines, idx, opts);
        if one.StepOk? {
          ShapedPush(acc, one.step, opts);
          BodyShaped(lines, one.next, opts, acc + [one.step]);
        }
      }
    }
  }

  lemma {:induction false} StepShaped(lines: seq<Line>, idx: nat, opts: Opts)
    requires idx < |lines| && !(opts.elseCloses && ElseLike(lines[idx]))
    requires !lines[idx].Empty? && !lines[idx].Note? && !lines[idx].Close?
    ensures var r := ParseStep(lines, idx, opts); r.StepOk? ==> ShapedStep(r.step, opts) && !r.step.Blank?
    decreases |lines| - idx, 2
  {
    var line := lines[idx];
    if line.IfHead? {
      ArmShaped(lines, idx, false);
    } else if line.ForHead? {
      BodyShaped(lines, idx + 1, opts, []);
    } else if line.Host? {
      BodyShaped(lines, idx + 1, PLAIN, []);
    }
  }

  lemma {:induction false} ArmShaped(lines: seq<Line>, head: nat, isElseIf: bool)
    requires head < |lines|
    requires if isElseIf then lines[head].ElseIfArm? else lines[head].IfHead?
    ensures var r := ParseIfArm(lines, head, isElseIf);
            r.StepOk? ==> r.step.If? && forall opts :: ShapedStep(r.step, opts)
    decreases |lines| - head, 1
  {
    BodyShaped(lines, head + 1, THEN_BODY, []);
    var b := ParseBody(lines, head + 1, THEN_BODY, []);
    if b.BodyOk? && !(isElseIf && b.steps == []) {
      if b.closing.ByElse? {
        BodyShaped(lines, b.next, PLAIN, []);
      } else if b.closing.ByElseIf? {
        ArmShaped(lines, b.next, true);
        var nested := ParseIfArm(lines, b.next, true);
        if nested.StepOk? {
          assert ShapedStep(nested.step, PLAIN);
          ShapedPush([], nested.step, PLAIN);
          assert [] + [nested.step] == [nested.step];
        }
      }
    }
  }

  // No body the parser returns starts with a blank or holds two in a row.
  lemma ParsedBlanks(lines: seq<Line>, idx: nat, opts: Opts)
    ensures var r := ParseBody(lines, idx, opts, []);
            r.BodyOk? ==> forall i | 0 <= i < |r.steps| && r.steps[i].Blank? ::
                            opts.keepBlanks && i > 0 && !r.steps[i - 1].Blank?
  {
    BodyShaped(lines, idx, opts, []);
  }

  // An else body that is a lone `if` with an empty then-body: it prints as an empty
  // `else if`, which the parser refuses.
  predicate NoBareElseIf(steps: seq<Step>)
    decreases steps, 0
  {
    forall s <- steps :: NoBareElseIfStep(s)
  }

  predicate NoBareElseIfStep(s: Step)
    decreases s, 1
  {
    match s
    case If(_, b, e) =>
      && NoBareElseIf(b)
      && (e.Else? ==> NoBareElseIf(e.steps) && (LoneIf(e.steps) ==> e.steps[0].body != []))
    case For(_, _, b) => NoBareElseIf(b)
    case Attached(_, _, _, b) => NoBareElseIf(b)
    case _ => true
  }

  lemma BlanksOnlyWhenEmpty(b: seq<Step>, opts: Opts)
    requires Spaced(b, opts)
    ensures OnlyBlanks(b) <==> b == []
  {
    if b != [] {
      assert b[0] in b && !b[0].Blank?;
    }
  }

  lemma {:induction false} AcceptedWhenShaped(steps: seq<Step>, opts: Opts)
    requires Spaced(steps, opts) && Filled(steps)
    ensures Accepted(steps) <==> NoBareElseIf(steps)
    decreases steps, 0
  {
    forall s | s in steps ensures AcceptedStep(s) <==> NoBareElseIfStep(s) {
      StepAcceptedWhenShaped(s, opts);
    }
  }

  lemma {:induction false} StepAcceptedWhenShaped(s: Step, opts: Opts)
    requires SpacedStep(s, opts) && FilledStep(s)
    ensures AcceptedStep(s) <==> NoBareElseIfStep(s)
    decreases s, 1
  {
    match s
    case If(_, b, e) =>
      AcceptedWhenShaped(b, THEN_BODY);
      if e.Else? {
        AcceptedWhenShaped(e.steps, PLAIN);
        if LoneIf(e.steps) {
          var arm := e.steps[0];
          assert SpacedStep(arm, PLAIN);
          BlanksOnlyWhenEmpty(arm.body, THEN_BODY);
        }
      }
    case For(_, _, b) => AcceptedWhenShaped(b, opts);
    case Attached(_, _, _, b) =>
      AcceptedWhenShaped(b, PLAIN);
      BlanksOnlyWhenEmpty(b, PLAIN);
    case _ =>
  }

  // Formatting what was parsed: printing a parsed body and parsing it again gives the same
  // body exactly when it has no bare else-if and the printed clauses pass the brace scan.
  lemma ReformatStable(source: seq<Line>, start: nat, opts: Opts, rest: seq<Line>)
    requires ParseBody(source, start, opts, []).BodyOk?
    ensures var t := ParseBody(source, start, opts, []).steps;
            var lines, n := Printed(t, rest), |EmitSteps(t)|;
            ParseBody(lines, 0, opts, []) == BodyOk(t, n + 1, ByBrace) <==>
            NoBareElseIf(t) && ClausesClose(lines, 0, n)
  {
    BodyShaped(source, start, opts, []);
    var t := ParseBody(source, start, opts, []).steps;
    AcceptedWhenShaped(t, opts);
    RoundTrip(t, opts, rest);
  }

  // ----- the whole workflow: blanks before the closing brace are dropped -----

  function StripTrailing(steps: seq<Step>): seq<Step> {
    if LastIsBlank(steps) then StripTrailing(steps[..|steps| - 1]) else steps
  }

  method StripTrailingBlanks(steps: seq<Step>) returns (r: seq<Step>)
    ensures r == StripTrailing(steps)
    ensures !LastIsBlank(r) && r <= steps
    ensures forall i | |r| <= i < |steps| :: steps[i].Blank?
  {
    r := steps;
    while |r| > 0 && r[|r| - 1].Blank?
      invariant r <= steps
      invariant StripTrailing(steps) == StripTrailing(r)
      invariant forall i | |r| <= i < |steps| :: steps[i].Blank?
    {
      r := r[..|r| - 1];
    }
  }

  lemma {:induction false} NormNoLonger(acc: seq<Step>, steps: seq<Step>, opts: Opts)
    ensures |NormOnto(acc, steps, opts)| <= |acc| + |steps|
    decreases |steps|
  {
    if steps != [] { NormNoLonger(Taken(acc, steps[0], opts), steps[1..], opts); }
  }

  lemma {:induction false} StripShorter(steps: seq<Step>)
    ensures StripTrailing(steps) <= steps && !LastIsBlank(StripTrailing(steps))
    ensures StripTrailing(steps) == steps <==> !LastIsBlank(steps)
    decreases |steps|
  {
    if LastIsBlank(steps) { StripShorter(steps[..|steps| - 1]); }
  }

  lemma StrippedIsNormal(t: seq<Step>, opts: Opts)
    ensures StripTrailing(Normalize(t, opts)) == t <==> Spaced(t, opts) && !LastIsBlank(t)
  {
    NormNoLonger([], t, opts);
    StripShorter(Normalize(t, opts));
    NormalExactlyWhenSpaced(t, opts);
  }

  // What the workflow parser makes of a printed body: it reads it, and drops the blanks
  // before the closing brace.
  predicate Reads(t: seq<Step>, rest: seq<Line>) {
    var r := ParseBody(Printed(t, rest), 0, WORKFLOW, []);
    r.BodyOk? && StripTrailing(r.steps) == t && r.next == |EmitSteps(t)| + 1
  }

  lemma WorkflowRoundTrip(t: seq<Step>, rest: seq<Line>)
    requires Placed(t, WORKFLOW)
    ensures Reads(t, rest) <==>
            Spaced(t, WORKFLOW) && !LastIsBlank(t) && Accepted(t) &&
            ClausesClose(Printed(t, rest), 0, |EmitSteps(t)|)
  {
    Reparse(t, WORKFLOW, rest);
    StrippedIsNormal(t, WORKFLOW);
  }

  lemma {:induction false} StripShaped(steps: seq<Step>, opts: Opts)
    requires Shaped(steps, opts)
    ensures Shaped(StripTrailing(steps), opts)
    decreases |steps|
  {
    if LastIsBlank(steps) {
      var front := steps[..|steps| - 1];
      assert forall s | s in front :: s in steps;
      StripShaped(front, opts);
    }
  }

  // Formatting a parsed workflow: the body that comes out of the parser is read back as
  // itself exactly when it has no bare else-if and the printed clauses pass the brace scan.
  lemma WorkflowReformat(source: seq<Line>, start: nat, rest: seq<Line>)
    requires ParseBody(source, start, WORKFLOW, []).BodyOk?
    ensures var t := StripTrailing(ParseBody(source, start, WORKFLOW, []).steps);
            Reads(t, rest) <==> NoBareElseIf(t) && ClausesClose(Printed(t, rest), 0, |EmitSteps(t)|)
  {
    var steps := ParseBody(source, start, WORKFLOW, []).steps;
    BodyShaped(source, start, WORKFLOW, []);
    StripShaped(steps, WORKFLOW);
    StripShorter(steps);
    AcceptedWhenShaped(StripTrailing(steps), WORKFLOW);
    WorkflowRoundTrip(StripTrailing(steps), rest);
  }

  // ----- where the round trip fails -----

  // Source: `if a {` / `} else {` / `if b {` / `}` / `}`, closed by the body's own brace.
  lemma EmptyElseIfIsLost(a: string, b: string)
    ensures var source := [IfHead(a), ElseArm, IfHead(b), Close, Close, Close];
            var t := [If(a, [], Else([If(b, [], NoElse)]))];
            && ParseBody(source, 0, WORKFLOW, []) == BodyOk(t, 6, ByBrace)
            && forall rest :: ParseBody(Printed(t, rest), 0, WORKFLOW, []).BodyErr?
  {
    var source := [IfHead(a), ElseArm, IfHead(b), Close, Close, Close];
    var inner, t := If(b, [], NoElse), [If(a, [], Else([If(b, [], NoElse)]))];
    assert ParseBody(source, 3, THEN_BODY, []) == BodyOk([], 4, ByBrace);
    assert ParseIfArm(source, 2, false) == StepOk(inner, 4);
    assert ParseBody(source, 4, PLAIN, [] + [inner]) == BodyOk([inner], 5, ByBrace);
    assert ParseBody(source, 2, PLAIN, []) == BodyOk([inner], 5, ByBrace);
    assert ParseBody(source, 1, THEN_BODY, []) == BodyOk([], 2, ByElse);
    assert ParseIfArm(source, 0, false) == StepOk(t[0], 5);
    assert ParseBody(source, 5, WORKFLOW, [] + [t[0]]) == BodyOk(t, 6, ByBrace);
    forall rest ensures ParseBody(Printed(t, rest), 0, WORKFLOW, []).BodyErr? {
      assert Placed([], THEN_BODY) && PlacedStep(inner, PLAIN) && Placed([inner], PLAIN);
      assert PlacedStep(t[0], WORKFLOW);
      Reparse(t, WORKFLOW, rest);
      assert LoneIf([inner]) && !AcceptedElse(Else([inner]));
      assert t[0] in t && !AcceptedStep(t[0]);
    }
  }

  lemma PlainLeaf(s: string, opts: Opts)
    ensures Shaped([Leaf(Stmt(s))], opts) && Accepted([Leaf(Stmt(s))])
  {
    var leaf := Leaf(Stmt(s));
    assert ShapedStep(leaf, opts) && AcceptedStep(leaf);
  }

  lemma StartsWithStep(b: seq<Step>)
    requires b != [] && !b[0].Blank?
    ensures !OnlyBlanks(b)
  {
    assert b[0] in b;
  }

  // A clause with two if/else statements and nothing after the workflow: the scan runs off
  // the end of the file although every block is closed.
  lemma TwoElseArmsInClause(call: string, e: string, c: string, s: string)
    requires !EndsWithBrace(s)
    ensures var branch := If(c, [Leaf(Stmt(s))], Else([Leaf(Stmt(s))]));
            var t := [Attached(call, Catch, e, [branch, branch])];
            && Placed(t, WORKFLOW) && Spaced(t, WORKFLOW) && Accepted(t)
            && ParseBody(Printed(t, []), 0, WORKFLOW, []).BodyErr?
  {
    var leaf := [Leaf(Stmt(s))];
    var branch := If(c, leaf, Else(leaf));
    var t := [Attached(call, Catch, e, [branch, branch])];
    var lines, n := Printed(t, []), |EmitSteps(t)|;
    PlainLeaf(s, THEN_BODY);
    PlainLeaf(s, PLAIN);
    assert leaf[0].Leaf? && !LoneIf(leaf);
    StartsWithStep([branch, branch]);
    assert AcceptedStep(branch) && ShapedStep(branch, PLAIN) && branch in [branch, branch];
    assert AcceptedStep(t[0]) && ShapedStep(t[0], WORKFLOW);
    assert EmitSteps(t) == EmitStep(t[0]) + EmitSteps(t[1..]);
    assert lines[0..n] == EmitStep(t[0]) && lines[n..] == [Close];
    ClauseScan(lines, 0, call, Catch, e, [branch, branch], n);
    assert Unmatched(leaf) == UnmatchedStep(leaf[0]) + Unmatched(leaf[1..]) == 0;
    assert UnmatchedStep(branch) == 1;
    assert Unmatched([branch]) == 1 by { assert [branch][1..] == []; }
    assert Unmatched([branch, branch]) == 2 by { assert [branch, branch][1..] == [branch]; }
    assert ScanCloses(lines, n, 2) == ScanCloses(lines, n + 1, 1) == false;
    assert lines[0] == Host(call, Catch, e);
    assert !ClausesClose(lines, 0, n);
    Reparse(t, WORKFLOW, []);
  }

  // Outside an `if` body, `} else {` is not an error: it is read as a plain statement.
  lemma StrayElseIsAStatement(rest: seq<Line>)
    ensures ParseBody([ElseArm, Close] + rest, 0, WORKFLOW, []) == BodyOk([Leaf(ElseArm)], 2, ByBrace)
  {
    var lines := [ElseArm, Close] + rest;
    assert ParseBody(lines, 1, WORKFLOW, [] + [Leaf(ElseArm)]) == BodyOk([Leaf(ElseArm)], 2, ByBrace);
  }

  // A `for` inside a then-body may be closed by the `} else {` of the enclosing `if`; the
  // arm is then not an else body but more of the then-body.
  lemma ElseClosesALoop(c: string, v: string, src: string, s: string, rest: seq<Line>)
    ensures var lines := [IfHead(c), ForHead(v, src), ElseArm, Stmt(s), Close] + rest;
            ParseIfArm(lines, 0, false) == StepOk(If(c, [For(v, src, []), Leaf(Stmt(s))], NoElse), 5)
  {
    var lines := [IfHead(c), ForHead(v, src), ElseArm, Stmt(s), Close] + rest;
    var loop, leaf := For(v, src, []), Leaf(Stmt(s));
    assert ParseBody(lines, 2, THEN_BODY, []) == BodyOk([], 3, ByElse);
    assert ParseStep(lines, 1, THEN_BODY) == StepOk(loop, 3);
    assert ParseBody(lines, 4, THEN_BODY, [loop] + [leaf]) == BodyOk([loop, leaf], 5, ByBrace);
    assert ParseBody(lines, 3, THEN_BODY, [] + [loop]) == BodyOk([loop, leaf], 5, ByBrace);
  }
}
