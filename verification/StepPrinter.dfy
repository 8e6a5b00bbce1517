// Printing a step tree back to lines: src/format/emit-steps.ts.
module StepPrinter {
  import opened StepTree

  function EmitSteps(steps: seq<Step>): seq<Line>
    decreases steps
  {
    if steps == [] then [] else EmitStep(steps[0]) + EmitSteps(steps[1..])
  }

  function EmitStep(s: Step): (r: seq<Line>)
    ensures r != []
    decreases s
  {
    match s
    case Comment(text) => [Note(text)]
    case Blank => [Empty]
    case Leaf(line) => [line]
    case If(cond, body, elseBody) => [IfHead(cond)] + EmitSteps(body) + EmitTail(elseBody)
    case For(v, src, body) => [ForHead(v, src)] + EmitSteps(body) + [Close]
    case Attached(call, clause, failure, block) => [Host(call, clause, failure)] + EmitSteps(block) + [Close]
  }

  // What follows the then-body of an `if`. A lone `if` in the else body is printed as an
  // `else if` arm of the same chain.
  function EmitTail(elseBody: ElsePart): (r: seq<Line>)
    ensures r != []
    decreases elseBody
  {
    match elseBody
    case NoElse => [Close]
    case Else(e) =>
      if LoneIf(e) then [ElseIfArm(e[0].cond)] + EmitSteps(e[0].body) + EmitTail(e[0].elseBody)
      else [ElseArm] + EmitSteps(e) + [Close]
  }

  predicate LoneIf(e: seq<Step>) {
    |e| == 1 && e[0].If?
  }

  lemma EmitStepsSnoc(steps: seq<Step>, s: Step)
    ensures EmitSteps(steps + [s]) == EmitSteps(steps) + EmitStep(s)
  {
    hide EmitStep, EmitTail;
    if steps == [] {
      assert steps + [s] == [s];
    } else {
      EmitStepsSnoc(steps[1..], s);
      assert (steps + [s])[1..] == steps[1..] + [s];
    }
  }

  lemma IfParts(s: Step)
    requires s.If?
    ensures EmitStep(s) == [IfHead(s.cond)] + EmitSteps(s.body) + EmitTail(s.elseBody)
  {
  }

  lemma TailOfChain(e: ElsePart)
    requires e.Else? && LoneIf(e.steps)
    ensures var arm := e.steps[0];
            EmitTail(e) == [ElseIfArm(arm.cond)] + EmitSteps(arm.body) + EmitTail(arm.elseBody)
  {
  }

  // A lone `if` in the else body is printed as it is alone, its head turned into an arm.
  lemma ChainForm(s: Step)
    requires s.If? && s.elseBody.Else? && LoneIf(s.elseBody.steps)
    ensures var inner := s.elseBody.steps[0];
            EmitStep(s) == [IfHead(s.cond)] + EmitSteps(s.body) + [ElseIfArm(inner.cond)] + EmitStep(inner)[1..]
  {
    hide EmitStep, EmitSteps, EmitTail;
    var inner := s.elseBody.steps[0];
    IfParts(s);
    IfParts(inner);
    TailOfChain(s.elseBody);
    var rest := EmitSteps(inner.body) + EmitTail(inner.elseBody);
    assert EmitStep(inner) == [IfHead(inner.cond)] + rest;
  }

  lemma TailOfEnd(e: ElsePart)
    requires e.Else? ==> !LoneIf(e.steps)
    ensures EmitTail(e) == if e.Else? then [ElseArm] + EmitSteps(e.steps) + [Close] else [Close]
  {
  }

  // ----- the printer -----

  method PrintSteps(steps: seq<Step>) returns (lines: seq<Line>)
    ensures lines == EmitSteps(steps)
    decreases steps, 1
  {
    lines := [];
    for i := 0 to |steps|
      invariant lines == EmitSteps(steps[..i])
    {
      var one := PrintStep(steps[i]);
      lines := lines + one;
      EmitStepsSnoc(steps[..i], steps[i]);
      assert steps[..i + 1] == steps[..i] + [steps[i]];
    }
    assert steps[..|steps|] == steps;
  }

  method PrintStep(s: Step) returns (lines: seq<Line>)
    ensures lines == EmitStep(s)
    decreases s, 1
  {
    match s {
      case Comment(text) => lines := [Note(text)];
      case Blank => lines := [Empty];
      case Leaf(line) => lines := [line];
      case If(cond, body, elseBody) => lines := PrintIf(s);
      case For(v, src, body) =>
        var inner := PrintSteps(body);
        lines := [ForHead(v, src)] + inner + [Close];
      case Attached(call, clause, failure, block) =>
        var inner := PrintSteps(block);
        lines := [Host(call, clause, failure)] + inner + [Close];
    }
  }

  method PrintIf(s: Step) returns (lines: seq<Line>)
    requires s.If?
    ensures lines == EmitStep(s)
    decreases s, 0
  {
    hide EmitSteps, EmitTail, EmitStep;
    var inner := PrintSteps(s.body);
    lines := [IfHead(s.cond)] + inner;
    var cur := s;
    IfParts(s);
    while cur.elseBody.Else? && |cur.elseBody.steps| == 1 && cur.elseBody.steps[0].If?
      invariant cur.If? && (cur == s || cur < s)
      invariant EmitStep(s) == lines + EmitTail(cur.elseBody)
      decreases cur
    {
      var arm := cur.elseBody.steps[0];
      inner := PrintSteps(arm.body);
      ghost var before := lines;
      lines := lines + [ElseIfArm(arm.cond)] + inner;
      TailOfChain(cur.elseBody);
      assert before + EmitTail(cur.elseBody) == lines + EmitTail(arm.elseBody);
      cur := arm;
    }
    TailOfEnd(cur.elseBody);
    if cur.elseBody.Else? {
      inner := PrintSteps(cur.elseBody.steps);
      lines := lines + [ElseArm] + inner;
    }
    lines := lines + [Close];
  }
}
