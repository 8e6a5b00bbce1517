// Block structure of workflow bodies: src/parse/workflow-brace.ts.
module BlockParser {
  import opened StepTree

  datatype Error =
    | Unterminated
    | BadElse
    | BadStatement
    | EmptyElseIf
    | UnterminatedClause
    | EmptyClause

  // Which line closed a block.
  datatype Closing = ByBrace | ByElse | ByElseIf

  datatype BodyResult = BodyOk(steps: seq<Step>, next: nat, closing: Closing) | BodyErr(bodyError: Error)
  datatype StepResult = StepOk(step: Step, next: nat) | StepErr(stepError: Error)

  // ----- specification -----

  predicate LastIsBlank(steps: seq<Step>) {
    |steps| > 0 && steps[|steps| - 1].Blank?
  }

  // A blank line becomes a step only when it follows a step that is not itself blank.
  function PushBlank(steps: seq<Step>, opts: Opts): seq<Step> {
    if opts.keepBlanks && steps != [] && !LastIsBlank(steps) then steps + [Blank] else steps
  }

  // Does the scan for the brace matching a clause reach depth zero within the lines?
  predicate ScanCloses(lines: seq<Line>, probe: nat, depth: nat)
    decreases |lines| - probe
  {
    if probe >= |lines| then false
    else
      var d := if EndsInBrace(lines[probe]) then depth + 1 else depth;
      if lines[probe].Close? then (d <= 1 || ScanCloses(lines, probe + 1, d - 1))
      else ScanCloses(lines, probe + 1, d)
  }

  function ParseBody(lines: seq<Line>, idx: nat, opts: Opts, acc: seq<Step>): (r: BodyResult)
    ensures r.BodyOk? ==> idx <= r.next <= |lines|
    ensures r.BodyOk? && !r.closing.ByElseIf? ==> idx < r.next
    ensures r.BodyOk? && r.closing.ByElseIf? ==> opts.elseCloses && r.next < |lines| && lines[r.next].ElseIfArm?
    ensures r.BodyOk? && r.closing.ByElse? ==> opts.elseCloses
    decreases |lines| - idx, 3
  {
    if idx >= |lines| then BodyErr(Unterminated)
    else
      var line := lines[idx];
      if line.Empty? then ParseBody(lines, idx + 1, opts, PushBlank(acc, opts))
      else if line.Note? then ParseBody(lines, idx + 1, opts, acc + [Comment(line.text)])
      else if opts.elseCloses && line.ElseIfArm? then BodyOk(acc, idx, ByElseIf)
      else if opts.elseCloses && line.ElseArm? then BodyOk(acc, idx + 1, ByElse)
      else if opts.elseCloses && line.StrayElse? then BodyErr(BadElse)
      else if line.Close? then BodyOk(acc, idx + 1, ByBrace)
      else
        var one := ParseStep(lines, idx, opts);
        if one.StepErr? then BodyErr(one.stepError)
        else ParseBody(lines, one.next, opts, acc + [one.step])
  }

  function ParseStep(lines: seq<Line>, idx: nat, opts: Opts): (r: StepResult)
    requires idx < |lines|
    requires !lines[idx].Empty? && !lines[idx].Note? && !lines[idx].Close?
    ensures r.StepOk? ==> idx < r.next <= |lines|
    decreases |lines| - idx, 2
  {
    var line := lines[idx];
    if line.IfHead? then ParseIfArm(lines, idx, false)
    else if line.ForHead? then
      // The body inherits this block's options, `elseCloses` included, and how it was
      // closed is not looked at.
      var b := ParseBody(lines, idx + 1, opts, []);
      if b.BodyErr? then StepErr(b.bodyError)
      else StepOk(For(line.iterVar, line.source, b.steps), b.next)
    else if line.Host? then
      if !ScanCloses(lines, idx + 1, 1) then StepErr(UnterminatedClause)
      else
        var b := ParseBody(lines, idx + 1, PLAIN, []);
        if b.BodyErr? then StepErr(b.bodyError)
        else if b.steps == [] then StepErr(EmptyClause)
        else StepOk(Attached(line.call, line.clause, line.failure, b.steps), b.next)
    else if line.Rejected? then StepErr(BadStatement)
    else StepOk(Leaf(line), idx + 1)
  }

  // One arm of an if chain: `head` is the `if` line, or the `} else if` line that closed
  // the arm before it and is read again here.
  function ParseIfArm(lines: seq<Line>, head: nat, isElseIf: bool): (r: StepResult)
    requires head < |lines|
    requires if isElseIf then lines[head].ElseIfArm? else lines[head].IfHead?
    ensures r.StepOk? ==> head < r.next <= |lines| && r.step.If?
    decreases |lines| - head, 1
  {
    var cond := lines[head].cond;
    var b := ParseBody(lines, head + 1, THEN_BODY, []);
    if b.BodyErr? then StepErr(b.bodyError)
    else if isElseIf && b.steps == [] then StepErr(EmptyElseIf)
    else
      match b.closing
      case ByBrace => StepOk(If(cond, b.steps, NoElse), b.next)
      case ByElse =>
        var e := ParseBody(lines, b.next, PLAIN, []);
        if e.BodyErr? then StepErr(e.bodyError)
        else StepOk(If(cond, b.steps, Else(e.steps)), e.next)
      case ByElseIf =>
        var nested := ParseIfArm(lines, b.next, true);
        if nested.StepErr? then nested
        else StepOk(If(cond, b.steps, Else([nested.step])), nested.next)
  }

  // ----- the parser -----

  method ParseBraceBlockBody(lines: seq<Line>, startIdx: nat, opts: Opts) returns (r: BodyResult)
    ensures r == ParseBody(lines, startIdx, opts, [])
    decreases |lines| - startIdx, 3
  {
    var steps: seq<Step> := [];
    var idx := startIdx;
    while idx < |lines|
      invariant startIdx <= idx
      invariant ParseBody(lines, startIdx, opts, []) == ParseBody(lines, idx, opts, steps)
      decreases |lines| - idx
    {
      var line := lines[idx];
      if line.Empty? {
        if opts.keepBlanks && |steps| > 0 && !steps[|steps| - 1].Blank? {
          steps := steps + [Blank];
        }
        idx := idx + 1;
        continue;
      }
      if line.Note? {
        steps := steps + [Comment(line.text)];
        idx := idx + 1;
        continue;
      }
      if opts.elseCloses && ElseLike(line) {
        if line.ElseIfArm? { return BodyOk(steps, idx, ByElseIf); }
        if line.ElseArm? { return BodyOk(steps, idx + 1, ByElse); }
        return BodyErr(BadElse);
      }
      if line.Close? { return BodyOk(steps, idx + 1, ByBrace); }
      var one := ParseBlockStatement(lines, idx, opts);
      if one.StepErr? { return BodyErr(one.stepError); }
      steps := steps + [one.step];
      idx := one.next;
    }
    r := BodyErr(Unterminated);
  }

  method ParseBlockStatement(lines: seq<Line>, idx: nat, opts: Opts) returns (r: StepResult)
    requires idx < |lines|
    requires !lines[idx].Empty? && !lines[idx].Note? && !lines[idx].Close?
    ensures r == ParseStep(lines, idx, opts)
    decreases |lines| - idx, 2
  {
    var line := lines[idx];
    if line.IfHead? {
      r := ParseArm(lines, idx, false);
    } else if line.ForHead? {
      var b := ParseBraceBlockBody(lines, idx + 1, opts);
      r := if b.BodyErr? then StepErr(b.bodyError)
           else StepOk(For(line.iterVar, line.source, b.steps), b.next);
    } else if line.Host? {
      r := ParseAttachedBlock(lines, idx, line.call, line.clause, line.failure);
    } else if line.Rejected? {
      r := StepErr(BadStatement);
    } else {
      r := StepOk(Leaf(line), idx + 1);
    }
  }

  method ParseArm(lines: seq<Line>, head: nat, isElseIf: bool) returns (r: StepResult)
    requires head < |lines|
    requires if isElseIf then lines[head].ElseIfArm? else lines[head].IfHead?
    ensures r == ParseIfArm(lines, head, isElseIf)
    decreases |lines| - head, 1
  {
    var cond := lines[head].cond;
    var arm := ParseBraceBlockBody(lines, head + 1, THEN_BODY);
    if arm.BodyErr? { return StepErr(arm.bodyError); }
    if isElseIf && |arm.steps| == 0 { return StepErr(EmptyElseIf); }
    if arm.closing.ByElseIf? {
      var nested := ParseArm(lines, arm.next, true);
      return if nested.StepErr? then nested
             else StepOk(If(cond, arm.steps, Else([nested.step])), nested.next);
    }
    if arm.closing.ByElse? {
      var els := ParseBraceBlockBody(lines, arm.next, PLAIN);
      return if els.BodyErr? then StepErr(els.bodyError)
             else StepOk(If(cond, arm.steps, Else(els.steps)), els.next);
    }
    r := StepOk(If(cond, arm.steps, NoElse), arm.next);
  }

  method ParseAttachedBlock(lines: seq<Line>, idx: nat, call: string, clause: Clause, failure: string)
    returns (r: StepResult)
    requires idx < |lines| && lines[idx] == Host(call, clause, failure)
    ensures forall opts :: r == ParseStep(lines, idx, opts)
    decreases |lines| - idx, 1
  {
    var depth: nat := 1;
    var probe := idx + 1;
    while probe < |lines|
      invariant idx < probe && depth >= 1
      invariant ScanCloses(lines, idx + 1, 1) == ScanCloses(lines, probe, depth)
      decreases |lines| - probe
    {
      if EndsInBrace(lines[probe]) { depth := depth + 1; }
      if lines[probe].Close? {
        depth := depth - 1;
        if depth == 0 { break; }
      }
      probe := probe + 1;
    }
    if probe >= |lines| { return StepErr(UnterminatedClause); }
    var b := ParseBraceBlockBody(lines, idx + 1, PLAIN);
    if b.BodyErr? { return StepErr(b.bodyError); }
    if |b.steps| == 0 { return StepErr(EmptyClause); }
    r := StepOk(Attached(call, clause, failure, b.steps), b.next);
  }
}
