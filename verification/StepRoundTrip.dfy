// What the block parser makes of a printed step tree.
module StepRoundTrip {
  import opened StepTree
  import opened StepPrinter
  import opened BlockParser

  // ----- the tree a printed tree is read back as -----

  function NormStep(s: Step, opts: Opts): Step
    decreases s, 1
  {
    match s
    case If(c, b, e) => If(c, Normalize(b, THEN_BODY), NormElse(e))
    case For(v, src, b) => For(v, src, Normalize(b, opts))
    case Attached(c, k, f, b) => Attached(c, k, f, Normalize(b, PLAIN))
    case _ => s
  }

  function NormElse(e: ElsePart): ElsePart
    decreases e, 1
  {
    if e.NoElse? then NoElse else Else(Normalize(e.steps, PLAIN))
  }

  function Normalize(steps: seq<Step>, opts: Opts): seq<Step>
    decreases steps, 1
  {
    NormOnto([], steps, opts)
  }

  // Drop blanks the block does not keep, and leading or repeated ones where it does.
  function NormOnto(acc: seq<Step>, steps: seq<Step>, opts: Opts): seq<Step>
    decreases steps, 0
  {
    if steps == [] then acc
    else if steps[0].Blank? then NormOnto(PushBlank(acc, opts), steps[1..], opts)
    else NormOnto(acc + [NormStep(steps[0], opts)], steps[1..], opts)
  }

  // ----- trees the printer can be handed -----

  // Every leaf stands for a line the parser keeps as one statement where the leaf stands.
  predicate Placed(steps: seq<Step>, opts: Opts)
    decreases steps, 0
  {
    forall s <- steps :: PlacedStep(s, opts)
  }

  predicate PlacedStep(s: Step, opts: Opts)
    decreases s, 1
  {
    match s
    case Leaf(line) => line.Stmt? || (ElseLike(line) && !opts.elseCloses)
    case If(_, b, e) => Placed(b, THEN_BODY) && (e.Else? ==> Placed(e.steps, PLAIN))
    case For(_, _, b) => Placed(b, opts)
    case Attached(_, _, _, b) => Placed(b, PLAIN)
    case _ => true
  }

  predicate OnlyBlanks(steps: seq<Step>) {
    forall s <- steps :: s.Blank?
  }

  // No clause block is blank, and no lone `if` in an else body has a blank then-body.
  predicate Accepted(steps: seq<Step>)
    decreases steps, 0
  {
    forall s <- steps :: AcceptedStep(s)
  }

  predicate AcceptedStep(s: Step)
    decreases s, 1
  {
    match s
    case If(_, b, e) => Accepted(b) && AcceptedElse(e)
    case For(_, _, b) => Accepted(b)
    case Attached(_, _, _, b) => Accepted(b) && !OnlyBlanks(b)
    case _ => true
  }

  predicate AcceptedElse(e: ElsePart)
    decreases e, 0
  {
    e.Else? ==> Accepted(e.steps) && (LoneIf(e.steps) ==> !OnlyBlanks(e.steps[0].body))
  }

  // The scan at every catch or recover line between `lo` and `hi` finds a closing brace.
  predicate ClausesClose(lines: seq<Line>, lo: nat, hi: nat)
    requires hi <= |lines|
  {
    forall p | lo <= p < hi && lines[p].Host? :: ScanCloses(lines, p + 1, 1)
  }

  // ----- lemmas -----

  lemma {:induction false} NormOntoEmpty(acc: seq<Step>, steps: seq<Step>, opts: Opts)
    ensures |NormOnto(acc, steps, opts)| >= |acc|
    ensures NormOnto(acc, steps, opts) == [] <==> acc == [] && OnlyBlanks(steps)
    decreases |steps|
  {
    if steps != [] {
      NormOntoEmpty(Taken(acc, steps[0], opts), steps[1..], opts);
      assert steps == [steps[0]] + steps[1..];
    }
  }

  lemma NormLone(s: Step)
    requires s.If?
    ensures Normalize([s], PLAIN) == [NormStep(s, PLAIN)]
  {
    assert [] + [NormStep(s, PLAIN)] == [NormStep(s, PLAIN)];
    assert NormOnto([NormStep(s, PLAIN)], [s][1..], PLAIN) == [NormStep(s, PLAIN)];
  }

  predicate Closes(line: Line, opts: Opts) {
    line.Close? || (opts.elseCloses && (line.ElseArm? || line.ElseIfArm?))
  }

  function ClosedAt(steps: seq<Step>, line: Line, q: nat): BodyResult
  {
    if line.ElseIfArm? then BodyOk(steps, q, ByElseIf)
    else if line.ElseArm? then BodyOk(steps, q + 1, ByElse)
    else BodyOk(steps, q + 1, ByBrace)
  }

  lemma Cut<T>(s: seq<T>, p: nat, q: nat, a: seq<T>, b: seq<T>)
    requires p <= q <= |s| && s[p..q] == a + b
    ensures p + |a| <= q && s[p..p + |a|] == a && s[p + |a|..q] == b
    ensures |a| == 1 ==> s[p] == a[0]
    ensures |b| == 1 ==> s[q - 1] == b[0]
    ensures |b| > 0 ==> s[p + |a|] == b[0]
  {
    var t := s[p..q];
    assert s[p..p + |a|] == t[..|a|] == a;
    assert s[p + |a|..q] == t[|a|..] == b;
    assert |a| > 0 ==> s[p] == t[0];
    assert |b| > 0 ==> s[q - 1] == t[|t| - 1] && s[p + |a|] == t[|a|];
  }

  lemma CutHead<T>(s: seq<T>, p: nat, q: nat, head: T, a: seq<T>, b: seq<T>)
    requires p <= q <= |s| && s[p..q] == [head] + a + b
    ensures p + 1 + |a| <= q && s[p] == head
    ensures s[p + 1..p + 1 + |a|] == a && s[p + 1 + |a|..q] == b
    ensures |b| > 0 ==> s[p + 1 + |a|] == b[0]
    ensures |b| == 1 ==> q == p + 1 + |a| + 1
  {
    Cut(s, p, q, [head] + a, b);
    Cut(s, p, p + 1 + |a|, [head], a);
  }

  lemma ClausesSplit(lines: seq<Line>, lo: nat, mid: nat, hi: nat)
    requires lo <= mid <= hi <= |lines|
    ensures ClausesClose(lines, lo, hi) <==> ClausesClose(lines, lo, mid) && ClausesClose(lines, mid, hi)
  {
  }

  lemma AcceptedCons(steps: seq<Step>)
    requires steps != []
    ensures Accepted(steps) <==> AcceptedStep(steps[0]) && Accepted(steps[1..])
  {
    assert steps == [steps[0]] + steps[1..];
  }

  lemma {:induction false} BodyReads(lines: seq<Line>, p: nat, opts: Opts, acc: seq<Step>, steps: seq<Step>, q: nat)
    requires p <= q < |lines| && lines[p..q] == EmitSteps(steps)
    requires Placed(steps, opts) && Closes(lines[q], opts)
    ensures var r := ParseBody(lines, p, opts, acc);
            if Accepted(steps) && ClausesClose(lines, p, q)
            then r == ClosedAt(NormOnto(acc, steps, opts), lines[q], q)
            else r.BodyErr?
    decreases steps, 2
  {
    if steps == [] {
      assert p == q;
    } else {
      var s, m := steps[0], p + |EmitStep(steps[0])|;
      Cut(lines, p, q, EmitStep(s), EmitSteps(steps[1..]));
      assert lines[p] == lines[p..m][0];
      AcceptedCons(steps);
      ClausesSplit(lines, p, m, q);
      if !s.Blank? && !s.Comment? {
        StepReads(lines, p, opts, s, m);
      }
      FirstRead(lines, p, opts, acc, s, m);
      BodyReads(lines, m, opts, Taken(acc, s, opts), steps[1..], q);
    }
  }

  function Taken(acc: seq<Step>, s: Step, opts: Opts): seq<Step> {
    if s.Blank? then PushBlank(acc, opts) else acc + [NormStep(s, opts)]
  }

  lemma FirstRead(lines: seq<Line>, p: nat, opts: Opts, acc: seq<Step>, s: Step, m: nat)
    requires p < m <= |lines| && lines[p] == EmitStep(s)[0] && PlacedStep(s, opts)
    requires s.Blank? || s.Comment? ==> m == p + 1
    requires !s.Blank? && !s.Comment? ==>
               var r := ParseStep(lines, p, opts);
               if AcceptedStep(s) && ClausesClose(lines, p, m) then r == StepOk(NormStep(s, opts), m)
               else r.StepErr?
    ensures var r := ParseBody(lines, p, opts, acc);
            if AcceptedStep(s) && ClausesClose(lines, p, m) then r == ParseBody(lines, m, opts, Taken(acc, s, opts))
            else r.BodyErr?
  {
  }

  lemma {:induction false} StepReads(lines: seq<Line>, p: nat, opts: Opts, s: Step, q: nat)
    requires p < q <= |lines| && lines[p..q] == EmitStep(s)
    requires !s.Blank? && !s.Comment? && PlacedStep(s, opts)
    requires lines[p] == EmitStep(s)[0]
    ensures var r := ParseStep(lines, p, opts);
            if AcceptedStep(s) && ClausesClose(lines, p, q)
            then r == StepOk(NormStep(s, opts), q)
            else r.StepErr?
    decreases s, 1
  {
    match s
    case Leaf(line) =>
    case If(c, b, e) =>
      Cut(lines, p, q, [IfHead(c)], EmitSteps(b) + EmitTail(e)) by {
        assert EmitStep(s) == [IfHead(c)] + (EmitSteps(b) + EmitTail(e));
      }
      ArmReads(lines, p, false, s, q);
      assert ClausesClose(lines, p, q) <==> ClausesClose(lines, p + 1, q);
    case For(v, src, b) =>
      BracedReads(lines, p, opts, ForHead(v, src), b, q);
    case Attached(c, k, f, b) =>
      AttachedReads(lines, p, opts, s, q);
  }

  lemma {:induction false} AttachedReads(lines: seq<Line>, p: nat, opts: Opts, s: Step, q: nat)
    requires p < q <= |lines| && lines[p..q] == EmitStep(s)
    requires s.Attached? && PlacedStep(s, opts)
    ensures var r := ParseStep(lines, p, opts);
            if AcceptedStep(s) && ClausesClose(lines, p, q)
            then r == StepOk(NormStep(s, opts), q)
            else r.StepErr?
    decreases s, 0
  {
    var head := Host(s.call, s.clause, s.failure);
    BracedReads(lines, p, PLAIN, head, s.block, q);
    NormOntoEmpty([], s.block, PLAIN);
    assert lines[p] == head;
    assert ClausesClose(lines, p, q) <==> ScanCloses(lines, p + 1, 1) && ClausesClose(lines, p + 1, q);
  }

  // A head line, a body and the brace that closes it.
  lemma {:induction false} BracedReads(lines: seq<Line>, p: nat, opts: Opts, head: Line, b: seq<Step>, q: nat)
    requires p < q <= |lines| && lines[p..q] == [head] + EmitSteps(b) + [Close]
    requires Placed(b, opts)
    ensures lines[p] == head
    ensures var r := ParseBody(lines, p + 1, opts, []);
            if Accepted(b) && ClausesClose(lines, p + 1, q) then r == BodyOk(Normalize(b, opts), q, ByBrace)
            else r.BodyErr?
    decreases b, 3
  {
    CutHead(lines, p, q, head, EmitSteps(b), [Close]);
    BodyReads(lines, p + 1, opts, [], b, q - 1);
    assert ClausesClose(lines, p + 1, q) <==> ClausesClose(lines, p + 1, q - 1);
  }

  lemma {:induction false} ArmReads(lines: seq<Line>, h: nat, isElseIf: bool, s: Step, q: nat)
    requires s.If? && PlacedStep(s, PLAIN)
    requires h < q <= |lines| && lines[h + 1..q] == EmitSteps(s.body) + EmitTail(s.elseBody)
    requires lines[h] == if isElseIf then ElseIfArm(s.cond) else IfHead(s.cond)
    ensures var r := ParseIfArm(lines, h, isElseIf);
            if AcceptedStep(s) && ClausesClose(lines, h + 1, q) && (isElseIf ==> !OnlyBlanks(s.body))
            then r == StepOk(NormStep(s, PLAIN), q)
            else r.StepErr?
    decreases s, 0
  {
    var b, e := s.body, s.elseBody;
    var m := h + 1 + |EmitSteps(b)|;
    Cut(lines, h + 1, q, EmitSteps(b), EmitTail(e));
    BodyReads(lines, h + 1, THEN_BODY, [], b, m);
    NormOntoEmpty([], b, THEN_BODY);
    TailReads(lines, m, e, q);
    ArmFromParts(lines, h, isElseIf, s, m, q);
  }

  // The outcome of reading the lines from `m` on as the tail of a then-body.
  predicate TailOutcome(lines: seq<Line>, m: nat, e: ElsePart, q: nat)
    requires m < q <= |lines|
  {
    if e.NoElse? then lines[m].Close? && q == m + 1
    else if LoneIf(e.steps) then
      lines[m].ElseIfArm? &&
      var r := ParseIfArm(lines, m, true);
      if AcceptedElse(e) && ClausesClose(lines, m, q) then r == StepOk(NormStep(e.steps[0], PLAIN), q)
      else r.StepErr?
    else
      lines[m].ElseArm? &&
      var r := ParseBody(lines, m + 1, PLAIN, []);
      if AcceptedElse(e) && ClausesClose(lines, m, q) then r == BodyOk(Normalize(e.steps, PLAIN), q, ByBrace)
      else r.BodyErr?
  }

  lemma ArmFromParts(lines: seq<Line>, h: nat, isElseIf: bool, s: Step, m: nat, q: nat)
    requires s.If? && h < m < q <= |lines|
    requires lines[h] == if isElseIf then ElseIfArm(s.cond) else IfHead(s.cond)
    requires TailOutcome(lines, m, s.elseBody, q)
    requires var r := ParseBody(lines, h + 1, THEN_BODY, []);
             if Accepted(s.body) && ClausesClose(lines, h + 1, m)
             then r == ClosedAt(Normalize(s.body, THEN_BODY), lines[m], m)
             else r.BodyErr?
    requires Normalize(s.body, THEN_BODY) == [] <==> OnlyBlanks(s.body)
    ensures AcceptedStep(s) <==> Accepted(s.body) && AcceptedElse(s.elseBody)
    ensures var r := ParseIfArm(lines, h, isElseIf);
            if AcceptedStep(s) && ClausesClose(lines, h + 1, q) && (isElseIf ==> !OnlyBlanks(s.body))
            then r == StepOk(NormStep(s, PLAIN), q)
            else r.StepErr?
  {
    ClausesSplit(lines, h + 1, m, q);
    if s.elseBody.NoElse? {
      assert ClausesClose(lines, m, q);
    } else if LoneIf(s.elseBody.steps) {
      NormLone(s.elseBody.steps[0]);
      assert s.elseBody.steps == [s.elseBody.steps[0]];
    }
  }

  // The lines after a then-body, read the way `ParseIfArm` goes on.
  lemma {:induction false} TailReads(lines: seq<Line>, m: nat, e: ElsePart, q: nat)
    requires m < q <= |lines| && lines[m..q] == EmitTail(e)
    requires e.Else? ==> Placed(e.steps, PLAIN)
    ensures lines[m] == EmitTail(e)[0]
    ensures TailOutcome(lines, m, e, q)
    decreases e, 0
  {
    assert lines[m] == lines[m..q][0];
    if e.NoElse? {
      assert q == m + 1;
    } else if LoneIf(e.steps) {
      var arm := e.steps[0];
      assert e.steps == [arm];
      Cut(lines, m, q, [ElseIfArm(arm.cond)], EmitSteps(arm.body) + EmitTail(arm.elseBody)) by {
        assert EmitTail(e) == [ElseIfArm(arm.cond)] + (EmitSteps(arm.body) + EmitTail(arm.elseBody));
      }
      ArmReads(lines, m, true, arm, q);
      assert Accepted(e.steps) <==> AcceptedStep(arm);
      assert ClausesClose(lines, m, q) <==> ClausesClose(lines, m + 1, q);
    } else {
      BracedReads(lines, m, PLAIN, ElseArm, e.steps, q);
      assert ClausesClose(lines, m, q) <==> ClausesClose(lines, m + 1, q);
    }
  }
}
