// What the lines of a block spell, independently of any parser, and that the block parser
// reads exactly that.
module StepGrammar {
  import opened StepTree
  import opened BlockParser
  import opened StepRoundTrip

  // ----- the grammar -----

  // The lines `lo..hi` spell the steps. Empty lines count where the block keeps them: a run of
  // them after a step is one blank. `ready` says that a step other than a blank came before.
  ghost predicate Spells(lines: seq<Line>, lo: nat, hi: nat, steps: seq<Step>, opts: Opts, ready: bool)
    requires hi <= |lines|
    decreases hi - lo, 1
  {
    if lo >= hi then lo == hi && steps == []
    else if lines[lo].Empty? then
      if opts.keepBlanks && ready
      then steps != [] && steps[0] == Blank && Spells(lines, lo + 1, hi, steps[1..], opts, false)
      else Spells(lines, lo + 1, hi, steps, opts, ready)
    else
      steps != [] &&
      exists m: nat ::
        lo < m <= hi && SpellsStep(lines, lo, m, steps[0], opts) && Spells(lines, m, hi, steps[1..], opts, true)
  }

  ghost predicate SpellsStep(lines: seq<Line>, lo: nat, hi: nat, s: Step, opts: Opts)
    requires lo < hi <= |lines|
    decreases hi - lo, 0
  {
    match s
    case Comment(text) => lines[lo] == Note(text) && hi == lo + 1
    case Blank => false
    case Leaf(line) =>
      lines[lo] == line && hi == lo + 1 && (line.Stmt? || (ElseLike(line) && !opts.elseCloses))
    case If(cond, body, elseBody) => lines[lo] == IfHead(cond) && SpellsArm(lines, lo + 1, hi, body, elseBody)
    case For(v, source, body) =>
      // A loop is closed by whatever closes the block around it.
      lines[lo] == ForHead(v, source) &&
      (Block(lines, lo + 1, hi, body, opts, ByBrace, false) ||
       Block(lines, lo + 1, hi, body, opts, ByElse, false) ||
       Block(lines, lo + 1, hi, body, opts, ByElseIf, false))
    case Attached(call, clause, failure, block) =>
      lines[lo] == Host(call, clause, failure) && block != [] &&
      Block(lines, lo + 1, hi, block, PLAIN, ByBrace, false)
  }

  // The rest of an `if` after its head: a lone `if` in the else body may be written as an
  // `} else if` arm, if its own body is not empty, or out in full after `} else {`.
  ghost predicate SpellsArm(lines: seq<Line>, lo: nat, hi: nat, body: seq<Step>, elseBody: ElsePart)
    requires hi <= |lines|
    decreases hi - lo, 3
  {
    if elseBody.NoElse? then Block(lines, lo, hi, body, THEN_BODY, ByBrace, false)
    else
      (exists m: nat ::
         lo < m <= hi && Block(lines, lo, m, body, THEN_BODY, ByElse, false) &&
         Block(lines, m, hi, elseBody.steps, PLAIN, ByBrace, false)) ||
      (LoneArm(elseBody.steps) &&
       exists m: nat ::
         lo <= m < hi && Block(lines, lo, m, body, THEN_BODY, ByElseIf, false) &&
         lines[m] == ElseIfArm(elseBody.steps[0].cond) &&
         SpellsArm(lines, m + 1, hi, elseBody.steps[0].body, elseBody.steps[0].elseBody))
  }

  predicate LoneArm(steps: seq<Step>) {
    |steps| == 1 && steps[0].If? && steps[0].body != []
  }

  // Steps and the line that closes them. An `} else if` line is left for the arm it begins.
  ghost predicate Block(lines: seq<Line>, lo: nat, hi: nat, steps: seq<Step>, opts: Opts, closing: Closing,
                        ready: bool)
    requires hi <= |lines|
    decreases hi - lo, 2
  {
    match closing
    case ByBrace => lo < hi && lines[hi - 1] == Close && Spells(lines, lo, hi - 1, steps, opts, ready)
    case ByElse =>
      opts.elseCloses && lo < hi && lines[hi - 1] == ElseArm && Spells(lines, lo, hi - 1, steps, opts, ready)
    case ByElseIf =>
      opts.elseCloses && lo <= hi < |lines| && lines[hi].ElseIfArm? && Spells(lines, lo, hi, steps, opts, ready)
  }

  // ----- what is read is what is spelled -----

  function EndOf(hi: nat, closing: Closing): int {
    if closing.ByElseIf? then hi else hi - 1
  }

  predicate Ready(acc: seq<Step>) {
    acc != [] && !LastIsBlank(acc)
  }

  lemma RestStep(lines: seq<Line>, lo: nat, m: nat, hi: nat, s: Step, steps: seq<Step>, opts: Opts, closing: Closing,
                 ready: bool)
    requires lo < m <= hi <= |lines| && !lines[lo].Empty?
    requires SpellsStep(lines, lo, m, s, opts) && Block(lines, m, hi, steps, opts, closing, true)
    ensures Block(lines, lo, hi, [s] + steps, opts, closing, ready)
  {
    assert ([s] + steps)[1..] == steps;
  }

  lemma RestEmpty(lines: seq<Line>, lo: nat, hi: nat, steps: seq<Step>, opts: Opts, closing: Closing, acc: seq<Step>)
    requires lo < hi <= |lines| || (lo < hi + 1 <= |lines| && closing.ByElseIf?)
    requires hi <= |lines| && lines[lo].Empty?
    requires Block(lines, lo + 1, hi, steps, opts, closing, Ready(PushBlank(acc, opts)))
    ensures Block(lines, lo, hi, PushBlank(acc, opts)[|acc|..] + steps, opts, closing, Ready(acc))
  {
    var more := PushBlank(acc, opts)[|acc|..];
    if opts.keepBlanks && Ready(acc) {
      assert more == [Blank] && (more + steps)[1..] == steps;
    } else {
      assert more == [] && more + steps == steps;
    }
  }

  // ----- every parse spells -----

  lemma {:induction false} BodyParsed(lines: seq<Line>, idx: nat, opts: Opts, acc: seq<Step>)
    requires ParseBody(lines, idx, opts, acc).BodyOk?
    ensures var r := ParseBody(lines, idx, opts, acc);
            acc <= r.steps && Block(lines, idx, r.next, r.steps[|acc|..], opts, r.closing, Ready(acc)) &&
            ClausesClose(lines, idx, r.next)
    decreases |lines| - idx, 3
  {
    var line, r := lines[idx], ParseBody(lines, idx, opts, acc);
    hide SpellsStep, ScanCloses;
    if line.Empty? {
      hide Spells;
      var more := PushBlank(acc, opts);
      BodyParsed(lines, idx + 1, opts, more);
      RestEmpty(lines, idx, r.next, r.steps[|more|..], opts, r.closing, acc);
      Pieces(acc, more, r.steps);
    } else if line.Note? {
      var s := Comment(line.text);
      BodyParsed(lines, idx + 1, opts, acc + [s]);
      RestStep(lines, idx, idx + 1, r.next, s, r.steps[|acc| + 1..], opts, r.closing, Ready(acc));
      Pieces(acc, acc + [s], r.steps);
    } else if line.Close? || (opts.elseCloses && ElseLike(line)) {
    } else {
      var one := ParseStep(lines, idx, opts);
      StepParsed(lines, idx, opts);
      BodyParsed(lines, one.next, opts, acc + [one.step]);
      RestStep(lines, idx, one.next, r.next, one.step, r.steps[|acc| + 1..], opts, r.closing, Ready(acc));
      Pieces(acc, acc + [one.step], r.steps);
    }
  }

  lemma Pieces(a: seq<Step>, b: seq<Step>, c: seq<Step>)
    requires a <= b <= c
    ensures a <= c && c[|a|..] == b[|a|..] + c[|b|..]
  {
  }

  lemma {:induction false} StepParsed(lines: seq<Line>, idx: nat, opts: Opts)
    requires idx < |lines| && !(opts.elseCloses && ElseLike(lines[idx]))
    requires !lines[idx].Empty? && !lines[idx].Note? && !lines[idx].Close?
    requires ParseStep(lines, idx, opts).StepOk?
    ensures var r := ParseStep(lines, idx, opts);
            SpellsStep(lines, idx, r.next, r.step, opts) && ClausesClose(lines, idx, r.next) && !r.step.Blank?
    decreases |lines| - idx, 2
  {
    var line := lines[idx];
    if line.IfHead? {
      ArmParsed(lines, idx, false);
    } else if line.ForHead? {
      BodyParsed(lines, idx + 1, opts, []);
      var b := ParseBody(lines, idx + 1, opts, []);
      WholeBlock(lines, idx + 1, b.next, b.steps, opts, b.closing);
    } else if line.Host? {
      BodyParsed(lines, idx + 1, PLAIN, []);
      var b := ParseBody(lines, idx + 1, PLAIN, []);
      WholeBlock(lines, idx + 1, b.next, b.steps, PLAIN, b.closing);
    }
  }

  lemma WholeBlock(lines: seq<Line>, lo: nat, hi: nat, steps: seq<Step>, opts: Opts, closing: Closing)
    requires hi <= |lines|
    ensures Block(lines, lo, hi, steps[0..], opts, closing, Ready([])) <==>
            Block(lines, lo, hi, steps, opts, closing, false)
  {
    assert steps[0..] == steps;
  }

  lemma {:induction false} ArmParsed(lines: seq<Line>, head: nat, isElseIf: bool)
    requires head < |lines|
    requires if isElseIf then lines[head].ElseIfArm? else lines[head].IfHead?
    requires ParseIfArm(lines, head, isElseIf).StepOk?
    ensures var r := ParseIfArm(lines, head, isElseIf);
            r.step.cond == lines[head].cond && SpellsArm(lines, head + 1, r.next, r.step.body, r.step.elseBody) &&
            ClausesClose(lines, head, r.next) && (isElseIf ==> r.step.body != [])
    decreases |lines| - head, 1
  {
    var r := ParseIfArm(lines, head, isElseIf);
    var b := ParseBody(lines, head + 1, THEN_BODY, []);
    BodyParsed(lines, head + 1, THEN_BODY, []);
    WholeBlock(lines, head + 1, b.next, b.steps, THEN_BODY, b.closing);
    if b.closing.ByElse? {
      var e := ParseBody(lines, b.next, PLAIN, []);
      BodyParsed(lines, b.next, PLAIN, []);
      WholeBlock(lines, b.next, e.next, e.steps, PLAIN, e.closing);
    } else if b.closing.ByElseIf? {
      ArmParsed(lines, b.next, true);
    }
  }

  // ----- every spelling parses -----

  // The first step of what is left, and the rest of it.
  lemma RestHead(lines: seq<Line>, lo: nat, hi: nat, steps: seq<Step>, opts: Opts, closing: Closing, ready: bool)
    returns (m: nat)
    requires hi <= |lines| && Block(lines, lo, hi, steps, opts, closing, ready)
    requires lo < EndOf(hi, closing) && !lines[lo].Empty?
    ensures steps != [] && lo < m <= EndOf(hi, closing) && SpellsStep(lines, lo, m, steps[0], opts)
    ensures Block(lines, m, hi, steps[1..], opts, closing, true)
  {
    var e := EndOf(hi, closing);
    assert Spells(lines, lo, e, steps, opts, ready);
    m :| lo < m <= e && SpellsStep(lines, lo, m, steps[0], opts) && Spells(lines, m, e, steps[1..], opts, true);
  }

  lemma RestOver(lines: seq<Line>, lo: nat, hi: nat, steps: seq<Step>, opts: Opts, closing: Closing, acc: seq<Step>)
    requires hi <= |lines| && Block(lines, lo, hi, steps, opts, closing, Ready(acc)) && lo == EndOf(hi, closing)
    ensures ParseBody(lines, lo, opts, acc) == BodyOk(acc + steps, hi, closing)
  {
    assert Spells(lines, lo, lo, steps, opts, Ready(acc));
    assert acc + steps == acc;
  }

  lemma RestTail(lines: seq<Line>, lo: nat, hi: nat, steps: seq<Step>, opts: Opts, closing: Closing, acc: seq<Step>)
    returns (rest: seq<Step>)
    requires hi <= |lines| && Block(lines, lo, hi, steps, opts, closing, Ready(acc))
    requires lo < EndOf(hi, closing) && lines[lo].Empty?
    ensures Block(lines, lo + 1, hi, rest, opts, closing, Ready(PushBlank(acc, opts)))
    ensures PushBlank(acc, opts) + rest == acc + steps
  {
    assert Spells(lines, lo, EndOf(hi, closing), steps, opts, Ready(acc));
    rest := if opts.keepBlanks && Ready(acc) then steps[1..] else steps;
  }

  lemma CommentSpelled(lines: seq<Line>, lo: nat, m: nat, s: Step, opts: Opts)
    requires lo < m <= |lines| && SpellsStep(lines, lo, m, s, opts) && s.Comment?
    ensures lines[lo] == Note(s.text) && m == lo + 1
  {
  }

  lemma {:induction false} BodySpelled(lines: seq<Line>, lo: nat, hi: nat, steps: seq<Step>, opts: Opts,
                                       closing: Closing, acc: seq<Step>)
    requires hi <= |lines| && Block(lines, lo, hi, steps, opts, closing, Ready(acc)) && ClausesClose(lines, lo, hi)
    ensures ParseBody(lines, lo, opts, acc) == BodyOk(acc + steps, hi, closing)
    decreases hi - lo, 2
  {
    hide SpellsStep, ScanCloses;
    if lo == EndOf(hi, closing) {
      RestOver(lines, lo, hi, steps, opts, closing, acc);
    } else if lines[lo].Empty? {
      var more := PushBlank(acc, opts);
      var rest := RestTail(lines, lo, hi, steps, opts, closing, acc);
      hide Block;
      BodySpelled(lines, lo + 1, hi, rest, opts, closing, more);
    } else {
      var m := RestHead(lines, lo, hi, steps, opts, closing, Ready(acc));
      var s := steps[0];
      if s.Comment? { CommentSpelled(lines, lo, m, s, opts); } else { StepSpelled(lines, lo, m, s, opts); }
      hide Block;
      BodySpelled(lines, m, hi, steps[1..], opts, closing, acc + [s]);
      assert acc + [s] + steps[1..] == acc + steps;
    }
  }

  lemma BlockSpelled(lines: seq<Line>, lo: nat, hi: nat, steps: seq<Step>, opts: Opts, closing: Closing)
    requires hi <= |lines| && Block(lines, lo, hi, steps, opts, closing, false) && ClausesClose(lines, lo, hi)
    ensures ParseBody(lines, lo, opts, []) == BodyOk(steps, hi, closing)
    decreases hi - lo, 3
  {
    BodySpelled(lines, lo, hi, steps, opts, closing, []);
    assert [] + steps == steps;
  }

  lemma {:induction false} StepSpelled(lines: seq<Line>, lo: nat, hi: nat, s: Step, opts: Opts)
    requires lo < hi <= |lines| && SpellsStep(lines, lo, hi, s, opts) && !s.Comment? && ClausesClose(lines, lo, hi)
    ensures !lines[lo].Empty? && !lines[lo].Note? && !lines[lo].Close? && !(opts.elseCloses && ElseLike(lines[lo]))
    ensures ParseStep(lines, lo, opts) == StepOk(s, hi)
    decreases hi - lo, 1
  {
    match s
    case Leaf(_) =>
    case If(_, body, elseBody) => ArmSpelled(lines, lo, hi, s, false);
    case For(_, _, body) =>
      if Block(lines, lo + 1, hi, body, opts, ByBrace, false) {
        BlockSpelled(lines, lo + 1, hi, body, opts, ByBrace);
      } else if Block(lines, lo + 1, hi, body, opts, ByElse, false) {
        BlockSpelled(lines, lo + 1, hi, body, opts, ByElse);
      } else {
        BlockSpelled(lines, lo + 1, hi, body, opts, ByElseIf);
      }
    case Attached(_, _, _, block) => BlockSpelled(lines, lo + 1, hi, block, PLAIN, ByBrace);
  }

  lemma ChainedArm(lines: seq<Line>, lo: nat, hi: nat, body: seq<Step>, e: seq<Step>) returns (m: nat)
    requires hi <= |lines| && SpellsArm(lines, lo, hi, body, Else(e))
    requires !exists m: nat :: lo < m <= hi && Block(lines, lo, m, body, THEN_BODY, ByElse, false) &&
                               Block(lines, m, hi, e, PLAIN, ByBrace, false)
    ensures LoneArm(e) && lo <= m < hi && Block(lines, lo, m, body, THEN_BODY, ByElseIf, false)
    ensures lines[m] == ElseIfArm(e[0].cond) && SpellsArm(lines, m + 1, hi, e[0].body, e[0].elseBody)
  {
    hide Block;
    assert LoneArm(e);
    m :| lo <= m < hi && Block(lines, lo, m, body, THEN_BODY, ByElseIf, false) &&
         lines[m] == ElseIfArm(e[0].cond) && SpellsArm(lines, m + 1, hi, e[0].body, e[0].elseBody);
  }

  lemma {:induction false} ArmSpelled(lines: seq<Line>, head: nat, hi: nat, s: Step, isElseIf: bool)
    requires head < hi <= |lines| && s.If? && ClausesClose(lines, head, hi)
    requires lines[head] == if isElseIf then ElseIfArm(s.cond) else IfHead(s.cond)
    requires SpellsArm(lines, head + 1, hi, s.body, s.elseBody) && (isElseIf ==> s.body != [])
    ensures ParseIfArm(lines, head, isElseIf) == StepOk(s, hi)
    decreases hi - head, 0
  {
    var lo, body := head + 1, s.body;
    if s.elseBody.NoElse? {
      BlockSpelled(lines, lo, hi, body, THEN_BODY, ByBrace);
    } else {
      var e := s.elseBody.steps;
      if m: nat :| lo < m <= hi && Block(lines, lo, m, body, THEN_BODY, ByElse, false) &&
                   Block(lines, m, hi, e, PLAIN, ByBrace, false) {
        BlockSpelled(lines, lo, m, body, THEN_BODY, ByElse);
        BlockSpelled(lines, m, hi, e, PLAIN, ByBrace);
      } else {
        var m := ChainedArm(lines, lo, hi, body, e);
        BlockSpelled(lines, lo, m, body, THEN_BODY, ByElseIf);
        ArmSpelled(lines, m, hi, e[0], true);
        assert e == [e[0]];
      }
    }
  }

  // The block parser reads a body if and only if the lines spell it and every clause's brace
  // scan succeeds, for every line array.
  lemma ReadsWhatIsSpelled(lines: seq<Line>, lo: nat, hi: nat, steps: seq<Step>, opts: Opts, closing: Closing)
    requires hi <= |lines|
    ensures ParseBody(lines, lo, opts, []) == BodyOk(steps, hi, closing) <==>
            Block(lines, lo, hi, steps, opts, closing, false) && ClausesClose(lines, lo, hi)
  {
    if ParseBody(lines, lo, opts, []) == BodyOk(steps, hi, closing) {
      BodyParsed(lines, lo, opts, []);
      WholeBlock(lines, lo, hi, steps, opts, closing);
    }
    if Block(lines, lo, hi, steps, opts, closing, false) && ClausesClose(lines, lo, hi) {
      BlockSpelled(lines, lo, hi, steps, opts, closing);
    }
  }

  // An `if` written out in an else body stays there.
  lemma WrittenOutElse(a: string, x: string, b: string, y: string)
    ensures var lines := [IfHead(a), Stmt(x), ElseArm, IfHead(b), Stmt(y), Close, Close];
            ParseIfArm(lines, 0, false) ==
            StepOk(If(a, [Leaf(Stmt(x))], Else([If(b, [Leaf(Stmt(y))], NoElse)])), 7)
  {
    var lines := [IfHead(a), Stmt(x), ElseArm, IfHead(b), Stmt(y), Close, Close];
    var leaf, other := Leaf(Stmt(x)), Leaf(Stmt(y));
    var inner := If(b, [other], NoElse);
    hide Spells, Block, SpellsArm;
    OneStep(lines, 4, 5, other, THEN_BODY, ByBrace);
    WithoutElse(lines, 4, 6, [other]);
    OneStep(lines, 3, 6, inner, PLAIN, ByBrace);
    OneStep(lines, 1, 2, leaf, THEN_BODY, ByElse);
    WithElse(lines, 1, 3, 7, [leaf], [inner]);
    ArmSpelled(lines, 0, 7, If(a, [leaf], Else([inner])), false);
  }

  lemma OneStep(lines: seq<Line>, lo: nat, hi: nat, s: Step, opts: Opts, closing: Closing)
    requires lo < hi < |lines| && !lines[lo].Empty? && SpellsStep(lines, lo, hi, s, opts)
    requires lines[hi] == (if closing.ByElse? then ElseArm else Close) && !closing.ByElseIf?
    requires closing.ByElse? ==> opts.elseCloses
    ensures Block(lines, lo, hi + 1, [s], opts, closing, false)
  {
    assert Spells(lines, hi, hi, [s][1..], opts, true);
  }

  lemma WithoutElse(lines: seq<Line>, lo: nat, hi: nat, body: seq<Step>)
    requires hi <= |lines| && Block(lines, lo, hi, body, THEN_BODY, ByBrace, false)
    ensures SpellsArm(lines, lo, hi, body, NoElse)
  {
  }

  lemma WithElse(lines: seq<Line>, lo: nat, m: nat, hi: nat, body: seq<Step>, e: seq<Step>)
    requires lo < m <= hi <= |lines| && Block(lines, lo, m, body, THEN_BODY, ByElse, false)
    requires Block(lines, m, hi, e, PLAIN, ByBrace, false)
    ensures SpellsArm(lines, lo, hi, body, Else(e))
  {
  }

  // ----- the scan by counting -----

  // Lines that end in `{` less lines that are `}`, among `p..q`.
  function Excess(lines: seq<Line>, p: nat, q: nat): int
    requires p <= q <= |lines|
    decreases q - p
  {
    if p == q then 0
    else (if EndsInBrace(lines[p]) then 1 else if lines[p] == Close then -1 else 0) + Excess(lines, p + 1, q)
  }

  // The scan succeeds if and only if somewhere as many braces closed as were open.
  lemma {:induction false} ScanClosesExactly(lines: seq<Line>, p: nat, depth: nat)
    requires p <= |lines| && depth >= 1
    ensures ScanCloses(lines, p, depth) <==> exists q: nat :: p <= q <= |lines| && depth + Excess(lines, p, q) == 0
    decreases |lines| - p
  {
    if p < |lines| {
      var step := if EndsInBrace(lines[p]) then 1 else if lines[p] == Close then -1 else 0;
      if depth + step >= 1 {
        var p' := p + 1;
        ScanClosesExactly(lines, p', depth + step);
        if q: nat :| p <= q <= |lines| && depth + Excess(lines, p, q) == 0 {
          assert depth + step + Excess(lines, p + 1, q) == 0;
        }
        if q: nat :| p' <= q <= |lines| && depth + step + Excess(lines, p', q) == 0 {
          assert depth + Excess(lines, p, q) == 0;
        }
      } else {
        assert depth + Excess(lines, p, p + 1) == 0;
      }
    }
  }
}
