// Fenced blocks and their printed form: src/parse/fence.ts, src/format/emit-shared.ts.
module Fence {
  import opened JsText
  import opened Pieces
  import opened Marks
  import opened Dedent

  const TICKS := "```"

  predicate IsFence(line: string) {
    Marked(line, TICKS)
  }

  datatype Error = NoOpeningFence | BadLang | Unterminated

  datatype Block =
    | Parsed(body: string, lang: string, afterClose: string, next: nat)
    | Failed(error: Error)

  // ----- parsing -----

  predicate HasSpace(s: string) {
    exists i | 0 <= i < |s| :: IsSpace(s[i])
  }

  function ParseFenced(lines: seq<string>, fence: nat): Block
    requires fence < |lines|
  {
    var open := Trim(lines[fence]);
    if !StartsWith(open, TICKS) then Failed(NoOpeningFence)
    else if HasSpace(open[3..]) then Failed(BadLang)
    else
      var close := FirstMarked(lines, fence + 1, TICKS);
      if close == |lines| then Failed(Unterminated)
      else Parsed(JoinLines(lines[fence + 1..close]), open[3..], Trim(lines[close])[3..], close + 1)
  }

  function ParseFencedScript(lines: seq<string>, fence: nat): Block
    requires fence < |lines|
  {
    var b := ParseFenced(lines, fence);
    if b.Failed? then b else b.(body := DedentText(b.body))
  }

  method ParseFencedBlock(lines: seq<string>, fence: nat) returns (r: Block)
    requires fence < |lines|
    ensures r == ParseFenced(lines, fence)
  {
    var open := Trim(lines[fence]);
    if !StartsWith(open, TICKS) { return Failed(NoOpeningFence); }
    var lang := open[3..];
    if |lang| > 0 && HasSpace(lang) { return Failed(BadLang); }
    var bodyLines: seq<string> := [];
    var i := fence + 1;
    while i < |lines|
      invariant fence < i <= |lines|
      invariant bodyLines == lines[fence + 1..i]
      invariant FirstMarked(lines, fence + 1, TICKS) == FirstMarked(lines, i, TICKS)
    {
      var trimmed := Trim(lines[i]);
      if StartsWith(trimmed, TICKS) {
        return Parsed(JoinLines(bodyLines), lang, trimmed[3..], i + 1);
      }
      bodyLines := bodyLines + [lines[i]];
      i := i + 1;
    }
    r := Failed(Unterminated);
  }

  // ----- printing -----

  function Indent(line: string, indent: string): string {
    if line == "" then "" else indent + line
  }

  function EmitBody(body: string, indent: string): (r: seq<string>)
    ensures |r| == |Split(body, '\n')|
    ensures forall i | 0 <= i < |r| ::
              var line := Split(body, '\n')[i]; r[i] == if line == "" then "" else indent + line
  {
    var ls := Split(body, '\n');
    seq(|ls|, i requires 0 <= i < |ls| => Indent(ls[i], indent))
  }

  // The opening fence, the indented body and the closing fence with what follows it.
  function EmitFenced(openIndent: string, lang: string, body: string, indent: string,
                      closeIndent: string, after: string): seq<string>
  {
    [openIndent + TICKS + lang] + EmitBody(body, indent) + [closeIndent + TICKS + after]
  }

  // ----- the round trip -----

  // A body the parser can return: dedented, and without a line that looks like a fence.
  predicate Canonical(body: string) {
    DedentText(body) == body && forall l | l in Split(body, '\n') :: !IsFence(l)
  }

  lemma PadIsSpace(s: string)
    requires AllPad(s)
    ensures AllSpace(s)
  {
  }

  lemma IndentedMargin(lines: seq<string>, indented: seq<string>, indent: string)
    requires AllPad(indent) && Margin(lines) == 0 && HasText(lines)
    requires |indented| == |lines| && forall i | 0 <= i < |lines| :: indented[i] == Indent(lines[i], indent)
    requires forall l | l in lines && AllSpace(l) :: l == ""
    ensures Margin(indented) == |indent|
  {
    hide IsSpace;
    hide Margin;
    var n := |indent|;
    MarginIsLongest(lines);
    MarginIsLongest(indented);
    forall l | l in indented && !AllSpace(l)
      ensures n <= |l| && l[..n] == indent && forall i | 0 <= i < n :: IsPad(l[i])
    {
      var j :| 0 <= j < |indented| && indented[j] == l;
      assert l == indent + lines[j];
      assert forall i | 0 <= i < n :: l[i] == indent[i];
    }
    assert SharedPad(indented, n);
    IndentedHasText(lines, indented, indent);
    var k := Margin(indented);
    if k > n { MarginBelowIndent(lines, indented, indent, k); }
  }

  lemma IndentedHasText(lines: seq<string>, indented: seq<string>, indent: string)
    requires HasText(lines)
    requires |indented| == |lines| && forall i | 0 <= i < |lines| :: indented[i] == Indent(lines[i], indent)
    ensures HasText(indented)
  {
    hide IsSpace;
    var t :| t in lines && !AllSpace(t);
    var j :| 0 <= j < |lines| && lines[j] == t;
    HasTextIndented(t, indent);
    assert indented[j] in indented && !AllSpace(indented[j]);
  }

  lemma HasTextIndented(t: string, indent: string)
    requires !AllSpace(t)
    ensures !AllSpace(indent + t)
  {
    var i :| 0 <= i < |t| && !IsSpace(t[i]);
    assert (indent + t)[|indent| + i] == t[i];
  }

  lemma IndentedPad(l: string, indent: string, lines: seq<string>, indented: seq<string>, k: nat)
    requires |indented| == |lines| && forall i | 0 <= i < |lines| :: indented[i] == Indent(lines[i], indent)
    requires SharedPad(indented, k) && k > |indent| && l in lines && !AllSpace(l)
    ensures indent + l in indented && !AllSpace(indent + l) && k <= |indent + l|
    ensures AllPad(l[..k - |indent|]) && (indent + l)[..k] == indent + l[..k - |indent|]
  {
    hide IsSpace;
    hide IsPad;
    var j :| 0 <= j < |lines| && lines[j] == l;
    HasTextIndented(l, indent);
    assert indented[j] in indented;
    forall i | 0 <= i < k - |indent| ensures IsPad(l[i]) {
      assert (indent + l)[|indent| + i] == l[i];
    }
  }

  lemma MarginBelowIndent(lines: seq<string>, indented: seq<string>, indent: string, k: nat)
    requires |indented| == |lines| && forall i | 0 <= i < |lines| :: indented[i] == Indent(lines[i], indent)
    requires SharedPad(indented, k) && k > |indent|
    ensures SharedPad(lines, k - |indent|)
  {
    hide IsSpace;
    hide IsPad;
    var m := k - |indent|;
    forall l | l in lines && !AllSpace(l) ensures m <= |l| && forall i | 0 <= i < m :: IsPad(l[i]) {
      IndentedPad(l, indent, lines, indented, k);
      assert forall i | 0 <= i < m :: l[..m][i] == l[i];
    }
    forall a, b | a in lines && b in lines && !AllSpace(a) && !AllSpace(b) && m <= |a| && m <= |b|
      ensures a[..m] == b[..m]
    {
      PairBelowIndent(a, b, lines, indented, indent, k);
    }
  }

  lemma PairBelowIndent(a: string, b: string, lines: seq<string>, indented: seq<string>, indent: string, k: nat)
    requires |indented| == |lines| && forall i | 0 <= i < |lines| :: indented[i] == Indent(lines[i], indent)
    requires SharedPad(indented, k) && k > |indent|
    requires a in lines && b in lines && !AllSpace(a) && !AllSpace(b)
    ensures k - |indent| <= |a| && k - |indent| <= |b| && a[..k - |indent|] == b[..k - |indent|]
  {
    hide IsSpace;
    hide IsPad;
    IndentedPad(a, indent, lines, indented, k);
    IndentedPad(b, indent, lines, indented, k);
    var m, x, y := k - |indent|, (indent + a)[..k], (indent + b)[..k];
    assert x == y;
    assert a[..m] == x[|indent|..] && b[..m] == y[|indent|..];
  }

  lemma DedentIndented(lines: seq<string>, indented: seq<string>, indent: string)
    requires AllPad(indent) && Margin(lines) == 0
    requires forall l | l in lines && AllSpace(l) :: l == ""
    requires |indented| == |lines| && forall i | 0 <= i < |lines| :: indented[i] == Indent(lines[i], indent)
    ensures DedentLines(indented) == lines
  {
    var m := Margin(indented);
    if HasText(lines) {
      IndentedMargin(lines, indented, indent);
      forall i | 0 <= i < |lines| ensures DedentLine(indented[i], m) == lines[i] {
        assert lines[i] in lines;
        if !AllSpace(lines[i]) {
          HasTextIndented(lines[i], indent);
          assert indented[i][|indent|..] == lines[i];
        }
      }
    } else {
      forall i | 0 <= i < |lines| ensures DedentLine(indented[i], m) == lines[i] {
        assert lines[i] in lines;
      }
    }
  }

  lemma IndentedNoFence(body: string, indent: string)
    requires Canonical(body) && AllPad(indent)
    ensures forall l | l in EmitBody(body, indent) :: !IsFence(l)
  {
    forall l | l in EmitBody(body, indent) ensures !IsFence(l) {
      var j :| 0 <= j < |EmitBody(body, indent)| && EmitBody(body, indent)[j] == l;
      var line := Split(body, '\n')[j];
      assert line in Split(body, '\n');
      if line != "" { TrimPadded(indent, line); }
    }
  }

  lemma BodyComesBack(body: string, indent: string)
    requires Canonical(body) && AllPad(indent) && '\n' !in indent
    ensures DedentText(Join(EmitBody(body, indent), '\n')) == body
  {
    var ls, es := Split(body, '\n'), EmitBody(body, indent);
    WhenDedented(body);
    DedentIndented(ls, es, indent);
    SplitPieces(body, '\n');
    forall e | e in es ensures '\n' !in e {
      var j :| 0 <= j < |es| && es[j] == e;
      assert ls[j] in ls;
    }
    SplitJoin(es, '\n');
    JoinSplit(body, '\n');
  }

  lemma NoSpaceTrimEnd(s: string)
    requires !HasSpace(s)
    ensures TrimEnd(s) == s
  {
  }

  // Printing a canonical body at any indent and parsing the block gives the body back,
  // with its tag, what follows the closing fence, and the index just past it.
  lemma FenceRoundTrip(before: seq<string>, openIndent: string, lang: string, body: string, indent: string,
                       closeIndent: string, after: string, rest: seq<string>)
    requires Canonical(body) && AllPad(indent) && '\n' !in indent && !HasSpace(lang)
    requires AllSpace(openIndent) && AllSpace(closeIndent)
    ensures var printed := EmitFenced(openIndent, lang, body, indent, closeIndent, after);
            ParseFencedScript(before + printed + rest, |before|)
              == Parsed(body, lang, TrimEnd(after), |before| + |printed|)
  {
    hide *;
    var es := EmitBody(body, indent);
    var first, last := openIndent + TICKS + lang, closeIndent + TICKS + after;
    EmitFencedParts(openIndent, lang, body, indent, closeIndent, after);
    Layout(before, first, es, last, rest);
    IndentedNoFence(body, indent);
    TightTicks();
    TrimMark(openIndent, TICKS, lang);
    NoSpaceTrimEnd(lang);
    TrimMark(closeIndent, TICKS, after);
    ParsedAt(before + ([first] + es + [last]) + rest, |before|, |before| + 1 + |es|, es, lang, TrimEnd(after));
    BodyComesBack(body, indent);
  }

  lemma TightTicks()
    ensures Tight(TICKS) && TICKS != ""
  {
  }

  lemma EmitFencedParts(openIndent: string, lang: string, body: string, indent: string, closeIndent: string,
                        after: string)
    ensures EmitFenced(openIndent, lang, body, indent, closeIndent, after)
            == [openIndent + TICKS + lang] + EmitBody(body, indent) + [closeIndent + TICKS + after]
    ensures EmitBody(body, indent) != []
  {
  }

  lemma ParsedAt(lines: seq<string>, at: nat, close: nat, es: seq<string>, lang: string, tail: string)
    requires at < close < |lines| && lines[at + 1..close] == es && es != []
    requires Trim(lines[at]) == TICKS + lang && Trim(lines[close]) == TICKS + tail && !HasSpace(lang)
    requires (forall j | at < j < close :: lines[j] in es) && forall l | l in es :: !IsFence(l)
    ensures ParseFencedScript(lines, at) == Parsed(DedentText(Join(es, '\n')), lang, tail, close + 1)
  {
    hide HasSpace;
    hide DedentText;
    hide Trim;
    assert (TICKS + lang)[3..] == lang && (TICKS + tail)[3..] == tail;
    MarkedAt(lines, at + 1, close, TICKS);
  }

  // Every body the parser returns is canonical.
  lemma ParsedIsCanonical(lines: seq<string>, fence: nat)
    requires fence < |lines| && forall l | l in lines :: '\n' !in l
    ensures var r := ParseFencedScript(lines, fence);
            r.Parsed? ==> Canonical(r.body) && fence + 1 < r.next <= |lines|
  {
    var r := ParseFencedScript(lines, fence);
    if r.Parsed? {
      hide DedentText, JoinLines, Split, IsFence;
      var ls := lines[fence + 1..FirstMarked(lines, fence + 1, TICKS)];
      DedentTwice(JoinLines(ls));
      NoFenceLeft(ls);
    }
  }

  lemma NoFenceLeft(ls: seq<string>)
    requires forall l | l in ls :: '\n' !in l && !IsFence(l)
    ensures forall l | l in Split(DedentText(JoinLines(ls)), '\n') :: !IsFence(l)
  {
    hide IsFence, DedentText;
    SplitOfDedent(JoinLines(ls));
    if ls == [] {
      assert Split("", '\n') == [""];
      EmptyIsNoFence();
      DedentKeepsFences([""]);
    } else {
      SplitJoin(ls, '\n');
      DedentKeepsFences(ls);
    }
  }

  lemma EmptyIsNoFence()
    ensures !IsFence("")
  {
  }

  lemma DedentKeepsFences(lines: seq<string>)
    requires forall l | l in lines :: !IsFence(l)
    ensures forall l | l in DedentLines(lines) :: !IsFence(l)
  {
    hide IsSpace;
    MarginIsLongest(lines);
    var m := Margin(lines);
    forall l | l in DedentLines(lines) ensures !IsFence(l) {
      var j :| 0 <= j < |lines| && DedentLines(lines)[j] == l;
      assert lines[j] in lines;
      DedentKeepsFence(lines[j], m);
    }
  }

  lemma DedentKeepsFence(line: string, m: nat)
    requires !IsFence(line)
    requires !AllSpace(line) ==> m <= |line| && AllPad(line[..m])
    ensures !IsFence(DedentLine(line, m))
  {
    hide IsSpace;
    if AllSpace(line) {
      TrimBlank("");
    } else {
      PadIsSpace(line[..m]);
      TrimPadded(line[..m], line[m..]);
      assert line == line[..m] + line[m..];
    }
  }

  // ----- what a fenced block is -----

  // A fence with the tag, the first fence after it, and the lines between.
  ghost predicate Fenced(lines: seq<string>, fence: nat, body: string, lang: string, after: string, next: nat)
    requires fence < |lines|
  {
    && Opens(lines[fence], TICKS, lang) && !HasSpace(lang)
    && next >= 1 && FirstOpen(lines, fence, next - 1, TICKS, after)
    && body == JoinLines(lines[fence + 1..next - 1])
  }

  lemma FencedExactly(lines: seq<string>, fence: nat, body: string, lang: string, after: string, next: nat)
    requires fence < |lines|
    ensures ParseFenced(lines, fence) == Parsed(body, lang, after, next)
            <==> Fenced(lines, fence, body, lang, after, next)
  {
    TightTicks();
    OpensExactly(lines[fence], TICKS, lang);
    if next >= 1 { FirstOpenExactly(lines, fence, next - 1, TICKS, after); }
    hide Trim, HasSpace, JoinLines, Opens, FirstOpen;
    var open := Trim(lines[fence]);
    assert StartsWith(open, TICKS) ==> open == TICKS + open[3..];
    assert (TICKS + lang)[3..] == lang && (TICKS + after)[3..] == after;
    var close := FirstMarked(lines, fence + 1, TICKS);
    if close < |lines| { assert Trim(lines[close]) == TICKS + Trim(lines[close])[3..]; }
  }

  // The three failures: no fence, a tag with white space, no closing fence.
  lemma NotFenced(lines: seq<string>, fence: nat)
    requires fence < |lines|
    ensures var r := ParseFenced(lines, fence);
            && (r == Failed(NoOpeningFence) <==> !exists x :: Opens(lines[fence], TICKS, x))
            && (r == Failed(BadLang) <==> exists x :: Opens(lines[fence], TICKS, x) && HasSpace(x))
            && (r == Failed(Unterminated) <==>
                  (exists x :: Opens(lines[fence], TICKS, x) && !HasSpace(x)) &&
                  forall k, x :: fence < k < |lines| ==> !Opens(lines[k], TICKS, x))
  {
    TightTicks();
    var open := Trim(lines[fence]);
    forall x ensures Opens(lines[fence], TICKS, x) <==> StartsWith(open, TICKS) && x == open[3..] {
      OpensExactly(lines[fence], TICKS, x);
      assert open == TICKS + x ==> open[3..] == x;
      assert StartsWith(open, TICKS) ==> open == TICKS + open[3..];
    }
    forall k | fence < k < |lines|
      ensures Marked(lines[k], TICKS) <==> exists x :: Opens(lines[k], TICKS, x)
    {
      MarkedExactly(lines[k], TICKS);
    }
    hide Trim, HasSpace, JoinLines, Opens;
    if StartsWith(open, TICKS) { assert Opens(lines[fence], TICKS, open[3..]); }
  }
}
