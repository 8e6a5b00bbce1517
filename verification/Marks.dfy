// Lines that open or close a delimited block, found by what their trimmed text starts with.
module Marks {
  import opened JsText
  import opened Pieces

  predicate StartsWith(s: string, p: string) {
    p <= s
  }

  predicate Marked(line: string, mark: string) {
    StartsWith(Trim(line), mark)
  }

  // The first marked line at or after `i`, or the number of lines.
  function FirstMarked(lines: seq<string>, i: nat, mark: string): (r: nat)
    requires i <= |lines|
    ensures i <= r <= |lines|
    ensures forall j | i <= j < r :: !Marked(lines[j], mark)
    ensures r < |lines| ==> Marked(lines[r], mark)
    decreases |lines| - i
  {
    if i == |lines| || Marked(lines[i], mark) then i else FirstMarked(lines, i + 1, mark)
  }

  lemma {:induction false} MarkedAt(lines: seq<string>, i: nat, at: nat, mark: string)
    requires i <= at < |lines| && Marked(lines[at], mark)
    requires forall j | i <= j < at :: !Marked(lines[j], mark)
    ensures FirstMarked(lines, i, mark) == at
    decreases at - i
  {
    if i < at { MarkedAt(lines, i + 1, at, mark); }
  }

  // `join` of no lines is the empty string.
  function JoinLines(lines: seq<string>): string {
    if lines == [] then "" else Join(lines, '\n')
  }

  lemma TightMark(mark: string, end: string)
    requires mark != "" && Tight(mark) && (end != "" ==> !IsSpace(end[|end| - 1]))
    ensures Tight(mark + end)
  {
    var core := mark + end;
    assert core[0] == mark[0] && core[|core| - 1] == if end == "" then mark[|mark| - 1] else end[|end| - 1];
  }

  lemma TrimMark(pad: string, mark: string, rest: string)
    requires AllSpace(pad) && mark != "" && Tight(mark)
    ensures Trim(pad + mark + rest) == mark + TrimEnd(rest)
  {
    hide IsSpace;
    var b := SplitEnd(rest);
    var end := TrimEnd(rest);
    hide TrimEnd;
    TightMark(mark, end);
    TrimOf(pad, mark + end, b);
    assert pad + mark + rest == pad + (mark + end) + b;
  }

  lemma TrimPadded(pad: string, s: string)
    requires AllSpace(pad)
    ensures Trim(pad + s) == Trim(s)
  {
    var a, b := Trimmed(s);
    TrimOf(pad + a, Trim(s), b);
    assert pad + s == (pad + a) + Trim(s) + b;
  }

  // The line is the mark and `rest`, with white space around.
  ghost predicate Opens(line: string, mark: string, rest: string) {
    (rest != "" ==> !IsSpace(rest[|rest| - 1])) &&
    exists pad, end :: line == pad + mark + rest + end && AllSpace(pad) && AllSpace(end)
  }

  lemma OpensExactly(line: string, mark: string, rest: string)
    requires mark != "" && Tight(mark)
    ensures Opens(line, mark, rest) <==> Trim(line) == mark + rest
  {
    var a, b := Trimmed(line);
    hide Trim, IsSpace;
    if Trim(line) == mark + rest {
      assert line == a + mark + rest + b;
      assert rest != "" ==> rest[|rest| - 1] == (mark + rest)[|mark + rest| - 1];
    }
    if Opens(line, mark, rest) {
      var pad, end :| line == pad + mark + rest + end && AllSpace(pad) && AllSpace(end);
      TightMark(mark, rest);
      TrimOf(pad, mark + rest, end);
      assert line == pad + (mark + rest) + end;
    }
  }

  lemma MarkedExactly(line: string, mark: string)
    requires mark != "" && Tight(mark)
    ensures Marked(line, mark) <==> exists rest :: Opens(line, mark, rest)
  {
    var t := Trim(line);
    if Marked(line, mark) {
      assert t == mark + t[|mark|..];
      OpensExactly(line, mark, t[|mark|..]);
    }
    if rest :| Opens(line, mark, rest) { OpensExactly(line, mark, rest); }
  }

  // The first line after `at` that the mark opens.
  ghost predicate FirstOpen(lines: seq<string>, at: nat, close: nat, mark: string, rest: string) {
    && at < close < |lines| && Opens(lines[close], mark, rest)
    && forall k, x :: at < k < close ==> !Opens(lines[k], mark, x)
  }

  lemma FirstOpenExactly(lines: seq<string>, at: nat, close: nat, mark: string, rest: string)
    requires mark != "" && Tight(mark) && at < |lines|
    ensures FirstOpen(lines, at, close, mark, rest)
            <==> close < |lines| && FirstMarked(lines, at + 1, mark) == close && Trim(lines[close]) == mark + rest
  {
    hide Trim, Opens;
    if at < close < |lines| { OpensExactly(lines[close], mark, rest); }
    forall k | at < k < |lines| ensures Marked(lines[k], mark) <==> exists x :: Opens(lines[k], mark, x) {
      MarkedExactly(lines[k], mark);
    }
    if FirstOpen(lines, at, close, mark, rest) { MarkedAt(lines, at + 1, close, mark); }
  }

  // Where the parts of `before + ([first] + middle + [last]) + rest` lie.
  lemma Layout(before: seq<string>, first: string, middle: seq<string>, last: string, rest: seq<string>)
    ensures var lines, at, close := before + ([first] + middle + [last]) + rest, |before|, |before| + 1 + |middle|;
            && close < |lines| && lines[at] == first && lines[close] == last
            && lines[at + 1..close] == middle
            && (forall j | at < j < close :: lines[j] in middle)
  {
    var lines, at := before + ([first] + middle + [last]) + rest, |before|;
    forall j | 0 <= j < |middle| ensures lines[at + 1 + j] == middle[j] {
    }
    forall j | at < j < at + 1 + |middle| ensures lines[j] in middle {
      assert lines[at + 1 + (j - at - 1)] == middle[j - at - 1];
    }
  }
}
