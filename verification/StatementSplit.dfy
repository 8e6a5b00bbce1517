// Splitting a line into statements on `;`: src/parse/statement-split.ts.
module StatementSplit {
  import opened JsText

  // ----- the lexical state -----

  datatype Mode = Plain | Double | Triple | Regex

  datatype Lex = Lex(mode: Mode, brace: int, paren: int, bracket: int)

  const START := Lex(Plain, 0, 0, 0)

  predicate QuotesAt(line: string, i: nat) {
    i + 3 <= |line| && line[i] == '"' && line[i + 1] == '"' && line[i + 2] == '"'
  }

  predicate EndsWith(s: string, t: string) {
    |t| <= |s| && s[|s| - |t|..] == t
  }

  predicate CouldStartRegex(line: string, i: nat)
    requires i <= |line|
  {
    var before := TrimEnd(line[..i]);
    before == "" || EndsWith(before, ";") || EndsWith(before, "=>")
  }

  predicate AfterSlash(line: string, i: nat)
    requires i <= |line|
  {
    i > 0 && line[i - 1] == '\\'
  }

  // State and position after the character at `i` (or the three quotes there).
  function Advance(line: string, i: nat, st: Lex, allowRegex: bool): (r: (Lex, nat))
    requires i < |line|
    ensures i < r.1 <= |line|
  {
    var ch := line[i];
    match st.mode
    case Regex => (if ch == '/' && !AfterSlash(line, i) then st.(mode := Plain) else st, i + 1)
    case Triple => if QuotesAt(line, i) then (st.(mode := Plain), i + 3) else (st, i + 1)
    case Double => (if ch == '"' && !AfterSlash(line, i) then st.(mode := Plain) else st, i + 1)
    case Plain =>
      if QuotesAt(line, i) then (st.(mode := Triple), i + 3)
      else if ch == '"' then (st.(mode := Double), i + 1)
      else if allowRegex && ch == '/' && CouldStartRegex(line, i) then (st.(mode := Regex), i + 1)
      else if ch == '{' then (st.(brace := st.brace + 1), i + 1)
      else if ch == '}' then (st.(brace := st.brace - 1), i + 1)
      else if ch == '(' then (st.(paren := st.paren + 1), i + 1)
      else if ch == ')' then (st.(paren := st.paren - 1), i + 1)
      else if ch == '[' then (st.(bracket := st.bracket + 1), i + 1)
      else if ch == ']' then (st.(bracket := st.bracket - 1), i + 1)
      else (st, i + 1)
  }

  // A semicolon at depth zero, outside strings and regexes.
  predicate IsCut(line: string, i: nat, st: Lex)
    requires i < |line|
  {
    line[i] == ';' && st == START
  }

  // ----- the split -----

  // The untrimmed pieces of `line[start..]`, scanning from `i` in state `st`.
  function Raw(line: string, start: nat, i: nat, st: Lex, allowRegex: bool): (r: seq<string>)
    requires start <= i <= |line|
    ensures r != []
    decreases |line| - i
  {
    if i == |line| then [line[start..]]
    else if IsCut(line, i, st) then [line[start..i]] + Raw(line, i + 1, i + 1, START, allowRegex)
    else
      var (next, j) := Advance(line, i, st, allowRegex);
      Raw(line, start, j, next, allowRegex)
  }

  function SplitStatements(line: string, allowRegex: bool): seq<string> {
    Kept(Raw(line, 0, 0, START, allowRegex))
  }

  function JoinStatements(ss: seq<string>): string {
    if ss == [] then "" else if |ss| == 1 then ss[0] else ss[0] + ";" + JoinStatements(ss[1..])
  }

  // ----- the function as written -----

  lemma RawAtCut(line: string, start: nat, i: nat, allowRegex: bool)
    requires start <= i < |line| && line[i] == ';'
    ensures Raw(line, start, i, START, allowRegex)
            == [line[start..i]] + Raw(line, i + 1, i + 1, START, allowRegex)
  {
  }

  lemma RawAtOther(line: string, start: nat, i: nat, st: Lex, allowRegex: bool)
    requires start <= i < |line| && !IsCut(line, i, st)
    ensures var (next, j) := Advance(line, i, st, allowRegex);
            Raw(line, start, i, st, allowRegex) == Raw(line, start, j, next, allowRegex)
  {
  }

  method SplitStatementsOnSemicolons(line: string, allowRegex: bool) returns (statements: seq<string>)
    ensures statements == SplitStatements(line, allowRegex)
  {
    hide Trim;
    hide Advance;
    hide Kept;
    hide Raw;
    statements := [];
    var current, i, st := "", 0, START;  // `st` holds the three depths and the quote flags
    ghost var start := 0;
    while i < |line|
      invariant start <= i <= |line| && current == line[start..i]
      invariant SplitStatements(line, allowRegex) == statements + Kept(Raw(line, start, i, st, allowRegex))
      decreases |line| - i
    {
      if IsCut(line, i, st) {
        RawAtCut(line, start, i, allowRegex);
        KeptCons(line[start..i], Raw(line, i + 1, i + 1, START, allowRegex));
        statements := PushStatement(statements, current);
        current, i := "", i + 1;
        start := i;
      } else {
        var (next, j) := Advance(line, i, st, allowRegex);
        RawAtOther(line, start, i, st, allowRegex);
        assert line[start..j] == line[start..i] + line[i..j];
        current, i, st := current + line[i..j], j, next;
      }
    }
    KeptCons(line[start..], []);
    AtEnd(line, start, st, allowRegex);
    assert [line[start..]] + [] == [line[start..]] && line[start..i] == line[start..];
    statements := PushStatement(statements, current);
  }

  function PushStatement(statements: seq<string>, current: string): seq<string> {
    if Trim(current) == "" then statements else statements + [Trim(current)]
  }

  lemma AtEnd(line: string, start: nat, st: Lex, allowRegex: bool)
    requires start <= |line|
    ensures Raw(line, start, |line|, st, allowRegex) == [line[start..]] && Kept([]) == []
  {
  }

  lemma KeptCons(p: string, rest: seq<string>)
    ensures Kept([p] + rest) == (if Trim(p) == "" then [] else [Trim(p)]) + Kept(rest)
  {
    assert ([p] + rest)[1..] == rest;
  }
}
