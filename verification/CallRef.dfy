// Call expressions `ref(args)`: src/parse/core.ts and src/format/emit-shared.ts.
module CallRef {
  import opened JsText

  datatype Option<+T> = None | Some(value: T)

  // ----- references -----

  predicate IdentStart(c: char) { 'a' <= c <= 'z' || 'A' <= c <= 'Z' || c == '_' }

  predicate IdentChar(c: char) { IdentStart(c) || '0' <= c <= '9' }

  // The end of the run of identifier characters from `i` on.
  function RunEnd(t: string, i: nat): (r: nat)
    requires i <= |t|
    ensures i <= r <= |t|
    decreases |t| - i
  {
    if i < |t| && IdentChar(t[i]) then RunEnd(t, i + 1) else i
  }

  function IdentEnd(t: string, i: nat): Option<nat> {
    if i < |t| && IdentStart(t[i]) then Some(RunEnd(t, i)) else None
  }

  // The length of the `name` or `name.name` that an opening parenthesis follows directly.
  function MatchRef(t: string): (r: Option<nat>)
    ensures r.Some? ==> r.value < |t| && t[r.value] == '(' && IdentStart(t[0])
  {
    var a := IdentEnd(t, 0);
    if a.None? || a.value == |t| then None
    else if t[a.value] == '(' then a
    else if t[a.value] != '.' then None
    else
      var b := IdentEnd(t, a.value + 1);
      if b.Some? && b.value < |t| && t[b.value] == '(' then b else None
  }

  // ----- arguments -----

  const KEYWORDS := {
    "run", "ensure", "prompt", "return", "fail", "log", "logerr", "logwarn", "if", "else", "not", "const", "match",
    "import", "export", "workflow", "rule", "script", "channel", "config", "catch", "async", "returns", "send",
    "true", "false", "for", "in"
  }

  predicate IsIdent(s: string) { IdentEnd(s, 0) == Some(|s|) }

  predicate IsBareIdentifier(s: string) { IsIdent(s) && s !in KEYWORDS }

  predicate IsBareDotted(s: string) {
    var a := IdentEnd(s, 0);
    a.Some? && a.value < |s| && s[a.value] == '.' && IdentEnd(s, a.value + 1) == Some(|s|)
  }

  datatype Arg = Var(name: string) | Literal(raw: string)

  function Classify(s: string): Arg {
    if IsBareIdentifier(s) || IsBareDotted(s) then Var(s) else Literal(s)
  }

  function Printed(a: Arg): string {
    match a case Var(name) => name case Literal(raw) => raw
  }

  // Inside a quoted string opened by `mark`; `slash` tells whether the last character was a
  // backslash, which is all the look-behind at a closing quote asks.
  datatype Quote = No | In(mark: char, slash: bool)

  function NextQuote(q: Quote, c: char): Quote {
    match q
    case No => if c == '"' || c == '\'' then In(c, false) else No
    case In(mark, slash) => if c == mark && !slash then No else In(mark, c == '\\')
  }

  // The segments between the commas that stand outside quotes.
  function Segments(s: string, q: Quote): (r: seq<string>)
    ensures r != []
  {
    if s == "" then [""]
    else if q.No? && s[0] == ',' then [""] + Segments(s[1..], No)
    else
      var rest := Segments(s[1..], NextQuote(q, s[0]));
      [[s[0]] + rest[0]] + rest[1..]
  }

  function ClassifyAll(ss: seq<string>): (r: seq<Arg>)
    ensures |r| == |ss| && forall i | 0 <= i < |r| :: r[i] == Classify(ss[i])
  {
    seq(|ss|, i requires 0 <= i < |ss| => Classify(ss[i]))
  }

  function ArgList(content: string): seq<Arg> {
    ClassifyAll(Kept(Segments(content, No)))
  }

  // ----- the closing parenthesis -----

  datatype Scan = Scan(quote: Quote, depth: int)

  function Step(st: Scan, c: char): Scan {
    if st.quote.In? then Scan(NextQuote(st.quote, c), st.depth)
    else if c == '"' || c == '\'' then Scan(In(c, false), st.depth)
    else if c == '(' then Scan(No, st.depth + 1)
    else if c == ')' then Scan(No, st.depth - 1)
    else st
  }

  // Characters read until the depth is back to zero.
  function FindClose(s: string, st: Scan): (r: Option<nat>)
    ensures r.Some? ==> r.value <= |s|
    ensures r.Some? && st.depth != 0 ==> r.value > 0
  {
    if st.depth == 0 then Some(0)
    else if s == "" then None
    else
      var r := FindClose(s[1..], Step(st, s[0]));
      if r.None? then None else Some(r.value + 1)
  }

  const OPENED := Scan(No, 1)

  datatype Call = Call(ref: string, args: seq<Arg>, rest: string)

  function ParseCall(s: string): Option<Call> {
    var t := TrimStart(s);
    var m := MatchRef(t);
    if m.None? then None
    else
      var inner := t[m.value + 1..];
      var close := FindClose(inner, OPENED);
      if close.None? then None
      else Some(Call(t[..m.value], ArgList(Trim(inner[..close.value - 1])), inner[close.value..]))
  }

  // ----- printing -----

  function JoinWith(ss: seq<string>, sep: string): string {
    if ss == [] then "" else if |ss| == 1 then ss[0] else ss[0] + sep + JoinWith(ss[1..], sep)
  }

  function PrintedAll(args: seq<Arg>): (r: seq<string>)
    ensures |r| == |args| && forall i | 0 <= i < |r| :: r[i] == Printed(args[i])
  {
    seq(|args|, i requires 0 <= i < |args| => Printed(args[i]))
  }

  function FormatArgs(args: seq<Arg>): string {
    JoinWith(PrintedAll(args), ", ")
  }

  function EmitRef(ref: string, args: seq<Arg>): string {
    ref + "(" + FormatArgs(args) + ")"
  }

  // ----- the functions as written -----

  // The quote state as the scanners keep it: the open mark, with the look-behind at `i - 1`.
  predicate Tracks(q: Quote, s: string, i: nat, inQuote: Option<char>)
    requires i <= |s|
  {
    match q
    case No => inQuote.None?
    case In(mark, slash) => inQuote == Some(mark) && i > 0 && slash == (s[i - 1] == '\\')
                            && (mark == '"' || mark == '\'')
  }

  method CommaArgsToArgList(content: string) returns (out: seq<Arg>)
    ensures out == ArgList(content)
  {
    out := [];
    var current := "";
    var inQuote: Option<char> := None;
    ghost var q := No;
    var j := 0;
    assert content[0..] == content;
    OntoNothing(Segments(content, No));
    while j < |content|
      invariant j <= |content| && Tracks(q, content, j, inQuote)
      invariant ArgList(content) == out + ClassifyAll(Kept(Onto(current, Segments(content[j..], q))))
    {
      var ch := content[j];
      assert content[j..][0] == ch && content[j..][1..] == content[j + 1..];
      ghost var rest := Segments(content[j + 1..], NextQuote(q, ch));
      if inQuote.Some? {
        OntoPush(current, ch, rest);
        current := current + [ch];
        if ch == inQuote.value && (j == 0 || content[j - 1] != '\\') { inQuote := None; }
        q := NextQuote(q, ch);
      } else if ch == ',' {
        OntoFlush(out, current, Segments(content[j + 1..], No));
        ghost var before := out;
        out := PushArg(out, current);
        current := "";
        OntoNothing(Segments(content[j + 1..], No));
      } else {
        OntoPush(current, ch, rest);
        if ch == '"' || ch == '\'' { inQuote := Some(ch); }
        current := current + [ch];
        q := NextQuote(q, ch);
      }
      j := j + 1;
    }
    OntoFlush(out, current, []);
    assert Onto(current, [""]) == [current] by { assert current + "" == current; }
    out := PushArg(out, current);
  }

  function PushArg(out: seq<Arg>, segment: string): seq<Arg> {
    if Trim(segment) == "" then out else out + [Classify(Trim(segment))]
  }

  // Segments with text put in front of the first one.
  function Onto(current: string, segments: seq<string>): seq<string>
    requires segments != []
  {
    [current + segments[0]] + segments[1..]
  }

  lemma OntoNothing(segments: seq<string>)
    requires segments != []
    ensures Onto("", segments) == segments
  {
    assert "" + segments[0] == segments[0];
  }

  lemma OntoPush(current: string, c: char, rest: seq<string>)
    requires rest != []
    ensures Onto(current, [[c] + rest[0]] + rest[1..]) == Onto(current + [c], rest)
  {
    assert current + ([c] + rest[0]) == current + [c] + rest[0];
  }

  lemma OntoFlush(out: seq<Arg>, current: string, rest: seq<string>)
    ensures Onto(current, [""] + rest) == [current] + rest
    ensures out + ClassifyAll(Kept([current] + rest)) == PushArg(out, current) + ClassifyAll(Kept(rest))
  {
    hide Trim, Classify;
    assert current + "" == current && ([current] + rest)[1..] == rest;
    if Trim(current) != "" {
      assert ClassifyAll([Trim(current)] + Kept(rest)) == [Classify(Trim(current))] + ClassifyAll(Kept(rest));
    } else {
      assert [] + Kept(rest) == Kept(rest);
    }
  }

  // The index just past the closing parenthesis, if there is one.
  method ScanToClose(t: string, parenStart: nat) returns (end: Option<nat>)
    requires parenStart <= |t|
    ensures var f := FindClose(t[parenStart..], OPENED);
            end == if f.None? then None else Some(parenStart + f.value)
  {
    var depth := 1;
    var inQuote: Option<char> := None;
    ghost var q := No;
    var i := parenStart;
    while i < |t| && depth > 0
      invariant parenStart <= i <= |t| && depth >= 0 && Tracks(q, t, i, inQuote)
      invariant depth == 0 ==> q.No?
      invariant FindClose(t[parenStart..], OPENED) == Later(FindClose(t[i..], Scan(q, depth)), i - parenStart)
    {
      var ch := t[i];
      assert t[i..][0] == ch && t[i..][1..] == t[i + 1..];
      if inQuote.Some? {
        if ch == inQuote.value && t[i - 1] != '\\' { inQuote := None; }
      } else if ch == '"' || ch == '\'' {
        inQuote := Some(ch);
      } else if ch == '(' {
        depth := depth + 1;
      } else if ch == ')' {
        depth := depth - 1;
      }
      q := NextQuote(q, ch);
      i := i + 1;
    }
    end := if depth != 0 then None else Some(i);
  }

  function Later(f: Option<nat>, n: nat): Option<nat> {
    if f.None? then None else Some(f.value + n)
  }

  method ParseCallRef(s: string) returns (r: Option<Call>)
    ensures r == ParseCall(s)
  {
    var t := TrimStart(s);
    var m := MatchRef(t);
    if m.None? { return None; }
    var parenStart := m.value + 1;
    var end := ScanToClose(t, parenStart);
    if end.None? { return None; }
    var i := end.value;
    assert t[parenStart..][..i - parenStart - 1] == t[parenStart..i - 1];
    assert t[parenStart..][i - parenStart..] == t[i..];
    var argsContent := Trim(t[parenStart..i - 1]);
    if argsContent == "" {
      NoArgs();
      return Some(Call(t[..m.value], [], t[i..]));
    }
    var args := CommaArgsToArgList(argsContent);
    r := Some(Call(t[..m.value], args, t[i..]));
  }

  lemma NoArgs()
    ensures ArgList("") == []
  {
    TrimBlank("");
    assert Kept([""]) == [];
  }
}
