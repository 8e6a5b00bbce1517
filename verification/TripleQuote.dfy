// Triple-quoted strings: src/parse/triple-quote.ts and `decodeTripleQuotedInner`.
module TripleQuote {
  import opened JsText
  import opened Pieces
  import opened Marks
  import opened Dedent

  const QUOTES := "\"\"\""

  // ----- the escaping -----

  // `s.replace(/c/g, r)` for a single character.
  function ReplaceChar(s: string, c: char, r: string): string {
    if s == "" then "" else (if s[0] == c then r else [s[0]]) + ReplaceChar(s[1..], c, r)
  }

  // `s.replace(/ab/g, r)` for two characters: left to right, matches do not overlap.
  function ReplacePair(s: string, a: char, b: char, r: string): string {
    if |s| < 2 then s
    else if s[0] == a && s[1] == b then r + ReplacePair(s[2..], a, b, r)
    else [s[0]] + ReplacePair(s[1..], a, b, r)
  }

  function Encode(body: string): string {
    ReplaceChar(ReplaceChar(body, '\\', "\\\\"), '"', "\\\"")
  }

  function Decode(inner: string): string {
    ReplacePair(ReplacePair(inner, '\\', '"', "\""), '\\', '\\', "\\")
  }

  function ToRaw(body: string): string {
    "\"" + Encode(body) + "\""
  }

  // `raw.slice(1, -1)`.
  function Inner(raw: string): string {
    if |raw| < 2 then "" else raw[1..|raw| - 1]
  }

  function DecodeTripleQuotedInner(raw: string): string {
    Decode(Inner(raw))
  }

  function Canonicalize(raw: string): string {
    if |raw| < 2 || raw[0] != '"' || raw[|raw| - 1] != '"' then raw
    else ToRaw(DedentText(Decode(Inner(raw))))
  }

  lemma {:induction false} ReplaceCharConcat(s: string, t: string, c: char, r: string)
    ensures ReplaceChar(s + t, c, r) == ReplaceChar(s, c, r) + ReplaceChar(t, c, r)
  {
    if s == "" {
      assert s + t == t;
    } else {
      ReplaceCharConcat(s[1..], t, c, r);
      assert (s + t)[1..] == s[1..] + t;
      var h := if s[0] == c then r else [s[0]];
      var x, y := ReplaceChar(s[1..], c, r), ReplaceChar(t, c, r);
      assert h + (x + y) == (h + x) + y;
    }
  }

  function EncodeChar(c: char): string {
    if c == '\\' then "\\\\" else if c == '"' then "\\\"" else [c]
  }

  lemma EncodeCons(body: string)
    requires body != ""
    ensures Encode(body) == EncodeChar(body[0]) + Encode(body[1..])
  {
    var c := body[0];
    var first := if c == '\\' then "\\\\" else [c];
    ReplaceCharConcat(first, ReplaceChar(body[1..], '\\', "\\\\"), '"', "\\\"");
    assert first[1..] == if c == '\\' then "\\" else "";
    assert "\\"[1..] == "";
    assert ReplaceChar(first, '"', "\\\"") == EncodeChar(c);
  }

  // The first pass of the decoder removes exactly the escapes put before quotes.
  lemma {:induction false} UnquotePass(body: string)
    ensures ReplacePair(Encode(body), '\\', '"', "\"") == ReplaceChar(body, '\\', "\\\\")
    ensures Encode(body) != "" ==> Encode(body)[0] != '"'
  {
    if body != "" {
      EncodeCons(body);
      UnquotePass(body[1..]);
      var rest := Encode(body[1..]);
      var s := Encode(body);
      if body[0] == '"' {
        assert s[2..] == rest;
      } else if body[0] == '\\' {
        assert s[1..] == "\\" + rest && s[1..][1..] == rest;
      } else {
        assert s[1..] == rest;
      }
    }
  }

  // The second pass halves every run of backslashes.
  lemma {:induction false} UnescapePass(body: string)
    ensures ReplacePair(ReplaceChar(body, '\\', "\\\\"), '\\', '\\', "\\") == body
  {
    if body != "" {
      UnescapePass(body[1..]);
      var rest, s := ReplaceChar(body[1..], '\\', "\\\\"), ReplaceChar(body, '\\', "\\\\");
      if body[0] == '\\' {
        assert s[2..] == rest;
      } else {
        assert s[1..] == rest;
      }
    }
  }

  lemma DecodeEncode(body: string)
    ensures Decode(Encode(body)) == body
    ensures DecodeTripleQuotedInner(ToRaw(body)) == body
  {
    UnquotePass(body);
    UnescapePass(body);
    assert Inner(ToRaw(body)) == Encode(body);
  }

  // Canonicalizing an encoded body is encoding the dedented body.
  lemma CanonicalizeEncoded(body: string)
    ensures Canonicalize(ToRaw(body)) == ToRaw(DedentText(body))
  {
    DecodeEncode(body);
    assert Inner(ToRaw(body)) == Encode(body);
  }

  lemma CanonicalizeTwice(raw: string)
    ensures Canonicalize(Canonicalize(raw)) == Canonicalize(raw)
  {
    if |raw| >= 2 && raw[0] == '"' && raw[|raw| - 1] == '"' {
      var inner := Decode(Inner(raw));
      CanonicalizeEncoded(DedentText(inner));
      DedentTwice(inner);
    }
  }

  // ----- the block -----

  function DropLeading(lines: seq<string>): seq<string> {
    if lines != [] && Trim(lines[0]) == "" then DropLeading(lines[1..]) else lines
  }

  function DropTrailing(lines: seq<string>): seq<string> {
    if lines != [] && Trim(lines[|lines| - 1]) == "" then DropTrailing(lines[..|lines| - 1]) else lines
  }

  function TrimAdjacent(text: string): string {
    JoinLines(DropTrailing(DropLeading(Split(text, '\n'))))
  }

  method TrimAdjacentBlankLines(text: string) returns (r: string)
    ensures r == TrimAdjacent(text)
  {
    if text == "" {
      assert Split(text, '\n') == [""];
      TrimBlank("");
      assert DropLeading([""]) == [];
      return "";
    }
    var kept := DropBlankEnds(Split(text, '\n'));
    r := JoinLines(kept);
  }

  method DropBlankEnds(lines: seq<string>) returns (r: seq<string>)
    ensures r == DropTrailing(DropLeading(lines))
  {
    hide Trim;
    var start, end := 0, |lines|;
    while start < end && Trim(lines[start]) == ""
      invariant start <= end
      invariant DropLeading(lines) == DropLeading(lines[start..])
    {
      assert lines[start..][1..] == lines[start + 1..];
      start := start + 1;
    }
    assert DropLeading(lines) == lines[start..];
    assert lines[start..end] == lines[start..];
    while end > start && Trim(lines[end - 1]) == ""
      invariant start <= end <= |lines|
      invariant DropTrailing(lines[start..]) == DropTrailing(lines[start..end])
    {
      assert lines[start..end][..end - 1 - start] == lines[start..end - 1];
      end := end - 1;
    }
    r := lines[start..end];
  }

  datatype Error = NoOpening | TextAfterOpening | Unterminated

  datatype Block = Parsed(body: string, next: nat, afterClose: string) | Failed(error: Error)

  function ParseTripleQuoted(lines: seq<string>, at: nat): Block
    requires at < |lines|
  {
    var open := Trim(lines[at]);
    if !StartsWith(open, QUOTES) then Failed(NoOpening)
    else if Trim(open[3..]) != "" then Failed(TextAfterOpening)
    else
      var close := FirstMarked(lines, at + 1, QUOTES);
      if close == |lines| then Failed(Unterminated)
      else Parsed(TrimAdjacent(JoinLines(lines[at + 1..close])), close + 1, Trim(Trim(lines[close])[3..]))
  }

  method ParseTripleQuoteBlock(lines: seq<string>, at: nat) returns (r: Block)
    requires at < |lines|
    ensures r == ParseTripleQuoted(lines, at)
  {
    var open := Trim(lines[at]);
    if !StartsWith(open, QUOTES) { return Failed(NoOpening); }
    if |Trim(open[3..])| > 0 { return Failed(TextAfterOpening); }
    var bodyLines: seq<string> := [];
    var i := at + 1;
    while i < |lines|
      invariant at < i <= |lines|
      invariant bodyLines == lines[at + 1..i]
      invariant FirstMarked(lines, at + 1, QUOTES) == FirstMarked(lines, i, QUOTES)
    {
      var trimmed := Trim(lines[i]);
      if StartsWith(trimmed, QUOTES) {
        var body := TrimAdjacentBlankLines(JoinLines(bodyLines));
        return Parsed(body, i + 1, Trim(trimmed[3..]));
      }
      bodyLines := bodyLines + [lines[i]];
      i := i + 1;
    }
    r := Failed(Unterminated);
  }

  // A body the parser can return.
  predicate Canonical(body: string) {
    TrimAdjacent(body) == body && forall l | l in Split(body, '\n') :: !Marked(l, QUOTES)
  }

  // Printing a body line by line between its quotes and parsing the block gives it back.
  lemma BlockRoundTrip(before: seq<string>, openIndent: string, body: string, closeIndent: string, rest: seq<string>)
    requires Canonical(body) && AllSpace(openIndent) && AllSpace(closeIndent)
    ensures var printed := [openIndent + QUOTES] + Split(body, '\n') + [closeIndent + QUOTES];
            ParseTripleQuoted(before + printed + rest, |before|) == Parsed(body, |before| + |printed|, "")
  {
    hide *;
    var ls := Split(body, '\n');
    var first, last := openIndent + QUOTES, closeIndent + QUOTES;
    Layout(before, first, ls, last, rest);
    CanonicalParts(body);
    QuotesTrim(openIndent);
    QuotesTrim(closeIndent);
    ParsedAt(before + ([first] + ls + [last]) + rest, |before|, |before| + 1 + |ls|, ls);
    JoinSplit(body, '\n');
    JoinSome(ls);
  }

  lemma JoinSome(ls: seq<string>)
    requires ls != []
    ensures JoinLines(ls) == Join(ls, '\n')
  {
  }

  lemma CanonicalParts(body: string)
    requires Canonical(body)
    ensures TrimAdjacent(body) == body && forall l | l in Split(body, '\n') :: !Marked(l, QUOTES)
  {
  }

  lemma ParsedAt(lines: seq<string>, at: nat, close: nat, ls: seq<string>)
    requires at < close < |lines| && lines[at + 1..close] == ls && ls != []
    requires Trim(lines[at]) == QUOTES && Trim(lines[close]) == QUOTES
    requires (forall j | at < j < close :: lines[j] in ls) && forall l | l in ls :: !Marked(l, QUOTES)
    ensures ParseTripleQuoted(lines, at) == Parsed(TrimAdjacent(JoinLines(ls)), close + 1, "")
  {
    hide TrimAdjacent;
    QuotesAlone();
    hide Trim;
    MarkedAt(lines, at + 1, close, QUOTES);
    hide *;
    assert FirstMarked(lines, at + 1, QUOTES) == close;
    ParseTripleQuotedUnfold(lines, at, close);
  }

  lemma QuotesAlone()
    ensures StartsWith(QUOTES, QUOTES) && Trim(QUOTES[3..]) == ""
  {
    TrimBlank("");
    assert QUOTES[3..] == "";
  }

  lemma ParseTripleQuotedUnfold(lines: seq<string>, at: nat, close: nat)
    requires at < close < |lines| && Trim(lines[at]) == QUOTES && Trim(lines[close]) == QUOTES
    requires FirstMarked(lines, at + 1, QUOTES) == close
    ensures ParseTripleQuoted(lines, at) == Parsed(TrimAdjacent(JoinLines(lines[at + 1..close])), close + 1, "")
  {
    hide TrimAdjacent;
    hide JoinLines;
    hide FirstMarked;
    QuotesAlone();
    hide Trim;
  }

  lemma QuotesTrim(pad: string)
    requires AllSpace(pad)
    ensures Trim(pad + QUOTES) == QUOTES && QUOTES[3..] == ""
  {
    TrimMark(pad, QUOTES, "");
    assert pad + QUOTES + "" == pad + QUOTES && QUOTES + TrimEnd("") == QUOTES;
  }

  lemma {:induction false} DropLeadingFacts(lines: seq<string>)
    ensures var r := DropLeading(lines); |r| <= |lines| && r == lines[|lines| - |r|..] && (r != [] ==> Trim(r[0]) != "")
  {
    if lines != [] && Trim(lines[0]) == "" { DropLeadingFacts(lines[1..]); }
  }

  lemma {:induction false} DropTrailingFacts(lines: seq<string>)
    ensures var r := DropTrailing(lines); r <= lines && (r != [] ==> Trim(r[|r| - 1]) != "")
  {
    if lines != [] && Trim(lines[|lines| - 1]) == "" { DropTrailingFacts(lines[..|lines| - 1]); }
  }

  // What is left between the blank ends: lines of the text, the outer two not blank.
  lemma BetweenBlankEnds(lines: seq<string>)
    ensures var b := DropTrailing(DropLeading(lines));
            (forall l | l in b :: l in lines) &&
            (b != [] ==> Trim(b[0]) != "" && Trim(b[|b| - 1]) != "")
  {
    hide Trim, DropLeading, DropTrailing;
    var a := DropLeading(lines);
    var b := DropTrailing(a);
    DropLeadingFacts(lines);
    DropTrailingFacts(a);
    forall l | l in b ensures l in lines {
      var i :| 0 <= i < |b| && b[i] == l;
      assert a[i] == l && l in a;
    }
    if b != [] { assert b[0] == a[0]; }
  }

  lemma TrimAdjacentLines(lines: seq<string>)
    requires lines != [] && forall l | l in lines :: '\n' !in l
    ensures var r := TrimAdjacent(Join(lines, '\n'));
            TrimAdjacent(r) == r && forall l | l in Split(r, '\n') :: l == "" || l in lines
  {
    hide Trim, DropLeading, DropTrailing, Split, Join;
    SplitJoin(lines, '\n');
    BetweenBlankEnds(lines);
    var b := DropTrailing(DropLeading(lines));
    if b == [] {
      DropEmpty();
    } else {
      SplitJoin(b, '\n');
      DropNothing(b);
    }
  }

  lemma DropEmpty()
    ensures Split("", '\n') == [""] && DropTrailing(DropLeading([""])) == []
  {
    TrimBlank("");
  }

  lemma DropNothing(lines: seq<string>)
    requires lines != [] && Trim(lines[0]) != "" && Trim(lines[|lines| - 1]) != ""
    ensures DropTrailing(DropLeading(lines)) == lines
  {
  }

  lemma ParsedIsCanonical(lines: seq<string>, at: nat)
    requires at < |lines| && forall l | l in lines :: '\n' !in l
    ensures var r := ParseTripleQuoted(lines, at);
            r.Parsed? ==> Canonical(r.body) && at + 1 < r.next <= |lines|
  {
    var r := ParseTripleQuoted(lines, at);
    if r.Parsed? {
      hide TrimAdjacent;
      var ls := lines[at + 1..FirstMarked(lines, at + 1, QUOTES)];
      TrimBlank("");
      assert Split("", '\n') == [""];
      if ls == [] {
        TrimAdjacentLines([""]);
      } else {
        TrimAdjacentLines(ls);
      }
    }
  }

  // ----- what a triple-quoted block is -----

  // The lines without the blank ones at the two ends.
  predicate KernelAt(lines: seq<string>, i: nat, j: nat) {
    && i <= j <= |lines|
    && (forall k | 0 <= k < i :: AllSpace(lines[k])) && (forall k | j <= k < |lines| :: AllSpace(lines[k]))
    && (i < j ==> !AllSpace(lines[i]) && !AllSpace(lines[j - 1]))
  }

  ghost predicate Kernel(lines: seq<string>, body: string) {
    exists i: nat, j: nat :: KernelAt(lines, i, j) && body == JoinLines(lines[i..j])
  }

  lemma {:induction false} LeadingAt(lines: seq<string>, i: nat)
    requires i <= |lines| && (forall k | 0 <= k < i :: AllSpace(lines[k]))
    requires i < |lines| ==> !AllSpace(lines[i])
    ensures DropLeading(lines) == lines[i..]
  {
    hide Trim, AllSpace;
    if lines != [] { BlankExactly(lines[0]); }
    if i > 0 {
      LeadingAt(lines[1..], i - 1);
      assert lines[1..][i - 1..] == lines[i..];
    }
  }

  lemma {:induction false} TrailingAt(lines: seq<string>, j: nat)
    requires j <= |lines| && (forall k | j <= k < |lines| :: AllSpace(lines[k]))
    requires j > 0 ==> !AllSpace(lines[j - 1])
    ensures DropTrailing(lines) == lines[..j]
    decreases |lines|
  {
    hide Trim, AllSpace;
    if lines != [] { BlankExactly(lines[|lines| - 1]); }
    if j < |lines| {
      TrailingAt(lines[..|lines| - 1], j);
      assert lines[..|lines| - 1][..j] == lines[..j];
    }
  }

  lemma KernelIs(lines: seq<string>, i: nat, j: nat)
    requires KernelAt(lines, i, j)
    ensures DropTrailing(DropLeading(lines)) == lines[i..j]
  {
    hide AllSpace;
    if i < j {
      LeadingAt(lines, i);
      TrailingAt(lines[i..], j - i);
      assert lines[i..][..j - i] == lines[i..j];
    } else {
      LeadingAt(lines, |lines|);
      assert lines[|lines|..] == [] && lines[i..j] == [];
    }
  }

  lemma KernelThere(lines: seq<string>)
    ensures exists i: nat, j: nat :: KernelAt(lines, i, j) && DropTrailing(DropLeading(lines)) == lines[i..j]
  {
    var i := 0;
    while i < |lines| && AllSpace(lines[i])
      invariant i <= |lines| && forall k | 0 <= k < i :: AllSpace(lines[k])
    {
      i := i + 1;
    }
    var j := |lines|;
    while j > i && AllSpace(lines[j - 1])
      invariant i <= j <= |lines| && forall k | j <= k < |lines| :: AllSpace(lines[k])
    {
      j := j - 1;
    }
    assert KernelAt(lines, i, j);
    KernelIs(lines, i, j);
  }

  lemma KernelExactly(lines: seq<string>, body: string)
    requires forall l | l in lines :: '\n' !in l
    ensures body == TrimAdjacent(JoinLines(lines)) <==> Kernel(lines, body)
  {
    hide KernelAt, DropLeading, DropTrailing, Split;
    KernelThere(lines);
    LinesBack(lines);
    forall i: nat, j: nat | KernelAt(lines, i, j)
      ensures i <= j <= |lines| && DropTrailing(DropLeading(lines)) == lines[i..j]
    {
      KernelBounds(lines, i, j);
      KernelIs(lines, i, j);
    }
  }

  lemma KernelBounds(lines: seq<string>, i: nat, j: nat)
    requires KernelAt(lines, i, j)
    ensures i <= j <= |lines|
  {
  }

  lemma LinesBack(lines: seq<string>)
    requires forall l | l in lines :: '\n' !in l
    ensures DropTrailing(DropLeading(Split(JoinLines(lines), '\n'))) == DropTrailing(DropLeading(lines))
  {
    if lines == [] {
      DropEmpty();
    } else {
      SplitJoin(lines, '\n');
    }
  }

  // Quotes alone, the first line after them that quotes open, and the kernel between.
  ghost predicate Quoted(lines: seq<string>, at: nat, body: string, next: nat, afterClose: string)
    requires at < |lines|
  {
    && Opens(lines[at], QUOTES, "") && next >= 1
    && (exists x :: FirstOpen(lines, at, next - 1, QUOTES, x) && Strips(x, afterClose))
    && Kernel(lines[at + 1..next - 1], body)
  }

  lemma TightQuotes()
    ensures QUOTES != "" && Tight(QUOTES)
  {
  }

  lemma TightEnd(x: string)
    requires x != "" && Tight(QUOTES + x)
    ensures !AllSpace(x)
  {
    assert (QUOTES + x)[|QUOTES + x| - 1] == x[|x| - 1];
  }

  lemma OpenAlone(line: string)
    ensures Opens(line, QUOTES, "") <==> StartsWith(Trim(line), QUOTES) && Trim(Trim(line)[3..]) == ""
  {
    TightQuotes();
    OpensExactly(line, QUOTES, "");
    TrimBlank("");
    var t := Trim(line);
    assert QUOTES + "" == QUOTES && QUOTES[3..] == "";
    var a, b := Trimmed(line);
    hide Trim;
    if StartsWith(t, QUOTES) {
      assert t == QUOTES + t[3..];
      BlankExactly(t[3..]);
      if t[3..] != "" { TightEnd(t[3..]); }
    }
  }

  lemma CloseIs(lines: seq<string>, at: nat, close: nat, x: string)
    requires at < |lines|
    ensures FirstOpen(lines, at, close, QUOTES, x)
            <==> close < |lines| && FirstMarked(lines, at + 1, QUOTES) == close && x == Trim(lines[close])[3..]
  {
    TightQuotes();
    FirstOpenExactly(lines, at, close, QUOTES, x);
    hide Trim, FirstOpen;
    if close < |lines| && Marked(lines[close], QUOTES) {
      assert Trim(lines[close]) == QUOTES + Trim(lines[close])[3..];
    }
    assert (QUOTES + x)[3..] == x;
  }

  lemma QuotedRead(lines: seq<string>, at: nat, body: string, next: nat, afterClose: string)
    requires at < |lines| && (forall l | l in lines :: '\n' !in l)
    requires ParseTripleQuoted(lines, at) == Parsed(body, next, afterClose)
    ensures Quoted(lines, at, body, next, afterClose)
  {
    hide Trim, Kernel, TrimAdjacent, JoinLines, Opens, FirstOpen, Strips, FirstMarked;
    var close := FirstMarked(lines, at + 1, QUOTES);
    OpenAlone(lines[at]);
    QuotedParts(lines, at, close, body, Trim(lines[close])[3..], afterClose);
  }

  lemma QuotedParts(lines: seq<string>, at: nat, close: nat, body: string, x: string, afterClose: string)
    requires at < close < |lines| && (forall l | l in lines :: '\n' !in l) && Opens(lines[at], QUOTES, "")
    requires FirstMarked(lines, at + 1, QUOTES) == close && Trim(lines[close])[3..] == x
    requires body == TrimAdjacent(JoinLines(lines[at + 1..close])) && afterClose == Trim(x)
    ensures Quoted(lines, at, body, close + 1, afterClose)
  {
    hide Trim, Kernel, TrimAdjacent, JoinLines, Opens, FirstOpen, Strips, FirstMarked;
    CloseIs(lines, at, close, x);
    StripsExactly(x, afterClose);
    KernelExactly(lines[at + 1..close], body);
  }

  lemma QuotedIsRead(lines: seq<string>, at: nat, body: string, next: nat, afterClose: string)
    requires at < |lines| && (forall l | l in lines :: '\n' !in l)
    requires Quoted(lines, at, body, next, afterClose)
    ensures ParseTripleQuoted(lines, at) == Parsed(body, next, afterClose)
  {
    var close := next - 1;
    var x :| FirstOpen(lines, at, close, QUOTES, x) && Strips(x, afterClose);
    assert at < close;
    OpenAlone(lines[at]);
    hide Trim, Kernel, TrimAdjacent, JoinLines, Opens, FirstOpen, Strips;
    CloseIs(lines, at, close, x);
    StripsExactly(x, afterClose);
    KernelExactly(lines[at + 1..close], body);
  }

  lemma QuotedExactly(lines: seq<string>, at: nat, body: string, next: nat, afterClose: string)
    requires at < |lines| && forall l | l in lines :: '\n' !in l
    ensures ParseTripleQuoted(lines, at) == Parsed(body, next, afterClose)
            <==> Quoted(lines, at, body, next, afterClose)
  {
    hide *;
    if ParseTripleQuoted(lines, at) == Parsed(body, next, afterClose) {
      QuotedRead(lines, at, body, next, afterClose);
    }
    if Quoted(lines, at, body, next, afterClose) { QuotedIsRead(lines, at, body, next, afterClose); }
  }

  // The three failures: no quotes, text after them, no closing quotes.
  lemma NotQuoted(lines: seq<string>, at: nat)
    requires at < |lines|
    ensures var r := ParseTripleQuoted(lines, at);
            && (r == Failed(NoOpening) <==> !exists x :: Opens(lines[at], QUOTES, x))
            && (r == Failed(TextAfterOpening) <==> exists x :: x != "" && Opens(lines[at], QUOTES, x))
            && (r == Failed(Unterminated) <==>
                  Opens(lines[at], QUOTES, "") && forall k, x :: at < k < |lines| ==> !Opens(lines[k], QUOTES, x))
  {
    TightQuotes();
    OpenAlone(lines[at]);
    forall k | at <= k < |lines| ensures Marked(lines[k], QUOTES) <==> exists x :: Opens(lines[k], QUOTES, x) {
      MarkedExactly(lines[k], QUOTES);
    }
    forall x, y | Opens(lines[at], QUOTES, x) && Opens(lines[at], QUOTES, y) ensures x == y {
      OpensExactly(lines[at], QUOTES, x);
      OpensExactly(lines[at], QUOTES, y);
      assert (QUOTES + x)[3..] == x && (QUOTES + y)[3..] == y;
    }
    hide Trim, TrimAdjacent, JoinLines, Opens;
    var close := FirstMarked(lines, at + 1, QUOTES);
    if close < |lines| { assert Marked(lines[close], QUOTES); }
  }
}
