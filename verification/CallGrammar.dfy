// What a call spells, by tokens: plain characters and quoted strings.
module CallGrammar {
  import opened JsText
  import opened CallRef
  import opened CallRoundTrip

  // ----- tokens -----

  datatype Token = Plain(c: char) | Quoted(mark: char, body: string)

  // How a text ends: after a token, or inside a string that is never closed.
  datatype Tail = Done | Unclosed(mark: char, body: string)

  predicate IsMark(c: char) { c == '"' || c == '\'' }

  predicate TokenOk(t: Token) {
    match t
    case Plain(c) => !IsMark(c)
    case Quoted(mark, body) =>
      IsMark(mark) && NoneCloses(mark, body, false) && (body != "" ==> body[|body| - 1] != '\\')
  }

  predicate TailOk(t: Tail) {
    t.Unclosed? ==> IsMark(t.mark) && NoneCloses(t.mark, t.body, false)
  }

  predicate TokensOk(ts: seq<Token>) {
    forall t <- ts :: TokenOk(t)
  }

  function TextOf(t: Token): string {
    match t
    case Plain(c) => [c]
    case Quoted(mark, body) => [mark] + body + [mark]
  }

  function Text(ts: seq<Token>): string {
    if ts == [] then "" else TextOf(ts[0]) + Text(ts[1..])
  }

  function TailText(t: Tail): string {
    if t.Done? then "" else [t.mark] + t.body
  }

  predicate Spells(s: string, ts: seq<Token>, tail: Tail) {
    TokensOk(ts) && TailOk(tail) && s == Text(ts) + TailText(tail)
  }

  // Every text is spelled by some tokens.
  lemma {:induction false} EveryText(s: string) returns (ts: seq<Token>, tail: Tail)
    ensures Spells(s, ts, tail)
    decreases |s|
  {
    if s == "" {
      ts, tail := [], Done;
    } else if !IsMark(s[0]) {
      ts, tail := EveryText(s[1..]);
      FirstToken(Plain(s[0]), ts, s[1..], tail);
      assert s == [s[0]] + s[1..];
      ts := [Plain(s[0])] + ts;
    } else {
      var k := FirstClose(s[0], s[1..], false);
      if k == |s| - 1 {
        ts, tail := [], Unclosed(s[0], s[1..]);
        assert s[1..][..k] == s[1..];
      } else {
        assert s[1..][..k] == s[1..k + 1];
        var t := QuotedFirst(s, k);
        ts, tail := EveryText(s[k + 2..]);
        FirstToken(t, ts, s[k + 2..], tail);
        ts := [t] + ts;
      }
    }
  }

  lemma QuotedFirst(s: string, k: nat) returns (t: Token)
    requires k + 1 < |s| && IsMark(s[0]) && s[k + 1] == s[0] && NoneCloses(s[0], s[1..k + 1], false)
    requires k > 0 ==> s[k] != '\\'
    ensures TokenOk(t) && s == TextOf(t) + s[k + 2..]
  {
    t := Quoted(s[0], s[1..k + 1]);
  }

  lemma FirstToken(t: Token, ts: seq<Token>, rest: string, tail: Tail)
    requires TokenOk(t) && Spells(rest, ts, tail)
    ensures Spells(TextOf(t) + rest, [t] + ts, tail)
  {
    assert ([t] + ts)[1..] == ts;
    assert TextOf(t) + (Text(ts) + TailText(tail)) == TextOf(t) + Text(ts) + TailText(tail);
  }

  // ----- commas outside quotes -----

  // The text between the plain commas.
  function Stretches(ts: seq<Token>, tail: Tail): (r: seq<string>)
    ensures r != []
  {
    if ts == [] then [TailText(tail)]
    else
      var rest := Stretches(ts[1..], tail);
      if ts[0] == Plain(',') then [""] + rest else [TextOf(ts[0]) + rest[0]] + rest[1..]
  }

  lemma {:induction false} SegmentsInside(mark: char, body: string, slash: bool, rest: string)
    requires NoneCloses(mark, body, slash)
    ensures Segments(body + rest, In(mark, slash)) == Onto(body, Segments(rest, In(mark, LastSlash(body, slash))))
    decreases |body|
  {
    var r := Segments(rest, In(mark, LastSlash(body, slash)));
    if body == "" {
      assert body + rest == rest && body + r[0] == r[0];
    } else {
      assert (body + rest)[0] == body[0] && (body + rest)[1..] == body[1..] + rest;
      ShorterBody(mark, body, slash);
      SegmentsInside(mark, body[1..], body[0] == '\\', rest);
      assert [body[0]] + (body[1..] + r[0]) == body + r[0];
    }
  }

  lemma ShorterBody(mark: char, body: string, slash: bool)
    requires body != "" && NoneCloses(mark, body, slash)
    ensures NoneCloses(mark, body[1..], body[0] == '\\')
    ensures LastSlash(body[1..], body[0] == '\\') == LastSlash(body, slash)
    ensures NextQuote(In(mark, slash), body[0]) == In(mark, body[0] == '\\')
  {
    forall k | 0 < k < |body[1..]| && body[1..][k] == mark
      ensures body[1..][k - 1] == '\\'
    {
      assert body[k + 1] == mark;
    }
    if |body| > 1 { assert body[1..][0] == body[1]; }
  }

  lemma SegmentsQuoted(mark: char, body: string, rest: string)
    requires TokenOk(Quoted(mark, body))
    ensures Segments(TextOf(Quoted(mark, body)) + rest, No) == Onto(TextOf(Quoted(mark, body)), Segments(rest, No))
  {
    var s := TextOf(Quoted(mark, body)) + rest;
    var after := [mark] + rest;
    assert s[0] == mark && s[1..] == body + after;
    SegmentsInside(mark, body, false, after);
    assert after[0] == mark && after[1..] == rest;
    var r := Segments(rest, No);
    assert [mark] + (body + ([mark] + r[0])) == TextOf(Quoted(mark, body)) + r[0];
  }

  lemma SegmentsOfTail(tail: Tail)
    requires TailOk(tail)
    ensures Segments(TailText(tail), No) == [TailText(tail)]
  {
    if tail.Unclosed? {
      var s := TailText(tail);
      assert s[0] == tail.mark && s[1..] == tail.body + "";
      SegmentsInside(tail.mark, tail.body, false, "");
      assert tail.body + "" == tail.body && [tail.mark] + tail.body == s;
    }
  }

  lemma SegmentsOfToken(t: Token, rest: string)
    requires TokenOk(t)
    ensures Segments(TextOf(t) + rest, No)
            == if t == Plain(',') then [""] + Segments(rest, No) else Onto(TextOf(t), Segments(rest, No))
  {
    if t.Plain? {
      var s := TextOf(t) + rest;
      assert s[0] == t.c && s[1..] == rest;
    } else {
      SegmentsQuoted(t.mark, t.body, rest);
    }
  }

  // Cutting at commas is cutting at the plain commas.
  lemma {:induction false} SegmentsAreStretches(s: string, ts: seq<Token>, tail: Tail)
    requires Spells(s, ts, tail)
    ensures Segments(s, No) == Stretches(ts, tail)
    decreases |ts|
  {
    hide Segments, TokenOk, TextOf, TailOk;
    if ts == [] {
      assert s == TailText(tail);
      SegmentsOfTail(tail);
    } else {
      var t, rest := ts[0], Text(ts[1..]) + TailText(tail);
      assert t in ts && s == TextOf(t) + rest;
      SegmentsAreStretches(rest, ts[1..], tail);
      SegmentsOfToken(t, rest);
    }
  }

  // ----- variables and literals -----

  predicate Word(t: string) {
    t != "" && IdentStart(t[0]) && forall i :: 0 <= i < |t| ==> IdentChar(t[i])
  }

  // Two words with a dot between.
  ghost predicate Dotted(t: string) {
    exists k :: 0 < k < |t| && t[k] == '.' && Word(t[..k]) && Word(t[k + 1..])
  }

  ghost predicate IsVariable(t: string) {
    (Word(t) && t !in KEYWORDS) || Dotted(t)
  }

  lemma {:induction false} RunStops(t: string, i: nat)
    requires i <= |t|
    ensures var e := RunEnd(t, i);
            (forall k :: i <= k < e ==> IdentChar(t[k])) && (e < |t| ==> !IdentChar(t[e]))
    decreases |t| - i
  {
    if i < |t| && IdentChar(t[i]) { RunStops(t, i + 1); }
  }

  lemma {:induction false} RunOver(t: string, i: nat, e: nat)
    requires i <= e <= |t| && (forall k :: i <= k < e ==> IdentChar(t[k])) && (e < |t| ==> !IdentChar(t[e]))
    ensures RunEnd(t, i) == e
    decreases e - i
  {
    if i < e { RunOver(t, i + 1, e); }
  }

  // A word that stands at `i` and is followed by no identifier character ends where it ends.
  lemma WordEnds(t: string, i: nat, e: nat)
    requires i < e <= |t| && Word(t[i..e]) && (e < |t| ==> !IdentChar(t[e]))
    ensures IdentEnd(t, i) == Some(e)
  {
    assert t[i] == t[i..e][0];
    forall k | i <= k < e ensures IdentChar(t[k]) {
      assert t[k] == t[i..e][k - i];
    }
    RunOver(t, i, e);
  }

  lemma EndIsWord(t: string, i: nat)
    requires i <= |t| && IdentEnd(t, i).Some?
    ensures var e := IdentEnd(t, i).value; i < e <= |t| && Word(t[i..e]) && (e < |t| ==> !IdentChar(t[e]))
  {
    RunStops(t, i);
  }

  lemma WordIsIdent(t: string)
    ensures IsIdent(t) <==> Word(t)
  {
    if IsIdent(t) { EndIsWord(t, 0); assert t[0..|t|] == t; }
    if Word(t) { assert t[0..|t|] == t; WordEnds(t, 0, |t|); }
  }

  lemma DottedExactly(t: string)
    ensures IsBareDotted(t) <==> Dotted(t)
  {
    if IsBareDotted(t) {
      EndIsWord(t, 0);
      var k := IdentEnd(t, 0).value;
      EndIsWord(t, k + 1);
      assert t[0..k] == t[..k] && t[k + 1..|t|] == t[k + 1..];
    }
    if Dotted(t) {
      var k :| 0 < k < |t| && t[k] == '.' && Word(t[..k]) && Word(t[k + 1..]);
      assert t[0..k] == t[..k] && t[k + 1..|t|] == t[k + 1..];
      WordEnds(t, 0, k);
      WordEnds(t, k + 1, |t|);
    }
  }

  lemma ClassifyExactly(t: string)
    ensures Classify(t) == if IsVariable(t) then Var(t) else Literal(t)
  {
    WordIsIdent(t);
    DottedExactly(t);
  }

  // The arguments with the given texts.
  ghost predicate ArgsOf(args: seq<Arg>, ms: seq<string>) {
    |args| == |ms| && forall i :: 0 <= i < |ms| ==> args[i] == if IsVariable(ms[i]) then Var(ms[i]) else Literal(ms[i])
  }

  lemma ArgsExactly(args: seq<Arg>, ms: seq<string>)
    ensures ArgsOf(args, ms) <==> args == ClassifyAll(ms)
  {
    forall m | m in ms ensures Classify(m) == if IsVariable(m) then Var(m) else Literal(m) {
      ClassifyExactly(m);
    }
    hide Classify, IsVariable;
    if ArgsOf(args, ms) {
      assert forall i | 0 <= i < |ms| :: ms[i] in ms;
    }
  }

  // ----- white space around the content -----

  lemma TrimPadded(a: string, x: string, b: string)
    requires AllSpace(a) && AllSpace(b)
    ensures Trim(a + x + b) == Trim(x)
  {
    var p, q := Trimmed(x);
    hide Trim, IsSpace;
    var m := Trim(x);
    assert a + x + b == (a + p) + m + (q + b);
    TrimOf(a + p, m, q + b);
  }

  function OntoLast(segments: seq<string>, b: string): seq<string>
    requires segments != []
  {
    var n := |segments| - 1;
    segments[..n] + [segments[n] + b]
  }

  lemma {:induction false} SegmentsBefore(a: string, y: string)
    requires AllSpace(a)
    ensures Segments(a + y, No) == Onto(a, Segments(y, No))
  {
    if a == "" {
      assert a + y == y;
      OntoNothing(Segments(y, No));
    } else {
      assert IsSpace(a[0]) && (a + y)[0] == a[0] && (a + y)[1..] == a[1..] + y;
      SegmentsBefore(a[1..], y);
      assert [a[0]] + (a[1..] + Segments(y, No)[0]) == a + Segments(y, No)[0];
    }
  }

  lemma {:induction false} SegmentsOfSpace(q: Quote, b: string)
    requires AllSpace(b)
    ensures Segments(b, q) == [b]
    decreases |b|
  {
    if b != "" {
      SegmentsOfSpace(NextQuote(q, b[0]), b[1..]);
      assert [b[0]] + b[1..] == b;
    }
  }

  lemma OntoLastTail(c: char, r: seq<string>, b: string)
    requires r != []
    ensures OntoLast([""] + r, b) == [""] + OntoLast(r, b)
    ensures OntoLast([[c] + r[0]] + r[1..], b) == [[c] + OntoLast(r, b)[0]] + OntoLast(r, b)[1..]
  {
    if |r| == 1 { assert [c] + (r[0] + b) == [c] + r[0] + b; }
  }

  lemma {:induction false} SegmentsAfter(m: string, q: Quote, b: string)
    requires AllSpace(b)
    ensures Segments(m + b, q) == OntoLast(Segments(m, q), b)
    decreases |m|
  {
    if m == "" {
      assert m + b == b && "" + b == b;
      SegmentsOfSpace(q, b);
    } else {
      assert (m + b)[0] == m[0] && (m + b)[1..] == m[1..] + b;
      SegmentsAfter(m[1..], NextQuote(q, m[0]), b);
      OntoLastTail(m[0], Segments(m[1..], NextQuote(q, m[0])), b);
      hide OntoLast;
    }
  }

  lemma KeptOnto(a: string, r: seq<string>)
    requires AllSpace(a) && r != []
    ensures Kept(Onto(a, r)) == Kept(r)
  {
    hide Trim, IsSpace;
    TrimPadded(a, r[0], "");
    assert a + r[0] + "" == a + r[0];
    assert Onto(a, r)[1..] == r[1..];
  }

  lemma {:induction false} KeptOntoLast(r: seq<string>, b: string)
    requires AllSpace(b) && r != []
    ensures Kept(OntoLast(r, b)) == Kept(r)
    decreases |r|
  {
    hide Trim, IsSpace;
    if |r| == 1 {
      TrimPadded("", r[0], b);
      assert "" + r[0] + b == r[0] + b;
      assert OntoLast(r, b)[1..] == r[1..];
    } else {
      KeptOntoLast(r[1..], b);
      assert OntoLast(r, b)[1..] == OntoLast(r[1..], b);
    }
  }

  lemma KeptOfTrim(x: string)
    ensures Kept(Segments(Trim(x), No)) == Kept(Segments(x, No))
  {
    var a, b := Trimmed(x);
    hide Trim, AllSpace, Segments, Kept, Onto, OntoLast;
    var m := Trim(x);
    assert x == a + (m + b);
    SegmentsBefore(a, m + b);
    KeptOnto(a, Segments(m + b, No));
    SegmentsAfter(m, No, b);
    KeptOntoLast(Segments(m, No), b);
  }

  // ----- the closing parenthesis -----

  // Opening less closing parentheses outside quotes.
  function Level(ts: seq<Token>): int {
    multiset(ts)[Plain('(')] as int - multiset(ts)[Plain(')')] as int
  }

  predicate NeverBelow(ts: seq<Token>, d: int) {
    forall k :: 0 <= k <= |ts| ==> Level(ts[..k]) >= d
  }

  predicate Balanced(ts: seq<Token>) {
    NeverBelow(ts, 0) && Level(ts) == 0
  }

  lemma {:induction false} WalkInside(mark: char, body: string, slash: bool, d: int)
    requires NoneCloses(mark, body, slash) && d >= 1
    ensures Walk(Scan(In(mark, slash), d), body) == Scan(In(mark, LastSlash(body, slash)), d)
    ensures Stays(Scan(In(mark, slash), d), body)
    decreases |body|
  {
    if body != "" {
      ShorterBody(mark, body, slash);
      WalkInside(mark, body[1..], body[0] == '\\', d);
    }
  }

  lemma WalkTail(tail: Tail, d: int)
    requires TailOk(tail) && d >= 1
    ensures Walk(Scan(No, d), TailText(tail)).quote.No? <==> tail.Done?
    ensures Stays(Scan(No, d), TailText(tail))
  {
    if tail.Unclosed? {
      assert TailText(tail)[1..] == tail.body;
      WalkInside(tail.mark, tail.body, false, d);
    }
  }

  lemma WalkToken(t: Token, d: int)
    requires TokenOk(t) && d >= 1
    ensures Walk(Scan(No, d), TextOf(t)) == Scan(No, d + Level([t]))
    ensures Stays(Scan(No, d), TextOf(t)) <==> d + Level([t]) >= 1
  {
    var s := TextOf(t);
    if t.Plain? {
      assert s[1..] == "";
    } else {
      assert s == [t.mark] + (t.body + [t.mark]) && s[1..] == t.body + [t.mark];
      WalkConcat(Scan(In(t.mark, false), d), t.body, [t.mark]);
      WalkInside(t.mark, t.body, false, d);
      assert [t.mark][1..] == "";
    }
  }

  lemma {:induction false} TextLast(ts: seq<Token>, t: Token)
    ensures Text(ts + [t]) == Text(ts) + TextOf(t)
  {
    if ts == [] {
      assert (ts + [t])[1..] == [] && TextOf(t) + "" == TextOf(t) && "" + TextOf(t) == TextOf(t);
    } else {
      assert (ts + [t])[1..] == ts[1..] + [t];
      TextLast(ts[1..], t);
      assert TextOf(ts[0]) + (Text(ts[1..]) + TextOf(t)) == TextOf(ts[0]) + Text(ts[1..]) + TextOf(t);
    }
  }

  lemma LevelLast(ts: seq<Token>, t: Token, d: int)
    ensures Level(ts + [t]) == Level(ts) + Level([t])
    ensures NeverBelow(ts + [t], d) <==> NeverBelow(ts, d) && Level(ts) + Level([t]) >= d
  {
    var us := ts + [t];
    assert multiset(us) == multiset(ts) + multiset([t]);
    assert us[..|us|] == us;
    forall k | 0 <= k <= |ts| ensures us[..k] == ts[..k] {
    }
  }

  // Walking over tokens counts the parentheses that stand outside quotes.
  lemma {:induction false} WalkTokens(ts: seq<Token>, d: int)
    requires TokensOk(ts) && d >= 1
    ensures Stays(Scan(No, d), Text(ts)) <==> NeverBelow(ts, 1 - d)
    ensures NeverBelow(ts, 1 - d) ==> Walk(Scan(No, d), Text(ts)) == Scan(No, d + Level(ts))
    decreases |ts|
  {
    if ts == [] {
      assert ts[..0] == [];
    } else {
      var n := |ts| - 1;
      assert ts == ts[..n] + [ts[n]] && ts[n] in ts;
      WalkTokens(ts[..n], d);
      WalkMore(ts[..n], ts[n], d);
    }
  }

  lemma WalkMore(us: seq<Token>, t: Token, d: int)
    requires TokenOk(t) && d >= 1
    requires Stays(Scan(No, d), Text(us)) <==> NeverBelow(us, 1 - d)
    requires NeverBelow(us, 1 - d) ==> Walk(Scan(No, d), Text(us)) == Scan(No, d + Level(us))
    ensures Stays(Scan(No, d), Text(us + [t])) <==> NeverBelow(us + [t], 1 - d)
    ensures NeverBelow(us + [t], 1 - d) ==> Walk(Scan(No, d), Text(us + [t])) == Scan(No, d + Level(us + [t]))
  {
    hide *;
    TextLast(us, t);
    LevelLast(us, t, 1 - d);
    WalkConcat(Scan(No, d), Text(us), TextOf(t));
    if NeverBelow(us, 1 - d) {
      LevelBound(us, 1 - d);
      WalkToken(t, d + Level(us));
    }
  }

  lemma LevelBound(ts: seq<Token>, d: int)
    requires NeverBelow(ts, d)
    ensures Level(ts) >= d
  {
    assert ts[..|ts|] == ts;
  }

  // What stands before the closing parenthesis is balanced, with every quote closed.
  lemma ContentExactly(w: string, ts: seq<Token>, tail: Tail)
    requires Spells(w, ts, tail)
    ensures Stays(OPENED, w) && Walk(OPENED, w) == OPENED <==> Balanced(ts) && tail.Done?
  {
    WalkTokens(ts, 1);
    WalkConcat(OPENED, Text(ts), TailText(tail));
    hide Level, TailText;
    if NeverBelow(ts, 0) {
      LevelBound(ts, 0);
      WalkTail(tail, 1 + Level(ts));
      if tail.Done? { assert TailText(tail) == ""; }
    }
  }

  // ----- the reference -----

  ghost predicate Reference(r: string) {
    Word(r) || Dotted(r)
  }

  lemma RefFound(t: string)
    requires MatchRef(t).Some?
    ensures Reference(t[..MatchRef(t).value])
  {
    var n := MatchRef(t).value;
    EndIsWord(t, 0);
    var k := IdentEnd(t, 0).value;
    assert t[0..k] == t[..k];
    if k < n {
      EndIsWord(t, k + 1);
      var r := t[..n];
      assert r[..k] == t[..k] && r[k + 1..] == t[k + 1..n] && r[k] == '.';
    }
  }

  lemma RefThere(r: string, after: string)
    requires Reference(r)
    ensures MatchRef(r + "(" + after) == Some(|r|)
  {
    var t := r + "(" + after;
    assert t[|r|] == '(';
    if Word(r) {
      assert t[0..|r|] == r;
      WordEnds(t, 0, |r|);
    } else {
      var k :| 0 < k < |r| && r[k] == '.' && Word(r[..k]) && Word(r[k + 1..]);
      assert t[0..k] == r[..k] && t[k] == '.' && t[k + 1..|r|] == r[k + 1..];
      WordEnds(t, 0, k);
      WordEnds(t, k + 1, |r|);
    }
  }

  // ----- calls -----

  // `s` is white space, a reference, balanced content in parentheses and the rest; the arguments
  // are the stretches between the commas outside quotes, stripped, without the blank ones.
  ghost predicate Spelling(s: string, c: Call, pad: string, ts: seq<Token>, ms: seq<string>) {
    && AllSpace(pad) && Reference(c.ref) && TokensOk(ts) && Balanced(ts)
    && s == pad + (c.ref + "(" + (Text(ts) + ")" + c.rest))
    && StrippedPieces(Stretches(ts, Done), ms) && ArgsOf(c.args, ms)
  }

  lemma ArgListExactly(w: string, ts: seq<Token>, args: seq<Arg>)
    requires Spells(w, ts, Done)
    ensures args == ArgList(Trim(w))
            <==> exists ms :: StrippedPieces(Stretches(ts, Done), ms) && ArgsOf(args, ms)
  {
    KeptOfTrim(w);
    SegmentsAreStretches(w, ts, Done);
    var pieces := Stretches(ts, Done);
    hide Trim, Segments, Kept, StrippedPieces, Stretches, ArgsOf, Spells, ClassifyAll;
    KeptExactly(pieces, Kept(pieces));
    ArgsExactly(args, Kept(pieces));
    forall ms | StrippedPieces(pieces, ms) ensures ms == Kept(pieces) {
      KeptExactly(pieces, ms);
    }
  }

  lemma CallRead(s: string, c: Call) returns (pad: string, ts: seq<Token>, ms: seq<string>)
    requires ParseCall(s) == Some(c)
    ensures Spelling(s, c, pad, ts, ms)
  {
    hide StrippedPieces, Stretches, ArgsOf, ArgList, Balanced, TokensOk, Text, FindClose, MatchRef, Reference;
    hide Trim, TrimStart, IsSpace;
    var t := TrimStart(s);
    pad := SplitStart(s);
    var n := MatchRef(t).value;
    var inner := t[n + 1..];
    var k := FindClose(inner, OPENED).value;
    RefFound(t);
    ts, ms := InnerRead(inner, k, c.args);
    assert t == t[..n] + "(" + inner;
  }

  lemma SpelledDone(w: string, ts: seq<Token>)
    ensures Spells(w, ts, Done) <==> TokensOk(ts) && w == Text(ts)
  {
    assert Text(ts) + "" == Text(ts);
  }

  lemma Enclosed(inner: string, k: nat) returns (w: string)
    requires FindClose(inner, OPENED) == Some(k) && k > 0
    ensures k <= |inner| && w == inner[..k - 1] && inner == w + ")" + inner[k..]
    ensures Stays(OPENED, w) && Walk(OPENED, w) == OPENED
  {
    CloseFound(inner, OPENED);
    w := inner[..k - 1];
  }

  lemma InnerRead(inner: string, k: nat, args: seq<Arg>) returns (ts: seq<Token>, ms: seq<string>)
    requires FindClose(inner, OPENED) == Some(k) && k > 0 && args == ArgList(Trim(inner[..k - 1]))
    ensures TokensOk(ts) && Balanced(ts) && inner == Text(ts) + ")" + inner[k..]
    ensures StrippedPieces(Stretches(ts, Done), ms) && ArgsOf(args, ms)
  {
    hide *;
    var w := Enclosed(inner, k);
    var tail;
    ts, tail := EveryText(w);
    ContentExactly(w, ts, tail);
    SpelledDone(w, ts);
    ArgListExactly(w, ts, args);
    ms :| StrippedPieces(Stretches(ts, Done), ms) && ArgsOf(args, ms);
  }

  lemma CallWritten(s: string, c: Call, pad: string, ts: seq<Token>, ms: seq<string>)
    requires Spelling(s, c, pad, ts, ms)
    ensures ParseCall(s) == Some(c)
  {
    hide StrippedPieces, Stretches, ArgsOf, ArgList, Balanced, TokensOk, Text, FindClose, MatchRef, Reference;
    hide Trim, TrimStart, IsSpace, Walk, Stays, Spells;
    var w := Text(ts);
    var inner := w + ")" + c.rest;
    var t := c.ref + "(" + inner;
    SpelledDone(w, ts);
    RefThere(c.ref, inner);
    RefStart(c.ref);
    assert t[0] == c.ref[0];
    TrimStartOf(pad, t);
    ContentExactly(w, ts, Done);
    CloseThere(w, c.rest, OPENED);
    ArgListExactly(w, ts, c.args);
    assert t[..|c.ref|] == c.ref && t[|c.ref| + 1..] == inner;
    assert inner[..|w|] == w && inner[|w| + 1..] == c.rest;
  }

  lemma RefStart(r: string)
    requires Reference(r)
    ensures r != "" && IdentStart(r[0]) && !IsSpace(r[0])
  {
    if !Word(r) {
      var k :| 0 < k < |r| && r[k] == '.' && Word(r[..k]) && Word(r[k + 1..]);
      assert r[0] == r[..k][0];
    }
  }

  // A text parses as a call exactly when it spells that call.
  lemma CallExactly(s: string, c: Call)
    ensures ParseCall(s) == Some(c) <==> exists pad, ts, ms :: Spelling(s, c, pad, ts, ms)
  {
    hide ParseCall, Spelling;
    if ParseCall(s) == Some(c) {
      var pad, ts, ms := CallRead(s, c);
    }
    if pad, ts, ms :| Spelling(s, c, pad, ts, ms) {
      CallWritten(s, c, pad, ts, ms);
    }
  }
}
