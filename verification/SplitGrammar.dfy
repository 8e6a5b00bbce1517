// Where a line is cut into statements, by tokens: characters, strings and regexes.
module SplitGrammar {
  import opened JsText
  import opened StatementSplit
  import opened SplitTheorems

  // ----- tokens -----

  const QUOTES := "\"\"\""

  datatype Token = Char(c: char) | Str(body: string) | Block(body: string) | Rx(body: string)

  // How a line ends: after a token, or inside a string or a regex that is never closed.
  datatype Tail = Done | OpenStr(body: string) | OpenBlock(body: string) | OpenRx(body: string)

  function TextOf(t: Token): string {
    match t
    case Char(c) => [c]
    case Str(body) => "\"" + body + "\""
    case Block(body) => QUOTES + body + QUOTES
    case Rx(body) => "/" + body + "/"
  }

  function Text(ts: seq<Token>): string {
    if ts == [] then "" else TextOf(ts[0]) + Text(ts[1..])
  }

  function TailText(tail: Tail): string {
    match tail
    case Done => ""
    case OpenStr(body) => "\"" + body
    case OpenBlock(body) => QUOTES + body
    case OpenRx(body) => "/" + body
  }

  // Only white space, or a `;` or `=>` before white space.
  ghost predicate RegexPlace(before: string) {
    exists x, pad :: before == x + pad && AllSpace(pad) && (x == "" || EndsStatement(x))
  }

  predicate EndsStatement(x: string) {
    var n := |x|;
    (n >= 1 && x[n - 1] == ';') || (n >= 2 && x[n - 2] == '=' && x[n - 1] == '>')
  }

  // No mark inside closes the literal, and the one after it is not behind a backslash.
  predicate Closed(mark: char, body: string) {
    NoneCloses(mark, body, false) && (body != "" ==> body[|body| - 1] != '\\')
  }

  // The text has no three quotes before position `n`.
  predicate NoQuotes(s: string, n: nat) {
    forall k :: 0 <= k < n && k <= |s| ==> !(QUOTES <= s[k..])
  }

  // A token between the text before and the text after it.
  ghost predicate TokenOk(before: string, t: Token, after: string, allowRegex: bool) {
    match t
    case Char(c) => c != '"' && !(allowRegex && c == '/' && RegexPlace(before))
    case Str(body) => Closed('"', body) && (body == "" ==> after == "" || after[0] != '"')
    case Block(body) => NoQuotes(body + QUOTES, |body|)
    case Rx(body) => allowRegex && RegexPlace(before) && Closed('/', body)
  }

  ghost predicate TailOk(before: string, tail: Tail, allowRegex: bool) {
    match tail
    case Done => true
    case OpenStr(body) => NoneCloses('"', body, false)
    case OpenBlock(body) => NoQuotes(body, |body|)
    case OpenRx(body) => allowRegex && RegexPlace(before) && NoneCloses('/', body, false)
  }

  // The tokens stand after `before`.
  ghost predicate Fits(before: string, ts: seq<Token>, tail: Tail, allowRegex: bool)
    decreases |ts|
  {
    if ts == [] then TailOk(before, tail, allowRegex)
    else
      && TokenOk(before, ts[0], Text(ts[1..]) + TailText(tail), allowRegex)
      && Fits(before + TextOf(ts[0]), ts[1..], tail, allowRegex)
  }

  ghost predicate Spells(line: string, ts: seq<Token>, tail: Tail, allowRegex: bool) {
    line == Text(ts) + TailText(tail) && Fits("", ts, tail, allowRegex)
  }

  // As many of the one as of the other, outside strings and regexes.
  predicate Even(ts: seq<Token>, open: char, close: char) {
    multiset(ts)[Char(open)] == multiset(ts)[Char(close)]
  }

  // Token `k` is a semicolon at position `p` with every bracket before it closed.
  predicate CutAt(ts: seq<Token>, k: nat, p: nat) {
    && k < |ts| && ts[k] == Char(';') && p == |Text(ts[..k])|
    && Even(ts[..k], '{', '}') && Even(ts[..k], '(', ')') && Even(ts[..k], '[', ']')
  }

  // ----- scanning over one token -----

  lemma LastOne(x: string)
    ensures EndsWith(x, ";") <==> |x| >= 1 && x[|x| - 1] == ';'
  {
    if |x| >= 1 { assert x[|x| - 1..] == [x[|x| - 1]]; }
  }

  lemma LastTwo(x: string)
    ensures EndsWith(x, "=>") <==> |x| >= 2 && x[|x| - 2] == '=' && x[|x| - 1] == '>'
  {
    if |x| >= 2 { assert x[|x| - 2..] == [x[|x| - 2], x[|x| - 1]]; }
  }

  lemma EndsExactly(x: string)
    ensures EndsStatement(x) <==> EndsWith(x, ";") || EndsWith(x, "=>")
    ensures EndsStatement(x) ==> !IsSpace(x[|x| - 1])
  {
    LastOne(x);
    LastTwo(x);
    hide EndsWith;
  }

  lemma RegexPlaceExactly(line: string, i: nat)
    requires i <= |line|
    ensures RegexPlace(line[..i]) <==> CouldStartRegex(line, i)
  {
    var before := line[..i];
    var b := SplitEnd(before);
    EndsExactly(TrimEnd(before));
    if RegexPlace(before) {
      var x, pad :| before == x + pad && AllSpace(pad) && (x == "" || EndsStatement(x));
      EndsExactly(x);
      TrimEndOf(x, pad);
    }
  }

  // Inside a string or a regex the scan goes to the closing mark.
  lemma {:induction false} ScanInside(line: string, i: nat, j: nat, st: Lex, mark: char, allowRegex: bool)
    requires 0 < i <= j <= |line|
    requires (st.mode.Double? && mark == '"') || (st.mode.Regex? && mark == '/')
    requires forall k :: i <= k < j && line[k] == mark ==> line[k - 1] == '\\'
    ensures Cuts(line, i, st, allowRegex) == Cuts(line, j, st, allowRegex)
    decreases j - i
  {
    if i < j {
      assert Advance(line, i, st, allowRegex) == (st, i + 1);
      ScanInside(line, i + 1, j, st, mark, allowRegex);
    }
  }

  lemma {:induction false} ScanBlock(line: string, i: nat, j: nat, st: Lex, allowRegex: bool)
    requires i <= j <= |line| && st.mode.Triple?
    requires forall k :: i <= k < j ==> !QuotesAt(line, k)
    ensures Cuts(line, i, st, allowRegex) == Cuts(line, j, st, allowRegex)
    decreases j - i
  {
    if i < j {
      assert Advance(line, i, st, allowRegex) == (st, i + 1);
      ScanBlock(line, i + 1, j, st, allowRegex);
    }
  }

  lemma BodyInside(line: string, i: nat, mark: char, body: string)
    requires 0 < i && i + |body| <= |line| && line[i..i + |body|] == body && line[i - 1] == mark && mark != '\\'
    requires NoneCloses(mark, body, false)
    ensures forall k :: i <= k < i + |body| && line[k] == mark ==> line[k - 1] == '\\'
  {
    forall k | i <= k < i + |body| && line[k] == mark ensures line[k - 1] == '\\' {
      assert line[k] == body[k - i];
      if k > i { assert line[k - 1] == body[k - i - 1]; }
    }
  }

  lemma QuotesMeans(line: string, i: nat)
    requires i <= |line|
    ensures QuotesAt(line, i) <==> QUOTES <= line[i..]
  {
    if QuotesAt(line, i) { assert line[i..][..3] == QUOTES; }
    if QUOTES <= line[i..] { assert forall k | 0 <= k < 3 :: line[i + k] == QUOTES[k]; }
  }

  lemma Opens(line: string, i: nat, st: Lex, allowRegex: bool)
    requires i < |line| && st.mode.Plain?
    ensures QuotesAt(line, i) ==> Cuts(line, i, st, allowRegex) == Cuts(line, i + 3, st.(mode := Triple), allowRegex)
    ensures line[i] == '"' && !QuotesAt(line, i)
            ==> Cuts(line, i, st, allowRegex) == Cuts(line, i + 1, st.(mode := Double), allowRegex)
    ensures line[i] == '/' && allowRegex && CouldStartRegex(line, i)
            ==> Cuts(line, i, st, allowRegex) == Cuts(line, i + 1, st.(mode := Regex), allowRegex)
  {
    hide CouldStartRegex;
  }

  lemma Closes(line: string, i: nat, st: Lex, allowRegex: bool)
    requires 0 < i < |line| && line[i - 1] != '\\'
    requires (st.mode.Double? && line[i] == '"') || (st.mode.Regex? && line[i] == '/')
    ensures Cuts(line, i, st, allowRegex) == Cuts(line, i + 1, st.(mode := Plain), allowRegex)
  {
    assert Advance(line, i, st, allowRegex) == (st.(mode := Plain), i + 1);
  }

  lemma BlockCloses(line: string, i: nat, st: Lex, allowRegex: bool)
    requires i < |line| && st.mode.Triple? && QuotesAt(line, i)
    ensures Cuts(line, i, st, allowRegex) == Cuts(line, i + 3, st.(mode := Plain), allowRegex)
  {
    assert Advance(line, i, st, allowRegex) == (st.(mode := Plain), i + 3);
  }

  // The state after a token, seen from plain text.
  function After(st: Lex, t: Token): Lex {
    if !t.Char? then st
    else if t.c == '{' then st.(brace := st.brace + 1)
    else if t.c == '}' then st.(brace := st.brace - 1)
    else if t.c == '(' then st.(paren := st.paren + 1)
    else if t.c == ')' then st.(paren := st.paren - 1)
    else if t.c == '[' then st.(bracket := st.bracket + 1)
    else if t.c == ']' then st.(bracket := st.bracket - 1)
    else st
  }

  lemma ScanChar(before: string, c: char, after: string, st: Lex, p: nat, allowRegex: bool)
    requires st.mode.Plain? && TokenOk(before, Char(c), after, allowRegex)
    ensures var line, i := before + [c] + after, |before|;
            p in Cuts(line, i, st, allowRegex)
            <==> (p == i && c == ';' && st == START) || p in Cuts(line, i + 1, After(st, Char(c)), allowRegex)
  {
    var line, i := before + [c] + after, |before|;
    assert line[i] == c && line[..i] == before;
    RegexPlaceExactly(line, i);
    hide RegexPlace, CouldStartRegex;
    if !IsCut(line, i, st) {
      assert Advance(line, i, st, allowRegex) == (After(st, Char(c)), i + 1);
    }
  }

  lemma StrOpens(before: string, body: string, after: string, st: Lex, allowRegex: bool)
    requires st.mode.Plain? && NoneCloses('"', body, false) && (body == "" ==> |after| < 2 || after[1] != '"')
    requires |after| > 0 ==> after[0] == '"'
    ensures var line, i := before + "\"" + body + after, |before|;
            && i + 1 + |body| <= |line|
            && Cuts(line, i, st, allowRegex) == Cuts(line, i + 1 + |body|, st.(mode := Double), allowRegex)
  {
    hide Cuts;
    var line, i := before + "\"" + body + after, |before|;
    assert line[i] == '"' && line[i + 1..i + 1 + |body|] == body && line[i + 1 + |body|..] == after;
    assert !QuotesAt(line, i) by {
      if body != "" {
        assert line[i + 1] == body[0];
      } else if |after| > 1 {
        assert line[i + 2] == after[1];
      }
    }
    Opens(line, i, st, allowRegex);
    BodyInside(line, i + 1, '"', body);
    ScanInside(line, i + 1, i + 1 + |body|, st.(mode := Double), '"', allowRegex);
  }

  lemma Literal(before: string, mark: char, body: string, after: string)
    requires mark != '\\' && Closed(mark, body)
    ensures var line, j := before + ([mark] + body + [mark]) + after, |before| + 1 + |body|;
            && line == before + [mark] + body + ([mark] + after)
            && j < |line| && line[j] == mark && line[j - 1] != '\\'
  {
    hide NoneCloses;
    var line, j := before + ([mark] + body + [mark]) + after, |before| + 1 + |body|;
    assert line == before + [mark] + body + ([mark] + after);
    assert line[j - 1] == if body == "" then mark else body[|body| - 1];
  }

  lemma ScanStr(before: string, body: string, after: string, st: Lex, allowRegex: bool)
    requires st.mode.Plain? && TokenOk(before, Str(body), after, allowRegex)
    ensures var line, i := before + TextOf(Str(body)) + after, |before|;
            Cuts(line, i, st, allowRegex) == Cuts(line, i + |body| + 2, st, allowRegex)
  {
    hide Cuts, NoneCloses;
    var line, i := before + TextOf(Str(body)) + after, |before|;
    Literal(before, '"', body, after);
    StrOpens(before, body, "\"" + after, st, allowRegex);
    Closes(line, i + 1 + |body|, st.(mode := Double), allowRegex);
  }

  lemma RxOpens(before: string, body: string, after: string, st: Lex)
    requires st.mode.Plain? && NoneCloses('/', body, false) && RegexPlace(before)
    ensures var line, i := before + "/" + body + after, |before|;
            && i + 1 + |body| <= |line|
            && Cuts(line, i, st, true) == Cuts(line, i + 1 + |body|, st.(mode := Regex), true)
  {
    hide RegexPlace, CouldStartRegex, Cuts, NoneCloses, Advance, QuotesAt;
    var line, i := before + "/" + body + after, |before|;
    assert line[i] == '/' && line[i + 1..i + 1 + |body|] == body && line[..i] == before;
    RegexPlaceExactly(line, i);
    Opens(line, i, st, true);
    BodyInside(line, i + 1, '/', body);
    ScanInside(line, i + 1, i + 1 + |body|, st.(mode := Regex), '/', true);
  }

  lemma ScanRx(before: string, body: string, after: string, st: Lex)
    requires st.mode.Plain? && TokenOk(before, Rx(body), after, true)
    ensures var line, i := before + TextOf(Rx(body)) + after, |before|;
            Cuts(line, i, st, true) == Cuts(line, i + |body| + 2, st, true)
  {
    hide RegexPlace, NoneCloses, Cuts;
    assert Closed('/', body) && NoneCloses('/', body, false) && RegexPlace(before);
    assert TextOf(Rx(body)) == ['/'] + body + ['/'];
    hide *;
    var line, i := before + TextOf(Rx(body)) + after, |before|;
    Literal(before, '/', body, after);
    RxOpens(before, body, "/" + after, st);
    Closes(line, i + 1 + |body|, st.(mode := Regex), true);
  }

  lemma BlockOpens(before: string, rest: string, n: nat, st: Lex, allowRegex: bool)
    requires st.mode.Plain? && n <= |rest| && NoQuotes(rest, n)
    ensures var line, i := before + QUOTES + rest, |before|;
            && i + 3 + n <= |line|
            && Cuts(line, i, st, allowRegex) == Cuts(line, i + 3 + n, st.(mode := Triple), allowRegex)
  {
    hide Cuts, QuotesAt;
    var line, i := before + QUOTES + rest, |before|;
    assert line[i..] == QUOTES + rest && QUOTES <= line[i..];
    QuotesMeans(line, i);
    Opens(line, i, st, allowRegex);
    forall k | i + 3 <= k < i + 3 + n ensures !QuotesAt(line, k) {
      assert line[k..] == rest[k - i - 3..];
      QuotesMeans(line, k);
    }
    ScanBlock(line, i + 3, i + 3 + n, st.(mode := Triple), allowRegex);
  }

  // Text that follows does not bring the closing quotes forward.
  lemma NoQuotesMore(body: string, after: string)
    requires NoQuotes(body + QUOTES, |body|)
    ensures NoQuotes(body + QUOTES + after, |body|)
  {
    forall k | 0 <= k < |body| ensures !(QUOTES <= (body + QUOTES + after)[k..]) {
      assert (body + QUOTES + after)[k..] == (body + QUOTES)[k..] + after;
    }
  }

  lemma ScanQuotes(before: string, body: string, after: string, st: Lex, allowRegex: bool)
    requires st.mode.Plain? && TokenOk(before, Block(body), after, allowRegex)
    ensures var line, i := before + TextOf(Block(body)) + after, |before|;
            Cuts(line, i, st, allowRegex) == Cuts(line, i + |body| + 6, st, allowRegex)
  {
    hide Cuts, NoQuotes, QuotesAt;
    var line, i := before + TextOf(Block(body)) + after, |before|;
    var rest := body + QUOTES + after;
    assert line == before + QUOTES + rest;
    NoQuotesMore(body, after);
    BlockOpens(before, rest, |body|, st, allowRegex);
    var j := i + 3 + |body|;
    assert line[j..] == QUOTES + after && QUOTES <= line[j..];
    QuotesMeans(line, j);
    BlockCloses(line, j, st.(mode := Triple), allowRegex);
  }

  lemma ScanToken(before: string, t: Token, after: string, st: Lex, p: nat, allowRegex: bool)
    requires st.mode.Plain? && TokenOk(before, t, after, allowRegex)
    ensures var line, i := before + TextOf(t) + after, |before|;
            p in Cuts(line, i, st, allowRegex)
            <==> (p == i && t == Char(';') && st == START)
                 || p in Cuts(line, |before + TextOf(t)|, After(st, t), allowRegex)
  {
    hide Cuts, RegexPlace, NoneCloses, NoQuotes;
    match t
    case Char(c) => ScanChar(before, c, after, st, p, allowRegex);
    case Str(body) => ScanStr(before, body, after, st, allowRegex);
    case Block(body) => ScanQuotes(before, body, after, st, allowRegex);
    case Rx(body) => ScanRx(before, body, after, st);
  }

  lemma ScanTail(before: string, tail: Tail, st: Lex, allowRegex: bool)
    requires st.mode.Plain? && TailOk(before, tail, allowRegex)
    ensures Cuts(before + TailText(tail), |before|, st, allowRegex) == []
  {
    match tail {
      case Done =>
      case OpenStr(body) =>
        assert before + TailText(tail) == before + "\"" + body + "";
        StrOpens(before, body, "", st, allowRegex);
      case OpenBlock(body) =>
        assert before + TailText(tail) == before + QUOTES + body;
        BlockOpens(before, body, |body|, st, allowRegex);
      case OpenRx(body) =>
        assert before + TailText(tail) == before + "/" + body + "";
        RxOpens(before, body, "", st);
    }
  }

  // ----- the cuts -----

  function Net(ts: seq<Token>, open: char, close: char): int {
    multiset(ts)[Char(open)] as int - multiset(ts)[Char(close)] as int
  }

  function StateAfter(ts: seq<Token>): Lex {
    Lex(Mode.Plain, Net(ts, '{', '}'), Net(ts, '(', ')'), Net(ts, '[', ']'))
  }

  lemma NetMore(us: seq<Token>, t: Token, open: char, close: char)
    requires open != close
    ensures Net(us + [t], open, close)
            == Net(us, open, close) + if t == Char(open) then 1 else if t == Char(close) then -1 else 0
  {
    assert multiset(us + [t]) == multiset(us) + multiset{t};
  }

  lemma StateMore(us: seq<Token>, t: Token)
    ensures StateAfter(us + [t]) == After(StateAfter(us), t)
  {
    NetMore(us, t, '{', '}');
    NetMore(us, t, '(', ')');
    NetMore(us, t, '[', ']');
  }

  lemma {:induction false} TextConcat(us: seq<Token>, vs: seq<Token>)
    ensures Text(us + vs) == Text(us) + Text(vs)
  {
    if us == [] {
      assert us + vs == vs && "" + Text(vs) == Text(vs);
    } else {
      assert (us + vs)[1..] == us[1..] + vs;
      TextConcat(us[1..], vs);
      assert TextOf(us[0]) + (Text(us[1..]) + Text(vs)) == TextOf(us[0]) + Text(us[1..]) + Text(vs);
    }
  }

  lemma TextMore(us: seq<Token>, t: Token)
    ensures Text(us + [t]) == Text(us) + TextOf(t)
  {
    TextConcat(us, [t]);
    assert [t][1..] == [] && TextOf(t) + "" == TextOf(t);
  }

  ghost predicate CutFrom(ts: seq<Token>, n: nat, p: nat) {
    exists k :: n <= k && CutAt(ts, k, p)
  }

  lemma CutNext(ts: seq<Token>, n: nat, p: nat)
    ensures CutFrom(ts, n, p) <==> CutAt(ts, n, p) || CutFrom(ts, n + 1, p)
  {
    hide CutAt;
    if CutFrom(ts, n, p) {
      var k :| n <= k && CutAt(ts, k, p);
      assert k == n || n + 1 <= k;
    }
    if CutFrom(ts, n + 1, p) {
      var k :| n + 1 <= k && CutAt(ts, k, p);
      assert n <= k && CutAt(ts, k, p);
    }
  }

  lemma CutAfter(us: seq<Token>, t: Token, more: seq<Token>, p: nat)
    ensures CutAt(us + [t] + more, |us|, p) <==> p == |Text(us)| && t == Char(';') && StateAfter(us) == START
  {
    assert (us + [t] + more)[..|us|] == us;
    hide Text;
  }

  // After the tokens `us` the line is cut exactly at the semicolons among the tokens left.
  lemma {:induction false} CutsAfter(us: seq<Token>, vs: seq<Token>, tail: Tail, line: string, p: nat, allowRegex: bool)
    requires line == Text(us) + (Text(vs) + TailText(tail)) && Fits(Text(us), vs, tail, allowRegex)
    ensures p in Cuts(line, |Text(us)|, StateAfter(us), allowRegex) <==> CutFrom(us + vs, |us|, p)
    decreases |vs|
  {
    hide TextOf, TailText, TokenOk, TailOk, After, StateAfter, Cuts;
    if vs == [] {
      assert line == Text(us) + TailText(tail);
      ScanAtEnd(us, tail, p, allowRegex);
      assert us + vs == us;
    } else {
      var t, more := vs[0], vs[1..];
      assert us + vs == us + [t] + more;
      TextMore(us, t);
      TextTail(vs, tail);
      assert line == Text(us) + TextOf(t) + (Text(more) + TailText(tail));
      CutsAfter(us + [t], more, tail, line, p, allowRegex);
      CutsMore(us, t, more, Text(more) + TailText(tail), p, allowRegex);
    }
  }

  lemma TextTail(vs: seq<Token>, tail: Tail)
    requires vs != []
    ensures Text(vs) + TailText(tail) == TextOf(vs[0]) + (Text(vs[1..]) + TailText(tail))
  {
    hide TextOf, TailText;
  }

  lemma CutsMore(us: seq<Token>, t: Token, more: seq<Token>, after: string, p: nat, allowRegex: bool)
    requires TokenOk(Text(us), t, after, allowRegex)
    requires var line := Text(us) + TextOf(t) + after;
             |Text(us + [t])| <= |line| &&
             (p in Cuts(line, |Text(us + [t])|, StateAfter(us + [t]), allowRegex)
              <==> CutFrom(us + [t] + more, |us| + 1, p))
    ensures var line := Text(us) + TextOf(t) + after;
            p in Cuts(line, |Text(us)|, StateAfter(us), allowRegex) <==> CutFrom(us + [t] + more, |us|, p)
  {
    var st := StateAfter(us);
    assert st.mode.Plain?;
    hide *;
    TextMore(us, t);
    StateMore(us, t);
    ScanToken(Text(us), t, after, st, p, allowRegex);
    CutNext(us + [t] + more, |us|, p);
    CutAfter(us, t, more, p);
  }

  lemma ScanAtEnd(us: seq<Token>, tail: Tail, p: nat, allowRegex: bool)
    requires TailOk(Text(us), tail, allowRegex)
    ensures p !in Cuts(Text(us) + TailText(tail), |Text(us)|, StateAfter(us), allowRegex)
    ensures !CutFrom(us, |us|, p)
  {
    ScanTail(Text(us), tail, StateAfter(us), allowRegex);
  }

  // A line is cut exactly at its semicolons that stand outside strings and regexes and
  // outside every bracket.
  lemma CutsExactly(line: string, ts: seq<Token>, tail: Tail, p: nat, allowRegex: bool)
    requires Spells(line, ts, tail, allowRegex)
    ensures p in Cuts(line, 0, START, allowRegex) <==> exists k :: CutAt(ts, k, p)
  {
    hide CutAt, Cuts, Fits;
    assert [] + ts == ts && line == "" + (Text(ts) + TailText(tail));
    CutsAfter([], ts, tail, line, p, allowRegex);
    if k :| CutAt(ts, k, p) { assert 0 <= k && CutAt(ts, k, p); }
  }

  // ----- every line has tokens -----

  lemma FirstQuotes(s: string) returns (k: nat)
    ensures k <= |s| && NoQuotes(s, k) && (k < |s| ==> QUOTES <= s[k..])
  {
    k := 0;
    while k < |s| && !(QUOTES <= s[k..])
      invariant k <= |s| && NoQuotes(s, k)
    {
      k := k + 1;
    }
  }

  lemma NoQuotesBefore(r: string, k: nat)
    requires k + 3 <= |r| && NoQuotes(r, k) && r[k..k + 3] == QUOTES
    ensures NoQuotes(r[..k] + QUOTES, k)
  {
    var u := r[..k] + QUOTES;
    assert u == r[..k + 3];
    forall i | 0 <= i < k ensures !(QUOTES <= u[i..]) {
      assert r[i..] == u[i..] + r[k + 3..];
    }
  }

  lemma BlockFirst(s: string, k: nat)
    requires QUOTES <= s && k < |s| - 3 && NoQuotes(s[3..], k) && QUOTES <= s[3..][k..]
    ensures k + 6 <= |s| && TextOf(Block(s[3..][..k])) == s[..k + 6]
    ensures NoQuotes(s[3..][..k] + QUOTES, k)
  {
    hide NoQuotes;
    var r := s[3..];
    assert r[k..][..3] == QUOTES && r[k..k + 3] == QUOTES && s[..3] == QUOTES;
    assert s[..k + 6] == s[..3] + r[..k] + r[k..k + 3];
    NoQuotesBefore(r, k);
  }

  // The first token of a text, or the tail it is.
  datatype Head = Token(token: Token, size: nat) | Tail(tail: Tail)

  ghost predicate HeadOk(before: string, s: string, h: Head, allowRegex: bool) {
    match h
    case Token(t, n) => 0 < n <= |s| && TextOf(t) == s[..n] && TokenOk(before, t, s[n..], allowRegex)
    case Tail(tail) => TailText(tail) == s && TailOk(before, tail, allowRegex)
  }

  lemma BlockHead(before: string, s: string, allowRegex: bool) returns (h: Head)
    requires QUOTES <= s
    ensures HeadOk(before, s, h, allowRegex)
  {
    assert s == QUOTES + s[3..];
    var k := FirstQuotes(s[3..]);
    assert s[3..][..|s[3..]|] == s[3..];
    if k < |s| - 3 {
      BlockFirst(s, k);
      h := Head.Token(Block(s[3..][..k]), k + 6);
    } else {
      h := Head.Tail(OpenBlock(s[3..]));
    }
  }

  // A literal that its mark opens.
  lemma MarkHead(mark: char, s: string) returns (k: nat)
    requires s != "" && s[0] == mark
    ensures k < |s| && NoneCloses(mark, s[1..k + 1], false) && s == [mark] + s[1..]
    ensures k + 1 < |s| ==> Closed(mark, s[1..k + 1]) && s[..k + 2] == [mark] + s[1..k + 1] + [mark]
    ensures k + 1 == |s| ==> s[1..k + 1] == s[1..]
  {
    k := FirstClose(mark, s[1..], false);
    assert s[1..][..k] == s[1..k + 1];
  }

  lemma FirstHead(before: string, s: string, allowRegex: bool) returns (h: Head)
    requires s != ""
    ensures HeadOk(before, s, h, allowRegex)
  {
    hide NoneCloses, RegexPlace;
    if QUOTES <= s {
      h := BlockHead(before, s, allowRegex);
    } else if s[0] == '"' {
      var k := MarkHead('"', s);
      h := if k + 1 < |s| then Head.Token(Str(s[1..k + 1]), k + 2) else Head.Tail(OpenStr(s[1..]));
      assert k == 0 && 2 < |s| ==> s[..3] == "\"\"" + [s[2]];
    } else if allowRegex && s[0] == '/' && RegexPlace(before) {
      var k := MarkHead('/', s);
      h := if k + 1 < |s| then Head.Token(Rx(s[1..k + 1]), k + 2) else Head.Tail(OpenRx(s[1..]));
    } else {
      h := Head.Token(Char(s[0]), 1);
    }
  }

  lemma TokenFits(before: string, s: string, t: Token, n: nat, ts: seq<Token>, tail: Tail, allowRegex: bool)
    requires HeadOk(before, s, Head.Token(t, n), allowRegex)
    requires s[n..] == Text(ts) + TailText(tail) && Fits(before + TextOf(t), ts, tail, allowRegex)
    ensures s == Text([t] + ts) + TailText(tail) && Fits(before, [t] + ts, tail, allowRegex)
  {
    hide TextOf, TokenOk, TailOk, TailText;
    assert ([t] + ts)[1..] == ts && s == s[..n] + s[n..];
    assert TextOf(t) + Text(ts) + TailText(tail) == TextOf(t) + (Text(ts) + TailText(tail));
  }

  lemma {:induction false} EveryText(before: string, s: string, allowRegex: bool)
    returns (ts: seq<Token>, tail: Tail)
    ensures s == Text(ts) + TailText(tail) && Fits(before, ts, tail, allowRegex)
    decreases |s|
  {
    if s == "" {
      ts, tail := [], Done;
    } else {
      var h := FirstHead(before, s, allowRegex);
      hide TextOf, TokenOk, TailOk, TailText;
      match h {
        case Tail(t) =>
          ts, tail := [], t;
          assert "" + TailText(tail) == s;
        case Token(t, n) =>
          ts, tail := EveryText(before + TextOf(t), s[n..], allowRegex);
          TokenFits(before, s, t, n, ts, tail, allowRegex);
          ts := [t] + ts;
      }
    }
  }

  // ----- the statements -----

  // The positions, ascending, of the semicolons where a line of length `n` is cut.
  ghost predicate CutPoints(ts: seq<Token>, n: nat, cuts: seq<nat>) {
    Ascending(cuts, 0, n) && forall p: nat :: p in cuts <==> exists k :: CutAt(ts, k, p)
  }

  lemma {:induction false} AscendingUnique(a: seq<nat>, b: seq<nat>, lo: nat, hi: nat)
    requires Ascending(a, lo, hi) && Ascending(b, lo, hi) && forall p: nat :: p in a <==> p in b
    ensures a == b
    decreases |a|
  {
    assert (a != [] ==> a[0] in a) && (b != [] ==> b[0] in b);
    if a != [] {
      assert a[0] == b[0];
      forall p: nat ensures p in a[1..] <==> p in b[1..] {
        assert p in a <==> p == a[0] || p in a[1..];
        assert p in b <==> p == b[0] || p in b[1..];
      }
      AscendingUnique(a[1..], b[1..], a[0] + 1, hi);
      assert a == [a[0]] + a[1..] && b == [b[0]] + b[1..];
    }
  }

  ghost predicate Splitting(line: string, allowRegex: bool, ms: seq<string>, ts: seq<Token>, tail: Tail,
                            cuts: seq<nat>) {
    Spells(line, ts, tail, allowRegex) && CutPoints(ts, |line|, cuts) && StrippedPieces(Between(line, 0, cuts), ms)
  }

  lemma CutsArePoints(line: string, ts: seq<Token>, tail: Tail, cuts: seq<nat>, allowRegex: bool)
    requires Spells(line, ts, tail, allowRegex)
    ensures CutPoints(ts, |line|, cuts) <==> cuts == Cuts(line, 0, START, allowRegex)
  {
    CutsAscend(line, 0, START, allowRegex);
    var own := Cuts(line, 0, START, allowRegex);
    hide Cuts, Spells, CutAt;
    forall p: nat ensures p in own <==> exists k :: CutAt(ts, k, p) {
      CutsExactly(line, ts, tail, p, allowRegex);
    }
    if CutPoints(ts, |line|, cuts) { AscendingUnique(cuts, own, 0, |line|); }
  }

  // The statements of a line are exactly its stretches between those semicolons, stripped of
  // white space, without the blank ones.
  lemma SplitExactly(line: string, allowRegex: bool, ms: seq<string>)
    ensures ms == SplitStatements(line, allowRegex) <==> exists ts, tail, cuts ::
              Splitting(line, allowRegex, ms, ts, tail, cuts)
  {
    hide Fits, CutPoints, StrippedPieces, Kept, Cuts, Between;
    RawIsBetween(line, 0, 0, START, allowRegex);
    var own := Cuts(line, 0, START, allowRegex);
    KeptExactly(Between(line, 0, own), ms);
    if ms == SplitStatements(line, allowRegex) {
      var ts, tail := EveryText("", line, allowRegex);
      CutsArePoints(line, ts, tail, own, allowRegex);
      assert Splitting(line, allowRegex, ms, ts, tail, own);
    }
    if ts, tail, cuts :| Splitting(line, allowRegex, ms, ts, tail, cuts) {
      CutsArePoints(line, ts, tail, cuts, allowRegex);
    }
  }
}
