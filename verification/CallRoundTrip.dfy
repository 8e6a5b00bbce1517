// Reprinting a parsed call gives a text that parses to the same call.
module CallRoundTrip {
  import opened JsText
  import opened CallRef

  // ----- walking a text from a scan state -----

  function Walk(st: Scan, s: string): Scan
    decreases |s|
  {
    if s == "" then st else Walk(Step(st, s[0]), s[1..])
  }

  // The depth stays positive after every character.
  predicate Stays(st: Scan, s: string)
    decreases |s|
  {
    s == "" || (Step(st, s[0]).depth >= 1 && Stays(Step(st, s[0]), s[1..]))
  }

  lemma {:induction false} WalkConcat(st: Scan, a: string, b: string)
    ensures Walk(st, a + b) == Walk(Walk(st, a), b)
    ensures Stays(st, a + b) <==> Stays(st, a) && Stays(Walk(st, a), b)
    decreases |a|
  {
    if a == "" {
      assert a + b == b;
    } else {
      WalkConcat(Step(st, a[0]), a[1..], b);
      assert (a + b)[1..] == a[1..] + b;
    }
  }

  lemma {:induction false} WalkSpace(st: Scan, s: string)
    requires st.quote.No? && AllSpace(s) && st.depth >= 1
    ensures Walk(st, s) == st && Stays(st, s)
    decreases |s|
  {
    if s != "" { WalkSpace(st, s[1..]); }
  }

  lemma {:induction false} CloseFound(s: string, st: Scan)
    requires st.depth >= 1 && FindClose(s, st).Some?
    ensures var k := FindClose(s, st).value;
            && 1 <= k <= |s| && s[k - 1] == ')'
            && Stays(st, s[..k - 1]) && Walk(st, s[..k - 1]) == OPENED
    decreases |s|
  {
    var k := FindClose(s, st).value;
    var next := Step(st, s[0]);
    if next.depth == 0 {
      assert k == 1 && s[..0] == "";
    } else {
      CloseFound(s[1..], next);
      assert s[1..][..k - 2] == s[..k - 1][1..];
      assert s[1..][k - 2] == s[k - 1];
    }
  }

  lemma {:induction false} CloseThere(w: string, rest: string, st: Scan)
    requires st.depth >= 1 && Stays(st, w) && Walk(st, w) == OPENED
    ensures FindClose(w + ")" + rest, st) == Some(|w| + 1)
    decreases |w|
  {
    var s := w + ")" + rest;
    if w == "" {
      assert s[0] == ')';
    } else {
      assert s[1..] == w[1..] + ")" + rest;
      CloseThere(w[1..], rest, Step(st, w[0]));
    }
  }

  // ----- segments -----

  function QuoteEnd(q: Quote, s: string): Quote
    decreases |s|
  {
    if s == "" then q else QuoteEnd(NextQuote(q, s[0]), s[1..])
  }

  // No comma stands outside quotes.
  predicate OneSegment(q: Quote, s: string)
    decreases |s|
  {
    s == "" || (!(q.No? && s[0] == ',') && OneSegment(NextQuote(q, s[0]), s[1..]))
  }

  predicate Whole(s: string) {
    OneSegment(No, s) && QuoteEnd(No, s) == No
  }

  lemma {:induction false} WalkQuote(st: Scan, s: string)
    ensures Walk(st, s).quote == QuoteEnd(st.quote, s)
    decreases |s|
  {
    if s != "" { WalkQuote(Step(st, s[0]), s[1..]); }
  }

  lemma {:induction false} SegmentConcat(q: Quote, a: string, b: string)
    ensures QuoteEnd(q, a + b) == QuoteEnd(QuoteEnd(q, a), b)
    ensures OneSegment(q, a + b) <==> OneSegment(q, a) && OneSegment(QuoteEnd(q, a), b)
    decreases |a|
  {
    if a == "" {
      assert a + b == b;
    } else {
      SegmentConcat(NextQuote(q, a[0]), a[1..], b);
      assert (a + b)[1..] == a[1..] + b;
    }
  }

  lemma {:induction false} SpaceQuote(q: Quote, s: string)
    requires AllSpace(s) && (q.In? ==> q.mark == '"' || q.mark == '\'')
    ensures q.No? <==> QuoteEnd(q, s).No?
    ensures q.No? ==> OneSegment(q, s)
    decreases |s|
  {
    if s != "" { SpaceQuote(NextQuote(q, s[0]), s[1..]); }
  }

  lemma {:induction false} QuoteMarks(q: Quote, s: string)
    requires q.In? ==> q.mark == '"' || q.mark == '\''
    ensures var e := QuoteEnd(q, s); e.In? ==> e.mark == '"' || e.mark == '\''
    decreases |s|
  {
    if s != "" { QuoteMarks(NextQuote(q, s[0]), s[1..]); }
  }

  lemma WholeTrim(s: string)
    requires Whole(s)
    ensures Whole(Trim(s))
  {
    hide IsSpace;
    hide Trim;
    var a, b := Trimmed(s);
    var m := Trim(s);
    SegmentConcat(No, a + m, b);
    SegmentConcat(No, a, m);
    SpaceQuote(No, a);
    QuoteMarks(No, m);
    SpaceQuote(QuoteEnd(No, m), b);
  }

  // The segments of `s` cut from state `q`: only the last may end inside quotes.
  predicate Cuts(s: string, q: Quote, r: seq<string>)
    requires r != []
  {
    && JoinWith(r, ",") == s && OneSegment(q, r[0])
    && QuoteEnd(q, s) == QuoteEnd(if |r| == 1 then q else No, r[|r| - 1])
    && (|r| > 1 ==> QuoteEnd(q, r[0]) == No)
    && (forall i | 1 <= i < |r| :: OneSegment(No, r[i]) && (i < |r| - 1 ==> QuoteEnd(No, r[i]) == No))
  }

  lemma CutsComma(s: string, rest: seq<string>)
    requires s != "" && s[0] == ',' && rest != [] && Cuts(s[1..], No, rest)
    ensures Cuts(s, No, [""] + rest)
  {
    var r := [""] + rest;
    assert r[1..] == rest && "" + "," + s[1..] == s;
    forall i | 1 <= i < |r| ensures OneSegment(No, r[i]) && (i < |r| - 1 ==> QuoteEnd(No, r[i]) == No) {
      assert r[i] == rest[i - 1];
    }
  }

  lemma CutsChar(s: string, q: Quote, rest: seq<string>)
    requires s != "" && !(q.No? && s[0] == ',') && rest != [] && Cuts(s[1..], NextQuote(q, s[0]), rest)
    ensures Cuts(s, q, [[s[0]] + rest[0]] + rest[1..])
  {
    var head := [s[0]] + rest[0];
    var r := [head] + rest[1..];
    assert head[1..] == rest[0] && r[1..] == rest[1..];
    JoinPushed(s, rest);
    hide JoinWith;
    assert |rest| > 1 ==> r[|r| - 1] == rest[|rest| - 1];
    forall i | 1 <= i < |r| ensures OneSegment(No, r[i]) && (i < |r| - 1 ==> QuoteEnd(No, r[i]) == No) {
      assert r[i] == rest[i];
    }
  }

  lemma JoinPushed(s: string, rest: seq<string>)
    requires s != "" && rest != [] && JoinWith(rest, ",") == s[1..]
    ensures JoinWith([[s[0]] + rest[0]] + rest[1..], ",") == s
  {
    var head := [s[0]] + rest[0];
    assert ([head] + rest[1..])[1..] == rest[1..];
    assert [s[0]] + s[1..] == s;
    if |rest| > 1 {
      var tail := "," + JoinWith(rest[1..], ",");
      assert JoinWith(rest, ",") == rest[0] + tail && JoinWith([head] + rest[1..], ",") == head + tail;
      assert head + tail == [s[0]] + (rest[0] + tail);
    }
  }

  lemma {:induction false} SegmentFacts(s: string, q: Quote)
    ensures Cuts(s, q, Segments(s, q))
    decreases |s|
  {
    hide Cuts;
    if s == "" {
      EmptyCuts(q);
    } else if q.No? && s[0] == ',' {
      SegmentFacts(s[1..], No);
      CutsComma(s, Segments(s[1..], No));
    } else {
      SegmentFacts(s[1..], NextQuote(q, s[0]));
      CutsChar(s, q, Segments(s[1..], NextQuote(q, s[0])));
    }
  }

  lemma EmptyCuts(q: Quote)
    ensures Cuts("", q, [""])
  {
  }

  predicate AllWhole(ss: seq<string>) {
    forall x | x in ss :: Whole(x)
  }

  lemma SegmentsWhole(s: string)
    requires QuoteEnd(No, s) == No
    ensures AllWhole(Segments(s, No)) && JoinWith(Segments(s, No), ",") == s
  {
    hide Segments, JoinWith;
    SegmentFacts(s, No);
  }

  // ----- the reprinted arguments -----

  lemma TrimWalk(st: Scan, s: string)
    requires st.quote.No? && st.depth >= 1 && QuoteEnd(No, s) == No && Stays(st, s)
    ensures Walk(st, Trim(s)) == Walk(st, s) && Stays(st, Trim(s)) && QuoteEnd(No, Trim(s)) == No
  {
    hide IsSpace;
    hide Trim;
    var a, b := Trimmed(s);
    var m := Trim(s);
    WalkConcat(st, a + m, b);
    WalkConcat(st, a, m);
    WalkSpace(st, a);
    SegmentConcat(No, a + m, b);
    SegmentConcat(No, a, m);
    SpaceQuote(No, a);
    QuoteMarks(No, m);
    SpaceQuote(QuoteEnd(No, m), b);
    WalkQuote(st, m);
    StaysDepth(st, m);
    WalkSpace(Walk(st, m), b);
  }

  lemma {:induction false} StaysDepth(st: Scan, s: string)
    requires st.depth >= 1 && Stays(st, s)
    ensures Walk(st, s).depth >= 1
    decreases |s|
  {
    if s != "" { StaysDepth(Step(st, s[0]), s[1..]); }
  }

  // The kept segments walk like the text they were cut from: dropping commas, empty
  // segments and the white space around segments changes neither depth nor quotes.
  lemma {:induction false} KeptWalk(segments: seq<string>, st: Scan)
    requires AllWhole(segments) && st.quote.No? && st.depth >= 1 && Stays(st, JoinWith(segments, ","))
    ensures Walk(st, JoinWith(Kept(segments), ", ")) == Walk(st, JoinWith(segments, ","))
    ensures Stays(st, JoinWith(Kept(segments), ", "))
    decreases |segments|
  {
    if segments != [] {
      var x, rest := segments[0], segments[1..];
      var tail := if rest == [] then "" else "," + JoinWith(rest, ",");
      assert x in segments && JoinWith(segments, ",") == x + tail;
      WalkConcat(st, x, tail);
      TrimWalk(st, x);
      var mid := Walk(st, x);
      WalkQuote(st, x);
      StaysDepth(st, x);
      var sep := Step(mid, ',');
      assert sep == mid;
      if rest != [] { assert tail[1..] == JoinWith(rest, ","); }
      KeptWalk(rest, mid);
      KeptJoin(x, rest);
      var kept, kx := JoinWith(Kept(rest), ", "), Trim(x);
      if kx != "" && Kept(rest) != [] {
        WalkConcat(st, kx, ", " + kept);
        WalkConcat(mid, ", ", kept);
        SeparatorWalk(mid);
      }
    }
  }

  lemma SeparatorWalk(st: Scan)
    requires st.quote.No? && st.depth >= 1
    ensures Walk(st, ", ") == st && Stays(st, ", ")
  {
    assert ", "[1..] == " " && " "[1..] == "";
    assert Step(st, ',') == st && Step(st, ' ') == st;
    assert Walk(st, " ") == st && Stays(st, " ");
  }

  lemma KeptJoin(x: string, rest: seq<string>)
    ensures var k := JoinWith(Kept([x] + rest), ", ");
            k == if Trim(x) == "" then JoinWith(Kept(rest), ", ")
                 else if Kept(rest) == [] then Trim(x)
                 else Trim(x) + (", " + JoinWith(Kept(rest), ", "))
    ensures ([x] + rest)[1..] == rest
  {
    var ks := Kept(rest);
    assert Kept([x] + rest) == (if Trim(x) == "" then [] else [Trim(x)]) + ks;
    assert ([Trim(x)] + ks)[1..] == ks && [] + ks == ks;
    assert ks != [] ==> JoinWith([Trim(x)] + ks, ", ") == Trim(x) + ", " + JoinWith(ks, ", ");
  }

  // ----- cutting the reprinted arguments again -----

  predicate Argument(x: string) {
    x != "" && Tight(x) && Whole(x)
  }

  lemma {:induction false} CutOne(x: string, q: Quote, y: string)
    requires OneSegment(q, x) && QuoteEnd(q, x) == No
    ensures Segments(x + "," + y, q) == [x] + Segments(y, No)
    decreases |x|
  {
    var s := x + "," + y;
    if x == "" {
      assert s[0] == ',' && s[1..] == y;
    } else {
      assert s[0] == x[0] && s[1..] == x[1..] + "," + y;
      CutOne(x[1..], NextQuote(q, x[0]), y);
      var rest := [x[1..]] + Segments(y, No);
      assert rest[1..] == Segments(y, No) && [x[0]] + rest[0] == x;
    }
  }

  lemma {:induction false} CutNone(x: string, q: Quote)
    requires OneSegment(q, x)
    ensures Segments(x, q) == [x]
    decreases |x|
  {
    if x != "" {
      CutNone(x[1..], NextQuote(q, x[0]));
      assert [x[0]] + x[1..] == x;
    }
  }

  lemma KeptAfterSpace(y: string)
    ensures Kept(Segments(" " + y, No)) == Kept(Segments(y, No))
  {
    var r := Segments(y, No);
    assert (" " + y)[1..] == y;
    assert Segments(" " + y, No) == [" " + r[0]] + r[1..];
    TrimAfterSpace(r[0]);
    hide Trim;
    hide Segments;
    assert ([" " + r[0]] + r[1..])[1..] == r[1..];
  }

  lemma TrimAfterSpace(x: string)
    ensures Trim(" " + x) == Trim(x)
  {
    var a, b := Trimmed(x);
    assert AllSpace(" " + a);
    hide IsSpace;
    TrimOf(" " + a, Trim(x), b);
    assert " " + x == (" " + a) + Trim(x) + b;
  }

  lemma {:induction false} KeptOfJoin(ks: seq<string>)
    requires forall x | x in ks :: Argument(x)
    ensures Kept(Segments(JoinWith(ks, ", "), No)) == ks
    decreases |ks|
  {
    hide Segments, Kept, Argument;
    if ks == [] {
      KeptNothing();
    } else {
      var x, rest := ks[0], ks[1..];
      assert x in ks;
      if rest == [] {
        KeptAlone(x);
      } else {
        var y := JoinWith(rest, ", ");
        KeptOfJoin(rest);
        assert JoinWith(ks, ", ") == x + "," + (" " + y);
        KeptFirst(x, " " + y);
        KeptAfterSpace(y);
      }
    }
  }

  lemma KeptNothing()
    ensures Kept(Segments("", No)) == []
  {
    TrimBlank("");
  }

  lemma KeptAlone(x: string)
    requires Argument(x)
    ensures Kept(Segments(x, No)) == [x]
  {
    TrimTight(x);
    CutNone(x, No);
    assert [x][1..] == [] && Kept([]) == [];
  }

  lemma KeptFirst(x: string, y: string)
    requires Argument(x)
    ensures Kept(Segments(x + "," + y, No)) == [x] + Kept(Segments(y, No))
  {
    TrimTight(x);
    CutOne(x, No, y);
    var r := Segments(y, No);
    hide Segments;
    assert ([x] + r)[1..] == r;
  }

  lemma {:induction false} KeptArguments(segments: seq<string>)
    requires AllWhole(segments)
    ensures forall x | x in Kept(segments) :: Argument(x)
    decreases |segments|
  {
    if segments != [] {
      assert segments[0] in segments;
      WholeTrim(segments[0]);
      var a, b := Trimmed(segments[0]);
      KeptArguments(segments[1..]);
    }
  }

  lemma {:induction false} JoinTight(ks: seq<string>)
    requires ks != [] && forall x | x in ks :: Argument(x)
    ensures var j := JoinWith(ks, ", "); j != "" && !IsSpace(j[0]) && !IsSpace(j[|j| - 1])
    decreases |ks|
  {
    hide IsSpace;
    assert ks[0] in ks;
    if |ks| > 1 {
      JoinTight(ks[1..]);
      var tail := JoinWith(ks[1..], ", ");
      var j := JoinWith(ks, ", ");
      assert j == ks[0] + ", " + tail;
      assert j[|j| - 1] == tail[|tail| - 1];
    }
  }

  lemma PrintedKept(kept: seq<string>)
    ensures FormatArgs(ClassifyAll(kept)) == JoinWith(kept, ", ")
  {
    assert PrintedAll(ClassifyAll(kept)) == kept;
  }

  // ----- the reference -----

  lemma {:induction false} RunEndStable(t: string, u: string, i: nat)
    requires i <= |t| && RunEnd(t, i) < |u| && RunEnd(t, i) <= |t|
    requires t[..RunEnd(t, i)] == u[..RunEnd(t, i)] && !IdentChar(u[RunEnd(t, i)])
    ensures RunEnd(u, i) == RunEnd(t, i)
    decreases |t| - i
  {
    var e := RunEnd(t, i);
    if i < |t| && IdentChar(t[i]) {
      assert t[i] == t[..e][i] == u[..e][i] == u[i];
      RunEndStable(t, u, i + 1);
    }
  }

  lemma IdentEndStable(t: string, u: string, i: nat)
    requires IdentEnd(t, i).Some? && IdentEnd(t, i).value < |u|
    requires t[..IdentEnd(t, i).value] == u[..IdentEnd(t, i).value] && !IdentChar(u[IdentEnd(t, i).value])
    ensures IdentEnd(u, i) == IdentEnd(t, i)
  {
    var e := RunEnd(t, i);
    assert e > i;
    assert t[i] == t[..e][i] == u[..e][i] == u[i];
    RunEndStable(t, u, i);
  }

  // Matching looks no further than the opening parenthesis.
  lemma MatchRefStable(t: string, u: string)
    requires MatchRef(t).Some? && MatchRef(t).value < |u|
    requires t[..MatchRef(t).value] == u[..MatchRef(t).value] && u[MatchRef(t).value] == '('
    ensures MatchRef(u) == MatchRef(t)
  {
    var n := MatchRef(t).value;
    var a := IdentEnd(t, 0).value;
    assert a <= n;
    assert t[..a] == t[..n][..a] == u[..a];
    if a < n {
      assert t[a] == t[..n][a] == u[a];
      IdentEndStable(t, u, 0);
      IdentEndStable(t, u, a + 1);
    } else {
      IdentEndStable(t, u, 0);
    }
  }

  // ----- the theorem -----

  // The arguments of a parsed call, reprinted, close where they should and cut the same.
  lemma ReprintedArgs(raw: string)
    requires Stays(OPENED, raw) && Walk(OPENED, raw) == OPENED
    ensures var printed := FormatArgs(ArgList(Trim(raw)));
            && Stays(OPENED, printed) && Walk(OPENED, printed) == OPENED
            && ArgList(Trim(printed)) == ArgList(Trim(raw))
  {
    WalkQuote(OPENED, raw);
    TrimWalk(OPENED, raw);
    var content := Trim(raw);
    var segments := Segments(content, No);
    SegmentsWhole(content);
    KeptWalk(segments, OPENED);
    var kept := Kept(segments);
    PrintedKept(kept);
    KeptArguments(segments);
    KeptOfJoin(kept);
    var printed := JoinWith(kept, ", ");
    if kept != [] { JoinTight(kept); }
    TrimTight(printed);
  }

  lemma ReprintStable(s: string)
    requires ParseCall(s).Some?
    ensures var c := ParseCall(s).value; ParseCall(EmitRef(c.ref, c.args) + c.rest) == Some(c)
  {
    var c, t := ParseCall(s).value, TrimStart(s);
    var n := MatchRef(t).value;
    var inner := t[n + 1..];
    var k := FindClose(inner, OPENED).value;
    CloseFound(inner, OPENED);
    ReprintedArgs(inner[..k - 1]);
    var printed := FormatArgs(c.args);
    var u := EmitRef(c.ref, c.args) + c.rest;
    ReparseFrom(t, n, c, printed, u);
  }

  lemma Layout(ref: string, printed: string, rest: string)
    ensures var u, n := ref + "(" + printed + ")" + rest, |ref|;
            && n < |u| && u[..n] == ref && u[n] == '(' && u[n + 1..] == printed + ")" + rest
            && u[n + 1..][..|printed|] == printed && u[n + 1..][|printed| + 1..] == rest
  {
    assert ref + "(" + printed + ")" + rest == ref + ("(" + (printed + ")" + rest));
  }

  lemma ReparseFrom(t: string, n: nat, c: Call, printed: string, u: string)
    requires MatchRef(t) == Some(n) && c.ref == t[..n] && u == c.ref + "(" + printed + ")" + c.rest
    requires Stays(OPENED, printed) && Walk(OPENED, printed) == OPENED && ArgList(Trim(printed)) == c.args
    ensures ParseCall(u) == Some(c)
  {
    Layout(c.ref, printed, c.rest);
    hide ArgList;
    hide Trim;
    MatchRefStable(t, u);
    assert u[0] == u[..n][0] == t[0];
    StartsTight(u);
    hide IsSpace;
    hide MatchRef;
    CloseThere(printed, c.rest, OPENED);
    hide FindClose;
  }

  lemma StartsTight(u: string)
    requires u != "" && IdentStart(u[0])
    ensures TrimStart(u) == u
  {
  }
}
