// The canonical form of a split line.
module SplitTheorems {
  import opened JsText
  import opened StatementSplit

  // ----- where a line is cut -----

  // The lexical state in which the scan reaches `i`, if it stops there at all.
  function StateAt(line: string, from: nat, st: Lex, i: nat, allowRegex: bool): (r: (bool, Lex))
    requires from <= |line| && i <= |line|
    decreases |line| - from
  {
    if from >= i then (from == i, st)
    else if IsCut(line, from, st) then StateAt(line, from + 1, START, i, allowRegex)
    else
      var (next, j) := Advance(line, from, st, allowRegex);
      StateAt(line, j, next, i, allowRegex)
  }

  // Positions of the cuts made from `i` on.
  function Cuts(line: string, i: nat, st: Lex, allowRegex: bool): seq<nat>
    requires i <= |line|
    decreases |line| - i
  {
    if i == |line| then []
    else if IsCut(line, i, st) then [i] + Cuts(line, i + 1, START, allowRegex)
    else
      var (next, j) := Advance(line, i, st, allowRegex);
      Cuts(line, j, next, allowRegex)
  }

  predicate Ascending(cuts: seq<nat>, lo: nat, hi: nat) {
    && (forall k | 0 <= k < |cuts| :: lo <= cuts[k] < hi)
    && (forall k, l | 0 <= k < l < |cuts| :: cuts[k] < cuts[l])
  }

  // The parts of `line[start..]` between the given positions.
  function Between(line: string, start: nat, cuts: seq<nat>): seq<string>
    requires start <= |line| && Ascending(cuts, start, |line|)
    decreases |cuts|
  {
    if cuts == [] then [line[start..]]
    else [line[start..cuts[0]]] + Between(line, cuts[0] + 1, cuts[1..])
  }

  lemma {:induction false} CutsAscend(line: string, i: nat, st: Lex, allowRegex: bool)
    requires i <= |line|
    ensures Ascending(Cuts(line, i, st, allowRegex), i, |line|)
    decreases |line| - i
  {
    hide Advance;
    if i < |line| {
      if IsCut(line, i, st) {
        CutsAscend(line, i + 1, START, allowRegex);
        AscendingCons(i, Cuts(line, i + 1, START, allowRegex), |line|);
      } else {
        var (next, j) := Advance(line, i, st, allowRegex);
        CutsAscend(line, j, next, allowRegex);
      }
    }
  }

  lemma AscendingCons(c: nat, cuts: seq<nat>, hi: nat)
    requires c < hi && Ascending(cuts, c + 1, hi)
    ensures Ascending([c] + cuts, c, hi)
  {
    assert forall k | 1 <= k <= |cuts| :: ([c] + cuts)[k] == cuts[k - 1];
  }

  lemma {:induction false} RawIsBetween(line: string, start: nat, i: nat, st: Lex, allowRegex: bool)
    requires start <= i <= |line|
    ensures Ascending(Cuts(line, i, st, allowRegex), start, |line|)
    ensures Raw(line, start, i, st, allowRegex) == Between(line, start, Cuts(line, i, st, allowRegex))
    decreases |line| - i
  {
    hide Advance;
    CutsAscend(line, i, st, allowRegex);
    if i < |line| {
      if IsCut(line, i, st) {
        RawIsBetween(line, i + 1, i + 1, START, allowRegex);
        var c := Cuts(line, i, st, allowRegex);
        assert c[1..] == Cuts(line, i + 1, START, allowRegex);
      } else {
        var (next, j) := Advance(line, i, st, allowRegex);
        RawIsBetween(line, start, j, next, allowRegex);
      }
    }
  }

  // The line is cut exactly at the semicolons the scan reaches at zero depth, outside
  // strings and regexes.
  lemma {:induction false} CutExactly(line: string, i: nat, st: Lex, p: nat, allowRegex: bool)
    requires i <= p < |line|
    ensures p in Cuts(line, i, st, allowRegex) <==>
            line[p] == ';' && StateAt(line, i, st, p, allowRegex) == (true, START)
    decreases |line| - i
  {
    hide Advance;
    if IsCut(line, i, st) {
      CutsAscend(line, i + 1, START, allowRegex);
      if p > i { CutExactly(line, i + 1, START, p, allowRegex); }
    } else {
      var (next, j) := Advance(line, i, st, allowRegex);
      CutsAscend(line, j, next, allowRegex);
      if p >= j { CutExactly(line, j, next, p, allowRegex); }
    }
  }

  // ----- joining the untrimmed pieces -----

  lemma {:induction false} RawJoin(line: string, start: nat, i: nat, st: Lex, allowRegex: bool)
    requires start <= i <= |line|
    ensures JoinStatements(Raw(line, start, i, st, allowRegex)) == line[start..]
    decreases |line| - i
  {
    hide Advance;
    if i < |line| {
      if IsCut(line, i, st) {
        var rest := Raw(line, i + 1, i + 1, START, allowRegex);
        RawJoin(line, i + 1, i + 1, START, allowRegex);
        assert ([line[start..i]] + rest)[1..] == rest;
        assert line[start..] == line[start..i] + ";" + line[i + 1..];
      } else {
        var (next, j) := Advance(line, i, st, allowRegex);
        RawJoin(line, start, j, next, allowRegex);
      }
    }
  }

  // ----- a piece scans the same wherever it stands -----

  // Text after which the scan starts afresh: nothing but white space, or a semicolon before it.
  predicate FreshAfter(before: string) {
    TrimEnd(before) == "" || EndsWith(TrimEnd(before), ";")
  }

  predicate NoQuoteFirst(after: string) {
    after == "" || after[0] != '"'
  }

  // Scanning the whole of `w` from `j` makes no cut; the state it ends in.
  function End(w: string, j: nat, st: Lex, allowRegex: bool): (r: (bool, Lex))
    requires j <= |w|
    decreases |w| - j
  {
    if j == |w| then (true, st)
    else if IsCut(w, j, st) then (false, st)
    else
      var (next, k) := Advance(w, j, st, allowRegex);
      End(w, k, next, allowRegex)
  }

  lemma {:induction false} TrimEndConcat(a: string, b: string)
    ensures TrimEnd(a + b) == if AllSpace(b) then TrimEnd(a) else a + TrimEnd(b)
    decreases |b|
  {
    if b == "" {
      assert a + b == a;
    } else {
      var n := |b| - 1;
      assert (a + b)[..|a + b| - 1] == a + b[..n];
      if IsSpace(b[n]) {
        TrimEndConcat(a, b[..n]);
        assert AllSpace(b) <==> AllSpace(b[..n]) by { assert b == b[..n] + [b[n]]; }
      }
    }
  }

  lemma {:induction false} TrimEndBlank(b: string)
    ensures TrimEnd(b) == "" <==> AllSpace(b)
    decreases |b|
  {
    if b != "" && IsSpace(b[|b| - 1]) {
      TrimEndBlank(b[..|b| - 1]);
      assert b == b[..|b| - 1] + [b[|b| - 1]];
    }
  }

  lemma EndsWithConcat(a: string, m: string, t: string)
    requires m != "" && 1 <= |t| <= 2
    requires |t| == 2 && |m| == 1 && a != "" ==> a[|a| - 1] != t[0]
    ensures EndsWith(a + m, t) <==> EndsWith(m, t)
  {
    var s := a + m;
    assert s[|s| - 1] == m[|m| - 1];
    if |m| >= 2 {
      assert s[|s| - 2..] == m[|m| - 2..];
      assert s[|s| - 1..] == m[|m| - 1..];
    } else {
      assert s[|s| - 1..] == m;
      if |t| == 2 && |s| >= 2 { assert s[|s| - 2..][0] == a[|a| - 1]; }
    }
  }

  // Whether a regex may start depends only on the text since the last fresh start.
  lemma RegexStartLocal(before: string, w: string, j: nat)
    requires FreshAfter(before) && j <= |w|
    ensures CouldStartRegex(before + w, |before| + j) <==> CouldStartRegex(w, j)
  {
    hide IsSpace;
    var b := w[..j];
    assert (before + w)[..|before| + j] == before + b;
    TrimEndConcat(before, b);
    TrimEndBlank(b);
    if !AllSpace(b) {
      if before != "" { LastOfFresh(before); }
      EndsWithConcat(before, TrimEnd(b), ";");
      EndsWithConcat(before, TrimEnd(b), "=>");
    }
  }

  lemma LastOfFresh(before: string)
    requires FreshAfter(before) && before != ""
    ensures before[|before| - 1] != '='
  {
    var l := before[|before| - 1];
    if !IsSpace(l) { assert before[|before| - 1..][0] == l; }
  }

  lemma AdvanceLocal(before: string, w: string, after: string, j: nat, st: Lex, allowRegex: bool)
    requires FreshAfter(before) && NoQuoteFirst(after) && j < |w|
    requires j == 0 ==> st.mode.Plain?
    ensures var line := before + w + after;
            && IsCut(line, |before| + j, st) == IsCut(w, j, st)
            && Advance(line, |before| + j, st, allowRegex)
               == (Advance(w, j, st, allowRegex).0, |before| + Advance(w, j, st, allowRegex).1)
  {
    hide CouldStartRegex;
    var line, i := before + w + after, |before| + j;
    assert line == before + (w + after);
    assert forall k | 0 <= k < |w| :: line[|before| + k] == w[k];
    assert after != "" ==> line[|before| + |w|] == after[0];
    assert QuotesAt(line, i) == QuotesAt(w, j);
    assert j > 0 ==> AfterSlash(line, i) == AfterSlash(w, j);
    RegexPrefix(before + w, after, i);
    RegexStartLocal(before, w, j);
  }

  lemma RegexPrefix(s: string, after: string, i: nat)
    requires i <= |s|
    ensures CouldStartRegex(s + after, i) <==> CouldStartRegex(s, i)
  {
    assert (s + after)[..i] == s[..i];
  }

  predicate Settled(j: nat, st: Lex) {
    j == 0 ==> st.mode.Plain?
  }

  // A piece that makes no cut of its own makes none inside a longer line.
  lemma {:induction false} ScanPiece(before: string, w: string, after: string, j: nat, st: Lex, allowRegex: bool)
    requires FreshAfter(before) && NoQuoteFirst(after) && j <= |w| && Settled(j, st)
    requires End(w, j, st, allowRegex).0
    ensures Raw(before + w + after, |before|, |before| + j, st, allowRegex)
            == Raw(before + w + after, |before|, |before| + |w|, End(w, j, st, allowRegex).1, allowRegex)
    decreases |w| - j
  {
    hide Advance;
    hide FreshAfter;
    if j < |w| {
      AdvanceLocal(before, w, after, j, st, allowRegex);
      var (next, k) := Advance(w, j, st, allowRegex);
      ScanPiece(before, w, after, k, next, allowRegex);
    }
  }

  // ----- the raw pieces, taken alone -----

  // All but the last end where they began, at zero depth in plain text.
  predicate Sound(ps: seq<string>, allowRegex: bool) {
    && (forall k | 0 <= k < |ps| :: End(ps[k], 0, START, allowRegex).0)
    && (forall k | 0 <= k < |ps| - 1 :: End(ps[k], 0, START, allowRegex).1 == START)
  }

  lemma CutPiece(line: string, start: nat, i: nat, st: Lex, allowRegex: bool)
    requires start <= i < |line| && IsCut(line, i, st)
    ensures var r := Raw(line, start, i, st, allowRegex);
            r == [line[start..i]] + Raw(line, i + 1, i + 1, START, allowRegex) &&
            r[1..] == Raw(line, i + 1, i + 1, START, allowRegex)
    ensures End(line[start..i], i - start, st, allowRegex) == (true, START)
  {
    hide Advance;
  }

  lemma {:induction false} RawSound(line: string, start: nat, i: nat, st: Lex, allowRegex: bool)
    requires start <= i <= |line| && FreshAfter(line[..start]) && Settled(i - start, st)
    ensures var r := Raw(line, start, i, st, allowRegex);
            && i - start <= |r[0]|
            && End(r[0], i - start, st, allowRegex).0
            && (|r| > 1 ==> End(r[0], i - start, st, allowRegex).1 == START)
            && Sound(r[1..], allowRegex)
    decreases |line| - i
  {
    hide Advance;
    hide FreshAfter;
    hide QuotesAt;
    var r := Raw(line, start, i, st, allowRegex);
    if i < |line| {
      if IsCut(line, i, st) {
        FreshAfterCut(line, i);
        RawSound(line, i + 1, i + 1, START, allowRegex);
        hide Sound, End;
        CutPiece(line, start, i, st, allowRegex);
        SoundCons(Raw(line, i + 1, i + 1, START, allowRegex), allowRegex);
      } else {
        var (next, j) := Advance(line, i, st, allowRegex);
        RawSound(line, start, j, next, allowRegex);
        hide Sound;
        FirstPiece(line, start, i, st, allowRegex);
        ThreeParts(line, start, |r[0]|);
        InPiece(line, line[..start], r[0], line[start + |r[0]|..], i - start, st, allowRegex);
      }
    }
  }

  lemma AdvanceAt(line: string, before: string, w: string, after: string, j: nat, st: Lex, allowRegex: bool)
    requires line == before + w + after && FreshAfter(before) && NoQuoteFirst(after) && j < |w| && Settled(j, st)
    ensures |before| + j < |line| && IsCut(line, |before| + j, st) == IsCut(w, j, st)
    ensures Advance(line, |before| + j, st, allowRegex).0 == Advance(w, j, st, allowRegex).0
    ensures Advance(line, |before| + j, st, allowRegex).1 == |before| + Advance(w, j, st, allowRegex).1
  {
    hide Advance;
    hide FreshAfter;
    AdvanceLocal(before, w, after, j, st, allowRegex);
  }

  lemma ThreeParts(line: string, start: nat, n: nat)
    requires start + n <= |line|
    ensures line == line[..start] + line[start..start + n] + line[start + n..]
  {
  }

  // One step inside a piece is the same step of the piece alone.
  lemma InPiece(line: string, before: string, p: string, after: string, j: nat, st: Lex, allowRegex: bool)
    requires line == before + p + after && FreshAfter(before) && NoQuoteFirst(after) && j < |p| && Settled(j, st)
    requires !IsCut(line, |before| + j, st)
    ensures var (next, k) := Advance(line, |before| + j, st, allowRegex);
            |before| <= k && k - |before| <= |p| && End(p, j, st, allowRegex) == End(p, k - |before|, next, allowRegex)
  {
    AdvanceAt(line, before, p, after, j, st, allowRegex);
    hide Advance;
    hide FreshAfter;
    hide NoQuoteFirst;
  }

  lemma SoundCons(r: seq<string>, allowRegex: bool)
    requires r != [] && End(r[0], 0, START, allowRegex).0 && (|r| > 1 ==> End(r[0], 0, START, allowRegex).1 == START)
    requires Sound(r[1..], allowRegex)
    ensures Sound(r, allowRegex)
  {
    assert forall k | 1 <= k < |r| :: r[k] == r[1..][k - 1];
  }

  lemma FreshAfterCut(line: string, i: nat)
    requires i < |line| && line[i] == ';'
    ensures FreshAfter(line[..i + 1])
  {
    var b := line[..i + 1];
    assert b[|b| - 1] == ';' && b[|b| - 1..] == ";";
  }

  lemma {:induction false} FirstPiece(line: string, start: nat, i: nat, st: Lex, allowRegex: bool)
    requires start <= i <= |line|
    ensures var p := Raw(line, start, i, st, allowRegex)[0];
            && i <= start + |p| <= |line| && p == line[start..start + |p|]
            && NoQuoteFirst(line[start + |p|..])
            && (i < |line| && !IsCut(line, i, st) ==> i < start + |p|)
    decreases |line| - i
  {
    hide Advance;
    if i < |line| {
      if !IsCut(line, i, st) {
        var (next, j) := Advance(line, i, st, allowRegex);
        FirstPiece(line, start, j, next, allowRegex);
      }
    }
  }

  // ----- trimming a piece -----

  lemma {:induction false} SpaceKeepsState(w: string, j: nat, st: Lex, allowRegex: bool)
    requires j <= |w| && AllSpace(w[j..])
    ensures End(w, j, st, allowRegex) == (true, st)
    decreases |w| - j
  {
    if j < |w| {
      assert IsSpace(w[j..][0]) && w[j..][0] == w[j];
      assert w[j + 1..] == w[j..][1..];
      SpaceKeepsState(w, j + 1, st, allowRegex);
    }
  }

  // Where scanning `before + w + after` stands after `w`.
  lemma {:induction false} EndThrough(before: string, w: string, after: string, j: nat, st: Lex, allowRegex: bool)
    requires FreshAfter(before) && NoQuoteFirst(after) && j <= |w| && Settled(j, st)
    requires End(before + w + after, |before| + j, st, allowRegex).0
    ensures End(w, j, st, allowRegex).0
    ensures End(before + w + after, |before| + j, st, allowRegex)
            == End(before + w + after, |before| + |w|, End(w, j, st, allowRegex).1, allowRegex)
    decreases |w| - j
  {
    hide Advance;
    hide FreshAfter;
    if j < |w| {
      AdvanceLocal(before, w, after, j, st, allowRegex);
      var (next, k) := Advance(w, j, st, allowRegex);
      EndThrough(before, w, after, k, next, allowRegex);
    }
  }

  lemma {:induction false} EndOverSpace(a: string, w: string, j: nat, allowRegex: bool)
    requires AllSpace(a) && j <= |a|
    ensures End(a + w, j, START, allowRegex) == End(a + w, |a|, START, allowRegex)
    decreases |a| - j
  {
    if j < |a| {
      var s := a + w;
      assert s[j] == a[j] && IsSpace(s[j]);
      assert !QuotesAt(s, j);
      assert Advance(s, j, START, allowRegex) == (START, j + 1);
      EndOverSpace(a, w, j + 1, allowRegex);
    }
  }

  lemma SpaceNoQuote(b: string)
    requires AllSpace(b)
    ensures NoQuoteFirst(b)
  {
    if b != "" { assert IsSpace(b[0]); }
  }

  lemma TrimmedEnd(p: string, allowRegex: bool)
    requires End(p, 0, START, allowRegex).0
    ensures End(Trim(p), 0, START, allowRegex) == End(p, 0, START, allowRegex)
  {
    hide IsSpace;
    hide Advance;
    var a, b := Trimmed(p);
    var m := Trim(p);
    SpaceNoQuote(b);
    TrimEndBlank(a);
    assert p == a + (m + b);
    EndOverSpace(a, m + b, 0, allowRegex);
    assert a + (m + b) == a + m + b;
    EndThrough(a, m, b, 0, START, allowRegex);
    assert p[|a| + |m|..] == b;
    SpaceKeepsState(p, |a| + |m|, End(m, 0, START, allowRegex).1, allowRegex);
  }

  // ----- splitting the joined statements -----

  lemma {:induction false} KeptSound(ps: seq<string>, allowRegex: bool)
    requires Sound(ps, allowRegex)
    ensures Sound(Kept(ps), allowRegex)
    ensures forall m | m in Kept(ps) :: m != "" && Tight(m)
    decreases |ps|
  {
    if ps != [] {
      var rest := ps[1..];
      SoundTail(ps, allowRegex);
      KeptSound(rest, allowRegex);
      TrimmedEnd(ps[0], allowRegex);
      var m := Trim(ps[0]);
      var a, b := Trimmed(ps[0]);
      if m != "" {
        var r := [m] + Kept(rest);
        assert r[1..] == Kept(rest);
        if |ps| == 1 { assert Kept(rest) == []; }
        SoundCons(r, allowRegex);
      } else {
        assert [] + Kept(rest) == Kept(rest);
      }
    }
  }

  lemma {:induction false} RawOfJoin(before: string, ms: seq<string>, allowRegex: bool)
    requires ms != [] && Sound(ms, allowRegex) && FreshAfter(before)
    ensures Raw(before + JoinStatements(ms), |before|, |before|, START, allowRegex) == ms
    decreases |ms|
  {
    var w, rest := ms[0], ms[1..];
    assert End(ms[0], 0, START, allowRegex).0;
    SoundTail(ms, allowRegex);
    if rest == [] {
      RawLast(before, w, allowRegex);
    } else {
      assert End(ms[0], 0, START, allowRegex).1 == START;
      var joined := JoinStatements(rest);
      hide *;
      JoinCons(ms);
      RawFirst(before, w, joined, allowRegex);
      assert before + (w + ";" + joined) == before + w + ";" + joined;
      RawOfJoin(before + w + ";", rest, allowRegex);
      assert ms == [w] + rest;
    }
  }

  lemma JoinCons(ms: seq<string>)
    requires |ms| > 1
    ensures JoinStatements(ms) == ms[0] + ";" + JoinStatements(ms[1..])
  {
  }

  lemma RawLast(before: string, w: string, allowRegex: bool)
    requires FreshAfter(before) && End(w, 0, START, allowRegex).0
    ensures Raw(before + w, |before|, |before|, START, allowRegex) == [w]
  {
    hide Advance;
    hide FreshAfter;
    ScanPiece(before, w, "", 0, START, allowRegex);
    assert before + w + "" == before + w && (before + w)[|before|..] == w;
  }

  lemma RawFirst(before: string, w: string, joined: string, allowRegex: bool)
    requires FreshAfter(before) && End(w, 0, START, allowRegex) == (true, START)
    ensures var line, p := before + w + ";" + joined, |before + w + ";"|;
            && Raw(line, |before|, |before|, START, allowRegex) == [w] + Raw(line, p, p, START, allowRegex)
            && FreshAfter(before + w + ";")
  {
    hide Advance;
    hide FreshAfter;
    hide End;
    var line, p := before + w + (";" + joined), |before| + |w|;
    assert line == before + w + ";" + joined;
    ScanPiece(before, w, ";" + joined, 0, START, allowRegex);
    JoinLayout(before, w, joined);
    assert line[..p + 1] == before + w + ";";
    FreshAfterCut(line, p);
    RawAtCut(line, |before|, p, allowRegex);
  }

  lemma SoundTail(ms: seq<string>, allowRegex: bool)
    requires ms != [] && Sound(ms, allowRegex)
    ensures Sound(ms[1..], allowRegex)
  {
    assert forall k | 0 <= k < |ms| - 1 :: ms[1..][k] == ms[k + 1];
  }

  lemma JoinLayout(before: string, w: string, joined: string)
    ensures var line, p := before + w + (";" + joined), |before| + |w|;
            && line[p] == ';' && line[|before|..p] == w
            && line == line[..p + 1] + joined && |line[..p + 1]| == p + 1
  {
    var line, p := before + w + (";" + joined), |before| + |w|;
    assert line[..p + 1] == before + w + ";";
    assert line == before + w + ";" + joined;
  }

  lemma {:induction false} KeptTight(ms: seq<string>)
    requires forall m | m in ms :: m != "" && Tight(m)
    ensures Kept(ms) == ms
  {
    if ms != [] {
      assert ms[0] in ms;
      TrimTight(ms[0]);
      assert forall m | m in ms[1..] :: m in ms;
      KeptTight(ms[1..]);
    }
  }

  // Joining the statements of a line with semicolons and splitting again gives the same
  // statements, whatever the line and in both modes.
  lemma SplitCanonical(line: string, allowRegex: bool)
    ensures var ms := SplitStatements(line, allowRegex);
            SplitStatements(JoinStatements(ms), allowRegex) == ms
  {
    var r := Raw(line, 0, 0, START, allowRegex);
    assert line[..0] == "";
    RawSound(line, 0, 0, START, allowRegex);
    SoundCons(r, allowRegex);
    KeptSound(r, allowRegex);
    var ms := Kept(r);
    if ms == [] {
      TrimBlank("");
      assert Raw("", 0, 0, START, allowRegex) == [""] && Kept([""]) == [];
    } else {
      RawOfJoin("", ms, allowRegex);
      assert "" + JoinStatements(ms) == JoinStatements(ms);
      KeptTight(ms);
    }
  }
}
