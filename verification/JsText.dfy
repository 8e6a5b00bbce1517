// JavaScript string helpers: white space and trimming.
module JsText {

  // White space and line terminators, the characters `\s` matches and `trim` removes.
  predicate IsSpace(c: char) {
    var n := c as int;
    || 9 <= n <= 13 || n == 32 || n == 0xA0 || n == 0x1680 || 0x2000 <= n <= 0x200A
    || n == 0x2028 || n == 0x2029 || n == 0x202F || n == 0x205F || n == 0x3000 || n == 0xFEFF
  }

  predicate AllSpace(s: string) {
    forall i | 0 <= i < |s| :: IsSpace(s[i])
  }

  function TrimStart(s: string): string {
    if s != "" && IsSpace(s[0]) then TrimStart(s[1..]) else s
  }

  function TrimEnd(s: string): string {
    if s != "" && IsSpace(s[|s| - 1]) then TrimEnd(s[..|s| - 1]) else s
  }

  function Trim(s: string): string {
    TrimEnd(TrimStart(s))
  }

  // Neither end is white space.
  predicate Tight(s: string) {
    s != "" ==> !IsSpace(s[0]) && !IsSpace(s[|s| - 1])
  }

  lemma {:induction false} TrimStartOf(a: string, m: string)
    requires AllSpace(a) && (m != "" ==> !IsSpace(m[0]))
    ensures TrimStart(a + m) == m
  {
    if a == "" {
      assert a + m == m;
    } else {
      TrimStartOf(a[1..], m);
      assert (a + m)[1..] == a[1..] + m;
    }
  }

  lemma {:induction false} TrimEndOf(m: string, b: string)
    requires AllSpace(b) && (m != "" ==> !IsSpace(m[|m| - 1]))
    ensures TrimEnd(m + b) == m
  {
    if b == "" {
      assert m + b == m;
    } else {
      var n := |b| - 1;
      TrimEndOf(m, b[..n]);
      assert (m + b)[..|m + b| - 1] == m + b[..n];
    }
  }

  // Trimming is undone by nothing but white space at the two ends.
  lemma TrimOf(a: string, m: string, b: string)
    requires AllSpace(a) && AllSpace(b) && Tight(m)
    ensures Trim(a + m + b) == m
  {
    if m == "" {
      assert a + m + b == a + b + "";
      TrimStartOf(a + b, "");
    } else {
      assert a + m + b == a + (m + b);
      TrimStartOf(a, m + b);
      TrimEndOf(m, b);
    }
  }

  lemma {:induction false} SplitStart(s: string) returns (a: string)
    ensures AllSpace(a) && s == a + TrimStart(s)
    ensures TrimStart(s) != "" ==> !IsSpace(TrimStart(s)[0])
  {
    if s != "" && IsSpace(s[0]) {
      a := SplitStart(s[1..]);
      a := [s[0]] + a;
    } else {
      a := "";
    }
  }

  lemma {:induction false} SplitEnd(s: string) returns (b: string)
    ensures AllSpace(b) && s == TrimEnd(s) + b
    ensures TrimEnd(s) != "" ==> !IsSpace(TrimEnd(s)[|TrimEnd(s)| - 1])
  {
    if s != "" && IsSpace(s[|s| - 1]) {
      b := SplitEnd(s[..|s| - 1]);
      b := b + [s[|s| - 1]];
    } else {
      b := "";
    }
  }

  lemma Trimmed(s: string) returns (a: string, b: string)
    ensures AllSpace(a) && AllSpace(b) && Tight(Trim(s)) && s == a + Trim(s) + b
  {
    a := SplitStart(s);
    b := SplitEnd(TrimStart(s));
    assert s == a + (Trim(s) + b);
    if Trim(s) != "" { assert TrimStart(s)[0] == Trim(s)[0]; }
  }

  lemma TrimTight(s: string)
    requires Tight(s)
    ensures Trim(s) == s
  {
    TrimOf("", s, "");
    assert "" + s + "" == s;
  }

  lemma TrimBlank(s: string)
    requires AllSpace(s)
    ensures Trim(s) == ""
  {
    TrimOf(s, "", "");
    assert s + "" + "" == s;
  }

  // The trimmed pieces that are not empty.
  function Kept(pieces: seq<string>): seq<string> {
    if pieces == [] then []
    else (if Trim(pieces[0]) == "" then [] else [Trim(pieces[0])]) + Kept(pieces[1..])
  }

  // ----- the kept pieces without trimming -----

  // `m` is `p` without the white space around it.
  ghost predicate Strips(p: string, m: string) {
    exists a, b :: p == a + m + b && AllSpace(a) && AllSpace(b) && Tight(m)
  }

  // The texts are, in order, the pieces that are not blank, without the white space around.
  ghost predicate StrippedPieces(pieces: seq<string>, ms: seq<string>)
    decreases |pieces|
  {
    if pieces == [] then ms == []
    else if AllSpace(pieces[0]) then StrippedPieces(pieces[1..], ms)
    else ms != [] && ms[0] != "" && Strips(pieces[0], ms[0]) && StrippedPieces(pieces[1..], ms[1..])
  }

  lemma StripsExactly(p: string, m: string)
    ensures Strips(p, m) <==> m == Trim(p)
  {
    var a, b := Trimmed(p);
    assert Strips(p, Trim(p));
    if Strips(p, m) {
      var x, y :| p == x + m + y && AllSpace(x) && AllSpace(y) && Tight(m);
      TrimOf(x, m, y);
    }
  }

  lemma BlankExactly(p: string)
    ensures Trim(p) == "" <==> AllSpace(p)
  {
    var a, b := Trimmed(p);
    if AllSpace(p) { TrimBlank(p); }
    if Trim(p) == "" { assert p == a + b; }
  }

  lemma {:induction false} KeptExactly(pieces: seq<string>, ms: seq<string>)
    ensures StrippedPieces(pieces, ms) <==> ms == Kept(pieces)
    decreases |pieces|
  {
    hide Trim, AllSpace, Strips;
    if pieces != [] {
      BlankExactly(pieces[0]);
      if Trim(pieces[0]) == "" {
        KeptExactly(pieces[1..], ms);
      } else if ms != [] {
        StripsExactly(pieces[0], ms[0]);
        KeptExactly(pieces[1..], ms[1..]);
        assert ms == [ms[0]] + ms[1..];
        assert ([Trim(pieces[0])] + Kept(pieces[1..]))[1..] == Kept(pieces[1..]);
      }
    }
  }

  // ----- closing marks behind a backslash -----

  // Every `mark` in the text follows a backslash; `slash` says that one stands before the text.
  predicate NoneCloses(mark: char, body: string, slash: bool) {
    (body != "" && body[0] == mark ==> slash) &&
    forall k :: 0 < k < |body| && body[k] == mark ==> body[k - 1] == '\\'
  }

  function LastSlash(body: string, slash: bool): bool {
    if body == "" then slash else body[|body| - 1] == '\\'
  }

  lemma {:induction false} FirstClose(mark: char, body: string, slash: bool) returns (k: nat)
    ensures k <= |body| && NoneCloses(mark, body[..k], slash)
    ensures k < |body| ==> body[k] == mark && if k == 0 then !slash else body[k - 1] != '\\'
    decreases |body|
  {
    if body == "" || (body[0] == mark && !slash) {
      k := 0;
    } else {
      k := FirstClose(mark, body[1..], body[0] == '\\');
      k := k + 1;
      assert body[..k][1..] == body[1..][..k - 1];
      forall i | 0 < i < k && body[..k][i] == mark ensures body[..k][i - 1] == '\\' {
        assert body[1..][..k - 1][i - 1] == mark;
        if i > 1 { assert body[1..][..k - 1][i - 2] == body[i - 1]; }
      }
    }
  }
}
