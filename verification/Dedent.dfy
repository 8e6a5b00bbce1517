// Removing the common leading white space of a text: src/parse/dedent.ts.
module Dedent {
  import opened JsText
  import opened Pieces
  import opened TextOrder

  function Least(ls: seq<string>): string
    requires ls != []
  {
    var n := |ls| - 1;
    if n == 0 then ls[0]
    else
      var a := Least(ls[..n]);
      if Less(a, ls[n]) then a else ls[n]
  }

  function Greatest(ls: seq<string>): string
    requires ls != []
  {
    var n := |ls| - 1;
    if n == 0 then ls[0]
    else
      var a := Greatest(ls[..n]);
      if Less(ls[n], a) then a else ls[n]
  }

  lemma {:induction false} Bounds(ls: seq<string>)
    requires ls != []
    ensures Least(ls) in ls && Greatest(ls) in ls
    ensures forall l | l in ls :: !Less(l, Least(ls)) && !Less(Greatest(ls), l)
  {
    var n := |ls| - 1;
    if n == 0 {
      NotLessSelf(ls[0]);
    } else {
      Bounds(ls[..n]);
      var a, b, z := Least(ls[..n]), Greatest(ls[..n]), ls[n];
      NotLessSelf(z);
      assert ls == ls[..n] + [z];
      forall l | l in ls ensures !Less(l, Least(ls)) && !Less(Greatest(ls), l) {
        if l == z {
          if Less(a, z) { LessAsym(a, z); }
          if Less(z, b) { LessAsym(z, b); }
        }
        if l in ls[..n] {
          if !Less(a, z) { NotLessTrans(l, a, z); }
          if !Less(z, b) { NotLessTrans(z, b, l); }
        }
      }
    }
  }

  // A prefix shared by two strings is shared by every string between them.
  lemma {:induction false} Sandwich(lo: string, l: string, hi: string, k: nat)
    requires !Less(l, lo) && !Less(hi, l)
    requires k <= |lo| && k <= |hi| && lo[..k] == hi[..k]
    ensures k <= |l| && l[..k] == lo[..k]
  {
    if k > 0 {
      assert lo[0] == lo[..k][0] == hi[..k][0] == hi[0];
      assert lo[1..][..k - 1] == lo[..k][1..] == hi[1..][..k - 1];
      assert l != "" && l[0] == lo[0];
      Sandwich(lo[1..], l[1..], hi[1..], k - 1);
      assert l[..k] == [l[0]] + l[1..][..k - 1];
      assert lo[..k] == [lo[0]] + lo[1..][..k - 1];
    }
  }

  // ----- specification -----

  predicate IsPad(c: char) { c == ' ' || c == '\t' }

  function CommonPad(a: string, b: string): nat {
    if a == "" || b == "" || a[0] != b[0] || !IsPad(a[0]) then 0 else 1 + CommonPad(a[1..], b[1..])
  }

  function NonBlank(lines: seq<string>): seq<string> {
    if lines == [] then []
    else if AllSpace(lines[0]) then NonBlank(lines[1..])
    else [lines[0]] + NonBlank(lines[1..])
  }

  lemma {:induction false} NonBlankLines(lines: seq<string>)
    ensures forall l :: l in NonBlank(lines) <==> l in lines && !AllSpace(l)
  {
    if lines != [] {
      NonBlankLines(lines[1..]);
      assert lines == [lines[0]] + lines[1..];
    }
  }

  function Margin(lines: seq<string>): nat {
    var ls := NonBlank(lines);
    if ls == [] then 0 else CommonPad(Least(ls), Greatest(ls))
  }

  // The first `k` characters of every non-blank line are the same spaces and tabs.
  predicate SharedPad(lines: seq<string>, k: nat) {
    && (forall l | l in lines && !AllSpace(l) :: k <= |l| && forall i | 0 <= i < k :: IsPad(l[i]))
    && (forall a, b | a in lines && b in lines && !AllSpace(a) && !AllSpace(b) && k <= |a| && k <= |b| ::
          a[..k] == b[..k])
  }

  predicate HasText(lines: seq<string>) {
    exists l :: l in lines && !AllSpace(l)
  }

  lemma {:induction false} CommonPadFacts(a: string, b: string)
    ensures var m := CommonPad(a, b);
            && m <= |a| && m <= |b| && a[..m] == b[..m]
            && (forall i | 0 <= i < m :: IsPad(a[i]))
            && (m < |a| && m < |b| ==> a[m] != b[m] || !IsPad(a[m]))
  {
    if a != "" && b != "" && a[0] == b[0] && IsPad(a[0]) {
      CommonPadFacts(a[1..], b[1..]);
      var m := CommonPad(a, b);
      assert a[..m] == [a[0]] + a[1..][..m - 1];
      assert b[..m] == [b[0]] + b[1..][..m - 1];
    }
  }

  // Looking at the least and the greatest line only finds the longest shared margin.
  lemma MarginIsLongest(lines: seq<string>)
    ensures SharedPad(lines, Margin(lines))
    ensures HasText(lines) ==> forall k: nat | SharedPad(lines, k) :: k <= Margin(lines)
    ensures !HasText(lines) ==> Margin(lines) == 0
  {
    var ls := NonBlank(lines);
    NonBlankLines(lines);
    if ls != [] {
      var lo, hi := Least(ls), Greatest(ls);
      assert ls[0] in ls;
      Bounds(ls);
      var m := CommonPad(lo, hi);
      CommonPadFacts(lo, hi);
      forall l | l in lines && !AllSpace(l)
        ensures m <= |l| && l[..m] == lo[..m] && forall i | 0 <= i < m :: IsPad(l[i])
      {
        Sandwich(lo, l, hi, m);
        assert forall i | 0 <= i < m :: l[i] == l[..m][i] == lo[..m][i];
      }
      forall k: nat | SharedPad(lines, k) ensures k <= m {
        assert lo[..k] == hi[..k];
      }
    }
  }

  function DedentLine(l: string, margin: nat): string {
    if AllSpace(l) || margin >= |l| then "" else l[margin..]
  }

  function DedentEach(lines: seq<string>, margin: nat): (r: seq<string>)
    ensures |r| == |lines| && forall i | 0 <= i < |r| :: r[i] == DedentLine(lines[i], margin)
  {
    seq(|lines|, i requires 0 <= i < |lines| => DedentLine(lines[i], margin))
  }

  function DedentLines(lines: seq<string>): (r: seq<string>)
    ensures |r| == |lines|
  {
    DedentEach(lines, Margin(lines))
  }

  function DedentText(text: string): string {
    Join(DedentLines(Split(text, '\n')), '\n')
  }

  // ----- the laws -----

  lemma TextStays(l: string, m: nat)
    requires !AllSpace(l) && m <= |l| && forall i | 0 <= i < m :: IsPad(l[i])
    ensures !AllSpace(l[m..]) && m < |l| && DedentLine(l, m) == l[m..]
  {
    var i :| 0 <= i < |l| && !IsSpace(l[i]);
    assert i >= m;
    assert l[m..][i - m] == l[i];
  }

  lemma MorePad(l: string, lines: seq<string>, m: nat, k: nat)
    requires SharedPad(lines, m) && SharedPad(DedentEach(lines, m), k) && l in lines && !AllSpace(l)
    ensures m + k <= |l| && l[m..] in DedentEach(lines, m) && !AllSpace(l[m..])
    ensures l[..m + k] == l[..m] + l[m..][..k] && forall i | 0 <= i < m + k :: IsPad(l[i])
  {
    hide IsSpace;
    hide IsPad;
    var ds, d := DedentEach(lines, m), l[m..];
    var j :| 0 <= j < |lines| && lines[j] == l;
    TextStays(l, m);
    assert ds[j] == d && d in ds;
    hide DedentLine;
    forall i | 0 <= i < m + k ensures IsPad(l[i]) {
      if i >= m { assert l[i] == d[i - m]; }
    }
  }

  lemma SharedMore(lines: seq<string>, m: nat, k: nat)
    requires SharedPad(lines, m) && SharedPad(DedentEach(lines, m), k)
    ensures SharedPad(lines, m + k)
  {
    hide IsSpace;
    hide IsPad;
    forall l | l in lines && !AllSpace(l) ensures m + k <= |l| && forall i | 0 <= i < m + k :: IsPad(l[i]) {
      MorePad(l, lines, m, k);
    }
    forall a, b | a in lines && b in lines && !AllSpace(a) && !AllSpace(b) && m + k <= |a| && m + k <= |b|
      ensures a[..m + k] == b[..m + k]
    {
      MorePad(a, lines, m, k);
      MorePad(b, lines, m, k);
      assert a[..m] == b[..m] && a[m..][..k] == b[m..][..k];
    }
  }

  lemma DedentedText(lines: seq<string>, m: nat)
    requires SharedPad(lines, m) && HasText(DedentEach(lines, m))
    ensures HasText(lines)
  {
    hide SharedPad, IsSpace, IsPad;
    var ds := DedentEach(lines, m);
    var d :| d in ds && !AllSpace(d);
    var j :| 0 <= j < |ds| && ds[j] == d;
    assert lines[j] in lines && !AllSpace(lines[j]);
  }

  lemma DedentedBlanks(lines: seq<string>, m: nat)
    requires SharedPad(lines, m)
    ensures forall l | l in DedentEach(lines, m) && AllSpace(l) :: l == ""
  {
    hide IsSpace, IsPad;
    var ds := DedentEach(lines, m);
    forall l | l in ds && AllSpace(l) ensures l == "" {
      var j :| 0 <= j < |ds| && ds[j] == l;
      if !AllSpace(lines[j]) {
        assert lines[j] in lines;
        TextStays(lines[j], m);
      }
    }
  }

  lemma DedentedHasNoMargin(lines: seq<string>)
    ensures Margin(DedentLines(lines)) == 0
    ensures forall l | l in DedentLines(lines) && AllSpace(l) :: l == ""
  {
    var m, ds := Margin(lines), DedentLines(lines);
    assert ds == DedentEach(lines, m);
    hide SharedPad, Margin, HasText, AllSpace, DedentEach, DedentLines;
    MarginIsLongest(lines);
    MarginIsLongest(ds);
    DedentedBlanks(lines, m);
    if HasText(ds) {
      DedentedText(lines, m);
      SharedMore(lines, m, Margin(ds));
    }
  }

  lemma DedentLinesTwice(lines: seq<string>)
    ensures DedentLines(DedentLines(lines)) == DedentLines(lines)
  {
    DedentedHasNoMargin(lines);
    var ds := DedentLines(lines);
    forall i | 0 <= i < |ds| ensures DedentLine(ds[i], 0) == ds[i] {
      assert ds[i] in ds;
    }
  }

  lemma DedentKeepsLines(lines: seq<string>)
    requires forall l | l in lines :: '\n' !in l
    ensures forall l | l in DedentLines(lines) :: '\n' !in l
  {
    forall l | l in DedentLines(lines) ensures '\n' !in l {
      var j :| 0 <= j < |lines| && DedentLines(lines)[j] == l;
      assert lines[j] in lines;
    }
  }

  lemma SplitOfDedent(text: string)
    ensures Split(DedentText(text), '\n') == DedentLines(Split(text, '\n'))
  {
    SplitPieces(text, '\n');
    DedentKeepsLines(Split(text, '\n'));
    SplitJoin(DedentLines(Split(text, '\n')), '\n');
  }

  lemma DedentTwice(text: string)
    ensures DedentText(DedentText(text)) == DedentText(text)
  {
    SplitOfDedent(text);
    DedentLinesTwice(Split(text, '\n'));
  }

  // A dedented text has no margin, and its blank lines are empty.
  lemma WhenDedented(text: string)
    requires DedentText(text) == text
    ensures Margin(Split(text, '\n')) == 0
    ensures forall l | l in Split(text, '\n') && AllSpace(l) :: l == ""
  {
    SplitOfDedent(text);
    DedentedHasNoMargin(Split(text, '\n'));
  }

  // ----- what dedenting is -----

  predicate AllPad(s: string) {
    forall i | 0 <= i < |s| :: IsPad(s[i])
  }

  // Blank lines are emptied and the others lose `pad`, spaces and tabs.
  predicate Without(lines: seq<string>, rs: seq<string>, pad: string) {
    && |rs| == |lines| && AllPad(pad)
    && forall i :: 0 <= i < |lines| ==> if AllSpace(lines[i]) then rs[i] == "" else lines[i] == pad + rs[i]
  }

  // After which the lines with text have no first space or tab in common.
  predicate Unindented(lines: seq<string>, rs: seq<string>, pad: string) {
    Without(lines, rs, pad) && !SharedFirst(lines, rs)
  }

  predicate SharedFirst(lines: seq<string>, rs: seq<string>)
    requires |rs| == |lines|
  {
    HasText(lines) && exists c | IsPad(c) :: forall i | 0 <= i < |lines| && !AllSpace(lines[i]) :: Leads(c, rs[i])
  }

  predicate Leads(c: char, s: string) {
    s != "" && s[0] == c
  }

  lemma PadLines(lines: seq<string>, rs: seq<string>, pad: string)
    requires Without(lines, rs, pad)
    ensures SharedPad(lines, |pad|)
  {
    hide IsSpace, IsPad;
    forall l | l in lines && !AllSpace(l)
      ensures |pad| <= |l| && l[..|pad|] == pad && forall i | 0 <= i < |pad| :: IsPad(l[i])
    {
      var j :| 0 <= j < |lines| && lines[j] == l;
      assert l == pad + rs[j];
    }
  }

  // A longer margin would begin every line that is left with the same space or tab.
  lemma LongerPad(lines: seq<string>, rs: seq<string>, pad: string, k: nat)
    requires Without(lines, rs, pad) && HasText(lines) && SharedPad(lines, k)
    ensures k > |pad| ==> SharedFirst(lines, rs)
  {
    hide IsSpace, IsPad;
    if k > |pad| {
      var t :| t in lines && !AllSpace(t);
      var c := t[|pad|];
      forall i | 0 <= i < |lines| && !AllSpace(lines[i]) ensures Leads(c, rs[i]) {
        var l := lines[i];
        assert l in lines && l == pad + rs[i] && l[..k] == t[..k];
        assert rs[i][0] == l[|pad|] == l[..k][|pad|] == t[..k][|pad|];
      }
      assert IsPad(c);
    }
  }

  lemma UnindentedIsDedented(lines: seq<string>, rs: seq<string>, pad: string)
    requires Unindented(lines, rs, pad)
    ensures rs == DedentLines(lines)
  {
    PadLines(lines, rs, pad);
    MarginIsLongest(lines);
    var m := Margin(lines);
    if HasText(lines) { LongerPad(lines, rs, pad, m); }
    hide Margin, IsSpace;
    forall i | 0 <= i < |lines| ensures rs[i] == DedentLine(lines[i], m) {
      assert lines[i] in lines;
      if !AllSpace(lines[i]) { assert lines[i][|pad|..] == rs[i]; }
    }
  }

  lemma DedentedIsWithout(lines: seq<string>) returns (pad: string)
    ensures Without(lines, DedentLines(lines), pad) && (HasText(lines) ==> |pad| == Margin(lines))
  {
    MarginIsLongest(lines);
    hide IsSpace, IsPad, Margin;
    var m := Margin(lines);
    pad := "";
    if t :| t in lines && !AllSpace(t) {
      pad := t[..m];
      forall i | 0 <= i < |lines| && !AllSpace(lines[i]) ensures lines[i] == pad + DedentLine(lines[i], m) {
        assert lines[i] in lines && lines[i][..m] == pad;
      }
    } else {
      forall i | 0 <= i < |lines| ensures AllSpace(lines[i]) {
        assert lines[i] in lines;
      }
    }
  }

  lemma OneMore(lines: seq<string>, rs: seq<string>, pad: string)
    requires Without(lines, rs, pad) && SharedFirst(lines, rs)
    ensures SharedPad(lines, |pad| + 1)
  {
    hide IsSpace;
    var c :| IsPad(c) && forall i | 0 <= i < |lines| && !AllSpace(lines[i]) :: Leads(c, rs[i]);
    hide IsPad;
    var more := pad + [c];
    forall l | l in lines && !AllSpace(l)
      ensures |more| <= |l| && l[..|more|] == more && forall i | 0 <= i < |more| :: IsPad(l[i])
    {
      var j :| 0 <= j < |lines| && lines[j] == l;
      assert l == pad + rs[j] && Leads(c, rs[j]);
      assert l[..|more|] == more;
      assert forall i | 0 <= i < |more| :: l[i] == more[i];
    }
  }

  lemma DedentedIsUnindented(lines: seq<string>) returns (pad: string)
    ensures Unindented(lines, DedentLines(lines), pad)
  {
    pad := DedentedIsWithout(lines);
    hide Margin, DedentLines, SharedPad, Without;
    MarginIsLongest(lines);
    if SharedFirst(lines, DedentLines(lines)) { OneMore(lines, DedentLines(lines), pad); }
  }

  // Dedenting a text removes exactly the longest margin its lines with text share.
  lemma DedentExactly(text: string, r: string)
    ensures r == DedentText(text) <==> exists pad :: Unindented(Split(text, '\n'), Split(r, '\n'), pad)
  {
    hide Unindented, DedentLines;
    var lines := Split(text, '\n');
    SplitOfDedent(text);
    if r == DedentText(text) {
      var pad := DedentedIsUnindented(lines);
    }
    if pad :| Unindented(lines, Split(r, '\n'), pad) {
      UnindentedIsDedented(lines, Split(r, '\n'), pad);
      JoinSplit(r, '\n');
      JoinSplit(DedentText(text), '\n');
    }
  }

  // ----- the function as written -----

  method DedentCommonLeadingWhitespace(text: string) returns (r: string)
    ensures r == DedentText(text)
  {
    var lines := Split(text, '\n');
    var nonBlank := NonBlank(lines);
    var margin := 0;
    if |nonBlank| > 0 {
      var l1, l2 := Least(nonBlank), Greatest(nonBlank);
      while margin < |l1| && margin < |l2|
        invariant margin <= |l1| && margin <= |l2|
        invariant CommonPad(l1, l2) == margin + CommonPad(l1[margin..], l2[margin..])
      {
        var c := l1[margin];
        if c != l2[margin] || (c != ' ' && c != '\t') { break; }
        margin := margin + 1;
      }
    }
    r := Join(DedentEach(lines, margin), '\n');
  }
}
