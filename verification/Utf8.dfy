// Decoding bytes the way `Buffer.toString("utf8")` does: well-formed sequences as in
// section 3 of RFC 3629, each maximal ill-formed part replaced by U+FFFD.
module Utf8 {
  import opened Pieces

  type Byte = b: int | 0 <= b < 256
  type Text = seq<int>  // code points

  const LF: Byte := 0x0A
  const REPLACEMENT := 0xFFFD

  // `needed` continuation bytes are missing; the next one must lie in `lower..upper`.
  datatype Decoder = Decoder(needed: nat, point: nat, lower: int, upper: int)

  const IDLE := Decoder(0, 0, 0x80, 0xBF)

  function Lead(b: Byte): (Decoder, Text) {
    if b < 0x80 then (IDLE, [b])
    else if 0xC2 <= b < 0xE0 then (Decoder(1, b - 0xC0, 0x80, 0xBF), [])
    else if 0xE0 <= b < 0xF0 then
      (Decoder(2, b - 0xE0, if b == 0xE0 then 0xA0 else 0x80, if b == 0xED then 0x9F else 0xBF), [])
    else if 0xF0 <= b < 0xF5 then
      (Decoder(3, b - 0xF0, if b == 0xF0 then 0x90 else 0x80, if b == 0xF4 then 0x8F else 0xBF), [])
    else (IDLE, [REPLACEMENT])
  }

  function Feed(d: Decoder, b: Byte): (Decoder, Text) {
    if d.needed == 0 then Lead(b)
    else if d.lower <= b <= d.upper && 0x80 <= b < 0xC0 then
      var point := d.point * 64 + (b - 0x80);
      if d.needed == 1 then (IDLE, [point]) else (Decoder(d.needed - 1, point, 0x80, 0xBF), [])
    else
      var (next, out) := Lead(b);
      (next, [REPLACEMENT] + out)
  }

  function DecodeFrom(d: Decoder, bytes: seq<Byte>): Text
    decreases |bytes|
  {
    if bytes == [] then (if d.needed == 0 then [] else [REPLACEMENT])
    else
      var (next, out) := Feed(d, bytes[0]);
      out + DecodeFrom(next, bytes[1..])
  }

  function Decode(bytes: seq<Byte>): Text {
    DecodeFrom(IDLE, bytes)
  }

  // Splitting the bytes at a line feed never cuts a character, well-formed input or not.
  lemma {:induction false} DecodeAtLf(d: Decoder, a: seq<Byte>, b: seq<Byte>)
    ensures DecodeFrom(d, a + [LF] + b) == DecodeFrom(d, a) + [LF as int] + Decode(b)
    decreases |a|
  {
    if a == [] {
      assert (a + [LF] + b)[1..] == b;
    } else {
      var next := Feed(d, a[0]).0;
      DecodeAtLf(next, a[1..], b);
      assert (a + [LF] + b)[1..] == a[1..] + [LF] + b;
    }
  }

  // States in which no completion can yield a code point below U+0080.
  predicate Sane(d: Decoder) {
    && d.needed <= 3
    && (d.needed == 1 ==> d.point >= 2)
    && (d.needed >= 2 ==> d.point >= 1 || d.lower >= 0x90)
    && (d.needed == 2 ==> d.point >= 1 || d.lower >= 0xA0)
  }

  lemma {:induction false} DecodeNoLf(d: Decoder, bytes: seq<Byte>)
    requires Sane(d) && LF !in bytes
    ensures LF !in DecodeFrom(d, bytes)
    decreases |bytes|
  {
    if bytes != [] {
      assert bytes[0] in bytes;
      DecodeNoLf(Feed(d, bytes[0]).0, bytes[1..]);
    }
  }

  lemma {:induction false} DecodeNonEmpty(d: Decoder, bytes: seq<Byte>)
    requires bytes != [] || d.needed > 0
    ensures DecodeFrom(d, bytes) != []
    decreases |bytes|
  {
    if bytes != [] {
      var (next, out) := Feed(d, bytes[0]);
      if out == [] { DecodeNonEmpty(next, bytes[1..]); }
    }
  }

  function DecodeAll(lines: seq<seq<Byte>>): (r: seq<Text>)
    ensures |r| == |lines| && forall i | 0 <= i < |r| :: r[i] == Decode(lines[i])
  {
    if lines == [] then [] else [Decode(lines[0])] + DecodeAll(lines[1..])
  }

  lemma DecodeAllConcat(a: seq<seq<Byte>>, b: seq<seq<Byte>>)
    ensures DecodeAll(a + b) == DecodeAll(a) + DecodeAll(b)
  {
  }

  // Decoding and then splitting into lines is splitting and then decoding each line.
  lemma {:induction false} SplitDecoded(bytes: seq<Byte>)
    ensures Split<int>(Decode(bytes), LF) == DecodeAll(Split<Byte>(bytes, LF))
    decreases |bytes|
  {
    if LF in bytes {
      var i :| 0 <= i < |bytes| && bytes[i] == LF;
      var a, b := bytes[..i], bytes[i + 1..];
      assert bytes == a + [LF] + b;
      SplitAt<Byte>(a, LF, b);
      DecodeAtLf(IDLE, a, b);
      SplitAt<int>(Decode(a), LF, Decode(b));
      SplitDecoded(a);
      SplitDecoded(b);
      DecodeAllConcat(Split<Byte>(a, LF), Split<Byte>(b, LF));
    } else {
      SplitNone<Byte>(bytes, LF);
      DecodeNoLf(IDLE, bytes);
      SplitNone<int>(Decode(bytes), LF);
    }
  }

  // ----- well-formed and ill-formed parts -----

  predicate Scalar(c: int) {
    0 <= c < 0x110000 && !(0xD800 <= c < 0xE000)
  }

  // The bytes of a character, section 3 of RFC 3629.
  function Encode(c: int): (r: seq<Byte>)
    requires Scalar(c)
  {
    if c < 0x80 then [c]
    else if c < 0x800 then [0xC0 + c / 64, 0x80 + c % 64]
    else if c < 0x10000 then [0xE0 + c / 64 / 64, 0x80 + c / 64 % 64, 0x80 + c % 64]
    else [0xF0 + c / 64 / 64 / 64, 0x80 + c / 64 / 64 % 64, 0x80 + c / 64 % 64, 0x80 + c % 64]
  }

  ghost predicate Character(bytes: seq<Byte>) {
    exists c :: Scalar(c) && Encode(c) == bytes
  }

  // The beginning of a character, and not all of it.
  ghost predicate Cut(bytes: seq<Byte>) {
    exists c :: Scalar(c) && bytes < Encode(c)
  }

  // An ill-formed part at the front: as long as it can be continued to a character, or one byte.
  ghost predicate IllFormed(bytes: seq<Byte>, n: nat) {
    && 0 < n <= |bytes| && (forall k :: 0 < k <= |bytes| ==> !Character(bytes[..k]))
    && (n == 1 || Cut(bytes[..n])) && (n < |bytes| ==> !Cut(bytes[..n + 1]))
  }

  // The text has each character for its bytes, and U+FFFD for each ill-formed part.
  ghost predicate Reads(bytes: seq<Byte>, text: Text)
    decreases |bytes|
  {
    if bytes == [] then text == []
    else
      text != [] &&
      exists n :: 0 < n <= |bytes| && ReadsFirst(bytes, n, text[0]) && Reads(bytes[n..], text[1..])
  }

  ghost predicate ReadsFirst(bytes: seq<Byte>, n: nat, c: int)
    requires n <= |bytes|
  {
    (Scalar(c) && Encode(c) == bytes[..n]) || (c == REPLACEMENT && IllFormed(bytes, n))
  }

  // ----- bytes that begin a character -----

  predicate Trailing(b: Byte) { 0x80 <= b <= 0xBF }

  // The second byte a lead byte allows.
  predicate Second(lead: Byte, b: Byte) {
    && Trailing(b) && (lead == 0xE0 ==> b >= 0xA0) && (lead == 0xED ==> b <= 0x9F)
    && (lead == 0xF0 ==> b >= 0x90) && (lead == 0xF4 ==> b <= 0x8F)
  }

  // How many bytes a character with this lead byte has.
  function Size(lead: Byte): nat {
    if lead < 0x80 then 1
    else if 0xC2 <= lead < 0xE0 then 2
    else if 0xE0 <= lead < 0xF0 then 3
    else if 0xF0 <= lead < 0xF5 then 4
    else 0
  }

  predicate Legal(p: seq<Byte>) {
    && p != [] && |p| <= Size(p[0]) && (|p| > 1 ==> Second(p[0], p[1]))
    && (|p| > 2 ==> Trailing(p[2])) && (|p| > 3 ==> Trailing(p[3]))
  }

  function Push6(point: int, b: Byte): int {
    point * 64 + (b as int - 0x80)
  }

  function Point(p: seq<Byte>): int
    requires Legal(p) && |p| == Size(p[0])
  {
    if |p| == 1 then p[0] as int
    else if |p| == 2 then Push6(p[0] as int - 0xC0, p[1])
    else if |p| == 3 then Push6(Push6(p[0] as int - 0xE0, p[1]), p[2])
    else Push6(Push6(Push6(p[0] as int - 0xF0, p[1]), p[2]), p[3])
  }

  lemma Push6Splits(x: int, b: Byte)
    requires Trailing(b)
    ensures Push6(x, b) / 64 == x && 0x80 + Push6(x, b) % 64 == b as int
  {
  }

  lemma EncodeLegal(c: int)
    requires Scalar(c)
    ensures Legal(Encode(c)) && |Encode(c)| == Size(Encode(c)[0]) && Point(Encode(c)) == c
  {
  }

  lemma PointEncodes(p: seq<Byte>)
    requires Legal(p) && |p| == Size(p[0])
    ensures Scalar(Point(p)) && Encode(Point(p)) == p
  {
    if |p| == 2 {
      Push6Splits(p[0] as int - 0xC0, p[1]);
    } else if |p| == 3 {
      var x := Push6(p[0] as int - 0xE0, p[1]);
      Push6Splits(p[0] as int - 0xE0, p[1]);
      Push6Splits(x, p[2]);
      assert 0x800 <= Push6(x, p[2]) < 0x10000;
    } else if |p| == 4 {
      var x := Push6(p[0] as int - 0xF0, p[1]);
      Push6Splits(p[0] as int - 0xF0, p[1]);
      Push6Splits(x, p[2]);
      Push6Splits(Push6(x, p[2]), p[3]);
    }
  }

  lemma CharacterExactly(p: seq<Byte>)
    ensures Character(p) <==> Legal(p) && |p| == Size(p[0])
  {
    if Legal(p) && |p| == Size(p[0]) { PointEncodes(p); }
    if c :| Scalar(c) && Encode(c) == p { EncodeLegal(c); }
  }

  lemma {:induction false} Completed(p: seq<Byte>) returns (q: seq<Byte>)
    requires Legal(p)
    ensures Legal(q) && |q| == Size(q[0]) && p <= q
    decreases Size(p[0]) - |p|
  {
    if |p| == Size(p[0]) {
      q := p;
    } else {
      var b: Byte := if |p| > 1 then 0x80 else if p[0] == 0xE0 then 0xA0 else if p[0] == 0xF0 then 0x90 else 0x80;
      q := Completed(p + [b]);
    }
  }

  lemma CutExactly(p: seq<Byte>)
    requires p != []
    ensures Cut(p) <==> Legal(p) && |p| < Size(p[0])
  {
    if Legal(p) && |p| < Size(p[0]) {
      var q := Completed(p);
      PointEncodes(q);
      assert p < Encode(Point(q));
    }
    if c :| Scalar(c) && p < Encode(c) {
      EncodeLegal(c);
      assert p[0] == Encode(c)[0];
    }
  }

  // ----- the decoder inside a character -----

  // The state after part of a character.
  function StateOf(p: seq<Byte>): Decoder
    requires Legal(p) && |p| < Size(p[0])
  {
    var n := Size(p[0]);
    var top := p[0] as int - (if n == 2 then 0xC0 else if n == 3 then 0xE0 else 0xF0);
    if |p| == 1 then
      Decoder(n - 1, top, if p[0] == 0xE0 then 0xA0 else if p[0] == 0xF0 then 0x90 else 0x80,
              if p[0] == 0xED then 0x9F else if p[0] == 0xF4 then 0x8F else 0xBF)
    else if |p| == 2 then Decoder(n - 2, Push6(top, p[1]), 0x80, 0xBF)
    else Decoder(n - 3, Push6(Push6(top, p[1]), p[2]), 0x80, 0xBF)
  }

  lemma FeedLead(b: Byte)
    ensures Size(b) == 0 ==> Lead(b) == (IDLE, [REPLACEMENT])
    ensures Size(b) == 1 ==> Lead(b) == (IDLE, [b as int])
    ensures Size(b) > 1 ==> Lead(b) == (StateOf([b]), [])
  {
  }

  lemma FeedNext(p: seq<Byte>, b: Byte)
    requires Legal(p) && |p| < Size(p[0])
    ensures var q := p + [b];
            Feed(StateOf(p), b) ==
            if !Legal(q) then (Lead(b).0, [REPLACEMENT] + Lead(b).1)
            else if |q| == Size(q[0]) then (IDLE, [Point(q)])
            else (StateOf(q), [])
  {
    var q := p + [b];
    assert q[..|p|] == p && q[0] == p[0];
  }

  // Reading the rest of a character, or of a part of one.
  lemma {:induction false} Along(p: seq<Byte>, more: seq<Byte>, rest: seq<Byte>)
    requires Legal(p) && |p| < Size(p[0]) && Legal(p + more)
    ensures var q := p + more;
            DecodeFrom(StateOf(p), more + rest) ==
            if |q| == Size(q[0]) then [Point(q)] + Decode(rest) else DecodeFrom(StateOf(q), rest)
    decreases |more|
  {
    if more == [] {
      assert p + more == p && more + rest == rest;
    } else {
      var b, after := more[0], more[1..];
      assert more == [b] + after && p + more == (p + [b]) + after && more + rest == [b] + (after + rest);
      FeedNext(p, b);
      if |p| + 1 < Size(p[0]) {
        Along(p + [b], after, rest);
      } else {
        assert after == [] && after + rest == rest;
      }
    }
  }

  lemma Stuck(p: seq<Byte>, rest: seq<Byte>)
    requires Legal(p) && |p| < Size(p[0]) && (rest != [] ==> !Legal(p + [rest[0]]))
    ensures DecodeFrom(StateOf(p), rest) == [REPLACEMENT] + Decode(rest)
  {
    if rest != [] { FeedNext(p, rest[0]); }
  }

  lemma DecodeCharacter(p: seq<Byte>, rest: seq<Byte>)
    requires Legal(p) && |p| == Size(p[0])
    ensures Decode(p + rest) == [Point(p)] + Decode(rest)
  {
    var b, more := p[0], p[1..];
    assert p == [b] + more && p + rest == [b] + (more + rest);
    FeedLead(b);
    if |p| > 1 {
      Along([b], more, rest);
    } else {
      assert more + rest == rest;
    }
  }

  lemma DecodeIllFormed(bytes: seq<Byte>, n: nat)
    requires IllFormed(bytes, n)
    ensures Decode(bytes) == [REPLACEMENT] + Decode(bytes[n..])
  {
    var p, rest := bytes[..n], bytes[n..];
    var b, more := bytes[0], bytes[1..n];
    assert p == [b] + more && bytes == [b] + (more + rest);
    CharacterExactly(bytes[..1]);
    CharacterExactly(p);
    CutExactly(p);
    FeedLead(b);
    if Size(b) == 0 {
      assert n == 1 && more + rest == rest;
    } else {
      assert Legal(p) && |p| < Size(b);
      if rest != [] {
        var q := p + [rest[0]];
        assert q == bytes[..n + 1];
        CutExactly(q);
        CharacterExactly(q);
      }
      Along([b], more, rest);
      Stuck(p, rest);
    }
  }

  // ----- decoding is reading part by part -----

  lemma FirstPart(bytes: seq<Byte>) returns (n: nat, c: int)
    requires bytes != []
    ensures 0 < n <= |bytes| && ReadsFirst(bytes, n, c)
  {
    if k :| 0 < k <= |bytes| && Character(bytes[..k]) {
      n := k;
      c :| Scalar(c) && Encode(c) == bytes[..k];
    } else {
      n, c := 1, REPLACEMENT;
      while n < |bytes| && Cut(bytes[..n + 1])
        invariant 0 < n <= |bytes| && (n == 1 || Cut(bytes[..n]))
      {
        n := n + 1;
      }
    }
  }

  lemma FirstDecoded(bytes: seq<Byte>, n: nat, c: int)
    requires 0 < n <= |bytes| && ReadsFirst(bytes, n, c)
    ensures Decode(bytes) == [c] + Decode(bytes[n..])
  {
    if Scalar(c) && Encode(c) == bytes[..n] {
      EncodeLegal(c);
      assert bytes == bytes[..n] + bytes[n..];
      DecodeCharacter(bytes[..n], bytes[n..]);
    } else {
      DecodeIllFormed(bytes, n);
    }
  }

  lemma {:induction false} DecodeExactly(bytes: seq<Byte>, text: Text)
    ensures text == Decode(bytes) <==> Reads(bytes, text)
    decreases |bytes|
  {
    hide DecodeFrom, ReadsFirst;
    if bytes == [] {
      DecodeNothing();
    } else {
      var n, c := FirstPart(bytes);
      FirstDecoded(bytes, n, c);
      DecodeExactly(bytes[n..], Decode(bytes[n..]));
      if text == Decode(bytes) {
        assert text[1..] == Decode(bytes[n..]);
      }
      if Reads(bytes, text) {
        var m :| 0 < m <= |bytes| && ReadsFirst(bytes, m, text[0]) && Reads(bytes[m..], text[1..]);
        FirstDecoded(bytes, m, text[0]);
        DecodeExactly(bytes[m..], text[1..]);
        assert text == [text[0]] + text[1..];
      }
    }
  }

  lemma DecodeNothing()
    ensures Decode([]) == []
  {
  }
}
