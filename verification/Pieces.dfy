// Splitting a sequence at a separator and joining it again, as `split` and `join` do.
module Pieces {

  function Push<T(==)>(x: T, rest: seq<seq<T>>, sep: T): seq<seq<T>>
    requires rest != []
  {
    if x == sep then [[]] + rest else [[x] + rest[0]] + rest[1..]
  }

  function Split<T(==)>(s: seq<T>, sep: T): (r: seq<seq<T>>)
    ensures r != []
    decreases |s|
  {
    if s == [] then [[]]
    else
      var rest := Split(s[1..], sep);
      Push(s[0], rest, sep)
  }

  function Join<T>(pieces: seq<seq<T>>, sep: T): seq<T>
    requires pieces != []
  {
    if |pieces| == 1 then pieces[0] else pieces[0] + [sep] + Join(pieces[1..], sep)
  }

  lemma {:induction false} JoinSplit<T>(s: seq<T>, sep: T)
    ensures Join(Split(s, sep), sep) == s
  {
    if s != [] {
      JoinSplit(s[1..], sep);
      var rest, all := Split(s[1..], sep), Split(s, sep);
      if s[0] == sep {
        assert all[1..] == rest;
      } else if |rest| > 1 {
        assert all[1..] == rest[1..];
        assert Join(all, sep) == [s[0]] + Join(rest, sep);
      }
    }
  }

  lemma {:induction false} SplitPieces<T>(s: seq<T>, sep: T)
    ensures forall p | p in Split(s, sep) :: sep !in p
  {
    if s != [] {
      SplitPieces(s[1..], sep);
      var rest := Split(s[1..], sep);
      assert rest[0] in rest;
      forall p | p in Split(s, sep) ensures sep !in p {
        if p !in rest && s[0] != sep { assert p == [s[0]] + rest[0]; }
      }
    }
  }

  lemma {:induction false} SplitNone<T>(s: seq<T>, sep: T)
    requires sep !in s
    ensures Split(s, sep) == [s]
  {
    if s != [] {
      assert s[0] in s;
      SplitNone(s[1..], sep);
      assert [s[0]] + s[1..] == s;
    }
  }

  lemma PushConcat<T>(x: T, rest: seq<seq<T>>, more: seq<seq<T>>, sep: T)
    requires rest != []
    ensures Push(x, rest + more, sep) == Push(x, rest, sep) + more
  {
    if x == sep {
      assert [[]] + (rest + more) == ([[]] + rest) + more;
    } else {
      assert (rest + more)[1..] == rest[1..] + more;
      assert [[x] + rest[0]] + (rest[1..] + more) == ([[x] + rest[0]] + rest[1..]) + more;
    }
  }

  lemma {:induction false} SplitAt<T>(a: seq<T>, sep: T, b: seq<T>)
    ensures Split(a + [sep] + b, sep) == Split(a, sep) + Split(b, sep)
  {
    var s := a + [sep] + b;
    if a == [] {
      assert s[0] == sep && s[1..] == b;
      assert Split(a, sep) == [[]];
    } else {
      SplitAt(a[1..], sep, b);
      assert s[0] == a[0] && s[1..] == a[1..] + [sep] + b;
      PushConcat(a[0], Split(a[1..], sep), Split(b, sep), sep);
    }
  }

  lemma {:induction false} SplitJoin<T>(pieces: seq<seq<T>>, sep: T)
    requires pieces != [] && forall p | p in pieces :: sep !in p
    ensures Split(Join(pieces, sep), sep) == pieces
  {
    if |pieces| == 1 {
      SplitNone(pieces[0], sep);
    } else {
      SplitAt(pieces[0], sep, Join(pieces[1..], sep));
      SplitNone(pieces[0], sep);
      SplitJoin(pieces[1..], sep);
    }
  }
}
