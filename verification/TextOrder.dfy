// The order of strings that `<` and an array sort use.
module TextOrder {

  // `a < b` on strings: the first differing character decides, a proper prefix is less.
  predicate Less(a: string, b: string) {
    b != "" && (a == "" || a[0] < b[0] || (a[0] == b[0] && Less(a[1..], b[1..])))
  }

  // Up to `k` the strings agree, and there the first ends or has the smaller character.
  predicate LessAt(a: string, b: string, k: nat) {
    k <= |a| && k < |b| && a[..k] == b[..k] && (k == |a| || a[k] < b[k])
  }

  lemma LaterDifference(a: string, b: string, k: nat)
    requires LessAt(a, b, k) && k > 0
    ensures a[0] == b[0] && LessAt(a[1..], b[1..], k - 1)
  {
    assert a[0] == a[..k][0] == b[..k][0];
    assert a[1..][..k - 1] == a[..k][1..] && b[1..][..k - 1] == b[..k][1..];
  }

  // The order written out: some `k` tells the strings apart.
  lemma {:induction false} LessExactly(a: string, b: string)
    ensures Less(a, b) <==> exists k: nat :: LessAt(a, b, k)
  {
    if k: nat :| LessAt(a, b, k) {
      if k > 0 {
        LaterDifference(a, b, k);
        LessExactly(a[1..], b[1..]);
      }
    }
    if Less(a, b) {
      if a == "" || a[0] < b[0] {
        assert LessAt(a, b, 0);
      } else {
        LessExactly(a[1..], b[1..]);
        var k: nat :| LessAt(a[1..], b[1..], k);
        assert a[..k + 1] == [a[0]] + a[1..][..k] && b[..k + 1] == [b[0]] + b[1..][..k];
        assert LessAt(a, b, k + 1);
      }
    }
  }

  lemma {:induction false} NotLessTrans(x: string, a: string, z: string)
    requires !Less(x, a) && !Less(a, z)
    ensures !Less(x, z)
  {
    if x != "" && z != "" && x[0] == z[0] {
      if a != "" && a[0] == x[0] { NotLessTrans(x[1..], a[1..], z[1..]); }
    }
  }

  lemma {:induction false} NotLessSelf(a: string)
    ensures !Less(a, a)
  {
    if a != "" { NotLessSelf(a[1..]); }
  }

  lemma {:induction false} LessAsym(a: string, b: string)
    requires Less(a, b)
    ensures !Less(b, a)
  {
    if a != "" && a[0] == b[0] { LessAsym(a[1..], b[1..]); }
  }

  lemma {:induction false} LessTotal(a: string, b: string)
    requires a != b
    ensures Less(a, b) || Less(b, a)
  {
    if a != "" && b != "" && a[0] == b[0] {
      assert a == [a[0]] + a[1..] && b == [b[0]] + b[1..];
      LessTotal(a[1..], b[1..]);
    }
  }

  lemma LessTrans(a: string, b: string, c: string)
    requires Less(a, b) && Less(b, c)
    ensures Less(a, c)
  {
    LessAsym(a, b);
    LessAsym(b, c);
    if !Less(a, c) {
      NotLessTrans(a, c, b);
    }
  }
}
