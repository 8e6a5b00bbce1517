// The order of the flat step list, by addresses in the step tree.
module FlatOrder {
  import opened Bindings

  // ----- addresses -----

  // An address is the index of a step, then the index of one of its blocks, then the index of
  // a step in that block, and so on.
  type Address = seq<nat>

  type Block = (seq<Step>, Option<string>)

  // The blocks of a step as they are written, each with its failure binding: a clause has its
  // own, the other blocks have the one around them.
  function Blocks(s: Step, failure: Option<string>): seq<Block> {
    match s
    case Exec(_, onCatch, onRecover) => ClauseBlock(onCatch) + ClauseBlock(onRecover)
    case If(body, NoArm) => [(body, failure)]
    case If(body, Arm(others)) => [(body, failure), (others, failure)]
    case For(_, body) => [(body, failure)]
    case _ => []
  }

  function ClauseBlock(c: Clause): seq<Block> {
    if c.NoClause? then [] else [(c.steps, Some(c.failure))]
  }

  // What stands at an address.
  function At(steps: seq<Step>, failure: Option<string>, a: Address): Option<Entry>
    decreases |a|
  {
    if a == [] || a[0] >= |steps| then None
    else if |a| == 1 then Some(Entry(steps[a[0]], failure))
    else AtBlock(Blocks(steps[a[0]], failure), a[1..])
  }

  function AtBlock(blocks: seq<Block>, a: Address): Option<Entry>
    decreases |a|
  {
    if a == [] || a[0] >= |blocks| then None else At(blocks[a[0]].0, blocks[a[0]].1, a[1..])
  }

  // In the order of writing: a step comes before what is inside it.
  ghost predicate Before(a: Address, b: Address) {
    exists k :: Parting(a, b, k)
  }

  predicate Parting(a: Address, b: Address, k: nat) {
    k <= |a| && k < |b| && a[..k] == b[..k] && (k == |a| || a[k] < b[k])
  }

  // The entries are what is found at the addresses, which ascend and leave nothing out.
  ghost predicate Table(find: Address -> Option<Entry>, entries: seq<Entry>, addresses: seq<Address>) {
    && |addresses| == |entries|
    && (forall i :: 0 <= i < |entries| ==> find(addresses[i]) == Some(entries[i]))
    && (forall i, j :: 0 <= i < j < |addresses| ==> Before(addresses[i], addresses[j]))
    && (forall a :: find(a).Some? ==> a in addresses)
  }

  // ----- putting tables together -----

  lemma NotBefore(a: Address)
    ensures !Before(a, a)
  {
  }

  lemma Together(find: Address -> Option<Entry>, f: Address -> Option<Entry>, g: Address -> Option<Entry>,
                 e1: seq<Entry>, a1: seq<Address>, e2: seq<Entry>, a2: seq<Address>)
    requires Table(f, e1, a1) && Table(g, e2, a2)
    requires forall a :: find(a) == if f(a).Some? then f(a) else g(a)
    requires forall a, b :: f(a).Some? && g(b).Some? ==> Before(a, b)
    ensures Table(find, e1 + e2, a1 + a2)
  {
    hide Before;
    var es, addrs := e1 + e2, a1 + a2;
    forall i | 0 <= i < |es| ensures find(addrs[i]) == Some(es[i]) {
      if i >= |e1| { NotBefore(addrs[i]); }
    }
    forall i, j | 0 <= i < j < |addrs| ensures Before(addrs[i], addrs[j]) {
      if i < |a1| && j >= |a1| {
        assert f(addrs[i]).Some? && g(addrs[j]).Some?;
      } else if i >= |a1| {
        assert Before(a2[i - |a1|], a2[j - |a1|]);
      }
    }
  }

  function Under(n: nat, addresses: seq<Address>): (r: seq<Address>)
    ensures |r| == |addresses| && forall i | 0 <= i < |r| :: r[i] == [n] + addresses[i]
  {
    seq(|addresses|, i requires 0 <= i < |addresses| => [n] + addresses[i])
  }

  lemma BeforeUnder(n: nat, a: Address, b: Address)
    requires Before(a, b)
    ensures Before([n] + a, [n] + b)
  {
    var k: nat :| Parting(a, b, k);
    assert k <= |a| && k < |b|;
    assert ([n] + a)[..k + 1] == [n] + a[..k] && ([n] + b)[..k + 1] == [n] + b[..k];
    assert Parting([n] + a, [n] + b, k + 1);
  }

  lemma Indented(find: Address -> Option<Entry>, f: Address -> Option<Entry>, n: nat, entries: seq<Entry>,
                 addresses: seq<Address>)
    requires Table(f, entries, addresses)
    requires forall a :: find(a) == if a != [] && a[0] == n then f(a[1..]) else None
    ensures Table(find, entries, Under(n, addresses))
  {
    hide Before;
    var addrs := Under(n, addresses);
    forall i | 0 <= i < |entries| ensures find(addrs[i]) == Some(entries[i]) {
      assert addrs[i][1..] == addresses[i];
    }
    forall i, j | 0 <= i < j < |addrs| ensures Before(addrs[i], addrs[j]) {
      BeforeUnder(n, addresses[i], addresses[j]);
    }
    forall a | find(a).Some? ensures a in addrs {
      var i :| 0 <= i < |addresses| && addresses[i] == a[1..];
      assert a == [n] + a[1..] && addrs[i] == a;
    }
  }

  lemma EarlierIndex(a: Address, b: Address)
    requires a != [] && b != [] && (a[0] < b[0] || (a[0] == b[0] && |a| == 1 < |b|))
    ensures Before(a, b)
  {
    if a[0] < b[0] {
      assert Parting(a, b, 0);
    } else {
      assert a[..1] == b[..1];
      assert Parting(a, b, 1);
    }
  }

  // ----- the flat list -----

  function From(steps: seq<Step>, failure: Option<string>, n: nat): Address -> Option<Entry> {
    (a: Address) => if a != [] && a[0] >= n then At(steps, failure, a) else None
  }

  function FromBlock(blocks: seq<Block>, n: nat): Address -> Option<Entry> {
    (a: Address) => if a != [] && a[0] >= n then AtBlock(blocks, a) else None
  }

  function Only(n: nat, entry: Entry): Address -> Option<Entry> {
    (a: Address) => if a == [n] then Some(entry) else None
  }

  function Inside(n: nat, f: Address -> Option<Entry>): Address -> Option<Entry> {
    (a: Address) => if a != [] && a[0] == n then f(a[1..]) else None
  }

  function Either(f: Address -> Option<Entry>, g: Address -> Option<Entry>): Address -> Option<Entry> {
    (a: Address) => if f(a).Some? then f(a) else g(a)
  }

  function FlatBlocks(blocks: seq<Block>): seq<Entry> {
    if blocks == [] then [] else Flatten(blocks[0].0, blocks[0].1) + FlatBlocks(blocks[1..])
  }

  lemma OneBlock(blocks: seq<Block>)
    ensures |blocks| == 1 ==> FlatBlocks(blocks) == Flatten(blocks[0].0, blocks[0].1)
    ensures |blocks| == 2
            ==> FlatBlocks(blocks) == Flatten(blocks[0].0, blocks[0].1) + Flatten(blocks[1].0, blocks[1].1)
  {
    hide Flatten;
    if |blocks| == 1 {
      assert blocks[1..] == [];
    } else if |blocks| == 2 {
      assert blocks[1..] == [blocks[1]] && [blocks[1]][1..] == [];
    }
  }

  lemma BelowIsBlocks(s: Step, failure: Option<string>)
    ensures Below(s, failure) == FlatBlocks(Blocks(s, failure))
  {
    hide Flatten;
    var blocks := Blocks(s, failure);
    OneBlock(blocks);
    assert FlatBlocks([]) == [];
  }

  lemma {:induction false} StepsTable(steps: seq<Step>, failure: Option<string>, n: nat)
    returns (addresses: seq<Address>)
    requires n <= |steps|
    ensures Table(From(steps, failure, n), Flatten(steps[n..], failure), addresses)
    decreases steps, 1, |steps| - n
  {
    if n == |steps| {
      addresses := [];
    } else {
      var s, entry := steps[n], Entry(steps[n], failure);
      var inside := BlocksTable(s, failure, 0);
      var rest := StepsTable(steps, failure, n + 1);
      assert steps[n..][0] == s && steps[n..][1..] == steps[n + 1..];
      BelowIsBlocks(s, failure);
      addresses := [[n]] + Under(n, inside) + rest;
      StepTable(steps, failure, n, inside, rest);
    }
  }

  lemma StepTable(steps: seq<Step>, failure: Option<string>, n: nat, inside: seq<Address>, rest: seq<Address>)
    requires n < |steps|
    requires Table(FromBlock(Blocks(steps[n], failure), 0), Below(steps[n], failure), inside)
    requires Table(From(steps, failure, n + 1), Flatten(steps[n + 1..], failure), rest)
    ensures Table(From(steps, failure, n),
                  [Entry(steps[n], failure)] + Below(steps[n], failure) + Flatten(steps[n + 1..], failure),
                  [[n]] + Under(n, inside) + rest)
  {
    hide Flatten, Below;
    var entry, blocks := Entry(steps[n], failure), FromBlock(Blocks(steps[n], failure), 0);
    var head, deep := Only(n, entry), Inside(n, blocks);
    assert Table(head, [entry], [[n]]) by { hide Before; }
    Indented(deep, blocks, n, Below(steps[n], failure), inside);
    forall a, b | head(a).Some? && deep(b).Some? ensures Before(a, b) {
      EarlierIndex(a, b);
    }
    Together(Either(head, deep), head, deep, [entry], [[n]], Below(steps[n], failure), Under(n, inside));
    forall a, b | Either(head, deep)(a).Some? && From(steps, failure, n + 1)(b).Some? ensures Before(a, b) {
      EarlierIndex(a, b);
    }
    forall a ensures From(steps, failure, n)(a) ==
      if Either(head, deep)(a).Some? then Either(head, deep)(a) else From(steps, failure, n + 1)(a)
    {
      if a != [] && a[0] == n && |a| == 1 { assert a == [n]; }
    }
    Together(From(steps, failure, n), Either(head, deep), From(steps, failure, n + 1),
             [entry] + Below(steps[n], failure), [[n]] + Under(n, inside), Flatten(steps[n + 1..], failure), rest);
  }

  lemma {:induction false} BlocksTable(s: Step, failure: Option<string>, n: nat) returns (addresses: seq<Address>)
    requires n <= |Blocks(s, failure)|
    ensures Table(FromBlock(Blocks(s, failure), n), FlatBlocks(Blocks(s, failure)[n..]), addresses)
    decreases s, 1, |Blocks(s, failure)| - n
  {
    var blocks := Blocks(s, failure);
    if n == |blocks| {
      addresses := [];
    } else {
      var block := blocks[n];
      var first := StepsTable(block.0, block.1, 0);
      var rest := BlocksTable(s, failure, n + 1);
      addresses := Under(n, first) + rest;
      assert block.0[0..] == block.0 && blocks[n..][1..] == blocks[n + 1..];
      BlockTable(blocks, n, first, rest);
    }
  }

  lemma BlockTable(blocks: seq<Block>, n: nat, first: seq<Address>, rest: seq<Address>)
    requires n < |blocks|
    requires Table(From(blocks[n].0, blocks[n].1, 0), Flatten(blocks[n].0, blocks[n].1), first)
    requires Table(FromBlock(blocks, n + 1), FlatBlocks(blocks[n + 1..]), rest)
    ensures Table(FromBlock(blocks, n), Flatten(blocks[n].0, blocks[n].1) + FlatBlocks(blocks[n + 1..]),
                  Under(n, first) + rest)
  {
    hide Flatten, FlatBlocks;
    var block := blocks[n];
    var f := From(block.0, block.1, 0);
    var deep := Inside(n, f);
    Indented(deep, f, n, Flatten(block.0, block.1), first);
    forall a, b | deep(a).Some? && FromBlock(blocks, n + 1)(b).Some? ensures Before(a, b) {
      EarlierIndex(a, b);
    }
    forall a ensures FromBlock(blocks, n)(a) == if deep(a).Some? then deep(a) else FromBlock(blocks, n + 1)(a) {
      if a != [] && a[0] == n {
        assert AtBlock(blocks, a) == At(block.0, block.1, a[1..]) == f(a[1..]) == deep(a);
      }
    }
    Together(FromBlock(blocks, n), deep, FromBlock(blocks, n + 1), Flatten(block.0, block.1), Under(n, first),
             FlatBlocks(blocks[n + 1..]), rest);
  }

  // The flat list holds exactly what stands in the tree, in the order of writing, each step
  // with the failure binding of the innermost clause around it.
  lemma FlattenInOrder(steps: seq<Step>, failure: Option<string>) returns (addresses: seq<Address>)
    ensures Table((a: Address) => At(steps, failure, a), Flatten(steps, failure), addresses)
  {
    addresses := StepsTable(steps, failure, 0);
    assert steps[0..] == steps;
    var f := From(steps, failure, 0);
    forall a ensures f(a) == At(steps, failure, a) {}
  }
}
