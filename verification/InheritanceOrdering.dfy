/**
 The check that contract linearizations agree: an edge for every pair that some linearization orders, and
 a search for pairs with edges both ways.
 */
module InheritanceOrdering {
  type Contract = nat

  /** A linearization lists a contract and its bases, each once. */
  predicate Distinct(chain: seq<Contract>) {
    forall i: nat, j: nat :: i < j < |chain| ==> chain[i] != chain[j]
  }

  predicate Precedes(chain: seq<Contract>, x: Contract, y: Contract) {
    exists i: nat, j: nat :: i < j < |chain| && chain[i] == x && chain[j] == y
  }

  predicate Edge(chains: seq<seq<Contract>>, x: Contract, y: Contract) {
    exists k: nat :: k < |chains| && Precedes(chains[k], x, y)
  }

  /** Two linearizations order the pair oppositely. */
  predicate Opposed(chains: seq<seq<Contract>>, x: Contract, y: Contract) {
    Edge(chains, x, y) && Edge(chains, y, x)
  }

  lemma PrecedesIffSplit(chain: seq<Contract>, x: Contract, y: Contract)
    ensures Precedes(chain, x, y) <==> exists i: nat :: i < |chain| && chain[i] == x && y in chain[i + 1..]
  {
    if Precedes(chain, x, y) {
      var i: nat, j: nat :| i < j < |chain| && chain[i] == x && chain[j] == y;
      assert chain[i + 1..][j - i - 1] == y;
    }
    if i: nat :| i < |chain| && chain[i] == x && y in chain[i + 1..] {
      var k: nat :| k < |chain[i + 1..]| && chain[i + 1..][k] == y;
      assert chain[i + 1 + k] == y;
    }
  }

  // ----- the script -----

  /** The edges of one chain: each contract to every later one. */
  method AddChain(edges: set<(Contract, Contract)>, chain: seq<Contract>) returns (r: set<(Contract, Contract)>)
    ensures forall x: Contract, y: Contract :: (x, y) in r <==> (x, y) in edges || Precedes(chain, x, y)
  {
    r := edges;
    for i := 0 to |chain|
      invariant forall x: Contract, y: Contract :: (x, y) in r <==>
                  (x, y) in edges || exists a: nat :: a < i && chain[a] == x && y in chain[a + 1..]
    {
      var rest := chain[i + 1..];
      ghost var before := r;
      for j := 0 to |rest|
        invariant forall x: Contract, y: Contract :: (x, y) in r <==>
                    (x, y) in before || (x == chain[i] && y in rest[..j])
      {
        r := r + {(chain[i], rest[j])};
        assert rest[..j + 1] == rest[..j] + [rest[j]];
      }
      assert rest[..|rest|] == rest;
    }
    forall x: Contract, y: Contract
      ensures Precedes(chain, x, y) <==> exists a: nat :: a < |chain| && chain[a] == x && y in chain[a + 1..]
    {
      PrecedesIffSplit(chain, x, y);
    }
  }

  method BuildGraph(chains: seq<seq<Contract>>) returns (edges: set<(Contract, Contract)>)
    ensures forall x: Contract, y: Contract :: (x, y) in edges <==> Edge(chains, x, y)
  {
    edges := {};
    for k := 0 to |chains|
      invariant forall x: Contract, y: Contract :: (x, y) in edges <==> Edge(chains[..k], x, y)
    {
      edges := AddChain(edges, chains[k]);
      forall x: Contract, y: Contract
        ensures Edge(chains[..k + 1], x, y) <==> Edge(chains[..k], x, y) || Precedes(chains[k], x, y)
      {
        EdgeExtends(chains[..k], chains[k], x, y);
        assert chains[..k + 1] == chains[..k] + [chains[k]];
      }
    }
    assert chains[..|chains|] == chains;
  }

  lemma EdgeExtends(chains: seq<seq<Contract>>, chain: seq<Contract>, x: Contract, y: Contract)
    ensures Edge(chains + [chain], x, y) <==> Edge(chains, x, y) || Precedes(chain, x, y)
  {
    var more := chains + [chain];
    if k: nat :| k < |chains| && Precedes(chains[k], x, y) { assert Precedes(more[k], x, y); }
    if Precedes(chain, x, y) { assert Precedes(more[|chains|], x, y); }
  }

  /** The nodes of the graph, in whatever order it keeps them. */
  method Nodes(edges: set<(Contract, Contract)>) returns (nodes: seq<Contract>)
    ensures Distinct(nodes)
    ensures forall x: Contract, y: Contract :: (x, y) in edges ==> x in nodes && y in nodes
  {
    var todo := (set e <- edges :: e.0) + (set e <- edges :: e.1);
    assert forall x: Contract, y: Contract :: (x, y) in edges ==> x in todo && y in todo by {
      forall x: Contract, y: Contract | (x, y) in edges ensures x in todo && y in todo {
        assert (x, y).0 in (set e <- edges :: e.0) && (x, y).1 in (set e <- edges :: e.1);
      }
    }
    nodes := [];
    while todo != {}
      invariant Distinct(nodes) && forall x <- nodes :: x !in todo
      invariant forall x: Contract, y: Contract :: (x, y) in edges ==>
                  (x in todo || x in nodes) && (y in todo || y in nodes)
    {
      var x :| x in todo;
      nodes := nodes + [x];
      todo := todo - {x};
    }
  }

  /** Pairs are unordered: no pair is listed twice, in either order. */
  predicate EachOnce(pairs: seq<(Contract, Contract)>) {
    forall i: nat, j: nat :: i < j < |pairs| ==>
      pairs[i] != pairs[j] && (pairs[i].0 != pairs[j].1 || pairs[i].1 != pairs[j].0)
  }

  /**
   The pairs reported are exactly those that two linearizations order oppositely, each once; the exit code
   says whether there are any.
   */
  method FindConflicts(chains: seq<seq<Contract>>) returns (reported: seq<(Contract, Contract)>, exitCode: nat)
    ensures EachOnce(reported)
    ensures forall x: Contract, y: Contract ::
              (x, y) in reported || (y, x) in reported <==> x != y && Opposed(chains, x, y)
    ensures exitCode == if reported == [] then 0 else 1
  {
    var edges := BuildGraph(chains);
    var nodes := Nodes(edges);
    reported, exitCode := [], 0;
    ScanRow(edges, nodes, [], 0);
    for i := 0 to |nodes|
      invariant Scanned(edges, nodes, reported, i, i)
      invariant exitCode == if reported == [] then 0 else 1
    {
      ScanRow(edges, nodes, reported, i);
      for j := i + 1 to |nodes|
        invariant Scanned(edges, nodes, reported, i, j)
        invariant exitCode == if reported == [] then 0 else 1
      {
        ScanStep(edges, nodes, reported, i, j);
        if (nodes[i], nodes[j]) in edges && (nodes[j], nodes[i]) in edges {
          reported := reported + [(nodes[i], nodes[j])];
          exitCode := 1;
        }
      }
      ScanRow(edges, nodes, reported, i);
    }
    forall x: Contract, y: Contract
      ensures (x, y) in reported || (y, x) in reported <==> x != y && Opposed(chains, x, y)
    {
      ScanIsComplete(edges, nodes, reported, x, y);
    }
  }

  /** Node pairs up to `(i, j)`, row by row. */
  predicate Before(a: nat, b: nat, i: nat, j: nat) {
    a < b && (a < i || (a == i && b < j))
  }

  predicate Both(edges: set<(Contract, Contract)>, x: Contract, y: Contract) {
    (x, y) in edges && (y, x) in edges
  }

  /** So far exactly the pairs with edges both ways are reported, each once. */
  ghost predicate Scanned(edges: set<(Contract, Contract)>, nodes: seq<Contract>, reported: seq<(Contract, Contract)>,
                          i: nat, j: nat)
  {
    && Distinct(nodes) && EachOnce(reported)
    && (forall a: nat, b: nat :: b < |nodes| && Before(a, b, i, j) && Both(edges, nodes[a], nodes[b]) ==>
          (nodes[a], nodes[b]) in reported)
    && (forall p <- reported :: exists a: nat, b: nat ::
          b < |nodes| && Before(a, b, i, j) && Both(edges, nodes[a], nodes[b]) && p == (nodes[a], nodes[b]))
  }

  lemma ScanRow(edges: set<(Contract, Contract)>, nodes: seq<Contract>, reported: seq<(Contract, Contract)>, i: nat)
    requires Distinct(nodes)
    ensures Scanned(edges, nodes, [], 0, 0)
    ensures Scanned(edges, nodes, reported, i, i) ==> Scanned(edges, nodes, reported, i, i + 1)
    ensures Scanned(edges, nodes, reported, i, |nodes|) ==> Scanned(edges, nodes, reported, i + 1, i + 1)
  {
    if Scanned(edges, nodes, reported, i, i) { RowStarts(edges, nodes, reported, i); }
    if Scanned(edges, nodes, reported, i, |nodes|) { RowEnds(edges, nodes, reported, i); }
  }

  lemma RowStarts(edges: set<(Contract, Contract)>, nodes: seq<Contract>, reported: seq<(Contract, Contract)>, i: nat)
    requires Scanned(edges, nodes, reported, i, i)
    ensures Scanned(edges, nodes, reported, i, i + 1)
  {
    forall p <- reported ensures exists a: nat, b: nat ::
        b < |nodes| && Before(a, b, i, i + 1) && Both(edges, nodes[a], nodes[b]) && p == (nodes[a], nodes[b])
    {
      var a: nat, b: nat :|
        b < |nodes| && Before(a, b, i, i) && Both(edges, nodes[a], nodes[b]) && p == (nodes[a], nodes[b]);
      assert Before(a, b, i, i + 1);
    }
  }

  lemma RowEnds(edges: set<(Contract, Contract)>, nodes: seq<Contract>, reported: seq<(Contract, Contract)>, i: nat)
    requires Scanned(edges, nodes, reported, i, |nodes|)
    ensures Scanned(edges, nodes, reported, i + 1, i + 1)
  {
    forall p <- reported ensures exists a: nat, b: nat ::
        b < |nodes| && Before(a, b, i + 1, i + 1) && Both(edges, nodes[a], nodes[b]) && p == (nodes[a], nodes[b])
    {
      var a: nat, b: nat :|
        b < |nodes| && Before(a, b, i, |nodes|) && Both(edges, nodes[a], nodes[b]) && p == (nodes[a], nodes[b]);
      assert Before(a, b, i + 1, i + 1);
    }
  }

  /** What the inner loop does with the pair of nodes `i` and `j`. */
  function Report(edges: set<(Contract, Contract)>, nodes: seq<Contract>, reported: seq<(Contract, Contract)>,
                  i: nat, j: nat): seq<(Contract, Contract)>
    requires i < |nodes| && j < |nodes|
  {
    if Both(edges, nodes[i], nodes[j]) then reported + [(nodes[i], nodes[j])] else reported
  }

  lemma ScanStep(edges: set<(Contract, Contract)>, nodes: seq<Contract>, reported: seq<(Contract, Contract)>,
                 i: nat, j: nat)
    requires Scanned(edges, nodes, reported, i, j) && i < j < |nodes|
    ensures Scanned(edges, nodes, Report(edges, nodes, reported, i, j), i, j + 1)
  {
    var r := Report(edges, nodes, reported, i, j);
    forall k: nat | k < |reported|
      ensures reported[k] != (nodes[i], nodes[j]) && reported[k] != (nodes[j], nodes[i])
    {
      assert reported[k] in reported;
      var a: nat, b: nat :| b < |nodes| && Before(a, b, i, j) && reported[k] == (nodes[a], nodes[b]);
    }
    forall p <- r ensures exists a: nat, b: nat ::
        b < |nodes| && Before(a, b, i, j + 1) && Both(edges, nodes[a], nodes[b]) && p == (nodes[a], nodes[b])
    {
      if p in reported {
        var a: nat, b: nat :|
          b < |nodes| && Before(a, b, i, j) && Both(edges, nodes[a], nodes[b]) && p == (nodes[a], nodes[b]);
        assert Before(a, b, i, j + 1);
      } else {
        assert Before(i, j, i, j + 1);
      }
    }
    forall a: nat, b: nat | b < |nodes| && Before(a, b, i, j + 1) && Both(edges, nodes[a], nodes[b])
      ensures (nodes[a], nodes[b]) in r
    {
      assert Before(a, b, i, j) || (a == i && b == j);
    }
  }

  lemma ScanIsComplete(edges: set<(Contract, Contract)>, nodes: seq<Contract>, reported: seq<(Contract, Contract)>,
                       x: Contract, y: Contract)
    requires Scanned(edges, nodes, reported, |nodes|, |nodes|)
    requires forall x: Contract, y: Contract :: (x, y) in edges ==> x in nodes && y in nodes
    ensures (x, y) in reported || (y, x) in reported <==> x != y && Both(edges, x, y)
  {
    if x != y && Both(edges, x, y) {
      var a: nat :| a < |nodes| && nodes[a] == x;
      var b: nat :| b < |nodes| && nodes[b] == y;
      assert a < b ==> Before(a, b, |nodes|, |nodes|);
      assert b < a ==> Before(b, a, |nodes|, |nodes|) && Both(edges, y, x);
    }
  }

  /** The lines printed under a reported pair: one for each chain that has both, and which way round. */
  function Lines(chains: seq<seq<Contract>>, x: Contract, y: Contract): seq<bool> {
    if |chains| == 0 then []
    else
      Lines(chains[..|chains| - 1], x, y) +
      var chain := chains[|chains| - 1];
      if x in chain && y in chain then [IndexOf(chain, x) < IndexOf(chain, y)] else []
  }

  function IndexOf(chain: seq<Contract>, x: Contract): (i: nat)
    requires x in chain
    ensures i < |chain| && chain[i] == x && x !in chain[..i]
  {
    if chain[0] == x then 0
    else
      var i := 1 + IndexOf(chain[1..], x);
      assert chain[..i] == [chain[0]] + chain[1..][..i - 1];
      i
  }

  /** Under a reported pair there are lines of both kinds, and there are no such pairs otherwise. */
  lemma {:induction false} LinesShowConflict(chains: seq<seq<Contract>>, x: Contract, y: Contract)
    requires x != y && forall chain <- chains :: Distinct(chain)
    ensures true in Lines(chains, x, y) <==> Edge(chains, x, y)
    ensures false in Lines(chains, x, y) <==> Edge(chains, y, x)
  {
    if |chains| == 0 {
    } else {
      var before, chain := chains[..|chains| - 1], chains[|chains| - 1];
      assert chains == before + [chain] && chain in chains;
      LinesShowConflict(before, x, y);
      EdgeExtends(before, chain, x, y);
      EdgeExtends(before, chain, y, x);
      OrderInChain(chain, x, y);
      OrderInChain(chain, y, x);
    }
  }

  lemma OrderInChain(chain: seq<Contract>, x: Contract, y: Contract)
    requires Distinct(chain)
    ensures Precedes(chain, x, y) <==> x in chain && y in chain && IndexOf(chain, x) < IndexOf(chain, y)
  {
  }

  // ----- cycles -----

  /** A closed walk along the edges, of any length. */
  predicate Cycle(chains: seq<seq<Contract>>, c: seq<Contract>) {
    && |c| > 0
    && (forall i: nat :: i + 1 < |c| ==> Edge(chains, c[i], c[i + 1]))
    && Edge(chains, c[|c| - 1], c[0])
  }

  predicate Within(c: seq<Contract>, chain: seq<Contract>) {
    forall x <- c :: x in chain
  }

  ghost predicate Consistent(chains: seq<seq<Contract>>) {
    forall x: Contract, y: Contract :: x != y ==> !Opposed(chains, x, y)
  }

  /** Without opposed pairs, an edge inside a chain follows the chain. */
  lemma EdgeFollows(chains: seq<seq<Contract>>, chain: seq<Contract>, x: Contract, y: Contract)
    requires chain in chains && forall l <- chains :: Distinct(l)
    requires x in chain && y in chain && Edge(chains, x, y) && (x == y || !Opposed(chains, x, y))
    ensures IndexOf(chain, x) < IndexOf(chain, y)
  {
    var k: nat :| k < |chains| && Precedes(chains[k], x, y);
    assert Distinct(chains[k]);
    OrderInChain(chains[k], x, y);
    var n: nat :| n < |chains| && chains[n] == chain;
    OrderInChain(chain, y, x);
    assert Precedes(chains[n], y, x) ==> Edge(chains, y, x);
  }

  lemma {:induction false} WalkClimbs(chains: seq<seq<Contract>>, chain: seq<Contract>, c: seq<Contract>, i: nat)
    requires chain in chains && (forall l <- chains :: Distinct(l)) && Consistent(chains)
    requires Cycle(chains, c) && Within(c, chain) && i < |c|
    ensures IndexOf(chain, c[0]) <= IndexOf(chain, c[i])
  {
    if i == 0 {
    } else {
      WalkClimbs(chains, chain, c, i - 1);
      assert Edge(chains, c[i - 1], c[i - 1 + 1]);
      EdgeFollows(chains, chain, c[i - 1], c[i]);
    }
  }

  /**
   The script looks for cycles of length two only, and its comment asks for a proof that this is enough.
   It is, for cycles whose contracts all occur in one linearization: there is one, of whatever length, if
   and only if some pair is ordered oppositely.
   */
  lemma ShortCyclesSuffice(chains: seq<seq<Contract>>)
    requires forall chain <- chains :: Distinct(chain)
    ensures (exists chain: seq<Contract>, c: seq<Contract> :: chain in chains && Within(c, chain) && Cycle(chains, c))
            <==> !Consistent(chains)
  {
    if !Consistent(chains) {
      var x: Contract, y: Contract :| x != y && Opposed(chains, x, y);
      var k: nat :| k < |chains| && Precedes(chains[k], x, y);
      var c := [x, y];
      assert Cycle(chains, c) && Within(c, chains[k]) && chains[k] in chains;
    } else if chain: seq<Contract>, c: seq<Contract> :| chain in chains && Within(c, chain) && Cycle(chains, c) {
      WalkClimbs(chains, chain, c, |c| - 1);
      EdgeFollows(chains, chain, c[|c| - 1], c[0]);
      assert false;
    }
  }

  // ----- cycles across linearizations -----

  function After(c: seq<Contract>, i: nat): Contract
    requires i < |c|
  {
    if i + 1 < |c| then c[i + 1] else c[0]
  }

  /** From `x` to `y` by one edge of either chain, or by one edge of each. */
  ghost predicate Below(a: seq<Contract>, b: seq<Contract>, x: Contract, y: Contract) {
    || Precedes(a, x, y)
    || Precedes(b, x, y)
    || (exists z: Contract :: Precedes(a, x, z) && Precedes(b, z, y))
    || (exists z: Contract :: Precedes(b, x, z) && Precedes(a, z, y))
  }

  /** Two chains without an opposed pair. */
  ghost predicate Compatible(a: seq<Contract>, b: seq<Contract>) {
    && Distinct(a) && Distinct(b)
    && forall x: Contract, y: Contract :: Precedes(a, x, y) ==> !Precedes(b, y, x)
  }

  lemma PrecedesIsTransitive(a: seq<Contract>, x: Contract, y: Contract, z: Contract)
    requires Distinct(a) && Precedes(a, x, y) && Precedes(a, y, z)
    ensures Precedes(a, x, z)
  {
  }

  /** A pair that one chain orders and the other has is ordered by the other the same way. */
  lemma SameOrder(a: seq<Contract>, b: seq<Contract>, x: Contract, y: Contract)
    requires Compatible(a, b) && Precedes(b, x, y) && x in a && y in a
    ensures Precedes(a, x, y)
  {
    var i: nat :| i < |a| && a[i] == x;
    var j: nat :| j < |a| && a[j] == y;
    assert j < i ==> Precedes(a, y, x);
  }

  lemma StepBelow(a: seq<Contract>, b: seq<Contract>, x: Contract, y: Contract, w: Contract)
    requires Compatible(a, b) && Below(a, b, x, y) && Precedes(a, y, w)
    ensures Below(a, b, x, w)
  {
    if Precedes(a, x, y) {
      PrecedesIsTransitive(a, x, y, w);
    } else if Precedes(b, x, y) {
      assert Precedes(a, y, w);
    } else if z: Contract :| Precedes(a, x, z) && Precedes(b, z, y) {
      SameOrder(a, b, z, y);
      PrecedesIsTransitive(a, x, z, y);
      PrecedesIsTransitive(a, x, y, w);
    } else {
      var z: Contract :| Precedes(b, x, z) && Precedes(a, z, y);
      PrecedesIsTransitive(a, z, y, w);
    }
  }

  lemma BelowIsSymmetric(a: seq<Contract>, b: seq<Contract>, x: Contract, y: Contract)
    ensures Below(a, b, x, y) <==> Below(b, a, x, y)
  {
  }

  lemma NotBelowItself(a: seq<Contract>, b: seq<Contract>, x: Contract)
    requires Compatible(a, b)
    ensures !Below(a, b, x, x)
  {
  }

  ghost predicate OneOf(a: seq<Contract>, b: seq<Contract>, x: Contract, y: Contract) {
    Precedes(a, x, y) || Precedes(b, x, y)
  }

  ghost predicate EdgeAt(a: seq<Contract>, b: seq<Contract>, c: seq<Contract>, i: nat)
    requires i < |c|
  {
    OneOf(a, b, c[i], After(c, i))
  }

  lemma EitherStepBelow(a: seq<Contract>, b: seq<Contract>, x: Contract, y: Contract, w: Contract)
    requires Compatible(a, b) && Below(a, b, x, y) && OneOf(a, b, y, w)
    ensures Below(a, b, x, w)
  {
    if Precedes(a, y, w) {
      StepBelow(a, b, x, y, w);
    } else {
      CompatibleIsSymmetric(a, b);
      BelowIsSymmetric(a, b, x, y);
      StepBelow(b, a, x, y, w);
      BelowIsSymmetric(a, b, x, w);
    }
  }

  lemma CompatibleIsSymmetric(a: seq<Contract>, b: seq<Contract>)
    requires Compatible(a, b)
    ensures Compatible(b, a)
  {
  }

  lemma {:induction false} WalkBelow(a: seq<Contract>, b: seq<Contract>, c: seq<Contract>, i: nat)
    requires Compatible(a, b) && i < |c|
    requires forall j: nat :: j < |c| ==> EdgeAt(a, b, c, j)
    ensures Below(a, b, c[0], After(c, i))
  {
    assert EdgeAt(a, b, c, i);
    if i == 0 {
    } else {
      WalkBelow(a, b, c, i - 1);
      EitherStepBelow(a, b, c[0], c[i], After(c, i));
    }
  }

  /** Without opposed pairs no two linearizations have all the edges of a cycle: it takes three. */
  lemma CyclesTakeThree(chains: seq<seq<Contract>>, c: seq<Contract>, k: nat, l: nat)
    requires (forall chain <- chains :: Distinct(chain)) && Consistent(chains)
    requires Cycle(chains, c) && k < |chains| && l < |chains|
    ensures exists i: nat ::
              i < |c| && !Precedes(chains[k], c[i], After(c, i)) && !Precedes(chains[l], c[i], After(c, i))
  {
    var a, b := chains[k], chains[l];
    assert a in chains && b in chains;
    forall x: Contract, y: Contract | Precedes(a, x, y) ensures !Precedes(b, y, x) {
      assert x != y;
      assert Precedes(b, y, x) ==> Opposed(chains, x, y);
    }
    if forall i: nat :: i < |c| ==> EdgeAt(a, b, c, i) {
      WalkBelow(a, b, c, |c| - 1);
      NotBelowItself(a, b, c[0]);
      assert false;
    }
    var i: nat :| i < |c| && !EdgeAt(a, b, c, i);
  }

  /**
   Lists as the compiler makes them: each contract heads one, and the list of a contract has the list of each of
   its members in it, in the same order.
   */
  ghost predicate Linearizations(chains: seq<seq<Contract>>) {
    && (forall k: nat :: k < |chains| ==> |chains[k]| > 0 && Distinct(chains[k]) && HasBases(chains, chains[k]))
    && (forall k: nat, l: nat :: k < l < |chains| ==> chains[k][0] != chains[l][0])
  }

  ghost predicate HasBases(chains: seq<seq<Contract>>, chain: seq<Contract>) {
    forall i: nat :: i < |chain| ==> HasBase(chains, chain, chain[i])
  }

  ghost predicate HasBase(chains: seq<seq<Contract>>, chain: seq<Contract>, x: Contract) {
    exists l: nat :: l < |chains| && |chains[l]| > 0 && chains[l][0] == x && Embedded(chains[l], chain)
  }

  ghost predicate Embedded(base: seq<Contract>, chain: seq<Contract>) {
    && Within(base, chain)
    && forall i: nat, j: nat :: i < j < |base| ==> Precedes(chain, base[i], base[j])
  }

  /** Three contracts without bases, and three that each inherit two of them. */
  predicate IsRing(r: seq<seq<Contract>>) {
    && |r| == 6
    && r[0] == [1] && r[1] == [2] && r[2] == [3]
    && r[3] == [4, 1, 2] && r[4] == [5, 2, 3] && r[5] == [6, 3, 1]
  }

  lemma OwnBase(chains: seq<seq<Contract>>, k: nat)
    requires k < |chains| && |chains[k]| > 0
    ensures HasBase(chains, chains[k], chains[k][0])
  {
    var chain := chains[k];
    assert forall i: nat, j: nat :: i < j < |chain| ==> Precedes(chain, chain[i], chain[j]);
    assert Embedded(chain, chain);
  }

  lemma SingleBase(chains: seq<seq<Contract>>, l: nat, chain: seq<Contract>, x: Contract)
    requires l < |chains| && chains[l] == [x] && x in chain
    ensures HasBase(chains, chain, x)
  {
    assert Embedded(chains[l], chain);
  }

  /** A list of a contract and of two contracts without bases. */
  lemma TripleRow(chains: seq<seq<Contract>>, k: nat, l: nat, m: nat, x: Contract, y: Contract, z: Contract)
    requires k < |chains| && l < |chains| && m < |chains|
    requires chains[k] == [x, y, z] && chains[l] == [y] && chains[m] == [z]
    ensures HasBases(chains, chains[k])
  {
    var chain := chains[k];
    assert chain[0] == x && chain[1] == y && chain[2] == z;
    OwnBase(chains, k);
    SingleBase(chains, l, chain, y);
    SingleBase(chains, m, chain, z);
    forall i: nat | i < |chain| ensures HasBase(chains, chain, chain[i]) { assert i == 0 || i == 1 || i == 2; }
  }

  predicate WellMade(chain: seq<Contract>, head: Contract) {
    |chain| > 0 && chain[0] == head && Distinct(chain)
  }

  lemma RingLists(r: seq<seq<Contract>>, k: nat)
    requires IsRing(r) && k < 6
    ensures WellMade(r[k], k + 1) && HasBases(r, r[k])
  {
    if k < 3 {
      OwnBase(r, k);
    } else if k == 3 {
      TripleRow(r, 3, 0, 1, 4, 1, 2);
    } else if k == 4 {
      TripleRow(r, 4, 1, 2, 5, 2, 3);
    } else {
      TripleRow(r, 5, 2, 0, 6, 3, 1);
    }
  }

  lemma RingIsLinearized(r: seq<seq<Contract>>)
    requires IsRing(r)
    ensures Linearizations(r)
  {
    forall k: nat | k < |r| ensures WellMade(r[k], k + 1) && HasBases(r, r[k]) { RingLists(r, k); }
  }

  /** What orders two contracts of the ring. */
  predicate RingOrder(x: Contract, y: Contract) {
    || (x == 4 && (y == 1 || y == 2)) || (x == 1 && y == 2)
    || (x == 5 && (y == 2 || y == 3)) || (x == 2 && y == 3)
    || (x == 6 && (y == 3 || y == 1)) || (x == 3 && y == 1)
  }

  lemma RingEdges(r: seq<seq<Contract>>, x: Contract, y: Contract)
    requires IsRing(r)
    ensures Edge(r, x, y) <==> RingOrder(x, y)
  {
    TripleEdges(4, 1, 2, x, y);
    TripleEdges(5, 2, 3, x, y);
    TripleEdges(6, 3, 1, x, y);
    if Edge(r, x, y) {
      var k: nat :| k < |r| && Precedes(r[k], x, y);
      assert k >= 3;
    } else {
      assert !Precedes(r[3], x, y) && !Precedes(r[4], x, y) && !Precedes(r[5], x, y);
    }
  }

  lemma TripleEdges(a: Contract, b: Contract, c: Contract, x: Contract, y: Contract)
    ensures Precedes([a, b, c], x, y) <==> (x == a && (y == b || y == c)) || (x == b && y == c)
  {
    var t := [a, b, c];
    assert t[0] == a && t[1] == b && t[2] == c;
    if Precedes(t, x, y) {
      var i: nat, j: nat :| i < j < |t| && t[i] == x && t[j] == y;
      assert (i == 0 && j == 1) || (i == 0 && j == 2) || (i == 1 && j == 2);
    }
  }

  lemma RingIsConsistent(r: seq<seq<Contract>>)
    requires IsRing(r)
    ensures Consistent(r)
  {
    forall x: Contract, y: Contract | x != y ensures !Opposed(r, x, y) {
      RingEdges(r, x, y);
      RingEdges(r, y, x);
    }
  }

  /** Three are enough: a family of linearizations can have a cycle without any opposed pair. */
  lemma LongCyclesExist() returns (chains: seq<seq<Contract>>, c: seq<Contract>)
    ensures Linearizations(chains) && Consistent(chains)
    ensures Cycle(chains, c) && |c| == 3
  {
    chains, c := [[1], [2], [3], [4, 1, 2], [5, 2, 3], [6, 3, 1]], [1, 2, 3];
    assert IsRing(chains);
    RingIsLinearized(chains);
    RingIsConsistent(chains);
    RingEdges(chains, 1, 2);
    RingEdges(chains, 2, 3);
    RingEdges(chains, 3, 1);
  }
}
