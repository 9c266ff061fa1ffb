/** When the rendering walk ends, on graphs that may contain cycles: every node that is rendered uses up a
    record, but a skipped one uses up nothing. */
module RenderingTermination {
  import opened Options
  import opened TreeRendering

  datatype Shape = Shape(quiet: bool, closed: bool, kids: seq<nat>)
  type Graph = nat -> Shape

  predicate Skipped(shape: Shape) {
    shape.quiet && |shape.kids| <= 1
  }

  /** The number of records after the walk of a node, or None if it recurses deeper than `fuel`. */
  function Count(g: Graph, node: nat, depth: nat, count: nat, fuel: nat): (r: Option<nat>)
    ensures r.Some? ==> r.value >= count
    decreases fuel, 0
  {
    if count >= MAX_NODES || depth > MAX_DEPTH then Some(count)
    else if fuel == 0 then None
    else if Skipped(g(node)) then CountAll(g, g(node).kids, depth, count, fuel - 1)
    else if g(node).closed then Some(count + 1)
    else CountAll(g, g(node).kids, depth + 1, count + 1, fuel - 1)
  }

  function CountAll(g: Graph, kids: seq<nat>, depth: nat, count: nat, fuel: nat): (r: Option<nat>)
    ensures r.Some? ==> r.value >= count
    decreases fuel, |kids|
  {
    if kids == [] then Some(count)
    else
      var first := Count(g, kids[0], depth, count, fuel);
      if first.None? then None else CountAll(g, kids[1..], depth, first.value, fuel)
  }

  ghost predicate Ends(g: Graph, node: nat, depth: nat, count: nat) {
    exists fuel :: Count(g, node, depth, count, fuel).Some?
  }

  lemma {:induction false} MoreFuel(g: Graph, node: nat, depth: nat, count: nat, fuel: nat, more: nat)
    requires Count(g, node, depth, count, fuel).Some? && fuel <= more
    ensures Count(g, node, depth, count, more) == Count(g, node, depth, count, fuel)
    decreases fuel, 0
  {
    if count < MAX_NODES && depth <= MAX_DEPTH {
      if Skipped(g(node)) {
        MoreFuelAll(g, g(node).kids, depth, count, fuel - 1, more - 1);
      } else if !g(node).closed {
        MoreFuelAll(g, g(node).kids, depth + 1, count + 1, fuel - 1, more - 1);
      }
    }
  }

  lemma {:induction false} MoreFuelAll(g: Graph, kids: seq<nat>, depth: nat, count: nat, fuel: nat, more: nat)
    requires CountAll(g, kids, depth, count, fuel).Some? && fuel <= more
    ensures CountAll(g, kids, depth, count, more) == CountAll(g, kids, depth, count, fuel)
    decreases fuel, |kids|
  {
    if kids != [] {
      MoreFuel(g, kids[0], depth, count, fuel, more);
      MoreFuelAll(g, kids[1..], depth, Count(g, kids[0], depth, count, fuel).value, fuel, more);
    }
  }

  // ----- chains of skipped nodes

  /** The node and the next `n` - 1 only children below it are skipped. */
  predicate SkippedFor(g: Graph, node: nat, n: nat)
    decreases n
  {
    n == 0 || (Skipped(g(node)) && g(node).kids != [] && SkippedFor(g, g(node).kids[0], n - 1))
  }

  /** The only children never lead out of skipped nodes: among finitely many nodes, they run in a cycle. */
  ghost predicate Endless(g: Graph, node: nat) {
    forall n :: SkippedFor(g, node, n)
  }

  lemma EndlessBelow(g: Graph, node: nat)
    requires Endless(g, node)
    ensures Skipped(g(node)) && g(node).kids != [] && Endless(g, g(node).kids[0])
  {
    assert SkippedFor(g, node, 1);
    forall n: nat ensures SkippedFor(g, g(node).kids[0], n) {
      assert SkippedFor(g, node, n + 1);
    }
  }

  /** The walk comes, at most `n` levels down and with room left, to such a node. */
  ghost predicate Meets(g: Graph, node: nat, depth: nat, count: nat, n: nat)
    decreases n, 0
  {
    && count < MAX_NODES && depth <= MAX_DEPTH
    && (Endless(g, node)
        || (n > 0 && if Skipped(g(node)) then MeetsBelow(g, g(node).kids, depth, count, n - 1)
                     else !g(node).closed && MeetsBelow(g, g(node).kids, depth + 1, count + 1, n - 1)))
  }

  ghost predicate MeetsBelow(g: Graph, kids: seq<nat>, depth: nat, count: nat, n: nat)
    decreases n, |kids|
  {
    && kids != []
    && (Meets(g, kids[0], depth, count, n)
        || exists fuel: nat :: Count(g, kids[0], depth, count, fuel).Some?
                               && MeetsBelow(g, kids[1..], depth, Count(g, kids[0], depth, count, fuel).value, n))
  }

  lemma {:induction false} MeetingNeverEnds(g: Graph, node: nat, depth: nat, count: nat, n: nat, fuel: nat)
    requires Meets(g, node, depth, count, n)
    ensures Count(g, node, depth, count, fuel).None?
    decreases fuel, 0
  {
    if fuel > 0 {
      if Endless(g, node) {
        EndlessBelow(g, node);
        MeetingNeverEnds(g, g(node).kids[0], depth, count, 0, fuel - 1);
      } else if Skipped(g(node)) {
        MeetingBelowNeverEnds(g, g(node).kids, depth, count, n - 1, fuel - 1);
      } else {
        MeetingBelowNeverEnds(g, g(node).kids, depth + 1, count + 1, n - 1, fuel - 1);
      }
    }
  }

  lemma {:induction false} MeetingBelowNeverEnds(g: Graph, kids: seq<nat>, depth: nat, count: nat, n: nat, fuel: nat)
    requires MeetsBelow(g, kids, depth, count, n)
    ensures CountAll(g, kids, depth, count, fuel).None?
    decreases fuel, |kids|
  {
    if Meets(g, kids[0], depth, count, n) {
      MeetingNeverEnds(g, kids[0], depth, count, n, fuel);
    } else if Count(g, kids[0], depth, count, fuel).Some? {
      var enough: nat :| Count(g, kids[0], depth, count, enough).Some?
                         && MeetsBelow(g, kids[1..], depth, Count(g, kids[0], depth, count, enough).value, n);
      MoreFuel(g, kids[0], depth, count, fuel, fuel + enough);
      MoreFuel(g, kids[0], depth, count, enough, fuel + enough);
      MeetingBelowNeverEnds(g, kids[1..], depth, Count(g, kids[0], depth, count, fuel).value, n, fuel);
    }
  }

  function Room(count: nat): nat {
    if count < MAX_NODES then MAX_NODES - count else 0
  }

  /** A chain of skipped nodes that leads out takes the walk to a node that is rendered, or to an end. */
  lemma {:induction false} ChainEnds(g: Graph, node: nat, depth: nat, count: nat, n: nat) returns (fuel: nat)
    requires forall m: nat :: !Meets(g, node, depth, count, m)
    requires !SkippedFor(g, node, n)
    ensures Count(g, node, depth, count, fuel).Some?
    decreases Room(count), 0, n
  {
    fuel := 1;
    var kids := g(node).kids;
    if count < MAX_NODES && depth <= MAX_DEPTH && kids != [] {
      if Skipped(g(node)) {
        forall m: nat ensures !Meets(g, kids[0], depth, count, m) {
          if Meets(g, kids[0], depth, count, m) {
            assert MeetsBelow(g, kids, depth, count, m);
            assert Meets(g, node, depth, count, m + 1);
          }
        }
        fuel := ChainEnds(g, kids[0], depth, count, n - 1);
        assert kids[1..] == [];
        assert CountAll(g, kids, depth, count, fuel).Some?;
        fuel := fuel + 1;
      } else if !g(node).closed {
        var below, counted := depth + 1, count + 1;
        forall m: nat ensures !MeetsBelow(g, kids, below, counted, m) {
          assert !Meets(g, node, depth, count, m + 1);
        }
        fuel := KidsEnd(g, kids, below, counted);
        fuel := fuel + 1;
      }
    }
  }

  lemma {:induction false} KidsEnd(g: Graph, kids: seq<nat>, depth: nat, count: nat) returns (fuel: nat)
    requires forall m: nat :: !MeetsBelow(g, kids, depth, count, m)
    ensures CountAll(g, kids, depth, count, fuel).Some?
    decreases Room(count), 1, |kids|
  {
    fuel := 0;
    if kids != [] {
      var first := FirstEnds(g, kids, depth, count);
      var after := Count(g, kids[0], depth, count, first).value;
      forall m: nat ensures !MeetsBelow(g, kids[1..], depth, after, m) {
        assert !MeetsBelow(g, kids, depth, count, m);
      }
      var rest := KidsEnd(g, kids[1..], depth, after);
      fuel := first + rest;
      MoreFuel(g, kids[0], depth, count, first, fuel);
      MoreFuelAll(g, kids[1..], depth, after, rest, fuel);
    }
  }

  lemma {:induction false} FirstEnds(g: Graph, kids: seq<nat>, depth: nat, count: nat) returns (fuel: nat)
    requires kids != [] && forall m: nat :: !MeetsBelow(g, kids, depth, count, m)
    ensures Count(g, kids[0], depth, count, fuel).Some?
    decreases Room(count), 1, 0
  {
    fuel := 0;
    if count < MAX_NODES && depth <= MAX_DEPTH {
      forall m: nat ensures !Meets(g, kids[0], depth, count, m) {
        assert !MeetsBelow(g, kids, depth, count, m);
      }
      assert !Meets(g, kids[0], depth, count, 0);
      var n: nat :| !SkippedFor(g, kids[0], n);
      fuel := ChainEnds(g, kids[0], depth, count, n);
    }
  }

  ghost predicate MeetsEndless(g: Graph, node: nat, depth: nat, count: nat) {
    exists n: nat :: Meets(g, node, depth, count, n)
  }

  /** The walk, from wherever it stands, ends if and only if it comes to no endless chain of skipped nodes
      while there is room. */
  lemma WalkEndsIff(g: Graph, node: nat, depth: nat, count: nat)
    ensures Ends(g, node, depth, count) <==> !MeetsEndless(g, node, depth, count)
  {
    if MeetsEndless(g, node, depth, count) {
      var n: nat :| Meets(g, node, depth, count, n);
      forall fuel: nat ensures Count(g, node, depth, count, fuel).None? {
        MeetingNeverEnds(g, node, depth, count, n, fuel);
      }
    } else if count < MAX_NODES && depth <= MAX_DEPTH {
      assert !Meets(g, node, depth, count, 0);
      var n: nat :| !SkippedFor(g, node, n);
      var fuel := ChainEnds(g, node, depth, count, n);
    } else {
      assert Count(g, node, depth, count, 0).Some?;
    }
  }

  // ----- endless chains are cycles

  /** The only child `n` levels down. */
  function Below(g: Graph, node: nat, n: nat): nat
    decreases n
  {
    if n == 0 || g(node).kids == [] then node else Below(g, g(node).kids[0], n - 1)
  }

  lemma {:induction false} BelowAdds(g: Graph, node: nat, m: nat, n: nat)
    requires SkippedFor(g, node, m)
    ensures Below(g, node, m + n) == Below(g, Below(g, node, m), n)
    ensures SkippedFor(g, node, m + n) <==> SkippedFor(g, Below(g, node, m), n)
    decreases m
  {
    if m > 0 {
      BelowAdds(g, g(node).kids[0], m - 1, n);
    }
  }

  lemma {:induction false} SkippedForLess(g: Graph, node: nat, m: nat, n: nat)
    requires SkippedFor(g, node, m) && n <= m
    ensures SkippedFor(g, node, n)
    decreases n
  {
    if n > 0 {
      SkippedForLess(g, g(node).kids[0], m - 1, n - 1);
    }
  }

  lemma {:induction false} CycleIsEndless(g: Graph, node: nat, length: nat, n: nat)
    requires length > 0 && SkippedFor(g, node, length) && Below(g, node, length) == node
    ensures SkippedFor(g, node, n)
    decreases n
  {
    if n >= length {
      CycleIsEndless(g, node, length, n - length);
      BelowAdds(g, node, length, n - length);
    } else {
      SkippedForLess(g, node, length, n);
    }
  }

  lemma {:induction false} Pigeonhole(f: nat -> nat, n: nat, values: set<nat>)
    requires (forall i: nat :: i < n ==> f(i) in values) && |values| < n
    ensures exists i: nat, j: nat :: i < j < n && f(i) == f(j)
    decreases n
  {
    var last := n - 1;
    if i: nat :| i < last && f(i) == f(last) {
      assert i < last < n && f(i) == f(last);
    } else {
      Pigeonhole(f, last, values - {f(last)});
    }
  }

  lemma {:induction false} BelowStays(g: Graph, node: nat, n: nat, nodes: set<nat>)
    requires node in nodes && forall x, k :: x in nodes && k in g(x).kids ==> k in nodes
    ensures Below(g, node, n) in nodes
    decreases n
  {
    if n > 0 && g(node).kids != [] {
      BelowStays(g, g(node).kids[0], n - 1, nodes);
    }
  }

  /** The only children lead, through skipped nodes, into a cycle of skipped nodes. */
  ghost predicate RunsIntoCycle(g: Graph, node: nat) {
    exists i: nat, j: nat :: i < j && SkippedFor(g, node, j) && Below(g, node, i) == Below(g, node, j)
  }

  lemma EndlessRunsIntoCycle(g: Graph, node: nat, nodes: set<nat>)
    requires node in nodes && forall x, k :: x in nodes && k in g(x).kids ==> k in nodes
    requires Endless(g, node)
    ensures RunsIntoCycle(g, node)
  {
    var at := (n: nat) => Below(g, node, n);
    forall n: nat ensures at(n) in nodes {
      BelowStays(g, node, n, nodes);
    }
    Pigeonhole(at, |nodes| + 1, nodes);
    var i: nat, j: nat :| i < j < |nodes| + 1 && at(i) == at(j);
    assert SkippedFor(g, node, j) && Below(g, node, i) == Below(g, node, j);
  }

  lemma CycleBelowIsEndless(g: Graph, node: nat, i: nat, j: nat, n: nat)
    requires i < j && SkippedFor(g, node, j) && Below(g, node, i) == Below(g, node, j)
    ensures SkippedFor(g, node, n)
  {
    SkippedForLess(g, node, j, i);
    BelowAdds(g, node, i, j - i);
    CycleIsEndless(g, Below(g, node, i), j - i, n);
    BelowAdds(g, node, i, n);
    SkippedForLess(g, node, i + n, n);
  }

  /** Among finitely many nodes a chain is endless exactly if it runs into a cycle of skipped nodes. */
  lemma EndlessIffCycle(g: Graph, node: nat, nodes: set<nat>)
    requires node in nodes && forall x, k :: x in nodes && k in g(x).kids ==> k in nodes
    ensures Endless(g, node) <==> RunsIntoCycle(g, node)
  {
    if Endless(g, node) {
      EndlessRunsIntoCycle(g, node, nodes);
    } else if RunsIntoCycle(g, node) {
      var i: nat, j: nat :| i < j && SkippedFor(g, node, j) && Below(g, node, i) == Below(g, node, j);
      forall n: nat ensures SkippedFor(g, node, n) {
        CycleBelowIsEndless(g, node, i, j, n);
      }
    }
  }

  /** The shortest one: a quiet node that is its own only child. */
  lemma OwnChildNeverEnds(g: Graph, node: nat)
    requires g(node) == Shape(true, false, [node])
    ensures !Ends(g, node, 0, 0)
  {
    forall n: nat ensures SkippedFor(g, node, n) {
      assert SkippedFor(g, node, 1) && Below(g, node, 1) == node;
      CycleIsEndless(g, node, 1, n);
    }
    assert Meets(g, node, 0, 0, 0);
    WalkEndsIff(g, node, 0, 0);
  }
}
