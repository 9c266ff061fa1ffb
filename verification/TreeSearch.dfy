/** The bounded search for the first descendant that satisfies a predicate, on graphs that may share
    nodes or contain cycles. Nodes stand for object identities. */
module TreeSearch {
  import opened Options
  import opened Sequences

  type Graph = nat -> seq<nat>
  datatype Entry = Entry(node: nat, depth: nat)

  function ChildEntries(kids: seq<nat>, depth: nat): seq<Entry> {
    if kids == [] then [] else ChildEntries(kids[1..], depth) + [Entry(kids[0], depth)]
  }

  /** The entries pushed for a visited node: its children in reverse, unless it is as deep as allowed. */
  function Pushed(children: Graph, entry: Entry, maxDepth: int): seq<Entry> {
    if entry.depth >= maxDepth then [] else ChildEntries(children(entry.node), entry.depth + 1)
  }

  /** The nodes the search visits from here on, in order, when the predicate accepts none. */
  function Visits(children: Graph, stack: seq<Entry>, seen: set<nat>, budget: nat, maxDepth: int): seq<nat>
    decreases budget, |stack|
  {
    if stack == [] || budget == 0 then []
    else
      var top, rest := stack[|stack| - 1], stack[..|stack| - 1];
      if top.node in seen then Visits(children, rest, seen, budget, maxDepth)
      else [top.node] + Visits(children, rest + Pushed(children, top, maxDepth), seen + {top.node}, budget - 1, maxDepth)
  }

  function FirstMatch(nodes: seq<nat>, accepts: nat -> bool): Option<nat> {
    if nodes == [] then None
    else if accepts(nodes[0]) then Some(nodes[0])
    else FirstMatch(nodes[1..], accepts)
  }

  /** The loop. It ends on every graph, since each turn spends budget or shrinks the stack, and asks the
      predicate at most `maxNodes` times. */
  method FirstDescendant(root: nat, children: Graph, accepts: nat -> bool, maxNodes: nat, maxDepth: int)
      returns (found: Option<nat>, calls: nat)
    ensures found == FirstMatch(Visits(children, [Entry(root, 0)], {}, maxNodes, maxDepth), accepts)
    ensures calls <= maxNodes
  {
    var stack := [Entry(root, 0)];
    var seen: set<nat> := {};
    ghost var all := Visits(children, stack, seen, maxNodes, maxDepth);
    calls := 0;
    while stack != [] && calls < maxNodes
      invariant calls <= maxNodes
      invariant FirstMatch(all, accepts)
             == FirstMatch(Visits(children, stack, seen, maxNodes - calls, maxDepth), accepts)
      decreases maxNodes - calls, |stack|
    {
      var top := stack[|stack| - 1];
      stack := stack[..|stack| - 1];
      if top.node !in seen {
        seen := seen + {top.node};
        calls := calls + 1;
        if accepts(top.node) {
          return Some(top.node), calls;
        }
        stack := stack + Pushed(children, top, maxDepth);
      }
    }
    found := None;
  }

  /** What one turn of the loop does to a stack whose top has not been seen. */
  lemma VisitTop(children: Graph, rest: seq<Entry>, top: Entry, seen: set<nat>, budget: nat, maxDepth: int)
    requires budget > 0 && top.node !in seen
    ensures Visits(children, rest + [top], seen, budget, maxDepth)
         == [top.node] + Visits(children, rest + Pushed(children, top, maxDepth), seen + {top.node}, budget - 1, maxDepth)
  {
    assert (rest + [top])[..|rest|] == rest;
  }

  // ----- on any graph

  ghost predicate WithinDepth(children: Graph, root: nat, node: nat, depth: nat)
    decreases depth
  {
    node == root || (depth > 0 && exists parent :: WithinDepth(children, root, parent, depth - 1)
                                                   && node in children(parent))
  }

  lemma {:induction false} WithinDepthMonotone(children: Graph, root: nat, node: nat, depth: nat, more: nat)
    requires WithinDepth(children, root, node, depth) && depth <= more
    ensures WithinDepth(children, root, node, more)
    decreases depth
  {
    if node != root {
      var parent :| WithinDepth(children, root, parent, depth - 1) && node in children(parent);
      WithinDepthMonotone(children, root, parent, depth - 1, more - 1);
    }
  }

  ghost predicate StackWithin(children: Graph, root: nat, stack: seq<Entry>, maxDepth: nat) {
    forall i :: 0 <= i < |stack| ==>
      stack[i].depth <= maxDepth && WithinDepth(children, root, stack[i].node, stack[i].depth)
  }

  lemma {:induction false} ChildEntriesAre(kids: seq<nat>, depth: nat)
    ensures forall e :: e in ChildEntries(kids, depth) ==> e.depth == depth && e.node in kids
  {
    if kids != [] {
      ChildEntriesAre(kids[1..], depth);
    }
  }

  /** On every graph the visited nodes are distinct, at most `budget` of them, and lie within the depth
      limit of the root. */
  lemma {:induction false} VisitsAreBounded(children: Graph, root: nat, stack: seq<Entry>, seen: set<nat>, budget: nat,
                                            maxDepth: nat)
    requires StackWithin(children, root, stack, maxDepth)
    ensures var nodes := Visits(children, stack, seen, budget, maxDepth);
            && |nodes| <= budget
            && (forall i :: 0 <= i < |nodes| ==>
                  nodes[i] !in seen && WithinDepth(children, root, nodes[i], maxDepth))
            && (forall i, j :: 0 <= i < j < |nodes| ==> nodes[i] != nodes[j])
    decreases budget, |stack|
  {
    if stack != [] && budget > 0 {
      var top, rest := stack[|stack| - 1], stack[..|stack| - 1];
      if top.node in seen {
        VisitsAreBounded(children, root, rest, seen, budget, maxDepth);
      } else {
        var pushed := Pushed(children, top, maxDepth);
        ChildEntriesAre(children(top.node), top.depth + 1);
        forall e | e in pushed ensures e.depth <= maxDepth && WithinDepth(children, root, e.node, e.depth) {
          assert WithinDepth(children, root, top.node, top.depth) && e.node in children(top.node);
        }
        VisitsAreBounded(children, root, rest + pushed, seen + {top.node}, budget - 1, maxDepth);
        WithinDepthMonotone(children, root, top.node, top.depth, maxDepth);
      }
    }
  }

  // ----- what the depth limit hides, on any graph

  /** The visits with the depth at which each node is met. */
  function Met(children: Graph, stack: seq<Entry>, seen: set<nat>, budget: nat, maxDepth: int): seq<Entry>
    decreases budget, |stack|
  {
    if stack == [] || budget == 0 then []
    else
      var top, rest := stack[|stack| - 1], stack[..|stack| - 1];
      if top.node in seen then Met(children, rest, seen, budget, maxDepth)
      else [top] + Met(children, rest + Pushed(children, top, maxDepth), seen + {top.node}, budget - 1, maxDepth)
  }

  lemma {:induction false} MetAreVisits(children: Graph, stack: seq<Entry>, seen: set<nat>, budget: nat, maxDepth: int)
    ensures var met, visits := Met(children, stack, seen, budget, maxDepth), Visits(children, stack, seen, budget, maxDepth);
            |met| == |visits| && forall i :: 0 <= i < |met| ==> met[i].node == visits[i]
    decreases budget, |stack|
  {
    if stack != [] && budget > 0 {
      var top, rest := stack[|stack| - 1], stack[..|stack| - 1];
      if top.node in seen {
        MetAreVisits(children, rest, seen, budget, maxDepth);
      } else {
        MetAreVisits(children, rest + Pushed(children, top, maxDepth), seen + {top.node}, budget - 1, maxDepth);
      }
    }
  }

  lemma {:induction false} EveryChildIsPushed(kids: seq<nat>, depth: nat)
    ensures forall k :: k in kids ==> Entry(k, depth) in ChildEntries(kids, depth)
  {
    if kids != [] {
      EveryChildIsPushed(kids[1..], depth);
    }
  }

  lemma PushedAre(children: Graph, top: Entry, maxDepth: nat)
    ensures forall e :: e in Pushed(children, top, maxDepth) <==>
              top.depth < maxDepth && e.depth == top.depth + 1 && e.node in children(top.node)
  {
    ChildEntriesAre(children(top.node), top.depth + 1);
    EveryChildIsPushed(children(top.node), top.depth + 1);
    forall e: Entry | top.depth < maxDepth && e.depth == top.depth + 1 && e.node in children(top.node)
      ensures e in Pushed(children, top, maxDepth)
    {
      assert e == Entry(e.node, top.depth + 1);
    }
  }

  /** The set holds whatever lies within the depth limit. */
  ghost predicate HoldsLevels(s: set<nat>, children: Graph, root: nat, maxDepth: nat) {
    forall n :: WithinDepth(children, root, n, maxDepth) ==> n in s
  }

  lemma SubsetIsSmaller(a: set<nat>, b: set<nat>, x: nat)
    requires a <= b && x in b && x !in a
    ensures |a| < |b| && |a + {x}| == |a| + 1
  {
    assert b == a + (b - a);
    assert x in b - a;
  }

  /** Entries that hold whatever is pushed for them, down to the limit, with their nodes in `within`. */
  ghost predicate Inside(children: Graph, inside: iset<Entry>, within: set<nat>, maxDepth: nat) {
    && (forall e :: e in inside ==> e.node in within)
    && (forall e, k :: e in inside && e.depth < maxDepth && k in children(e.node) ==> Entry(k, e.depth + 1) in inside)
  }

  /** The search is under way: there is budget for all nodes not seen yet, and nothing on the stack is
      deeper than the number of nodes seen. */
  ghost predicate Underway(inside: iset<Entry>, within: set<nat>, stack: seq<Entry>, seen: set<nat>, budget: nat) {
    && seen <= within && |within - seen| <= budget
    && forall e :: e in stack ==> e in inside && e.depth <= |seen|
  }

  lemma UnderwayAfterVisit(children: Graph, inside: iset<Entry>, within: set<nat>, rest: seq<Entry>, top: Entry,
                           seen: set<nat>, budget: nat, maxDepth: nat)
    requires Inside(children, inside, within, maxDepth) && Underway(inside, within, rest + [top], seen, budget)
    requires top.node !in seen
    ensures budget > 0 && top.depth < |within|
    ensures Underway(inside, within, rest + Pushed(children, top, maxDepth), seen + {top.node}, budget - 1)
  {
    var stack, next := rest + [top], rest + Pushed(children, top, maxDepth);
    assert stack[|rest|] == top;
    assert within - seen == (within - (seen + {top.node})) + {top.node};
    SubsetIsSmaller(seen, within, top.node);
    PushedAre(children, top, maxDepth);
    forall e | e in next ensures e in inside && e.depth <= |seen + {top.node}| {
      if e in rest {
        assert e in stack;
      } else {
        assert e == Entry(e.node, top.depth + 1);
      }
    }
  }

  /** With budget enough the search looks at everything on the stack. */
  lemma {:induction false} VisitsCoverStack(children: Graph, inside: iset<Entry>, within: set<nat>, stack: seq<Entry>,
                                            seen: set<nat>, budget: nat, maxDepth: nat, e: Entry)
    requires Inside(children, inside, within, maxDepth) && Underway(inside, within, stack, seen, budget) && e in stack
    ensures e.node in seen || e.node in Visits(children, stack, seen, budget, maxDepth)
    decreases budget, |stack|
  {
    var top, rest := stack[|stack| - 1], stack[..|stack| - 1];
    assert stack == rest + [top];
    if top.node in seen {
      if e in rest {
        VisitsCoverStack(children, inside, within, rest, seen, budget, maxDepth, e);
      }
    } else {
      UnderwayAfterVisit(children, inside, within, rest, top, seen, budget, maxDepth);
      VisitTop(children, rest, top, seen, budget, maxDepth);
      if e in rest {
        var next := rest + Pushed(children, top, maxDepth);
        VisitsCoverStack(children, inside, within, next, seen + {top.node}, budget - 1, maxDepth, e);
      }
    }
  }

  lemma MetAfterTop(children: Graph, stack: seq<Entry>, seen: set<nat>, budget: nat, maxDepth: int, rest: seq<Entry>,
                    top: Entry, e: Entry)
    requires stack == rest + [top] && budget > 0 && top.node !in seen && e != top
    requires e in Met(children, stack, seen, budget, maxDepth)
    ensures e in Met(children, rest + Pushed(children, top, maxDepth), seen + {top.node}, budget - 1, maxDepth)
  {
    assert stack[..|rest|] == rest;
  }

  /** What is seen after a visit of the top, or visited then, is seen before it or visited. */
  lemma AfterTop(children: Graph, stack: seq<Entry>, seen: set<nat>, budget: nat, maxDepth: int, rest: seq<Entry>,
                 top: Entry, k: nat)
    requires stack == rest + [top] && budget > 0 && top.node !in seen
    requires k in seen + {top.node}
             || k in Visits(children, rest + Pushed(children, top, maxDepth), seen + {top.node}, budget - 1, maxDepth)
    ensures k in seen || k in Visits(children, stack, seen, budget, maxDepth)
  {
    VisitTop(children, rest, top, seen, budget, maxDepth);
  }

  lemma MetSkip(children: Graph, stack: seq<Entry>, seen: set<nat>, budget: nat, maxDepth: int, rest: seq<Entry>,
                top: Entry)
    requires stack == rest + [top] && top.node in seen
    ensures Met(children, stack, seen, budget, maxDepth) == Met(children, rest, seen, budget, maxDepth)
    ensures Visits(children, stack, seen, budget, maxDepth) == Visits(children, rest, seen, budget, maxDepth)
  {
    assert stack[..|rest|] == rest;
  }

  lemma {:induction false} MetAreShallow(children: Graph, inside: iset<Entry>, within: set<nat>, stack: seq<Entry>,
                                         seen: set<nat>, budget: nat, maxDepth: nat, e: Entry)
    requires Inside(children, inside, within, maxDepth) && Underway(inside, within, stack, seen, budget)
    requires e in Met(children, stack, seen, budget, maxDepth)
    ensures e.depth < |within|
    decreases budget, |stack|
  {
    var top, rest := stack[|stack| - 1], stack[..|stack| - 1];
    assert stack == rest + [top];
    if top.node in seen {
      MetSkip(children, stack, seen, budget, maxDepth, rest, top);
      MetAreShallow(children, inside, within, rest, seen, budget, maxDepth, e);
    } else {
      UnderwayAfterVisit(children, inside, within, rest, top, seen, budget, maxDepth);
      if e != top {
        MetAfterTop(children, stack, seen, budget, maxDepth, rest, top, e);
        var next := rest + Pushed(children, top, maxDepth);
        MetAreShallow(children, inside, within, next, seen + {top.node}, budget - 1, maxDepth, e);
      }
    }
  }

  lemma ChildIsPushed(children: Graph, rest: seq<Entry>, top: Entry, maxDepth: nat, k: nat)
    requires top.depth < maxDepth && k in children(top.node)
    ensures Entry(k, top.depth + 1) in rest + Pushed(children, top, maxDepth)
  {
    PushedAre(children, top, maxDepth);
    assert Entry(k, top.depth + 1) in Pushed(children, top, maxDepth);
  }

  lemma ChildOfTop(children: Graph, inside: iset<Entry>, within: set<nat>, rest: seq<Entry>, top: Entry,
                   seen: set<nat>, budget: nat, maxDepth: nat, k: nat)
    requires Inside(children, inside, within, maxDepth) && top.depth < maxDepth && k in children(top.node)
    requires Underway(inside, within, rest + Pushed(children, top, maxDepth), seen, budget)
    ensures k in seen || k in Visits(children, rest + Pushed(children, top, maxDepth), seen, budget, maxDepth)
  {
    var next := rest + Pushed(children, top, maxDepth);
    ChildIsPushed(children, rest, top, maxDepth, k);
    VisitsCoverStack(children, inside, within, next, seen, budget, maxDepth, Entry(k, top.depth + 1));
  }

  /** And at every child of the nodes it meets above the limit. */
  lemma {:induction false} MetAreExpanded(children: Graph, inside: iset<Entry>, within: set<nat>, stack: seq<Entry>,
                                          seen: set<nat>, budget: nat, maxDepth: nat, e: Entry, k: nat)
    requires Inside(children, inside, within, maxDepth) && Underway(inside, within, stack, seen, budget)
    requires e in Met(children, stack, seen, budget, maxDepth) && e.depth < maxDepth && k in children(e.node)
    ensures k in seen || k in Visits(children, stack, seen, budget, maxDepth)
    decreases budget, |stack|, 1
  {
    var top, rest := stack[|stack| - 1], stack[..|stack| - 1];
    assert stack == rest + [top];
    if top.node in seen {
      MetSkip(children, stack, seen, budget, maxDepth, rest, top);
      MetAreExpanded(children, inside, within, rest, seen, budget, maxDepth, e, k);
    } else {
      UnderwayAfterVisit(children, inside, within, rest, top, seen, budget, maxDepth);
      if e != top {
        MetAfterTop(children, stack, seen, budget, maxDepth, rest, top, e);
      }
      AfterVisitIsExpanded(children, inside, within, rest, top, seen + {top.node}, budget - 1, maxDepth, e, k);
      AfterTop(children, stack, seen, budget, maxDepth, rest, top, k);
    }
  }

  lemma {:induction false} AfterVisitIsExpanded(children: Graph, inside: iset<Entry>, within: set<nat>,
                                                rest: seq<Entry>, top: Entry, seen: set<nat>, budget: nat,
                                                maxDepth: nat, e: Entry, k: nat)
    requires Inside(children, inside, within, maxDepth) && e.depth < maxDepth && k in children(e.node)
    requires Underway(inside, within, rest + Pushed(children, top, maxDepth), seen, budget)
    requires e == top || e in Met(children, rest + Pushed(children, top, maxDepth), seen, budget, maxDepth)
    ensures k in seen || k in Visits(children, rest + Pushed(children, top, maxDepth), seen, budget, maxDepth)
    decreases budget, |rest + Pushed(children, top, maxDepth)|, 2
  {
    if e == top {
      ChildOfTop(children, inside, within, rest, top, seen, budget, maxDepth, k);
    } else {
      var next := rest + Pushed(children, top, maxDepth);
      MetAreExpanded(children, inside, within, next, seen, budget, maxDepth, e, k);
    }
  }

  ghost predicate Expands(children: Graph, met: seq<Entry>, visits: seq<nat>, maxDepth: nat) {
    forall e, k :: e in met && e.depth < maxDepth && k in children(e.node) ==> k in visits
  }

  function SearchVisits(children: Graph, root: nat, maxNodes: nat, maxDepth: int): seq<nat> {
    Visits(children, [Entry(root, 0)], {}, maxNodes, maxDepth)
  }

  function SearchMet(children: Graph, root: nat, maxNodes: nat, maxDepth: int): seq<Entry> {
    Met(children, [Entry(root, 0)], {}, maxNodes, maxDepth)
  }

  lemma {:induction false} MetStaysWithin(children: Graph, stack: seq<Entry>, seen: set<nat>, budget: nat,
                                          maxDepth: nat)
    requires forall e :: e in stack ==> e.depth <= maxDepth
    ensures forall e :: e in Met(children, stack, seen, budget, maxDepth) ==> e.depth <= maxDepth
    decreases budget, |stack|
  {
    if stack != [] && budget > 0 {
      var top, rest := stack[|stack| - 1], stack[..|stack| - 1];
      if top.node in seen {
        MetStaysWithin(children, rest, seen, budget, maxDepth);
      } else {
        PushedAre(children, top, maxDepth);
        MetStaysWithin(children, rest + Pushed(children, top, maxDepth), seen + {top.node}, budget - 1, maxDepth);
      }
    }
  }

  lemma LevelsAreInside(children: Graph, root: nat, inside: iset<Entry>, maxDepth: nat, within: set<nat>)
    requires HoldsLevels(within, children, root, maxDepth)
    requires forall e :: e in inside <==> e.depth <= maxDepth && WithinDepth(children, root, e.node, e.depth)
    ensures Inside(children, inside, within, maxDepth)
  {
    forall e | e in inside ensures e.node in within {
      WithinDepthMonotone(children, root, e.node, e.depth, maxDepth);
    }
  }

  /** What is known of a search whose budget does not run out. */
  lemma SearchIsComplete(children: Graph, root: nat, maxNodes: nat, maxDepth: nat, within: set<nat>)
    requires HoldsLevels(within, children, root, maxDepth) && |within| <= maxNodes
    ensures var visits := SearchVisits(children, root, maxNodes, maxDepth);
            var met := SearchMet(children, root, maxNodes, maxDepth);
            && root in visits
            && (forall n :: n in visits ==> exists e :: e in met && e.node == n && e.depth <= maxDepth)
            && (forall e :: e in met ==> e.node in visits && e.depth < |within|)
            && Expands(children, met, visits, maxDepth)
  {
    var stack := [Entry(root, 0)];
    var inside := iset e: Entry | e.depth <= maxDepth && WithinDepth(children, root, e.node, e.depth);
    LevelsAreInside(children, root, inside, maxDepth, within);
    assert within - {} == within;
    VisitsCoverStack(children, inside, within, stack, {}, maxNodes, maxDepth, stack[0]);
    MetAreVisits(children, stack, {}, maxNodes, maxDepth);
    MetStaysWithin(children, stack, {}, maxNodes, maxDepth);
    var visits, met := Visits(children, stack, {}, maxNodes, maxDepth), Met(children, stack, {}, maxNodes, maxDepth);
    forall e | e in met ensures e.depth < |within| && e.node in visits {
      MetAreShallow(children, inside, within, stack, {}, maxNodes, maxDepth, e);
      var i :| 0 <= i < |met| && met[i] == e;
      assert visits[i] == e.node;
    }
    forall e, k | e in met && e.depth < maxDepth && k in children(e.node) ensures k in visits {
      MetAreExpanded(children, inside, within, stack, {}, maxNodes, maxDepth, e, k);
    }
    forall n | n in visits ensures exists e :: e in met && e.node == n && e.depth <= maxDepth {
      var i :| 0 <= i < |visits| && visits[i] == n;
      assert met[i] in met;
    }
  }

  /** Of every visited node nearer than `levels` all children are visited. */
  ghost predicate ExpandsAll(children: Graph, root: nat, visits: seq<nat>, levels: nat) {
    forall n, d: nat, k :: n in visits && d < levels && WithinDepth(children, root, n, d) && k in children(n) ==>
      k in visits
  }

  lemma {:induction false} ClosedVisitsReach(children: Graph, root: nat, visits: seq<nat>, node: nat, depth: nat,
                                             levels: nat)
    requires root in visits && depth <= levels && WithinDepth(children, root, node, depth)
    requires ExpandsAll(children, root, visits, levels)
    ensures node in visits
    decreases depth
  {
    if node != root {
      var parent :| WithinDepth(children, root, parent, depth - 1) && node in children(parent);
      ClosedVisitsReach(children, root, visits, parent, depth - 1, levels);
    }
  }

  lemma {:induction false} FirstMatchFinds(nodes: seq<nat>, accepts: nat -> bool)
    ensures FirstMatch(nodes, accepts).Some? <==> exists n :: n in nodes && accepts(n)
  {
    if nodes != [] {
      FirstMatchFinds(nodes[1..], accepts);
    }
  }

  /** On every graph, shared and cyclic ones too, the search finds a match if and only if one is reachable
      at all, provided neither limit is smaller than the number of nodes. */
  lemma SearchFindsReachableIff(children: Graph, root: nat, accepts: nat -> bool, maxNodes: nat, maxDepth: nat,
                                within: set<nat>)
    requires HoldsLevels(within, children, root, maxDepth) && |within| <= maxNodes && |within| <= maxDepth
    ensures FirstMatch(SearchVisits(children, root, maxNodes, maxDepth), accepts).Some?
       <==> exists n, d: nat :: WithinDepth(children, root, n, d) && accepts(n)
  {
    var visits := SearchVisits(children, root, maxNodes, maxDepth);
    FirstMatchFinds(visits, accepts);
    VisitsAreBounded(children, root, [Entry(root, 0)], {}, maxNodes, maxDepth);
    SearchIsComplete(children, root, maxNodes, maxDepth, within);
    assert forall i :: 0 <= i < |visits| ==> WithinDepth(children, root, visits[i], maxDepth);
    forall n, d: nat | WithinDepth(children, root, n, d) ensures n in visits {
      assert ExpandsAll(children, root, visits, d);
      ClosedVisitsReach(children, root, visits, n, d, d);
    }
  }

  /** Each node met at the limit, though a shorter way leads there, has only visited children. */
  ghost predicate LimitHarmless(children: Graph, root: nat, met: seq<Entry>, visits: seq<nat>, maxDepth: nat) {
    forall e, k :: e in met && e.depth == maxDepth && maxDepth > 0 && WithinDepth(children, root, e.node, maxDepth - 1)
                   && k in children(e.node)
                   ==> k in visits
  }

  lemma HarmlessExpandsAll(children: Graph, root: nat, met: seq<Entry>, visits: seq<nat>, maxDepth: nat)
    requires LimitHarmless(children, root, met, visits, maxDepth)
    requires forall n :: n in visits ==> exists e :: e in met && e.node == n && e.depth <= maxDepth
    requires Expands(children, met, visits, maxDepth)
    ensures ExpandsAll(children, root, visits, maxDepth)
  {
    forall n, d: nat, k | n in visits && d < maxDepth && WithinDepth(children, root, n, d) && k in children(n)
      ensures k in visits
    {
      var e :| e in met && e.node == n && e.depth <= maxDepth;
      WithinDepthMonotone(children, root, n, d, maxDepth - 1);
    }
  }

  /** When the depth limit binds, the search looks at every node within it if and only if each node that
      it meets at the limit, though a shorter way leads there, has only children it looks at anyway. */
  lemma DepthLimitHidesNothingIff(children: Graph, root: nat, maxNodes: nat, maxDepth: nat, within: set<nat>)
    requires HoldsLevels(within, children, root, maxDepth) && |within| <= maxNodes
    ensures var visits := SearchVisits(children, root, maxNodes, maxDepth);
            var met := SearchMet(children, root, maxNodes, maxDepth);
            && ((forall n :: WithinDepth(children, root, n, maxDepth) ==> n in visits)
                <==> LimitHarmless(children, root, met, visits, maxDepth))
  {
    var visits, met := SearchVisits(children, root, maxNodes, maxDepth), SearchMet(children, root, maxNodes, maxDepth);
    SearchIsComplete(children, root, maxNodes, maxDepth, within);
    if LimitHarmless(children, root, met, visits, maxDepth) {
      HarmlessExpandsAll(children, root, met, visits, maxDepth);
      forall n | WithinDepth(children, root, n, maxDepth) ensures n in visits {
        ClosedVisitsReach(children, root, visits, n, maxDepth, maxDepth);
      }
    }
  }

  /** A path of exactly this length leads from the root to the node. */
  ghost predicate AtDepth(children: Graph, root: nat, node: nat, depth: nat)
    decreases depth
  {
    if depth == 0 then node == root
    else exists parent :: AtDepth(children, root, parent, depth - 1) && node in children(parent)
  }

  ghost predicate StackAtDepth(children: Graph, root: nat, stack: seq<Entry>) {
    forall e :: e in stack ==> AtDepth(children, root, e.node, e.depth)
  }

  lemma PushedAtDepth(children: Graph, root: nat, rest: seq<Entry>, top: Entry, maxDepth: nat)
    requires StackAtDepth(children, root, rest) && AtDepth(children, root, top.node, top.depth)
    ensures StackAtDepth(children, root, rest + Pushed(children, top, maxDepth))
  {
    PushedAre(children, top, maxDepth);
  }

  lemma {:induction false} MetAtDepth(children: Graph, root: nat, stack: seq<Entry>, seen: set<nat>, budget: nat,
                                      maxDepth: nat)
    requires StackAtDepth(children, root, stack)
    ensures StackAtDepth(children, root, Met(children, stack, seen, budget, maxDepth))
    decreases budget, |stack|
  {
    if stack != [] && budget > 0 {
      var top, rest := stack[|stack| - 1], stack[..|stack| - 1];
      if top.node in seen {
        MetAtDepth(children, root, rest, seen, budget, maxDepth);
      } else {
        PushedAtDepth(children, root, rest, top, maxDepth);
        MetAtDepth(children, root, rest + Pushed(children, top, maxDepth), seen + {top.node}, budget - 1, maxDepth);
      }
    }
  }

  lemma {:induction false} WithinIsAtSome(children: Graph, root: nat, node: nat, depth: nat)
    requires WithinDepth(children, root, node, depth)
    ensures exists d: nat :: d <= depth && AtDepth(children, root, node, d)
    decreases depth
  {
    if node == root {
      assert AtDepth(children, root, node, 0);
    } else {
      var parent :| WithinDepth(children, root, parent, depth - 1) && node in children(parent);
      WithinIsAtSome(children, root, parent, depth - 1);
      var d: nat :| d <= depth - 1 && AtDepth(children, root, parent, d);
      assert AtDepth(children, root, node, d + 1);
    }
  }

  /** No node with children is both at the end of a path as long as the limit and at that of a shorter one. */
  ghost predicate LimitUnshared(children: Graph, root: nat, maxDepth: nat) {
    forall n :: AtDepth(children, root, n, maxDepth) && maxDepth > 0 && WithinDepth(children, root, n, maxDepth - 1) ==>
      children(n) == []
  }

  /** On such graphs the search looks at every node within the depth limit. */
  lemma UnsharedLimitHidesNothing(children: Graph, root: nat, maxNodes: nat, maxDepth: nat, within: set<nat>, node: nat)
    requires HoldsLevels(within, children, root, maxDepth) && |within| <= maxNodes
    requires LimitUnshared(children, root, maxDepth) && WithinDepth(children, root, node, maxDepth)
    ensures node in SearchVisits(children, root, maxNodes, maxDepth)
  {
    MetAtDepth(children, root, [Entry(root, 0)], {}, maxNodes, maxDepth);
    assert LimitHarmless(children, root, SearchMet(children, root, maxNodes, maxDepth),
                         SearchVisits(children, root, maxNodes, maxDepth), maxDepth);
    DepthLimitHidesNothingIff(children, root, maxNodes, maxDepth, within);
  }

  /** Within the limit all paths from the root to a node are of one length, as in trees and layered graphs. */
  ghost predicate Layered(children: Graph, root: nat, maxDepth: nat) {
    forall n, c: nat, d: nat ::
      c <= maxDepth && d <= maxDepth && AtDepth(children, root, n, c) && AtDepth(children, root, n, d) ==> c == d
  }

  /** A layered graph is one of them, so a match is found if and only if one lies within the limit. */
  lemma LayeredSearchFindsIff(children: Graph, root: nat, accepts: nat -> bool, maxNodes: nat, maxDepth: nat,
                              within: set<nat>)
    requires HoldsLevels(within, children, root, maxDepth) && |within| <= maxNodes
    requires Layered(children, root, maxDepth)
    ensures FirstMatch(SearchVisits(children, root, maxNodes, maxDepth), accepts).Some?
       <==> exists n :: WithinDepth(children, root, n, maxDepth) && accepts(n)
  {
    var visits := SearchVisits(children, root, maxNodes, maxDepth);
    LayeredIsUnshared(children, root, maxDepth);
    FirstMatchFinds(visits, accepts);
    VisitsAreBounded(children, root, [Entry(root, 0)], {}, maxNodes, maxDepth);
    assert forall i :: 0 <= i < |visits| ==> WithinDepth(children, root, visits[i], maxDepth);
    forall n | WithinDepth(children, root, n, maxDepth) ensures n in visits {
      UnsharedLimitHidesNothing(children, root, maxNodes, maxDepth, within, n);
    }
  }

  lemma LayeredIsUnshared(children: Graph, root: nat, maxDepth: nat)
    requires Layered(children, root, maxDepth)
    ensures LimitUnshared(children, root, maxDepth)
  {
    forall n | maxDepth > 0 && WithinDepth(children, root, n, maxDepth - 1)
      ensures !AtDepth(children, root, n, maxDepth)
    {
      WithinIsAtSome(children, root, n, maxDepth - 1);
    }
  }

  // ----- on a tree

  datatype Tree = Node(id: nat, kids: seq<Tree>)

  function Ids(ts: seq<Tree>): seq<nat> {
    if ts == [] then [] else [ts[0].id] + Ids(ts[1..])
  }

  /** The graph below this node is this tree. */
  ghost predicate IsTreeOf(children: Graph, t: Tree) {
    children(t.id) == Ids(t.kids) && forall k :: k in t.kids ==> IsTreeOf(children, k)
  }

  /** Recursive preorder, `levels` further levels down. */
  function Preorder(t: Tree, levels: int): seq<nat>
    decreases t, 0
  {
    [t.id] + if levels <= 0 then [] else PreorderAll(t.kids, levels - 1)
  }

  function PreorderAll(ts: seq<Tree>, levels: int): seq<nat>
    decreases ts
  {
    if ts == [] then [] else Preorder(ts[0], levels) + PreorderAll(ts[1..], levels)
  }

  /** A stack of trees, each with its depth. */
  datatype Work = Done | Push(tree: Tree, depth: nat, rest: Work)

  function Entries(work: Work): seq<Entry> {
    match work
    case Done => []
    case Push(tree, depth, rest) => Entries(rest) + [Entry(tree.id, depth)]
  }

  /** What a stack of trees stands for: the top one in preorder, then the rest. */
  function Remaining(work: Work, maxDepth: int): seq<nat> {
    match work
    case Done => []
    case Push(tree, depth, rest) => Preorder(tree, maxDepth - depth) + Remaining(rest, maxDepth)
  }

  function PushKids(kids: seq<Tree>, depth: nat, work: Work): Work {
    if kids == [] then work else Push(kids[0], depth, PushKids(kids[1..], depth, work))
  }

  lemma {:induction false} KidsEntries(kids: seq<Tree>, depth: nat, work: Work)
    ensures Entries(PushKids(kids, depth, work)) == Entries(work) + ChildEntries(Ids(kids), depth)
  {
    if kids == [] {
      assert Entries(work) + [] == Entries(work);
    } else {
      KidsEntries(kids[1..], depth, work);
      assert Ids(kids)[1..] == Ids(kids[1..]);
    }
  }

  lemma {:induction false} KidsRemaining(kids: seq<Tree>, depth: nat, work: Work, maxDepth: int)
    ensures Remaining(PushKids(kids, depth, work), maxDepth)
         == PreorderAll(kids, maxDepth - depth) + Remaining(work, maxDepth)
  {
    if kids == [] {
      assert [] + Remaining(work, maxDepth) == Remaining(work, maxDepth);
    } else {
      KidsRemaining(kids[1..], depth, work, maxDepth);
    }
  }

  ghost predicate Distinct(nodes: seq<nat>) {
    forall i, j :: 0 <= i < j < |nodes| ==> nodes[i] != nodes[j]
  }

  ghost predicate AllTrees(children: Graph, work: Work) {
    work.Push? ==> IsTreeOf(children, work.tree) && AllTrees(children, work.rest)
  }

  lemma {:induction false} KidsTrees(children: Graph, kids: seq<Tree>, depth: nat, work: Work)
    requires AllTrees(children, work) && forall k :: k in kids ==> IsTreeOf(children, k)
    ensures AllTrees(children, PushKids(kids, depth, work))
  {
    if kids != [] {
      KidsTrees(children, kids[1..], depth, work);
    }
  }

  /** The stack after visiting its top. */
  function AfterVisit(work: Work, maxDepth: int): Work
    requires work.Push?
  {
    if work.depth >= maxDepth then work.rest else PushKids(work.tree.kids, work.depth + 1, work.rest)
  }

  lemma AfterVisitTrees(children: Graph, work: Work, maxDepth: int)
    requires work.Push? && AllTrees(children, work)
    ensures AllTrees(children, AfterVisit(work, maxDepth))
  {
    if work.depth < maxDepth {
      KidsTrees(children, work.tree.kids, work.depth + 1, work.rest);
    }
  }

  /** Visiting the top of the stack takes the first node off what remains. */
  lemma VisitTakesFirst(work: Work, maxDepth: int)
    requires work.Push?
    ensures Remaining(work, maxDepth) == [work.tree.id] + Remaining(AfterVisit(work, maxDepth), maxDepth)
  {
    var below := if work.depth >= maxDepth then [] else PreorderAll(work.tree.kids, maxDepth - work.depth - 1);
    var rest := Remaining(work.rest, maxDepth);
    assert Preorder(work.tree, maxDepth - work.depth) == [work.tree.id] + below;
    assert [work.tree.id] + below + rest == [work.tree.id] + (below + rest);
    if work.depth >= maxDepth {
      assert [] + rest == rest;
    } else {
      KidsRemaining(work.tree.kids, work.depth + 1, work.rest, maxDepth);
    }
  }

  lemma VisitPushes(children: Graph, work: Work, maxDepth: int)
    requires work.Push? && children(work.tree.id) == Ids(work.tree.kids)
    ensures Entries(AfterVisit(work, maxDepth))
         == Entries(work.rest) + Pushed(children, Entry(work.tree.id, work.depth), maxDepth)
  {
    if work.depth >= maxDepth {
      assert Entries(work.rest) + [] == Entries(work.rest);
    } else {
      KidsEntries(work.tree.kids, work.depth + 1, work.rest);
    }
  }

  /** Distinct nodes, none of which has been seen. */
  ghost predicate Fresh(nodes: seq<nat>, seen: set<nat>) {
    Distinct(nodes) && forall n :: n in nodes ==> n !in seen
  }

  lemma FreshTail(id: nat, rest: seq<nat>, seen: set<nat>)
    requires Fresh([id] + rest, seen)
    ensures Fresh(rest, seen + {id}) && id !in seen
  {
    var all := [id] + rest;
    assert all[0] == id && all[1..] == rest;
    assert id in all;
    forall x | x in rest ensures x !in seen + {id} {
      assert x in all;
    }
  }

  lemma {:induction false} VisitsArePreorder(children: Graph, work: Work, seen: set<nat>, budget: nat, maxDepth: int)
    requires AllTrees(children, work) && Fresh(Remaining(work, maxDepth), seen)
    ensures Visits(children, Entries(work), seen, budget, maxDepth) == Take(Remaining(work, maxDepth), budget)
    decreases budget
  {
    if work.Push? && budget > 0 {
      var id, next := work.tree.id, AfterVisit(work, maxDepth);
      AfterVisitTrees(children, work, maxDepth);
      VisitTakesFirst(work, maxDepth);
      FreshTail(id, Remaining(next, maxDepth), seen);
      VisitsArePreorder(children, next, seen + {id}, budget - 1, maxDepth);
      VisitPushes(children, work, maxDepth);
      VisitTop(children, Entries(work.rest), Entry(id, work.depth), seen, budget, maxDepth);
      TakeCons(id, Remaining(next, maxDepth), budget);
    }
  }

  /** On a tree the search finds the first match in recursive preorder among the nodes at depth up to
      `maxDepth`, of which it looks at the first `maxNodes`. */
  lemma SearchIsFirstInPreorder(children: Graph, t: Tree, accepts: nat -> bool, maxNodes: nat, maxDepth: int)
    requires IsTreeOf(children, t) && Distinct(Preorder(t, maxDepth))
    ensures FirstMatch(Visits(children, [Entry(t.id, 0)], {}, maxNodes, maxDepth), accepts)
         == FirstMatch(Take(Preorder(t, maxDepth), maxNodes), accepts)
  {
    var work := Push(t, 0, Done);
    assert Remaining(work, maxDepth) == Preorder(t, maxDepth);
    assert Entries(work) == [Entry(t.id, 0)];
    VisitsArePreorder(children, work, {}, maxNodes, maxDepth);
  }

  lemma NothingLeft(children: Graph, entry: Entry, seen: set<nat>, budget: nat)
    requires entry.node in seen
    ensures Visits(children, [entry], seen, budget, 2) == []
  {
    assert [entry][..0] == [];
  }

  lemma FirstTurn(shared: Graph, budget: nat)
    requires shared(0) == [1, 2] && budget >= 1
    ensures SearchVisits(shared, 0, budget, 2)
         == [0] + Visits(shared, [Entry(2, 1), Entry(1, 1)], {} + {0}, budget - 1, 2)
  {
    var a, b := Entry(1, 1), Entry(2, 1);
    assert Pushed(shared, Entry(0, 0), 2) == [b, a] by {
      assert [1, 2][1..] == [2] && [2][1..] == [];
    }
    assert [] + [Entry(0, 0)] == [Entry(0, 0)] && [] + [b, a] == [b, a];
    VisitTop(shared, [], Entry(0, 0), {}, budget, 2);
  }

  lemma ThreeIsWithin(shared: Graph)
    requires 2 in shared(0) && 3 in shared(2)
    ensures WithinDepth(shared, 0, 3, 2)
  {
    assert WithinDepth(shared, 0, 0, 0);
    assert WithinDepth(shared, 0, 2, 1);
  }

  lemma ThenNodeOne(shared: Graph, b: Entry, seen: set<nat>, budget: nat)
    requires shared(1) == [2] && shared(2) == [3] && budget >= 2 && 1 !in seen && 2 !in seen && b == Entry(2, 1)
    ensures Visits(shared, [b, Entry(1, 1)], seen, budget, 2) == [1, 2]
  {
    var a, c := Entry(1, 1), Entry(2, 2);
    assert Pushed(shared, a, 2) == [c] by {
      assert [2][1..] == [];
    }
    assert [b, a] == [b] + [a] && [b] + [] == [b];
    VisitTop(shared, [b], a, seen, budget, 2);
    VisitTop(shared, [b], c, seen + {1}, budget - 1, 2);
    NothingLeft(shared, b, seen + {1} + {2}, budget - 2);
  }

  /** Off trees the depth limit and the visited set can hide a match that lies within the limit: node 2
      is first met at the depth where nothing is expanded, so its child 3 is never looked at. */
  lemma SharedNodeHidesMatch(shared: Graph, budget: nat)
    requires shared(0) == [1, 2] && shared(1) == [2] && shared(2) == [3] && budget >= 3
    ensures WithinDepth(shared, 0, 3, 2) && SearchVisits(shared, 0, budget, 2) == [0, 1, 2]
  {
    ThreeIsWithin(shared);
    FirstTurn(shared, budget);
    ThenNodeOne(shared, Entry(2, 1), {} + {0}, budget - 1);
  }
}
