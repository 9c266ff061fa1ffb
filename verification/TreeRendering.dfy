/** The rendering walk over the accessibility tree, without tab compaction: what it renders when it is
    capped, and that records and lines stay aligned. */
module TreeRendering {
  import opened Sequences

  /** What the walk asks of a node. `quiet`: a panel-like role without text, actions or summary, which
      is skipped when it has at most one child. `closed`: a summary or label stands for its children. */
  datatype Tree = Node(id: nat, quiet: bool, closed: bool, kids: seq<Tree>)

  datatype Record = Record(index: nat, node: nat)
  datatype Line = Line(depth: nat, index: nat, node: nat)
  datatype Entry = Entry(node: nat, depth: nat)

  const MAX_NODES: nat := 1200
  const MAX_DEPTH: nat := 64

  predicate Elided(t: Tree) {
    t.quiet && |t.kids| <= 1
  }

  // ----- what the walk appends

  /** What the walk appends for a node when there is room for `room` more records. */
  function Rendered(t: Tree, depth: nat, room: nat): (r: seq<Entry>)
    ensures |r| <= room
    decreases t, 0
  {
    if room == 0 || depth > MAX_DEPTH then []
    else if Elided(t) then RenderedAll(t.kids, depth, room)
    else [Entry(t.id, depth)] + if t.closed then [] else RenderedAll(t.kids, depth + 1, room - 1)
  }

  function RenderedAll(ts: seq<Tree>, depth: nat, room: nat): (r: seq<Entry>)
    ensures |r| <= room
    decreases ts
  {
    if ts == [] then []
    else
      var first := Rendered(ts[0], depth, room);
      first + RenderedAll(ts[1..], depth, room - |first|)
  }

  /** Whether the walk reports truncation. */
  predicate Truncates(t: Tree, depth: nat, room: nat)
    decreases t, 0
  {
    if room == 0 || depth > MAX_DEPTH then true
    else if Elided(t) then TruncatesAny(t.kids, depth, room)
    else !t.closed && TruncatesAny(t.kids, depth + 1, room - 1)
  }

  predicate TruncatesAny(ts: seq<Tree>, depth: nat, room: nat)
    decreases ts
  {
    ts != [] && (Truncates(ts[0], depth, room)
                 || TruncatesAny(ts[1..], depth, room - |Rendered(ts[0], depth, room)|))
  }

  // ----- the reference: the same traversal without a node cap, and without a depth cap either

  /** A quiet node with at most one child is skipped, so that its child takes its depth. */
  function Outline(t: Tree, depth: nat, deepest: int): seq<Entry>
    decreases t, 0
  {
    if deepest >= 0 && depth > deepest then []
    else if t.quiet && (t.kids == [] || |t.kids| == 1) then OutlineAll(t.kids, depth, deepest)
    else [Entry(t.id, depth)] + if t.closed then [] else OutlineAll(t.kids, depth + 1, deepest)
  }

  function OutlineAll(ts: seq<Tree>, depth: nat, deepest: int): seq<Entry>
    decreases ts
  {
    if ts == [] then [] else Outline(ts[0], depth, deepest) + OutlineAll(ts[1..], depth, deepest)
  }

  const UNLIMITED := -1

  /** The capped walk renders the first `room` entries of the depth-limited outline, and no others. */
  lemma {:induction false} RenderedIsPrefix(t: Tree, depth: nat, room: nat)
    ensures Rendered(t, depth, room) == Take(Outline(t, depth, MAX_DEPTH), room)
    decreases t, 0
  {
    if room > 0 && depth <= MAX_DEPTH {
      if Elided(t) {
        RenderedAllIsPrefix(t.kids, depth, room);
      } else {
        var below := if t.closed then [] else OutlineAll(t.kids, depth + 1, MAX_DEPTH);
        if !t.closed {
          RenderedAllIsPrefix(t.kids, depth + 1, room - 1);
        }
        TakeCons(Entry(t.id, depth), below, room);
      }
    }
  }

  lemma {:induction false} RenderedAllIsPrefix(ts: seq<Tree>, depth: nat, room: nat)
    ensures RenderedAll(ts, depth, room) == Take(OutlineAll(ts, depth, MAX_DEPTH), room)
    decreases ts
  {
    if ts != [] {
      RenderedIsPrefix(ts[0], depth, room);
      RenderedAllIsPrefix(ts[1..], depth, room - |Rendered(ts[0], depth, room)|);
      TakeAppend(Outline(ts[0], depth, MAX_DEPTH), OutlineAll(ts[1..], depth, MAX_DEPTH), room);
    }
  }

  /** When truncation is not reported, nothing has been cut. */
  lemma {:induction false} UntruncatedIsComplete(t: Tree, depth: nat, room: nat)
    requires !Truncates(t, depth, room)
    ensures Rendered(t, depth, room) == Outline(t, depth, UNLIMITED)
    decreases t, 0
  {
    if Elided(t) {
      UntruncatedAllAreComplete(t.kids, depth, room);
    } else if !t.closed {
      UntruncatedAllAreComplete(t.kids, depth + 1, room - 1);
    }
  }

  lemma {:induction false} UntruncatedAllAreComplete(ts: seq<Tree>, depth: nat, room: nat)
    requires !TruncatesAny(ts, depth, room)
    ensures RenderedAll(ts, depth, room) == OutlineAll(ts, depth, UNLIMITED)
    decreases ts
  {
    if ts != [] {
      UntruncatedIsComplete(ts[0], depth, room);
      UntruncatedAllAreComplete(ts[1..], depth, room - |Rendered(ts[0], depth, room)|);
    }
  }

  /** The greatest depth of a node, where skipped nodes take up none. */
  function Deepest(t: Tree, depth: nat): nat
    decreases t, 0
  {
    if t.quiet && (t.kids == [] || |t.kids| == 1) then DeepestAll(t.kids, depth, depth)
    else if t.closed then depth
    else DeepestAll(t.kids, depth + 1, depth)
  }

  function DeepestAll(ts: seq<Tree>, depth: nat, least: nat): (deepest: nat)
    ensures deepest >= least
    decreases ts
  {
    if ts == [] then least
    else
      var first, rest := Deepest(ts[0], depth), DeepestAll(ts[1..], depth, least);
      if first > rest then first else rest
  }

  /** Truncation is reported only when the records are used up or a node is too deep. */
  lemma {:induction false} TruncationIsReal(t: Tree, depth: nat, room: nat)
    requires Truncates(t, depth, room)
    ensures |Rendered(t, depth, room)| == room || Deepest(t, depth) > 64
    decreases t, 0
  {
    if depth > 64 {
      DeepestIsBelow(t, depth);
    } else if room > 0 {
      if Elided(t) {
        TruncationsAreReal(t.kids, depth, room, depth);
      } else {
        TruncationsAreReal(t.kids, depth + 1, room - 1, depth);
      }
    }
  }

  lemma DeepestIsBelow(t: Tree, depth: nat)
    ensures Deepest(t, depth) >= depth
  {}

  lemma {:induction false} TruncationsAreReal(ts: seq<Tree>, depth: nat, room: nat, least: nat)
    requires TruncatesAny(ts, depth, room)
    ensures |RenderedAll(ts, depth, room)| == room || DeepestAll(ts, depth, least) > 64
    decreases ts
  {
    var next := room - |Rendered(ts[0], depth, room)|;
    if Truncates(ts[0], depth, room) {
      TruncationIsReal(ts[0], depth, room);
    } else {
      TruncationsAreReal(ts[1..], depth, next, least);
    }
  }

  // ----- the walk

  function Records(es: seq<Entry>, first: nat): seq<Record> {
    seq(|es|, i requires 0 <= i < |es| => Record(first + i, es[i].node))
  }

  function Lines(es: seq<Entry>, first: nat): seq<Line> {
    seq(|es|, i requires 0 <= i < |es| => Line(es[i].depth, first + i, es[i].node))
  }

  lemma RecordsAppend(before: seq<Record>, a: seq<Entry>, b: seq<Entry>)
    ensures before + Records(a + b, |before|) == before + Records(a, |before|) + Records(b, |before| + |a|)
  {
    assert Records(a + b, |before|) == Records(a, |before|) + Records(b, |before| + |a|);
  }

  lemma LinesAppend(before: seq<Line>, a: seq<Entry>, b: seq<Entry>, first: nat)
    ensures before + Lines(a + b, first) == before + Lines(a, first) + Lines(b, first + |a|)
  {
    assert Lines(a + b, first) == Lines(a, first) + Lines(b, first + |a|);
  }

  /** Where the loop over the children stands: `done` has been rendered of the first i of them. */
  ghost predicate Partway(kids: seq<Tree>, i: nat, depth: nat, room: nat, done: seq<Entry>) {
    && i <= |kids| && |done| <= room
    && done + RenderedAll(kids[i..], depth, room - |done|) == RenderedAll(kids, depth, room)
  }

  lemma PartwayStep(kids: seq<Tree>, i: nat, depth: nat, room: nat, done: seq<Entry>)
    requires i < |kids| && Partway(kids, i, depth, room, done)
    ensures var next := Rendered(kids[i], depth, room - |done|);
            && Partway(kids, i + 1, depth, room, done + next)
            && TruncatesAny(kids[i..], depth, room - |done|)
               == (Truncates(kids[i], depth, room - |done|) || TruncatesAny(kids[i + 1..], depth, room - |done + next|))
  {
    var next := Rendered(kids[i], depth, room - |done|);
    var rest := RenderedAll(kids[i + 1..], depth, room - |done| - |next|);
    assert kids[i..][0] == kids[i] && kids[i..][1..] == kids[i + 1..];
    assert done + (next + rest) == (done + next) + rest;
  }

  class Renderer {
    var records: seq<Record>
    var lines: seq<Line>
    var truncated: bool

    constructor ()
      ensures records == [] && lines == [] && !truncated
    {
      records, lines, truncated := [], [], false;
    }

    /** Record i carries index i and line i is the line of record i; there are at most MAX_NODES. */
    ghost predicate Aligned()
      reads this
    {
      && |records| == |lines| <= MAX_NODES
      && forall i :: 0 <= i < |records| ==>
           records[i].index == i && lines[i].index == i && lines[i].node == records[i].node
    }

    ghost predicate Appended(before: seq<Record>, linesBefore: seq<Line>, es: seq<Entry>)
      reads this
    {
      records == before + Records(es, |before|) && lines == linesBefore + Lines(es, |before|)
    }

    method Walk(t: Tree, depth: nat)
      requires |records| == |lines| <= MAX_NODES
      modifies this
      ensures Appended(old(records), old(lines), Rendered(t, depth, MAX_NODES - old(|records|)))
      ensures truncated == (old(truncated) || Truncates(t, depth, MAX_NODES - old(|records|)))
      decreases t, 0
    {
      if |records| >= MAX_NODES || depth > MAX_DEPTH {
        truncated := true;
        return;
      }
      if Elided(t) {
        WalkAll(t.kids, depth);
        return;
      }
      ghost var room := MAX_NODES - |records|;
      ghost var own := [Entry(t.id, depth)];
      lines := lines + [Line(depth, |records|, t.id)];
      records := records + [Record(|records|, t.id)];
      if t.closed {
        return;
      }
      WalkAll(t.kids, depth + 1);
      RecordsAppend(old(records), own, RenderedAll(t.kids, depth + 1, room - 1));
      LinesAppend(old(lines), own, RenderedAll(t.kids, depth + 1, room - 1), |old(records)|);
    }

    method WalkAll(kids: seq<Tree>, depth: nat)
      requires |records| == |lines| <= MAX_NODES
      modifies this
      ensures Appended(old(records), old(lines), RenderedAll(kids, depth, MAX_NODES - old(|records|)))
      ensures truncated == (old(truncated) || TruncatesAny(kids, depth, MAX_NODES - old(|records|)))
      decreases kids
    {
      ghost var before, linesBefore, room := records, lines, MAX_NODES - |records|;
      ghost var done: seq<Entry> := [];
      assert kids[0..] == kids && done + RenderedAll(kids, depth, room) == RenderedAll(kids, depth, room);
      for i := 0 to |kids|
        invariant Partway(kids, i, depth, room, done)
        invariant Appended(before, linesBefore, done)
        invariant (truncated || TruncatesAny(kids[i..], depth, room - |done|))
               == (old(truncated) || TruncatesAny(kids, depth, room))
      {
        ghost var next := Rendered(kids[i], depth, room - |done|);
        PartwayStep(kids, i, depth, room, done);
        RecordsAppend(before, done, next);
        LinesAppend(linesBefore, done, next, |before|);
        Walk(kids[i], depth);
        done := done + next;
      }
      assert done + [] == done;
    }

    /** The whole rendering: the first 1200 entries of the outline down to depth 64; all of the tree, unless
        truncation is reported, which it only is when the records are used up or a node is too deep. */
    method Render(root: Tree)
      modifies this
      ensures Aligned()
      ensures Appended([], [], Take(Outline(root, 0, 64), 1200))
      ensures !truncated ==> Appended([], [], Outline(root, 0, UNLIMITED))
      ensures truncated ==> |records| == 1200 || Deepest(root, 0) > 64
    {
      records, lines, truncated := [], [], false;
      Walk(root, 0);
      RenderedIsPrefix(root, 0, MAX_NODES);
      if !truncated {
        UntruncatedIsComplete(root, 0, MAX_NODES);
      } else {
        TruncationIsReal(root, 0, MAX_NODES);
      }
    }
  }
}
