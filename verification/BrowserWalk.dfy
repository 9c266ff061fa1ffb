/** Where compaction has nothing to do, the walk with it renders what the walk without it does. */
module BrowserWalk {
  import opened TabCompaction
  import R = TreeRendering

  /** The records and lines of rendered entries, numbered from `first` on. */
  function MarkedRecords(es: seq<R.Entry>, first: nat, marks: Marking): seq<Record> {
    seq(|es|, i requires 0 <= i < |es| => Record(first + i, marks(es[i].node).selected))
  }

  function MarkedLines(es: seq<R.Entry>, first: nat, marks: Marking): seq<Line> {
    seq(|es|, i requires 0 <= i < |es| =>
      Line(es[i].depth, first + i, marks(es[i].node).tab, marks(es[i].node).selectedText))
  }

  function Extended(page: Page, es: seq<R.Entry>, marks: Marking): Page {
    Page(page.records + MarkedRecords(es, |page.records|, marks), page.lines + MarkedLines(es, |page.records|, marks))
  }

  lemma ExtendedTwice(page: Page, a: seq<R.Entry>, b: seq<R.Entry>, marks: Marking)
    ensures Extended(Extended(page, a, marks), b, marks) == Extended(page, a + b, marks)
  {
    var first := |page.records|;
    assert MarkedRecords(a + b, first, marks) == MarkedRecords(a, first, marks) + MarkedRecords(b, first + |a|, marks);
    assert MarkedLines(a + b, first, marks) == MarkedLines(a, first, marks) + MarkedLines(b, first + |a|, marks);
  }

  lemma AppendedIsExtended(page: Page, t: Tree, depth: nat, marks: Marking)
    ensures Appended(page, t, depth, marks) == Extended(page, [R.Entry(t.id, depth)], marks)
  {}

  // ----- direct tabs

  /** The tabs that a node puts at its own depth: itself, or those it is skipped for. */
  function DirectTabs(t: Tree, marks: Marking): nat
    decreases t, 0
  {
    if R.Elided(t) then DirectTabsAll(t.kids, marks) else if marks(t.id).tab then 1 else 0
  }

  function DirectTabsAll(ts: seq<Tree>, marks: Marking): nat
    decreases ts
  {
    if ts == [] then 0 else DirectTabs(ts[0], marks) + DirectTabsAll(ts[1..], marks)
  }

  /** No rendered node has ten direct tabs below it. */
  predicate FewTabs(t: Tree, marks: Marking)
    decreases t, 0
  {
    FewTabsAll(t.kids, marks) && (R.Elided(t) || t.closed || DirectTabsAll(t.kids, marks) < 10)
  }

  predicate FewTabsAll(ts: seq<Tree>, marks: Marking)
    decreases ts
  {
    ts == [] || (FewTabs(ts[0], marks) && FewTabsAll(ts[1..], marks))
  }

  /** The entries at a depth that are tabs. */
  function TabEntries(es: seq<R.Entry>, depth: nat, marks: Marking): nat {
    if es == [] then 0
    else (if es[0].depth == depth && marks(es[0].node).tab then 1 else 0) + TabEntries(es[1..], depth, marks)
  }

  lemma {:induction false} TabEntriesAppend(a: seq<R.Entry>, b: seq<R.Entry>, depth: nat, marks: Marking)
    ensures TabEntries(a + b, depth, marks) == TabEntries(a, depth, marks) + TabEntries(b, depth, marks)
  {
    if a == [] {
      assert a + b == b;
    } else {
      assert (a + b)[1..] == a[1..] + b;
      TabEntriesAppend(a[1..], b, depth, marks);
    }
  }

  /** A subtree puts no entry above its depth. */
  lemma {:induction false} NoneAbove(t: Tree, depth: nat, room: nat, above: nat, marks: Marking)
    requires above < depth
    ensures TabEntries(R.Rendered(t, depth, room), above, marks) == 0
    decreases t, 0
  {
    if room > 0 && depth <= R.MAX_DEPTH {
      if R.Elided(t) {
        NoneAboveAll(t.kids, depth, room, above, marks);
      } else if !t.closed {
        NoneAboveAll(t.kids, depth + 1, room - 1, above, marks);
        TabEntriesAppend([R.Entry(t.id, depth)], R.RenderedAll(t.kids, depth + 1, room - 1), above, marks);
      }
    }
  }

  lemma {:induction false} NoneAboveAll(ts: seq<Tree>, depth: nat, room: nat, above: nat, marks: Marking)
    requires above < depth
    ensures TabEntries(R.RenderedAll(ts, depth, room), above, marks) == 0
    decreases ts
  {
    if ts != [] {
      var first := R.Rendered(ts[0], depth, room);
      NoneAbove(ts[0], depth, room, above, marks);
      NoneAboveAll(ts[1..], depth, room - |first|, above, marks);
      TabEntriesAppend(first, R.RenderedAll(ts[1..], depth, room - |first|), above, marks);
    }
  }

  /** At its depth it puts no more tabs than are direct. */
  lemma {:induction false} DirectTabsBound(t: Tree, depth: nat, room: nat, marks: Marking)
    ensures TabEntries(R.Rendered(t, depth, room), depth, marks) <= DirectTabs(t, marks)
    decreases t, 0
  {
    if room > 0 && depth <= R.MAX_DEPTH {
      if R.Elided(t) {
        DirectTabsBoundAll(t.kids, depth, room, marks);
      } else if !t.closed {
        NoneAboveAll(t.kids, depth + 1, room - 1, depth, marks);
        TabEntriesAppend([R.Entry(t.id, depth)], R.RenderedAll(t.kids, depth + 1, room - 1), depth, marks);
      }
    }
  }

  lemma {:induction false} DirectTabsBoundAll(ts: seq<Tree>, depth: nat, room: nat, marks: Marking)
    ensures TabEntries(R.RenderedAll(ts, depth, room), depth, marks) <= DirectTabsAll(ts, marks)
    decreases ts
  {
    if ts != [] {
      var first := R.Rendered(ts[0], depth, room);
      DirectTabsBound(ts[0], depth, room, marks);
      DirectTabsBoundAll(ts[1..], depth, room - |first|, marks);
      TabEntriesAppend(first, R.RenderedAll(ts[1..], depth, room - |first|), depth, marks);
    }
  }

  lemma {:induction false} TabsInExtended(page: Page, es: seq<R.Entry>, depth: nat, marks: Marking)
    ensures var lines := Extended(page, es, marks).lines;
            |TabsIn(lines, |page.lines|, |lines|, depth)| == TabEntries(es, depth, marks)
    decreases |es|
  {
    var lines := Extended(page, es, marks).lines;
    if es != [] {
      var init, last := es[..|es| - 1], [es[|es| - 1]];
      assert es == init + last;
      TabEntriesAppend(init, last, depth, marks);
      assert last[1..] == [];
      TabsInExtended(page, init, depth, marks);
      var before := Extended(page, init, marks).lines;
      assert lines == before + MarkedLines(last, |page.records| + |init|, marks);
      TabsInPrefix(before, lines, |page.lines|, |before|, depth);
    }
  }

  lemma {:induction false} TabsInPrefix(a: seq<Line>, b: seq<Line>, start: nat, upTo: nat, depth: nat)
    requires a <= b && upTo <= |a|
    ensures TabsIn(a, start, upTo, depth) == TabsIn(b, start, upTo, depth)
  {
    if start < upTo {
      TabsInPrefix(a, b, start, upTo - 1, depth);
    }
  }

  // ----- the walk

  lemma FewAreNotCompacted(kids: seq<Tree>, depth: nat, room: nat, own: Page, marks: Marking)
    requires DirectTabsAll(kids, marks) < MIN_TABS
    ensures var all := Extended(own, R.RenderedAll(kids, depth, room), marks);
            |own.lines| <= |all.lines| && Compacted(all, |own.lines|, depth) == all
  {
    var below := R.RenderedAll(kids, depth, room);
    var all := Extended(own, below, marks);
    TabsInExtended(own, below, depth, marks);
    DirectTabsBoundAll(kids, depth, room, marks);
    NothingToCompact(all, |own.lines|, depth, TabsIn(all.lines, |own.lines|, |all.lines|, depth));
  }

  /** As long as no node has ten direct tabs, the walk renders what the walk without compaction does, from
      wherever it stands: the first entries of the outline, numbered by position. */
  lemma {:induction false} WalkedIsRendered(t: Tree, depth: nat, page: Page, marks: Marking)
    requires FewTabs(t, marks) && |page.records| <= R.MAX_NODES
    ensures Walked(t, depth, page, marks) == Extended(page, R.Rendered(t, depth, R.MAX_NODES - |page.records|), marks)
    decreases t, 0
  {
    var room := R.MAX_NODES - |page.records|;
    if room == 0 || depth > R.MAX_DEPTH {
      ExtendedByNothing(page, marks);
    } else if R.Elided(t) {
      WalkedAllIsRendered(t.kids, depth, page, marks);
    } else {
      AppendedIsExtended(page, t, depth, marks);
      if !t.closed {
        WalkedAllIsRendered(t.kids, depth + 1, Appended(page, t, depth, marks), marks);
        InnerIsRendered(t, depth, page, marks, R.RenderedAll(t.kids, depth + 1, room - 1));
      }
    }
  }

  lemma InnerIsWalked(t: Tree, depth: nat, page: Page, marks: Marking, all: Page)
    requires !R.Elided(t) && !t.closed && depth <= R.MAX_DEPTH && |page.records| < R.MAX_NODES
    requires all == WalkedAll(t.kids, depth + 1, Appended(page, t, depth, marks), marks)
    requires |page.lines| + 1 <= |all.lines| && Compacted(all, |page.lines| + 1, depth + 1) == all
    ensures Walked(t, depth, page, marks) == all
  {}

  lemma InnerIsExtended(t: Tree, depth: nat, page: Page, marks: Marking, below: seq<R.Entry>)
    ensures Extended(Appended(page, t, depth, marks), below, marks) == Extended(page, [R.Entry(t.id, depth)] + below, marks)
  {
    AppendedIsExtended(page, t, depth, marks);
    ExtendedTwice(page, [R.Entry(t.id, depth)], below, marks);
  }

  lemma InnerIsRendered(t: Tree, depth: nat, page: Page, marks: Marking, below: seq<R.Entry>)
    requires !R.Elided(t) && !t.closed && depth <= R.MAX_DEPTH && |page.records| < R.MAX_NODES
    requires DirectTabsAll(t.kids, marks) < 10
    requires below == R.RenderedAll(t.kids, depth + 1, R.MAX_NODES - |page.records| - 1)
    requires WalkedAll(t.kids, depth + 1, Appended(page, t, depth, marks), marks)
          == Extended(Appended(page, t, depth, marks), below, marks)
    ensures Walked(t, depth, page, marks) == Extended(page, [R.Entry(t.id, depth)] + below, marks)
  {
    var own, room := Appended(page, t, depth, marks), R.MAX_NODES - |page.records|;
    FewAreNotCompacted(t.kids, depth + 1, room - 1, own, marks);
    InnerIsWalked(t, depth, page, marks, Extended(own, below, marks));
    InnerIsExtended(t, depth, page, marks, below);
  }

  lemma ExtendedByNothing(page: Page, marks: Marking)
    ensures Extended(page, [], marks) == page
  {
    assert page.records + [] == page.records && page.lines + [] == page.lines;
  }

  lemma {:induction false} WalkedAllIsRendered(ts: seq<Tree>, depth: nat, page: Page, marks: Marking)
    requires FewTabsAll(ts, marks) && |page.records| <= R.MAX_NODES
    ensures WalkedAll(ts, depth, page, marks)
         == Extended(page, R.RenderedAll(ts, depth, R.MAX_NODES - |page.records|), marks)
    decreases ts
  {
    if ts == [] {
      ExtendedByNothing(page, marks);
    } else {
      var room := R.MAX_NODES - |page.records|;
      var first := R.Rendered(ts[0], depth, room);
      WalkedIsRendered(ts[0], depth, page, marks);
      WalkedAllIsRendered(ts[1..], depth, Extended(page, first, marks), marks);
      ExtendedTwice(page, first, R.RenderedAll(ts[1..], depth, room - |first|), marks);
    }
  }
}
