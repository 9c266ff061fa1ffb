/** A browser window whose tab strip is compacted: which numbers its records get. */
module StripNumbering {
  import opened TabCompaction
  import opened BrowserWalk
  import opened RecordNumbering
  import R = TreeRendering

  const EMPTY := Page([], [])

  ghost predicate IsInner(t: Tree) {
    !t.quiet && !t.closed
  }

  /** A window with a strip of tabs in front of everything else, and no ten direct tabs but in the strip. */
  ghost predicate IsWindow(window: Tree, strip: Tree, rest: seq<Tree>, marks: Marking) {
    && IsInner(window) && window.kids == [strip] + rest
    && IsInner(strip) && !marks(strip.id).tab && FewTabsAll(strip.kids, marks)
    && FewTabsAll(rest, marks) && DirectTabsAll(rest, marks) < 10
  }

  /** What has been rendered when the strip is about to be compacted. */
  function StripEntries(window: Tree, strip: Tree): (es: seq<R.Entry>)
    ensures |es| >= 2
  {
    [R.Entry(window.id, 0), R.Entry(strip.id, 1)] + R.RenderedAll(strip.kids, 2, R.MAX_NODES - 2)
  }

  function StripPage(window: Tree, strip: Tree, marks: Marking): (r: Page)
    ensures |r.records| == |r.lines| == |StripEntries(window, strip)| && ByPosition(r.records)
  {
    Extended(EMPTY, StripEntries(window, strip), marks)
  }

  // ----- the walk of the window

  lemma StripWalked(window: Tree, strip: Tree, rest: seq<Tree>, marks: Marking)
    requires IsWindow(window, strip, rest, marks)
    ensures Walked(strip, 1, Appended(EMPTY, window, 0, marks), marks)
         == Compacted(StripPage(window, strip, marks), 2, 2)
  {
    var outer := Appended(EMPTY, window, 0, marks);
    var own := Appended(outer, strip, 1, marks);
    var below := R.RenderedAll(strip.kids, 2, R.MAX_NODES - 2);
    AppendedIsExtended(EMPTY, window, 0, marks);
    AppendedIsExtended(outer, strip, 1, marks);
    ExtendedTwice(EMPTY, [R.Entry(window.id, 0)], [R.Entry(strip.id, 1)], marks);
    ExtendedTwice(EMPTY, [R.Entry(window.id, 0)] + [R.Entry(strip.id, 1)], below, marks);
    WalkedAllIsRendered(strip.kids, 2, own, marks);
    assert StripEntries(window, strip) == [R.Entry(window.id, 0)] + [R.Entry(strip.id, 1)] + below;
  }

  /** Compaction makes up no line but the marker. */
  lemma CompactedLinesAre(page: Page, start: nat, depth: nat, line: Line)
    requires start <= |page.lines| && line in Compacted(page, start, depth).lines && line.Line?
    ensures line in page.lines
  {
    var filtered := FilteredFrom(page.records, depth, page.lines, start);
    if line in filtered {
      KeptLinesAre(page.records, depth, page.lines[start..], line);
    }
  }

  lemma {:induction false} KeptLinesAre(records: seq<Record>, depth: nat, lines: seq<Line>, line: Line)
    ensures line in Keep(records, depth, lines) ==> line in lines
  {
    if lines != [] {
      KeptLinesAre(records, depth, lines[1..], line);
    }
  }

  lemma {:induction false} NoTabsBefore(lines: seq<Line>, start: nat, from: nat, upTo: nat, depth: nat)
    requires start <= from <= upTo <= |lines|
    requires forall i :: start <= i < from ==> !IsDirectTab(lines[i], depth)
    ensures TabsIn(lines, start, upTo, depth) == TabsIn(lines, from, upTo, depth)
  {
    if start < upTo {
      NoTabsBefore(lines, start, if from < upTo then from else upTo - 1, upTo - 1, depth);
    }
  }

  lemma NoTabBesideStrip(window: Tree, strip: Tree, marks: Marking, i: nat)
    requires 1 <= i < |StripEntries(window, strip)| && !marks(strip.id).tab
    ensures !IsDirectTab(StripPage(window, strip, marks).lines[i], 1)
  {
    var page, below := StripPage(window, strip, marks), R.RenderedAll(strip.kids, 2, R.MAX_NODES - 2);
    var top := [R.Entry(window.id, 0), R.Entry(strip.id, 1)];
    NoneAboveAll(strip.kids, 2, R.MAX_NODES - 2, 1, marks);
    ExtendedTwice(EMPTY, top, below, marks);
    TabsInExtended(Extended(EMPTY, top, marks), below, 1, marks);
    TabsInAreTabs(page.lines, 2, |page.lines|, 1);
  }

  lemma NoTabBeside(window: Tree, strip: Tree, marks: Marking, i: nat)
    requires !marks(strip.id).tab
    requires 1 <= i < |Compacted(StripPage(window, strip, marks), 2, 2).lines|
    ensures !IsDirectTab(Compacted(StripPage(window, strip, marks), 2, 2).lines[i], 1)
  {
    var page := StripPage(window, strip, marks);
    var line := Compacted(page, 2, 2).lines[i];
    if line.Line? && line.indent == 1 {
      CompactedLinesAre(page, 2, 2, line);
      var k :| 0 <= k < |page.lines| && page.lines[k] == line;
      NoTabBesideStrip(window, strip, marks, k);
    }
  }

  /** The window's own children are not compacted. */
  lemma WindowKeeps(window: Tree, strip: Tree, rest: seq<Tree>, marks: Marking, room: nat)
    requires IsWindow(window, strip, rest, marks)
    ensures var all := Extended(Compacted(StripPage(window, strip, marks), 2, 2), R.RenderedAll(rest, 1, room), marks);
            1 <= |all.lines| && Compacted(all, 1, 1) == all
  {
    var stripped := Compacted(StripPage(window, strip, marks), 2, 2);
    var below := R.RenderedAll(rest, 1, room);
    var all := Extended(stripped, below, marks);
    forall i | 1 <= i < |stripped.lines| ensures !IsDirectTab(all.lines[i], 1) {
      NoTabBeside(window, strip, marks, i);
    }
    NoTabsBefore(all.lines, 1, |stripped.lines|, |all.lines|, 1);
    TabsInExtended(stripped, below, 1, marks);
    DirectTabsBoundAll(rest, 1, room, marks);
    NothingToCompact(all, 1, 1, TabsIn(all.lines, 1, |all.lines|, 1));
  }

  /** The walk compacts the strip and then appends the rest, as far as there is room. */
  lemma WindowWalked(window: Tree, strip: Tree, rest: seq<Tree>, marks: Marking)
    requires IsWindow(window, strip, rest, marks)
    ensures var stripped := Compacted(StripPage(window, strip, marks), 2, 2);
            && |stripped.records| <= R.MAX_NODES
            && Walked(window, 0, EMPTY, marks)
               == Extended(stripped, R.RenderedAll(rest, 1, R.MAX_NODES - |stripped.records|), marks)
  {
    var stripped := Compacted(StripPage(window, strip, marks), 2, 2);
    StripWalked(window, strip, rest, marks);
    WalkedAllIsRendered(rest, 1, stripped, marks);
    WindowKeeps(window, strip, rest, marks, R.MAX_NODES - |stripped.records|);
    assert window.kids[0] == strip && window.kids[1..] == rest;
  }

  // ----- the records that go

  predicate IsInactiveTab(e: R.Entry, depth: nat, marks: Marking) {
    var m := marks(e.node);
    e.depth == depth && m.tab && !m.selectedText && !m.selected
  }

  /** The positions of the inactive tabs among the entries. */
  function InactiveTabs(es: seq<R.Entry>, start: nat, depth: nat, marks: Marking): set<nat> {
    set i | start <= i < |es| && IsInactiveTab(es[i], depth, marks)
  }

  lemma {:induction false} SelectedByPosition(records: seq<Record>, index: nat)
    requires ByPosition(records)
    ensures Selected(records, index) <==> index < |records| && records[index].selected
  {
    if records != [] {
      SelectedByPosition(records[..|records| - 1], index);
    }
  }

  lemma OmittedAreInactive(es: seq<R.Entry>, start: nat, depth: nat, marks: Marking)
    requires start <= |es|
    ensures var page := Extended(EMPTY, es, marks);
            OmittedIndexes(page.records, depth, page.lines[start..]) == InactiveTabs(es, start, depth, marks)
  {
    var page := Extended(EMPTY, es, marks);
    forall i | start <= i < |es|
      ensures IsOmitted(page.records, depth, page.lines[start..][i - start]) <==> IsInactiveTab(es[i], depth, marks)
    {
      SelectedByPosition(page.records, i);
    }
    forall n ensures n in OmittedIndexes(page.records, depth, page.lines[start..])
                <==> n in InactiveTabs(es, start, depth, marks)
    {
      if n in InactiveTabs(es, start, depth, marks) {
        assert page.lines[start..][n - start].index == n;
      }
    }
  }

  /** The numbers in use once the strip has been compacted. */
  function UsedNumbers(window: Tree, strip: Tree, marks: Marking): set<nat> {
    Kept(|StripEntries(window, strip)|, InactiveTabs(StripEntries(window, strip), 2, 2, marks))
  }

  lemma StripUniqueWith(window: Tree, strip: Tree, marks: Marking, more: seq<Record>)
    requires Compacts(StripPage(window, strip, marks), 2, 2)
    requires NumberedByCount(Compacted(StripPage(window, strip, marks), 2, 2).records, more)
    ensures var left := Compacted(StripPage(window, strip, marks), 2, 2).records;
            var used := UsedNumbers(window, strip, marks);
            |left| == |used| && (UniquelyNumbered(left + more) <==> NextAreFree(used, |more|))
  {
    var page := StripPage(window, strip, marks);
    OmittedAreInactive(StripEntries(window, strip), 2, 2, marks);
    CompactedCount(page, 2, 2);
    CompactionUniqueIff(page, 2, 2, more);
  }

  lemma WindowRecords(window: Tree, strip: Tree, rest: seq<Tree>, marks: Marking) returns (more: seq<Record>)
    requires IsWindow(window, strip, rest, marks)
    ensures var left := Compacted(StripPage(window, strip, marks), 2, 2).records;
            && |left| <= R.MAX_NODES && |more| == |R.RenderedAll(rest, 1, R.MAX_NODES - |left|)|
            && NumberedByCount(left, more) && Walked(window, 0, EMPTY, marks).records == left + more
  {
    var left := Compacted(StripPage(window, strip, marks), 2, 2).records;
    WindowWalked(window, strip, rest, marks);
    more := MarkedRecords(R.RenderedAll(rest, 1, R.MAX_NODES - |left|), |left|, marks);
  }

  /** When the strip is compacted, the whole rendering has distinct numbers if and only if no number still in
      use is among those given to the nodes after the strip. */
  lemma WindowUniqueIff(window: Tree, strip: Tree, rest: seq<Tree>, marks: Marking)
    requires IsWindow(window, strip, rest, marks) && Compacts(StripPage(window, strip, marks), 2, 2)
    ensures var used := UsedNumbers(window, strip, marks);
            && |used| <= R.MAX_NODES
            && (UniquelyNumbered(Walked(window, 0, EMPTY, marks).records)
                <==> NextAreFree(used, |R.RenderedAll(rest, 1, R.MAX_NODES - |used|)|))
  {
    var more := WindowRecords(window, strip, rest, marks);
    StripUniqueWith(window, strip, marks, more);
  }

  // ----- a strip of tabs without children

  ghost predicate IsLeaf(t: Tree) {
    !t.quiet && t.kids == []
  }

  predicate IsActiveTab(t: Tree, marks: Marking) {
    marks(t.id).selectedText || marks(t.id).selected
  }

  /** At least ten tabs, some active and some not, for which there is room. */
  ghost predicate IsStrip(tabs: seq<Tree>, marks: Marking) {
    && 10 <= |tabs| <= R.MAX_NODES - 2
    && (forall k :: 0 <= k < |tabs| ==> IsLeaf(tabs[k]) && marks(tabs[k].id).tab)
    && (exists k :: 0 <= k < |tabs| && IsActiveTab(tabs[k], marks))
    && (exists k :: 0 <= k < |tabs| && !IsActiveTab(tabs[k], marks))
  }

  function LeafEntries(ts: seq<Tree>, depth: nat): seq<R.Entry> {
    seq(|ts|, i requires 0 <= i < |ts| => R.Entry(ts[i].id, depth))
  }

  lemma {:induction false} LeavesRendered(ts: seq<Tree>, depth: nat, room: nat)
    requires (forall k :: 0 <= k < |ts| ==> IsLeaf(ts[k])) && |ts| <= room && depth <= R.MAX_DEPTH
    ensures R.RenderedAll(ts, depth, room) == LeafEntries(ts, depth)
    decreases |ts|
  {
    if ts != [] {
      LeavesRendered(ts[1..], depth, room - 1);
      assert R.Rendered(ts[0], depth, room) == [R.Entry(ts[0].id, depth)];
      assert LeafEntries(ts, depth) == [R.Entry(ts[0].id, depth)] + LeafEntries(ts[1..], depth);
    }
  }

  lemma {:induction false} LeavesHaveFewTabs(ts: seq<Tree>, marks: Marking)
    requires forall k :: 0 <= k < |ts| ==> IsLeaf(ts[k])
    ensures FewTabsAll(ts, marks)
    decreases |ts|
  {
    if ts != [] {
      LeavesHaveFewTabs(ts[1..], marks);
    }
  }

  lemma {:induction false} EveryLineIsTab(lines: seq<Line>, start: nat, upTo: nat, depth: nat)
    requires start <= upTo <= |lines| && forall i :: start <= i < upTo ==> IsDirectTab(lines[i], depth)
    ensures |TabsIn(lines, start, upTo, depth)| == upTo - start
  {
    if start < upTo {
      EveryLineIsTab(lines, start, upTo - 1, depth);
    }
  }

  lemma StripEntriesAre(window: Tree, strip: Tree, marks: Marking)
    requires IsStrip(strip.kids, marks)
    ensures StripEntries(window, strip)
         == [R.Entry(window.id, 0), R.Entry(strip.id, 1)] + LeafEntries(strip.kids, 2)
  {
    LeavesRendered(strip.kids, 2, R.MAX_NODES - 2);
  }

  lemma StripLine(window: Tree, strip: Tree, marks: Marking, k: nat)
    requires IsStrip(strip.kids, marks) && k < |strip.kids|
    ensures var page := StripPage(window, strip, marks);
            && |page.lines| == 2 + |strip.kids| && IsDirectTab(page.lines[2 + k], 2)
            && (IsActive(page.records, page.lines[2 + k]) <==> IsActiveTab(strip.kids[k], marks))
  {
    StripEntriesAre(window, strip, marks);
    SelectedByPosition(StripPage(window, strip, marks).records, 2 + k);
  }

  lemma StripTabs(window: Tree, strip: Tree, marks: Marking)
    requires IsStrip(strip.kids, marks)
    ensures var page := StripPage(window, strip, marks);
            var tabs := TabsIn(page.lines, 2, |page.lines|, 2);
            |tabs| == |strip.kids| && forall i :: 2 <= i < |page.lines| ==> i in tabs
  {
    var page := StripPage(window, strip, marks);
    StripEntriesAre(window, strip, marks);
    forall i | 2 <= i < |page.lines| ensures IsDirectTab(page.lines[i], 2) {
      StripLine(window, strip, marks, i - 2);
    }
    EveryLineIsTab(page.lines, 2, |page.lines|, 2);
    TabsInAreTabs(page.lines, 2, |page.lines|, 2);
  }

  lemma StripIsCompacted(window: Tree, strip: Tree, marks: Marking)
    requires IsStrip(strip.kids, marks)
    ensures Compacts(StripPage(window, strip, marks), 2, 2)
  {
    var page := StripPage(window, strip, marks);
    var tabs := TabsIn(page.lines, 2, |page.lines|, 2);
    StripTabs(window, strip, marks);
    TabsInAreTabs(page.lines, 2, |page.lines|, 2);
    var a :| 0 <= a < |strip.kids| && IsActiveTab(strip.kids[a], marks);
    StripLine(window, strip, marks, a);
    assert 2 + a in tabs;
    var b :| 0 <= b < |strip.kids| && !IsActiveTab(strip.kids[b], marks);
    StripLine(window, strip, marks, b);
    assert 2 + b in tabs;
  }

  predicate IsUsed(tabs: seq<Tree>, marks: Marking, n: nat) {
    n < 2 || (n < 2 + |tabs| && IsActiveTab(tabs[n - 2], marks))
  }

  /** The numbers of the window, of the strip, and of its active tabs. */
  function ActiveNumbers(tabs: seq<Tree>, marks: Marking): set<nat> {
    set n | 0 <= n < 2 + |tabs| && IsUsed(tabs, marks, n)
  }

  lemma UsedAreActive(window: Tree, strip: Tree, marks: Marking)
    requires IsStrip(strip.kids, marks)
    ensures UsedNumbers(window, strip, marks) == ActiveNumbers(strip.kids, marks)
  {
    var es, tabs := StripEntries(window, strip), strip.kids;
    StripEntriesAre(window, strip, marks);
    forall n ensures n in UsedNumbers(window, strip, marks) <==> n in ActiveNumbers(tabs, marks) {
      if 2 <= n < |es| {
        assert es[n] == R.Entry(tabs[n - 2].id, 2);
        assert IsInactiveTab(es[n], 2, marks) <==> !IsActiveTab(tabs[n - 2], marks);
      }
    }
  }

  /** A strip of tabs keeps the numbers of its active tabs. The rendering of the window has distinct numbers
      if and only if none of them is among the next numbers, counted from how many there are. */
  lemma StripUniqueIff(window: Tree, strip: Tree, rest: seq<Tree>, marks: Marking)
    requires IsWindow(window, strip, rest, marks) && IsStrip(strip.kids, marks)
    ensures var used := ActiveNumbers(strip.kids, marks);
            && |used| <= R.MAX_NODES
            && (UniquelyNumbered(Walked(window, 0, EMPTY, marks).records)
                <==> NextAreFree(used, |R.RenderedAll(rest, 1, R.MAX_NODES - |used|)|))
  {
    StripIsCompacted(window, strip, marks);
    UsedAreActive(window, strip, marks);
    WindowUniqueIff(window, strip, rest, marks);
  }

  lemma OneActive(tabs: seq<Tree>, marks: Marking, active: nat, more: nat)
    requires active < |tabs|
    requires forall k :: 0 <= k < |tabs| ==> (IsActiveTab(tabs[k], marks) <==> k == active)
    ensures |ActiveNumbers(tabs, marks)| == 3
    ensures NextAreFree(ActiveNumbers(tabs, marks), more) <==> active == 0 || more < active
  {
    var used := ActiveNumbers(tabs, marks);
    assert forall n :: n in used <==> n in {0, 1, 2 + active};
    assert used == {0, 1, 2 + active};
  }

  /** With one active tab, as in an ordinary browser window: if and only if it is the first tab, or fewer
      entries follow the strip than tabs stand in front of it. */
  lemma OneActiveTabIff(window: Tree, strip: Tree, rest: seq<Tree>, marks: Marking, active: nat)
    requires IsWindow(window, strip, rest, marks) && IsStrip(strip.kids, marks) && active < |strip.kids|
    requires forall k :: 0 <= k < |strip.kids| ==> (IsActiveTab(strip.kids[k], marks) <==> k == active)
    ensures UniquelyNumbered(Walked(window, 0, EMPTY, marks).records)
       <==> active == 0 || |R.RenderedAll(rest, 1, R.MAX_NODES - 3)| < active
  {
    OneActive(strip.kids, marks, active, |R.RenderedAll(rest, 1, R.MAX_NODES - 3)|);
    StripUniqueIff(window, strip, rest, marks);
  }

  // ----- a rendering with one number given out twice

  function Leaves(count: nat, first: nat): seq<Tree> {
    seq(count, i requires 0 <= i < count => R.Node(first + i, false, false, []))
  }

  /** Nodes 2 to 11 are tabs, and 11 is the selected one. */
  function LastOfTenSelected(id: nat): Marks {
    Marks(2 <= id <= 11, false, id == 11)
  }

  function SampleStrip(): Tree {
    R.Node(1, false, false, Leaves(10, 2))
  }

  function SampleWindow(): Tree {
    R.Node(0, false, false, [SampleStrip()] + Leaves(9, 12))
  }

  lemma {:induction false} NoDirectTabs(ts: seq<Tree>, marks: Marking)
    requires forall k :: 0 <= k < |ts| ==> IsLeaf(ts[k]) && !marks(ts[k].id).tab
    ensures DirectTabsAll(ts, marks) == 0
    decreases |ts|
  {
    if ts != [] {
      NoDirectTabs(ts[1..], marks);
    }
  }

  lemma LeavesInWindow(window: Tree, strip: Tree, rest: seq<Tree>, marks: Marking)
    requires IsInner(window) && IsInner(strip) && window.kids == [strip] + rest && !marks(strip.id).tab
    requires forall k :: 0 <= k < |strip.kids| ==> IsLeaf(strip.kids[k])
    requires forall k :: 0 <= k < |rest| ==> IsLeaf(rest[k]) && !marks(rest[k].id).tab
    ensures IsWindow(window, strip, rest, marks)
  {
    LeavesHaveFewTabs(strip.kids, marks);
    LeavesHaveFewTabs(rest, marks);
    NoDirectTabs(rest, marks);
  }

  lemma SampleIsWindow()
    ensures IsWindow(SampleWindow(), SampleStrip(), Leaves(9, 12), LastOfTenSelected)
  {
    LeavesInWindow(SampleWindow(), SampleStrip(), Leaves(9, 12), LastOfTenSelected);
  }

  lemma SampleIsActive(k: nat)
    requires k < 10
    ensures IsLeaf(SampleStrip().kids[k]) && LastOfTenSelected(SampleStrip().kids[k].id).tab
    ensures IsActiveTab(SampleStrip().kids[k], LastOfTenSelected) <==> k == 9
  {}

  lemma SampleIsStrip()
    ensures IsStrip(SampleStrip().kids, LastOfTenSelected)
    ensures forall k :: 0 <= k < 10 ==> (IsActiveTab(SampleStrip().kids[k], LastOfTenSelected) <==> k == 9)
  {
    var tabs := SampleStrip().kids;
    forall k | 0 <= k < 10
      ensures IsLeaf(tabs[k]) && LastOfTenSelected(tabs[k].id).tab
      ensures IsActiveTab(tabs[k], LastOfTenSelected) <==> k == 9
    {
      SampleIsActive(k);
    }
    assert IsActiveTab(tabs[9], LastOfTenSelected) && !IsActiveTab(tabs[0], LastOfTenSelected);
  }

  lemma SampleRest()
    ensures |R.RenderedAll(Leaves(9, 12), 1, R.MAX_NODES - 3)| == 9
  {
    LeavesRendered(Leaves(9, 12), 1, R.MAX_NODES - 3);
  }

  /** A window whose strip has ten tabs, the last one active, and with nine more nodes: the ninth gets the
      number of the active tab. */
  lemma NumberIsRepeated()
    ensures !UniquelyNumbered(Walked(SampleWindow(), 0, EMPTY, LastOfTenSelected).records)
  {
    SampleIsWindow();
    SampleIsStrip();
    SampleRest();
    OneActiveTabIff(SampleWindow(), SampleStrip(), Leaves(9, 12), LastOfTenSelected, 9);
  }
}
