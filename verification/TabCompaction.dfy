/** The rendering walk with compaction of browser tabs, on records and lines updated in place. */
module TabCompaction {
  import TreeRendering

  /** A rendered line: its indentation, the record index it begins with, whether its role is that of a
      tab, and whether its text says "(selected". Markers carry no index. */
  datatype Line = Line(indent: nat, index: nat, tab: bool, selectedText: bool) | Marker(indent: nat, count: nat)

  /** `selected`: the record is selected, or its value is "1". */
  datatype Record = Record(index: nat, selected: bool)

  const MIN_TABS := 10

  predicate IsDirectTab(line: Line, depth: nat) {
    line.Line? && line.indent == depth && line.tab
  }

  /** What the map from index to record says; of several records with one index the last one counts. */
  predicate Selected(records: seq<Record>, index: nat) {
    records != [] &&
    if records[|records| - 1].index == index then records[|records| - 1].selected
    else Selected(records[..|records| - 1], index)
  }

  /** Of the records with this index the last one is selected. */
  lemma {:induction false} SelectedIsLast(records: seq<Record>, index: nat)
    ensures Selected(records, index)
       <==> exists i :: 0 <= i < |records| && records[i].index == index && records[i].selected
                        && forall j :: i < j < |records| ==> records[j].index != index
  {
    if records != [] {
      var before, last := records[..|records| - 1], records[|records| - 1];
      SelectedIsLast(before, index);
      if last.index == index {
        assert records[|records| - 1].index == index;
      } else if Selected(before, index) {
        var i :| 0 <= i < |before| && before[i].index == index && before[i].selected
                 && forall j :: i < j < |before| ==> before[j].index != index;
        assert records[i].index == index && forall j :: i < j < |records| ==> records[j].index != index;
      }
    }
  }

  predicate IsActive(records: seq<Record>, line: Line) {
    line.Line? && (line.selectedText || Selected(records, line.index))
  }

  predicate IsOmitted(records: seq<Record>, depth: nat, line: Line) {
    IsDirectTab(line, depth) && !IsActive(records, line)
  }

  function Keep(records: seq<Record>, depth: nat, lines: seq<Line>): seq<Line> {
    if lines == [] then []
    else (if IsOmitted(records, depth, lines[0]) then [] else [lines[0]]) + Keep(records, depth, lines[1..])
  }

  function OmittedIndexes(records: seq<Record>, depth: nat, lines: seq<Line>): set<nat> {
    set i | 0 <= i < |lines| && IsOmitted(records, depth, lines[i]) :: lines[i].index
  }

  function KeepRecords(records: seq<Record>, omitted: set<nat>): (kept: seq<Record>)
    ensures |kept| <= |records|
  {
    if records == [] then []
    else (if records[0].index in omitted then [] else [records[0]]) + KeepRecords(records[1..], omitted)
  }

  // ----- what the filter does

  /** The positions that are kept, from `from` on: in order, and exactly those whose line is not omitted. */
  lemma {:induction false} KeepIsExact(records: seq<Record>, depth: nat, lines: seq<Line>,
                                       from: nat) returns (at: seq<nat>)
    requires from <= |lines|
    ensures |at| == |Keep(records, depth, lines[from..])|
    ensures forall i :: 0 <= i < |at| ==>
              from <= at[i] < |lines| && lines[at[i]] == Keep(records, depth, lines[from..])[i]
    ensures forall i, j :: 0 <= i < j < |at| ==> at[i] < at[j]
    ensures forall p :: p in at <==> from <= p < |lines| && !IsOmitted(records, depth, lines[p])
    decreases |lines| - from
  {
    at := [];
    if from < |lines| {
      at := KeepIsExact(records, depth, lines, from + 1);
      assert lines[from..][1..] == lines[from + 1..];
      if !IsOmitted(records, depth, lines[from]) {
        at := [from] + at;
      }
    }
  }

  lemma {:induction false} KeepAppend(records: seq<Record>, depth: nat, a: seq<Line>, b: seq<Line>)
    ensures Keep(records, depth, a + b) == Keep(records, depth, a) + Keep(records, depth, b)
    decreases |a|
  {
    if a == [] {
      assert a + b == b;
    } else {
      assert (a + b)[1..] == a[1..] + b;
      KeepAppend(records, depth, a[1..], b);
    }
  }

  lemma {:induction false} KeepAll(records: seq<Record>, depth: nat, lines: seq<Line>)
    requires forall i :: 0 <= i < |lines| ==> !IsOmitted(records, depth, lines[i])
    ensures Keep(records, depth, lines) == lines
  {
    if lines != [] {
      KeepAll(records, depth, lines[1..]);
    }
  }

  /** Something is deleted exactly when some tab is inactive. */
  lemma {:induction false} KeepShortensIff(records: seq<Record>, depth: nat, lines: seq<Line>)
    ensures |Keep(records, depth, lines)| <= |lines|
    ensures |Keep(records, depth, lines)| < |lines|
       <==> exists i :: 0 <= i < |lines| && IsOmitted(records, depth, lines[i])
    ensures |Keep(records, depth, lines)| == |lines| ==> Keep(records, depth, lines) == lines
  {
    if lines != [] {
      KeepShortensIff(records, depth, lines[1..]);
      if i :| 0 <= i < |lines| && IsOmitted(records, depth, lines[i]) {
        assert i > 0 ==> lines[1..][i - 1] == lines[i];
      }
      if i :| 0 <= i < |lines[1..]| && IsOmitted(records, depth, lines[1..][i]) {
        assert lines[i + 1] == lines[1..][i];
      }
    }
  }

  // ----- the compaction

  /** The positions of the direct tab lines from `start` on, in order. */
  ghost predicate AreTabs(tabs: seq<nat>, lines: seq<Line>, start: nat, upTo: nat, depth: nat)
    requires upTo <= |lines|
  {
    && (forall k :: 0 <= k < |tabs| ==> start <= tabs[k] < upTo && IsDirectTab(lines[tabs[k]], depth))
    && (forall k, l :: 0 <= k < l < |tabs| ==> tabs[k] < tabs[l])
    && (forall i :: start <= i < upTo && IsDirectTab(lines[i], depth) ==> i in tabs)
  }

  function TabsIn(lines: seq<Line>, start: nat, upTo: nat, depth: nat): seq<nat>
    requires upTo <= |lines|
  {
    if upTo <= start then []
    else TabsIn(lines, start, upTo - 1, depth) + if IsDirectTab(lines[upTo - 1], depth) then [upTo - 1] else []
  }

  lemma {:induction false} TabsInAreTabs(lines: seq<Line>, start: nat, upTo: nat, depth: nat)
    requires start <= upTo <= |lines|
    ensures AreTabs(TabsIn(lines, start, upTo, depth), lines, start, upTo, depth)
  {
    if start < upTo {
      TabsInAreTabs(lines, start, upTo - 1, depth);
    }
  }

  /** Compaction applies: at least ten direct tabs, some active and some not. */
  ghost predicate Applies(tabs: seq<nat>, lines: seq<Line>, records: seq<Record>)
    requires forall k :: 0 <= k < |tabs| ==> tabs[k] < |lines|
  {
    && |tabs| >= 10
    && (exists k :: 0 <= k < |tabs| && IsActive(records, lines[tabs[k]]))
    && (exists k :: 0 <= k < |tabs| && !IsActive(records, lines[tabs[k]]))
  }

  /** The records and the lines rendered so far. */
  datatype Page = Page(records: seq<Record>, lines: seq<Line>)

  /** Lines that are not omitted stay as they are. */
  lemma Gap(records: seq<Record>, depth: nat, all: seq<Line>, a: nat, b: nat)
    requires a <= b <= |all| && forall i :: a <= i < b ==> !IsOmitted(records, depth, all[i])
    ensures Keep(records, depth, all[a..]) == all[a..b] + Keep(records, depth, all[b..])
    ensures OmittedIndexes(records, depth, all[a..]) == OmittedIndexes(records, depth, all[b..])
  {
    assert all[a..] == all[a..b] + all[b..];
    KeepAppend(records, depth, all[a..b], all[b..]);
    KeepAll(records, depth, all[a..b]);
    OmittedAppend(records, depth, all[a..b], all[b..]);
  }

  lemma OmittedAppend(records: seq<Record>, depth: nat, a: seq<Line>, b: seq<Line>)
    ensures OmittedIndexes(records, depth, a + b)
         == OmittedIndexes(records, depth, a) + OmittedIndexes(records, depth, b)
  {
    forall i | 0 <= i < |b| ensures (a + b)[|a| + i] == b[i] {}
    forall x | x in OmittedIndexes(records, depth, b) ensures x in OmittedIndexes(records, depth, a + b) {
      var i :| 0 <= i < |b| && IsOmitted(records, depth, b[i]) && b[i].index == x;
      assert (a + b)[|a| + i] == b[i];
    }
    forall x | x in OmittedIndexes(records, depth, a) ensures x in OmittedIndexes(records, depth, a + b) {
      var i :| 0 <= i < |a| && IsOmitted(records, depth, a[i]) && a[i].index == x;
      assert (a + b)[i] == a[i];
    }
  }

  /** The lines when everything from position `from` on has been filtered. */
  function FilteredFrom(records: seq<Record>, depth: nat, all: seq<Line>, from: nat): seq<Line>
    requires from <= |all|
  {
    all[..from] + Keep(records, depth, all[from..])
  }

  lemma SplitAt(all: seq<Line>, at: nat, from: nat, tail: seq<Line>)
    requires at < from <= |all|
    ensures all[..from] + tail == all[..at] + ([all[at]] + (all[at + 1..from] + tail))
  {
    assert all[..from] == all[..at] + [all[at]] + all[at + 1..from];
  }

  lemma DropAt(front: seq<Line>, line: Line, back: seq<Line>)
    ensures var all := front + ([line] + back);
            all[..|front|] + all[|front| + 1..] == front + back && all[|front|] == line
  {}

  /** The tab at `at`, then lines that are no tabs up to `from`. */
  lemma KeepFromTab(records: seq<Record>, depth: nat, all: seq<Line>, at: nat, from: nat)
    requires at < from <= |all| && IsDirectTab(all[at], depth)
    requires forall i :: at < i < from ==> !IsDirectTab(all[i], depth)
    ensures Keep(records, depth, all[at..])
         == (if IsActive(records, all[at]) then [all[at]] else []) + (all[at + 1..from] + Keep(records, depth, all[from..]))
  {
    Gap(records, depth, all, at + 1, from);
    assert all[at..][0] == all[at] && all[at..][1..] == all[at + 1..];
  }

  /** One turn of the deleting loop. */
  lemma DeletingTurn(records: seq<Record>, depth: nat, all: seq<Line>, at: nat, from: nat, lines: seq<Line>)
    requires at < from <= |all| && IsDirectTab(all[at], depth)
    requires forall i :: at < i < from ==> !IsDirectTab(all[i], depth)
    requires lines == FilteredFrom(records, depth, all, from)
    ensures at < |lines| && lines[at] == all[at]
    ensures FilteredFrom(records, depth, all, at)
         == if IsActive(records, all[at]) then lines else lines[..at] + lines[at + 1..]
  {
    var front, back := all[..at], all[at + 1..from] + Keep(records, depth, all[from..]);
    KeepFromTab(records, depth, all, at, from);
    SplitAt(all, at, from, Keep(records, depth, all[from..]));
    DropAt(front, all[at], back);
    assert [] + back == back;
  }

  lemma DeletingTurnOmits(records: seq<Record>, depth: nat, all: seq<Line>, at: nat, from: nat)
    requires at < from <= |all| && IsDirectTab(all[at], depth)
    requires forall i :: at < i < from ==> !IsDirectTab(all[i], depth)
    ensures OmittedIndexes(records, depth, all[at..])
         == (if IsActive(records, all[at]) then {} else {all[at].index}) + OmittedIndexes(records, depth, all[from..])
  {
    Gap(records, depth, all, at + 1, from);
    assert all[at..] == [all[at]] + all[at + 1..];
    OmittedAppend(records, depth, [all[at]], all[at + 1..]);
    assert [all[at]][0] == all[at];
  }

  lemma NoTabBetween(tabs: seq<nat>, lines: seq<Line>, start: nat, depth: nat, k: nat, from: nat)
    requires start <= |lines| && AreTabs(tabs, lines, start, |lines|, depth) && k < |tabs|
    requires from == if k + 1 == |tabs| then |lines| else tabs[k + 1]
    ensures tabs[k] < from <= |lines|
    ensures forall i :: tabs[k] < i < from ==> !IsDirectTab(lines[i], depth)
  {
    forall l | 0 <= l < |tabs| ensures tabs[l] <= tabs[k] || from <= tabs[l] {}
  }

  lemma NoTabBefore(tabs: seq<nat>, lines: seq<Line>, start: nat, depth: nat, from: nat)
    requires start <= |lines| && AreTabs(tabs, lines, start, |lines|, depth)
    requires from == if tabs == [] then |lines| else tabs[0]
    ensures start <= from <= |lines|
    ensures forall i :: start <= i < from ==> !IsDirectTab(lines[i], depth)
  {
    forall l | 0 <= l < |tabs| ensures from <= tabs[l] {}
  }

  /** Filtering from the first tab on is filtering from the start of the children on. */
  lemma FilteredFromStart(records: seq<Record>, depth: nat, tabs: seq<nat>, all: seq<Line>, start: nat, from: nat)
    requires start <= |all| && AreTabs(tabs, all, start, |all|, depth)
    requires from == if tabs == [] then |all| else tabs[0]
    ensures from <= |all| && FilteredFrom(records, depth, all, start) == FilteredFrom(records, depth, all, from)
    ensures OmittedIndexes(records, depth, all[start..]) == OmittedIndexes(records, depth, all[from..])
  {
    NoTabBefore(tabs, all, start, depth, from);
    Gap(records, depth, all, start, from);
    assert all[..from] == all[..start] + all[start..from];
  }

  lemma CompactsIffInactive(records: seq<Record>, depth: nat, tabs: seq<nat>, all: seq<Line>, start: nat)
    requires start <= |all| && AreTabs(tabs, all, start, |all|, depth) && tabs != []
    ensures |Keep(records, depth, all[tabs[0]..])| < |all| - tabs[0]
       <==> exists k :: 0 <= k < |tabs| && !IsActive(records, all[tabs[k]])
  {
    var rest := all[tabs[0]..];
    KeepShortensIff(records, depth, rest);
    if i :| 0 <= i < |rest| && IsOmitted(records, depth, rest[i]) {
      assert tabs[0] + i in tabs;
      var k :| 0 <= k < |tabs| && tabs[k] == tabs[0] + i;
    }
    if k :| 0 <= k < |tabs| && !IsActive(records, all[tabs[k]]) {
      assert rest[tabs[k] - tabs[0]] == all[tabs[k]];
    }
  }

  lemma FilteredSplits(records: seq<Record>, depth: nat, all: seq<Line>, start: nat)
    requires start <= |all| && TabsIn(all, start, |all|, depth) != []
    ensures var tabs, filtered := TabsIn(all, start, |all|, depth), FilteredFrom(records, depth, all, start);
            && start <= tabs[0] < |all| && tabs[0] <= |filtered| <= |all|
            && filtered[..tabs[0]] == all[..tabs[0]] && filtered[tabs[0]..] == Keep(records, depth, all[tabs[0]..])
  {
    var tabs := TabsIn(all, start, |all|, depth);
    TabsInAreTabs(all, start, |all|, depth);
    FilteredFromStart(records, depth, tabs, all, start, tabs[0]);
    KeepShortensIff(records, depth, all[tabs[0]..]);
  }

  lemma FilteredSame(records: seq<Record>, depth: nat, all: seq<Line>, start: nat)
    requires start <= |all| && |FilteredFrom(records, depth, all, start)| == |all|
    ensures FilteredFrom(records, depth, all, start) == all
  {
    KeepShortensIff(records, depth, all[start..]);
    assert all[..start] + all[start..] == all;
  }

  predicate AnyActive(records: seq<Record>, lines: seq<Line>, tabs: seq<nat>) {
    exists k :: 0 <= k < |tabs| && tabs[k] < |lines| && IsActive(records, lines[tabs[k]])
  }

  /** What compaction makes of the lines from `start` on: the inactive direct tab lines go with their
      records, and a marker with their number stands where the first tab was; nothing changes with fewer
      than ten tabs, or none active, or none inactive. */
  function Compacted(page: Page, start: nat, depth: nat): (r: Page)
    requires start <= |page.lines|
    ensures start <= |r.lines| && |r.records| <= |page.records|
  {
    var tabs := TabsIn(page.lines, start, |page.lines|, depth);
    var filtered := FilteredFrom(page.records, depth, page.lines, start);
    if |tabs| < MIN_TABS || !AnyActive(page.records, page.lines, tabs) || |filtered| == |page.lines| then page
    else
      FilteredSplits(page.records, depth, page.lines, start);
      Page(KeepRecords(page.records, OmittedIndexes(page.records, depth, page.lines[start..])),
           filtered[..tabs[0]] + [Marker(depth, |page.lines| - |filtered|)] + filtered[tabs[0]..])
  }

  lemma NothingToCompact(page: Page, start: nat, depth: nat, tabs: seq<nat>)
    requires start <= |page.lines| && tabs == TabsIn(page.lines, start, |page.lines|, depth)
    requires |tabs| < MIN_TABS || !AnyActive(page.records, page.lines, tabs)
             || |FilteredFrom(page.records, depth, page.lines, start)| == |page.lines|
    ensures Compacted(page, start, depth) == page
  {}

  lemma CompactedChanges(page: Page, start: nat, depth: nat, tabs: seq<nat>, filtered: seq<Line>, count: nat,
                         omitted: set<nat>)
    requires start <= |page.lines| && tabs == TabsIn(page.lines, start, |page.lines|, depth)
    requires |tabs| >= MIN_TABS && AnyActive(page.records, page.lines, tabs)
    requires filtered == FilteredFrom(page.records, depth, page.lines, start) && |filtered| + count == |page.lines|
    requires omitted == OmittedIndexes(page.records, depth, page.lines[start..])
    ensures tabs[0] <= |filtered|
    ensures Compacted(page, start, depth)
         == if count == 0 then page
            else Page(KeepRecords(page.records, omitted),
                      filtered[..tabs[0]] + [Marker(depth, count)] + filtered[tabs[0]..])
    ensures count == 0 ==> filtered == page.lines
  {
    FilteredSplits(page.records, depth, page.lines, start);
    if count == 0 {
      FilteredSame(page.records, depth, page.lines, start);
    }
  }

  lemma AppliesIff(page: Page, start: nat, depth: nat, tabs: seq<nat>)
    requires start <= |page.lines| && AreTabs(tabs, page.lines, start, |page.lines|, depth)
    requires tabs == TabsIn(page.lines, start, |page.lines|, depth)
    ensures Applies(tabs, page.lines, page.records)
       <==> |tabs| >= MIN_TABS && AnyActive(page.records, page.lines, tabs)
            && |FilteredFrom(page.records, depth, page.lines, start)| < |page.lines|
  {
    if tabs != [] {
      FilteredSplits(page.records, depth, page.lines, start);
      CompactsIffInactive(page.records, depth, tabs, page.lines, start);
    }
  }

  lemma {:induction false} KeepRecordsAre(records: seq<Record>, omitted: set<nat>)
    ensures forall r :: r in KeepRecords(records, omitted) <==> r in records && r.index !in omitted
  {
    if records != [] {
      KeepRecordsAre(records[1..], omitted);
    }
  }

  lemma NeverLonger(page: Page, start: nat, depth: nat)
    requires start <= |page.lines|
    ensures |FilteredFrom(page.records, depth, page.lines, start)| <= |page.lines|
  {
    KeepShortensIff(page.records, depth, page.lines[start..]);
  }

  /** Compaction changes the lines from `start` on. */
  ghost predicate Compacts(page: Page, start: nat, depth: nat)
    requires start <= |page.lines|
  {
    TabsInAreTabs(page.lines, start, |page.lines|, depth);
    Applies(TabsIn(page.lines, start, |page.lines|, depth), page.lines, page.records)
  }

  lemma AppliedIsExact(page: Page, start: nat, depth: nat, tabs: seq<nat>, omitted: set<nat>)
    requires start <= |page.lines| && tabs == TabsIn(page.lines, start, |page.lines|, depth)
    requires |tabs| >= MIN_TABS && AnyActive(page.records, page.lines, tabs)
    requires |FilteredFrom(page.records, depth, page.lines, start)| < |page.lines|
    requires omitted == OmittedIndexes(page.records, depth, page.lines[start..])
    ensures tabs[0] < |page.lines|
    ensures var kept := Keep(page.records, depth, page.lines[tabs[0]..]);
            && |kept| < |page.lines| - tabs[0]
            && Compacted(page, start, depth)
               == Page(KeepRecords(page.records, omitted),
                       page.lines[..tabs[0]] + [Marker(depth, |page.lines| - tabs[0] - |kept|)] + kept)
  {
    var filtered := FilteredFrom(page.records, depth, page.lines, start);
    FilteredSplits(page.records, depth, page.lines, start);
    CompactedChanges(page, start, depth, tabs, filtered, |page.lines| - |filtered|, omitted);
  }

  /** So compaction keeps the lines in front of the first tab, then puts the marker, then the lines that are
      not inactive tabs; the records that go are those with the index of an inactive tab line, and the rest
      stay in order; and it happens exactly when there are ten tabs, some active and some not. */
  lemma CompactionIsExact(page: Page, start: nat, depth: nat, tabs: seq<nat>, omitted: set<nat>)
    requires start <= |page.lines| && tabs == TabsIn(page.lines, start, |page.lines|, depth)
    requires omitted == OmittedIndexes(page.records, depth, page.lines[start..])
    ensures AreTabs(tabs, page.lines, start, |page.lines|, depth)
    ensures !Applies(tabs, page.lines, page.records) ==> Compacted(page, start, depth) == page
    ensures Applies(tabs, page.lines, page.records) ==>
              var kept := Keep(page.records, depth, page.lines[tabs[0]..]);
              && |kept| < |page.lines| - tabs[0]
              && Compacted(page, start, depth)
                 == Page(KeepRecords(page.records, omitted),
                         page.lines[..tabs[0]] + [Marker(depth, |page.lines| - tabs[0] - |kept|)] + kept)
    ensures forall r :: r in KeepRecords(page.records, omitted) <==> r in page.records && r.index !in omitted
  {
    TabsInAreTabs(page.lines, start, |page.lines|, depth);
    AppliesIff(page, start, depth, tabs);
    KeepRecordsAre(page.records, omitted);
    if Applies(tabs, page.lines, page.records) {
      AppliedIsExact(page, start, depth, tabs, omitted);
    } else {
      NeverLonger(page, start, depth);
      NothingToCompact(page, start, depth, tabs);
    }
  }

  // ----- the walk, compacting after the children of each node

  type Tree = TreeRendering.Tree

  /** What the rendering of a node looks like to the compaction. */
  datatype Marks = Marks(tab: bool, selectedText: bool, selected: bool)

  type Marking = nat -> Marks

  function Appended(page: Page, t: Tree, depth: nat, marks: Marking): Page {
    Page(page.records + [Record(|page.records|, marks(t.id).selected)],
         page.lines + [Line(depth, |page.records|, marks(t.id).tab, marks(t.id).selectedText)])
  }

  /** At most MAX_NODES records, whatever has been compacted on the way. */
  function Walked(t: Tree, depth: nat, page: Page, marks: Marking): (r: Page)
    ensures |page.lines| <= |r.lines|
    ensures |page.records| <= TreeRendering.MAX_NODES ==> |r.records| <= TreeRendering.MAX_NODES
    decreases t, 0
  {
    if |page.records| >= TreeRendering.MAX_NODES || depth > TreeRendering.MAX_DEPTH then page
    else if TreeRendering.Elided(t) then WalkedAll(t.kids, depth, page, marks)
    else
      var own := Appended(page, t, depth, marks);
      if t.closed then own else Compacted(WalkedAll(t.kids, depth + 1, own, marks), |own.lines|, depth + 1)
  }

  function WalkedAll(ts: seq<Tree>, depth: nat, page: Page, marks: Marking): (r: Page)
    ensures |page.lines| <= |r.lines|
    ensures |page.records| <= TreeRendering.MAX_NODES ==> |r.records| <= TreeRendering.MAX_NODES
    decreases ts
  {
    if ts == [] then page else WalkedAll(ts[1..], depth, Walked(ts[0], depth, page, marks), marks)
  }

  class Rendering {
    var records: seq<Record>
    var lines: seq<Line>

    constructor (records: seq<Record>, lines: seq<Line>)
      ensures this.records == records && this.lines == lines
    {
      this.records, this.lines := records, lines;
    }

    method TabLineIndexes(start: nat, depth: nat) returns (tabs: seq<nat>)
      requires start <= |lines|
      ensures tabs == TabsIn(lines, start, |lines|, depth)
      ensures AreTabs(tabs, lines, start, |lines|, depth)
    {
      tabs := [];
      for i := start to |lines|
        invariant tabs == TabsIn(lines, start, i, depth)
      {
        if IsDirectTab(lines[i], depth) {
          tabs := tabs + [i];
        }
      }
      TabsInAreTabs(lines, start, |lines|, depth);
    }

    /** Deletes the inactive tab lines, from the last one to the first. */
    method DeleteInactive(tabs: seq<nat>, active: set<nat>, ghost start: nat, depth: nat)
        returns (count: nat, omitted: set<nat>)
      requires start <= |lines| && AreTabs(tabs, lines, start, |lines|, depth)
      requires forall k :: 0 <= k < |tabs| ==> (tabs[k] in active <==> IsActive(records, lines[tabs[k]]))
      modifies this`lines
      ensures lines == FilteredFrom(records, depth, old(lines), start)
      ensures count == old(|lines|) - |lines|
      ensures omitted == OmittedIndexes(records, depth, old(lines[start..]))
    {
      ghost var all, from := lines, |lines|;
      count, omitted := 0, {};
      var k := |tabs|;
      assert all[..|all|] + Keep(records, depth, all[|all|..]) == all;
      while k > 0
        invariant 0 <= k <= |tabs| && from == if k == |tabs| then |all| else tabs[k]
        invariant lines == FilteredFrom(records, depth, all, from)
        invariant count == |all| - |lines|
        invariant omitted == OmittedIndexes(records, depth, all[from..])
      {
        k := k - 1;
        var lineIndex := tabs[k];
        NoTabBetween(tabs, all, start, depth, k, from);
        DeletingTurn(records, depth, all, lineIndex, from, lines);
        DeletingTurnOmits(records, depth, all, lineIndex, from);
        if lineIndex !in active {
          omitted := omitted + {lines[lineIndex].index};
          lines := lines[..lineIndex] + lines[lineIndex + 1..];
          count := count + 1;
        }
        from := lineIndex;
      }
      FilteredFromStart(records, depth, tabs, all, start, from);
    }

    method ActiveTabs(tabs: seq<nat>) returns (active: set<nat>)
      requires forall k :: 0 <= k < |tabs| ==> tabs[k] < |lines|
      ensures forall i :: i in active <==> i in tabs && i < |lines| && IsActive(records, lines[i])
      ensures active == {} <==> !AnyActive(records, lines, tabs)
    {
      active := {};
      for k := 0 to |tabs|
        invariant forall i :: i in active <==> i in tabs[..k] && i < |lines| && IsActive(records, lines[i])
      {
        assert tabs[..k + 1] == tabs[..k] + [tabs[k]];
        if IsActive(records, lines[tabs[k]]) {
          active := active + {tabs[k]};
        }
      }
      assert tabs[..|tabs|] == tabs;
      if k :| 0 <= k < |tabs| && IsActive(records, lines[tabs[k]]) {
        assert tabs[k] in active;
      }
      if i :| i in active {
        var k :| 0 <= k < |tabs| && tabs[k] == i;
      }
    }

    method CompactRenderedBrowserTabs(start: nat, depth: nat)
      requires start <= |lines|
      modifies this
      ensures Page(records, lines) == Compacted(old(Page(records, lines)), start, depth)
    {
      ghost var page := Page(records, lines);
      var tabLineIndexes := TabLineIndexes(start, depth);
      if |tabLineIndexes| < MIN_TABS {
        NothingToCompact(page, start, depth, tabLineIndexes);
        return;
      }
      var active := ActiveTabs(tabLineIndexes);
      if active == {} {
        NothingToCompact(page, start, depth, tabLineIndexes);
        return;
      }
      var insertionIndex := tabLineIndexes[0];
      var count, omitted := DeleteInactive(tabLineIndexes, active, start, depth);
      CompactedChanges(page, start, depth, tabLineIndexes, lines, count, omitted);
      if count == 0 {
        return;
      }
      records := KeepRecords(records, omitted);
      lines := lines[..insertionIndex] + [Marker(depth, count)] + lines[insertionIndex..];
    }

    method Walk(t: Tree, depth: nat, marks: Marking)
      modifies this
      ensures Page(records, lines) == Walked(t, depth, old(Page(records, lines)), marks)
      decreases t, 0
    {
      if |records| >= TreeRendering.MAX_NODES || depth > TreeRendering.MAX_DEPTH {
        return;
      }
      if TreeRendering.Elided(t) {
        WalkAll(t.kids, depth, marks);
        return;
      }
      lines := lines + [Line(depth, |records|, marks(t.id).tab, marks(t.id).selectedText)];
      records := records + [Record(|records|, marks(t.id).selected)];
      if t.closed {
        return;
      }
      var childLineStart := |lines|;
      WalkAll(t.kids, depth + 1, marks);
      CompactRenderedBrowserTabs(childLineStart, depth + 1);
    }

    method WalkAll(kids: seq<Tree>, depth: nat, marks: Marking)
      modifies this
      ensures Page(records, lines) == WalkedAll(kids, depth, old(Page(records, lines)), marks)
      decreases kids
    {
      for i := 0 to |kids|
        invariant WalkedAll(kids[i..], depth, Page(records, lines), marks)
               == WalkedAll(kids, depth, old(Page(records, lines)), marks)
      {
        assert kids[i..][0] == kids[i] && kids[i..][1..] == kids[i + 1..];
        Walk(kids[i], depth, marks);
      }
    }
  }
}
