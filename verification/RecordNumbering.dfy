/** The numbers of rendered records once compaction has removed some of them. */
module RecordNumbering {
  import opened TabCompaction
  import opened BrowserWalk
  import R = TreeRendering

  // ----- the numbering of later records

  ghost predicate Increasing(records: seq<Record>) {
    forall i, j :: 0 <= i < j < |records| ==> records[i].index < records[j].index
  }

  ghost predicate ByPosition(records: seq<Record>) {
    forall i :: 0 <= i < |records| ==> records[i].index == i
  }

  ghost predicate UniquelyNumbered(records: seq<Record>) {
    forall i, j :: 0 <= i < j < |records| ==> records[i].index != records[j].index
  }

  /** More records, numbered as the walk does it: each by how many there are. */
  ghost predicate NumberedByCount(records: seq<Record>, more: seq<Record>) {
    forall i :: 0 <= i < |more| ==> more[i].index == |records| + i
  }

  /** So many more records repeat no number if and only if none of the next numbers is in use. */
  lemma UniqueIff(records: seq<Record>, more: seq<Record>)
    requires Increasing(records) && NumberedByCount(records, more)
    ensures UniquelyNumbered(records + more)
       <==> forall i :: 0 <= i < |records| ==> !(|records| <= records[i].index < |records| + |more|)
  {
    var all := records + more;
    if i :| 0 <= i < |records| && |records| <= records[i].index < |records| + |more| {
      assert all[i].index == all[records[i].index].index;
    }
  }

  lemma {:induction false} IncreasingFrom(records: seq<Record>, i: nat)
    requires Increasing(records) && i < |records|
    ensures records[i].index >= i
    decreases i
  {
    if i > 0 {
      IncreasingFrom(records, i - 1);
    }
  }

  lemma {:induction false} GapPushesLast(records: seq<Record>, i: nat)
    requires Increasing(records) && i < |records| && records[i].index > i
    ensures records[|records| - 1].index >= |records|
    decreases |records| - i
  {
    if i < |records| - 1 {
      GapPushesLast(records, i + 1);
    }
  }

  /** The next `count` records. */
  function NextRecords(records: seq<Record>, count: nat): (more: seq<Record>)
    ensures |more| == count && NumberedByCount(records, more)
  {
    seq(count, i requires 0 <= i < count => Record(|records| + i, false))
  }

  /** The records rendered so far keep distinct numbers however many follow, if and only if they are
      still numbered by position. */
  lemma NumberingStaysUniqueIff(records: seq<Record>)
    requires Increasing(records)
    ensures (forall more :: NumberedByCount(records, more) ==> UniquelyNumbered(records + more))
       <==> ByPosition(records)
  {
    forall more | NumberedByCount(records, more)
      ensures UniquelyNumbered(records + more)
         <==> forall i :: 0 <= i < |records| ==> !(|records| <= records[i].index < |records| + |more|)
    {
      UniqueIff(records, more);
    }
    if !ByPosition(records) {
      var i :| 0 <= i < |records| && records[i].index != i;
      IncreasingFrom(records, i);
      GapPushesLast(records, i);
      var more := NextRecords(records, records[|records| - 1].index - |records| + 1);
      assert !UniquelyNumbered(records + more);
    }
  }

  // ----- what compaction leaves

  /** Dropping records leaves the numbers of the others increasing. */
  lemma {:induction false} KeepRecordsIncreasing(records: seq<Record>, omitted: set<nat>)
    requires Increasing(records)
    ensures Increasing(KeepRecords(records, omitted))
  {
    if records != [] {
      KeepRecordsIncreasing(records[1..], omitted);
      KeepRecordsAre(records[1..], omitted);
      var rest := KeepRecords(records[1..], omitted);
      forall r | r in rest ensures records[0].index < r.index {
        var i :| 0 <= i < |records[1..]| && records[1..][i] == r;
        assert records[i + 1] == r;
      }
    }
  }

  /** The numbers that are kept, of records numbered by position. */
  function Kept(count: nat, omitted: set<nat>): set<nat> {
    set i | 0 <= i < count && i !in omitted
  }

  /** The next numbers, counted from how many are in use, are not in use. */
  ghost predicate NextAreFree(used: set<nat>, more: nat) {
    forall n :: n in used ==> !(|used| <= n < |used| + more)
  }

  lemma {:induction false} KeptCount(records: seq<Record>, omitted: set<nat>, first: nat)
    requires forall i :: 0 <= i < |records| ==> records[i].index == first + i
    ensures |KeepRecords(records, omitted)| == |set i | first <= i < first + |records| && i !in omitted|
  {
    var kept := set i | first <= i < first + |records| && i !in omitted;
    if records == [] {
      assert kept == {};
    } else {
      KeptCount(records[1..], omitted, first + 1);
      var later := set i | first + 1 <= i < first + 1 + |records[1..]| && i !in omitted;
      assert kept == later + if first in omitted then {} else {first};
    }
  }

  lemma KeptNumbers(records: seq<Record>, omitted: set<nat>)
    requires ByPosition(records)
    ensures var after := KeepRecords(records, omitted);
            && Increasing(after) && |after| == |Kept(|records|, omitted)|
            && (forall i :: 0 <= i < |after| ==> after[i].index in Kept(|records|, omitted))
            && (forall n :: n in Kept(|records|, omitted) ==> exists i :: 0 <= i < |after| && after[i].index == n)
  {
    var after := KeepRecords(records, omitted);
    KeepRecordsIncreasing(records, omitted);
    KeepRecordsAre(records, omitted);
    KeptCount(records, omitted, 0);
    assert Kept(|records|, omitted) == set i | 0 <= i < 0 + |records| && i !in omitted;
    forall i | 0 <= i < |after| ensures after[i].index in Kept(|records|, omitted) {
      assert after[i] in records;
    }
    forall n | n in Kept(|records|, omitted) ensures exists i :: 0 <= i < |after| && after[i].index == n {
      assert records[n] in after;
      var i :| 0 <= i < |after| && after[i] == records[n];
    }
  }

  /** After dropping records from a page numbered by position, more records repeat no number if and only if
      the next numbers, counted from the records that are left, are not among those that are left. */
  lemma DroppingUniqueIff(records: seq<Record>, omitted: set<nat>, more: seq<Record>)
    requires ByPosition(records) && NumberedByCount(KeepRecords(records, omitted), more)
    ensures var kept := Kept(|records|, omitted);
            && (UniquelyNumbered(KeepRecords(records, omitted) + more)
                <==> NextAreFree(kept, |more|))
  {
    KeptNumbers(records, omitted);
    UniqueIff(KeepRecords(records, omitted), more);
  }

  lemma {:induction false} LeftFromFront(count: nat, after: seq<Record>, omitted: set<nat>, i: nat)
    requires Increasing(after) && i < |after|
    requires forall k :: 0 <= k < |after| ==> after[k].index in Kept(count, omitted)
    requires forall n :: n in Kept(count, omitted) ==> exists k :: 0 <= k < |after| && after[k].index == n
    requires forall m, n :: 0 <= m < n < count && m in omitted ==> n in omitted
    ensures after[i].index == i
    decreases i
  {
    IncreasingFrom(after, i);
    if i < after[i].index {
      assert i in Kept(count, omitted);
      var p :| 0 <= p < |after| && after[p].index == i;
      if p < i {
        LeftFromFront(count, after, omitted, p);
      }
    }
  }

  lemma FrontIsKept(count: nat, after: seq<Record>, omitted: set<nat>, i: nat, j: nat)
    requires ByPosition(after) && i < j && j in Kept(count, omitted)
    requires forall k :: 0 <= k < |after| ==> after[k].index in Kept(count, omitted)
    requires forall n :: n in Kept(count, omitted) ==> exists k :: 0 <= k < |after| && after[k].index == n
    ensures i !in omitted
  {
    var p :| 0 <= p < |after| && after[p].index == j;
    assert after[i].index in Kept(count, omitted);
  }

  /** And however many follow, if and only if no record that is left is behind one that goes. */
  lemma DroppingStaysUniqueIff(records: seq<Record>, omitted: set<nat>)
    requires ByPosition(records)
    ensures (forall more :: NumberedByCount(KeepRecords(records, omitted), more) ==>
               UniquelyNumbered(KeepRecords(records, omitted) + more))
       <==> (forall i, j :: 0 <= i < j < |records| && i in omitted ==> j in omitted)
  {
    var after := KeepRecords(records, omitted);
    KeptNumbers(records, omitted);
    NumberingStaysUniqueIff(after);
    if forall i, j :: 0 <= i < j < |records| && i in omitted ==> j in omitted {
      forall i | 0 <= i < |after| ensures after[i].index == i {
        LeftFromFront(|records|, after, omitted, i);
      }
    }
    if ByPosition(after) {
      forall i, j | 0 <= i < j < |records| && j !in omitted ensures i !in omitted {
        FrontIsKept(|records|, after, omitted, i, j);
      }
    }
  }

  lemma CompactedCount(page: Page, start: nat, depth: nat)
    requires start <= |page.lines| && ByPosition(page.records) && Compacts(page, start, depth)
    ensures |Compacted(page, start, depth).records|
         == |Kept(|page.records|, OmittedIndexes(page.records, depth, page.lines[start..]))|
  {
    var omitted := OmittedIndexes(page.records, depth, page.lines[start..]);
    CompactionIsExact(page, start, depth, TabsIn(page.lines, start, |page.lines|, depth), omitted);
    KeptNumbers(page.records, omitted);
  }

  /** The same for a compaction, told from the page before it: where it applies, so many more records repeat
      no number if and only if the next numbers are not among those of the records it keeps. */
  lemma CompactionUniqueIff(page: Page, start: nat, depth: nat, more: seq<Record>)
    requires start <= |page.lines| && ByPosition(page.records)
    requires Compacts(page, start, depth)
    requires NumberedByCount(Compacted(page, start, depth).records, more)
    ensures var kept := Kept(|page.records|, OmittedIndexes(page.records, depth, page.lines[start..]));
            && (UniquelyNumbered(Compacted(page, start, depth).records + more)
                <==> NextAreFree(kept, |more|))
  {
    var omitted := OmittedIndexes(page.records, depth, page.lines[start..]);
    CompactionIsExact(page, start, depth, TabsIn(page.lines, start, |page.lines|, depth), omitted);
    DroppingUniqueIff(page.records, omitted, more);
  }

  /** Records numbered by position keep distinct numbers after a compaction, however many follow, if and
      only if it does not apply, or no record is behind one of an inactive tab unless it goes too. */
  lemma CompactionKeepsNumberingIff(page: Page, start: nat, depth: nat)
    requires start <= |page.lines| && ByPosition(page.records)
    ensures var after := Compacted(page, start, depth).records;
            var omitted := OmittedIndexes(page.records, depth, page.lines[start..]);
            && ((forall more :: NumberedByCount(after, more) ==> UniquelyNumbered(after + more))
                <==> !Compacts(page, start, depth)
                     || forall i, j :: 0 <= i < j < |page.records| && i in omitted ==> j in omitted)
  {
    var tabs := TabsIn(page.lines, start, |page.lines|, depth);
    var omitted := OmittedIndexes(page.records, depth, page.lines[start..]);
    CompactionIsExact(page, start, depth, tabs, omitted);
    if Compacts(page, start, depth) {
      DroppingStaysUniqueIff(page.records, omitted);
    } else {
      NumberingStaysUniqueIff(page.records);
    }
  }
}
