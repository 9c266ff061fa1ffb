/** The edit distance behind the command suggestions: the two-row loop computes the recursive
    distance, that distance is a metric, and it is the least number of single-character edits. */
module EditDistance {
  function Min(a: int, b: int): int {
    if a < b then a else b
  }

  function Cost(x: char, y: char): nat {
    if x == y then 0 else 1
  }

  function Init(a: string): string
    requires a != ""
  {
    a[..|a| - 1]
  }

  function Last(a: string): char
    requires a != ""
  {
    a[|a| - 1]
  }

  function Distance(a: string, b: string): nat
    decreases |a| + |b|
  {
    if a == "" then |b|
    else if b == "" then |a|
    else Min(Min(Distance(Init(a), b) + 1, Distance(a, Init(b)) + 1),
             Distance(Init(a), Init(b)) + Cost(Last(a), Last(b)))
  }

  // ----- the loop

  /** The distance of the prefixes of lengths i and j, which is what the rows hold. */
  function PrefixDistance(a: string, i: nat, b: string, j: nat): nat
    requires i <= |a| && j <= |b|
    decreases i + j
  {
    if i == 0 then j
    else if j == 0 then i
    else Min(Min(PrefixDistance(a, i - 1, b, j) + 1, PrefixDistance(a, i, b, j - 1) + 1),
             PrefixDistance(a, i - 1, b, j - 1) + Cost(a[i - 1], b[j - 1]))
  }

  lemma {:induction false} PrefixDistanceIsDistance(a: string, i: nat, b: string, j: nat, x: string, y: string)
    requires i <= |a| && j <= |b| && x == a[..i] && y == b[..j]
    ensures PrefixDistance(a, i, b, j) == Distance(x, y)
    decreases i + j
  {
    if i > 0 && j > 0 {
      PrefixDistanceIsDistance(a, i - 1, b, j, Init(x), y);
      PrefixDistanceIsDistance(a, i, b, j - 1, x, Init(y));
      PrefixDistanceIsDistance(a, i - 1, b, j - 1, Init(x), Init(y));
    }
  }

  /** The first `upTo` cells hold the distances of the prefix of length i. */
  ghost predicate Row(row: seq<nat>, upTo: nat, a: string, i: nat, b: string) {
    && |row| == |b| + 1 && i <= |a| && upTo <= |row|
    && forall j :: 0 <= j < upTo ==> row[j] == PrefixDistance(a, i, b, j)
  }

  /** The next cell, from the one before it and the two above. */
  function Cell(prev: seq<nat>, curr: seq<nat>, j: nat, a: string, i: nat, b: string): nat
    requires 0 < j < |prev| == |curr| == |b| + 1 && 0 < i <= |a|
  {
    Min(Min(prev[j] + 1, curr[j - 1] + 1), prev[j - 1] + Cost(a[i - 1], b[j - 1]))
  }

  lemma RowExtends(prev: seq<nat>, curr: seq<nat>, j: nat, a: string, i: nat, b: string)
    requires 0 < i && 0 < j <= |b| && Row(prev, |b| + 1, a, i - 1, b) && Row(curr, j, a, i, b)
    ensures Row(curr[j := Cell(prev, curr, j, a, i, b)], j + 1, a, i, b)
  {
    assert Cell(prev, curr, j, a, i, b) == PrefixDistance(a, i, b, j);
  }

  method Levenshtein(a: string, b: string) returns (distance: nat)
    ensures distance == Distance(a, b)
  {
    var m, n := |a|, |b|;
    if m == 0 {
      return n;
    }
    if n == 0 {
      return m;
    }
    var prev := new nat[n + 1](index => index);
    var curr := new nat[n + 1](_ => 0);
    var i := 1;
    while i <= m
      invariant 1 <= i <= m + 1
      invariant prev != curr && fresh(prev) && fresh(curr)
      invariant Row(prev[..], n + 1, a, i - 1, b) && Row(curr[..], 0, a, 0, b)
    {
      curr[0] := i;
      var j := 1;
      while j <= n
        invariant 1 <= j <= n + 1
        invariant Row(prev[..], n + 1, a, i - 1, b) && Row(curr[..], j, a, i, b)
      {
        RowExtends(prev[..], curr[..], j, a, i, b);
        var cost := if a[i - 1] == b[j - 1] then 0 else 1;
        curr[j] := Min(Min(prev[j] + 1, curr[j - 1] + 1), prev[j - 1] + cost);
        j := j + 1;
      }
      prev, curr := curr, prev;
      i := i + 1;
    }
    PrefixDistanceIsDistance(a, m, b, n, a, b);
    distance := prev[n];
  }

  // ----- a metric

  lemma {:induction false} DistanceBounds(a: string, b: string)
    ensures |a| - |b| <= Distance(a, b) && |b| - |a| <= Distance(a, b)
    decreases |a| + |b|
  {
    if a != "" && b != "" {
      DistanceBounds(Init(a), b);
      DistanceBounds(a, Init(b));
      DistanceBounds(Init(a), Init(b));
    }
  }

  lemma {:induction false} ZeroIffEqual(a: string, b: string)
    ensures Distance(a, b) == 0 <==> a == b
    decreases |a| + |b|
  {
    if a != "" && b != "" {
      ZeroIffEqual(Init(a), Init(b));
      assert a == Init(a) + [Last(a)] && b == Init(b) + [Last(b)];
    }
  }

  lemma {:induction false} Symmetric(a: string, b: string)
    ensures Distance(a, b) == Distance(b, a)
    decreases |a| + |b|
  {
    if a != "" && b != "" {
      Symmetric(Init(a), b);
      Symmetric(a, Init(b));
      Symmetric(Init(a), Init(b));
    }
  }

  lemma {:induction false} Triangle(a: string, b: string, c: string)
    ensures Distance(a, c) <= Distance(a, b) + Distance(b, c)
    decreases |a| + |b| + |c|
  {
    DistanceBounds(a, b);
    DistanceBounds(b, c);
    if a != "" && b != "" && c != "" {
      Triangle(Init(a), b, c);
      Triangle(a, b, Init(c));
      Triangle(a, Init(b), c);
      Triangle(Init(a), Init(b), c);
      Triangle(a, Init(b), Init(c));
      Triangle(Init(a), Init(b), Init(c));
    } else if b == "" {
      DistanceBounds(a, c);
      SumBound(a, c);
    }
  }

  lemma {:induction false} SumBound(a: string, c: string)
    ensures Distance(a, c) <= |a| + |c|
    decreases |a| + |c|
  {
    if a != "" && c != "" {
      SumBound(Init(a), c);
    }
  }

  // ----- the least number of edits

  datatype Edit = Insert(at: nat, c: char) | Delete(at: nat) | Substitute(at: nat, c: char)

  predicate Applicable(e: Edit, a: string) {
    if e.Insert? then e.at <= |a| else e.at < |a|
  }

  function Perform(e: Edit, a: string): string
    requires Applicable(e, a)
  {
    match e
    case Insert(at, c) => a[..at] + [c] + a[at..]
    case Delete(at) => a[..at] + a[at + 1..]
    case Substitute(at, c) => a[at := c]
  }

  ghost predicate Transforms(a: string, script: seq<Edit>, b: string)
    decreases |script|
  {
    if script == [] then a == b
    else Applicable(script[0], a) && Transforms(Perform(script[0], a), script[1..], b)
  }

  /** Appending the same text to both sides does not increase the distance. */
  lemma {:induction false} CommonSuffix(a: string, b: string, suffix: string)
    ensures Distance(a + suffix, b + suffix) <= Distance(a, b)
    decreases |suffix|
  {
    if suffix == "" {
      assert a + suffix == a && b + suffix == b;
    } else {
      CommonSuffix(a, b, Init(suffix));
      assert Init(a + suffix) == a + Init(suffix) && Init(b + suffix) == b + Init(suffix);
    }
  }

  lemma OneMoreCharacter(a: string, c: char)
    ensures Distance(a, a + [c]) <= 1 && Distance(a + [c], a) <= 1
  {
    assert Init(a + [c]) == a;
    ZeroIffEqual(a, a);
  }

  lemma OneOtherCharacter(a: string, c: char, d: char)
    ensures Distance(a + [c], a + [d]) <= 1
  {
    assert Init(a + [c]) == a && Init(a + [d]) == a;
    ZeroIffEqual(a, a);
  }

  /** Replacing a middle part that is at most one edit away. */
  lemma OneEditInside(a: string, b: string, head: string, x: string, y: string, tail: string)
    requires a == head + x + tail && b == head + y + tail
    requires Distance(head + x, head + y) <= 1
    ensures Distance(a, b) <= 1
  {
    CommonSuffix(head + x, head + y, tail);
  }

  lemma OneInsertion(a: string, at: nat, c: char)
    requires at <= |a|
    ensures Distance(a, Perform(Insert(at, c), a)) <= 1
  {
    var head := a[..at];
    assert head + "" == head;
    OneMoreCharacter(head, c);
    OneEditInside(a, Perform(Insert(at, c), a), head, "", [c], a[at..]);
  }

  lemma OneDeletion(a: string, at: nat)
    requires at < |a|
    ensures Distance(a, Perform(Delete(at), a)) <= 1
  {
    var head := a[..at];
    assert head + "" == head;
    OneMoreCharacter(head, a[at]);
    OneEditInside(a, Perform(Delete(at), a), head, [a[at]], "", a[at + 1..]);
  }

  lemma OneSubstitution(a: string, at: nat, c: char)
    requires at < |a|
    ensures Distance(a, Perform(Substitute(at, c), a)) <= 1
  {
    OneOtherCharacter(a[..at], a[at], c);
    OneEditInside(a, Perform(Substitute(at, c), a), a[..at], [a[at]], [c], a[at + 1..]);
  }

  lemma OneEdit(a: string, e: Edit)
    requires Applicable(e, a)
    ensures Distance(a, Perform(e, a)) <= 1
  {
    match e
    case Insert(at, c) => OneInsertion(a, at, c);
    case Delete(at) => OneDeletion(a, at);
    case Substitute(at, c) => OneSubstitution(a, at, c);
  }

  /** No script of edits is shorter than the distance. */
  lemma {:induction false} DistanceIsLowerBound(a: string, script: seq<Edit>, b: string)
    requires Transforms(a, script, b)
    ensures Distance(a, b) <= |script|
    decreases |script|
  {
    ZeroIffEqual(a, b);
    if script != [] {
      var next := Perform(script[0], a);
      OneEdit(a, script[0]);
      DistanceIsLowerBound(next, script[1..], b);
      Triangle(a, next, b);
    }
  }

  lemma {:induction false} TransformsWithSuffix(a: string, script: seq<Edit>, b: string, suffix: string)
    requires Transforms(a, script, b)
    ensures Transforms(a + suffix, script, b + suffix)
    decreases |script|
  {
    if script != [] {
      var e := script[0];
      assert Perform(e, a + suffix) == Perform(e, a) + suffix;
      TransformsWithSuffix(Perform(e, a), script[1..], b, suffix);
    }
  }

  lemma PrependEdit(a: string, e: Edit, script: seq<Edit>, b: string)
    requires Applicable(e, a) && Transforms(Perform(e, a), script, b)
    ensures Transforms(a, [e] + script, b)
  {
    assert ([e] + script)[1..] == script;
  }

  lemma AppendLast(b: string)
    requires b != ""
    ensures Init(b) + [Last(b)] == b
  {}

  lemma DropLast(a: string, script: seq<Edit>, b: string) returns (longer: seq<Edit>)
    requires a != "" && Transforms(Init(a), script, b)
    ensures |longer| == |script| + 1 && Transforms(a, longer, b)
  {
    var e := Delete(|a| - 1);
    assert Perform(e, a) == Init(a);
    PrependEdit(a, e, script, b);
    longer := [e] + script;
  }

  lemma AddLast(a: string, script: seq<Edit>, b: string) returns (longer: seq<Edit>)
    requires b != "" && Transforms(a, script, Init(b))
    ensures |longer| == |script| + 1 && Transforms(a, longer, b)
  {
    var e := Insert(|a|, Last(b));
    AppendLast(b);
    TransformsWithSuffix(a, script, Init(b), [Last(b)]);
    assert Perform(e, a) == a + [Last(b)];
    PrependEdit(a, e, script, b);
    longer := [e] + script;
  }

  lemma MatchLast(a: string, script: seq<Edit>, b: string) returns (longer: seq<Edit>)
    requires a != "" && b != "" && Transforms(Init(a), script, Init(b))
    ensures |longer| == |script| + Cost(Last(a), Last(b)) && Transforms(a, longer, b)
  {
    AppendLast(a);
    AppendLast(b);
    TransformsWithSuffix(Init(a), script, Init(b), [Last(b)]);
    if Last(a) == Last(b) {
      longer := script;
    } else {
      var e := Substitute(|a| - 1, Last(b));
      assert Perform(e, a) == Init(a) + [Last(b)];
      PrependEdit(a, e, script, b);
      longer := [e] + script;
    }
  }

  /** Some script of exactly that many edits exists. */
  lemma {:induction false} ShortestScript(a: string, b: string) returns (script: seq<Edit>)
    ensures Transforms(a, script, b) && |script| == Distance(a, b)
    decreases |a| + |b|
  {
    if a == "" && b == "" {
      script := [];
    } else if a != "" && (b == "" || Distance(a, b) == Distance(Init(a), b) + 1) {
      script := ShortestScript(Init(a), b);
      script := DropLast(a, script, b);
    } else if b != "" && (a == "" || Distance(a, b) == Distance(a, Init(b)) + 1) {
      script := ShortestScript(a, Init(b));
      script := AddLast(a, script, b);
    } else {
      script := ShortestScript(Init(a), Init(b));
      script := MatchLast(a, script, b);
    }
  }

  /** The distance is the length of a shortest script of insertions, deletions and substitutions. */
  lemma DistanceIsFewestEdits(a: string, b: string)
    ensures exists script :: Transforms(a, script, b) && |script| == Distance(a, b)
    ensures forall script :: Transforms(a, script, b) ==> Distance(a, b) <= |script|
  {
    var shortest := ShortestScript(a, b);
    forall script | Transforms(a, script, b) ensures Distance(a, b) <= |script| {
      DistanceIsLowerBound(a, script, b);
    }
  }
}
