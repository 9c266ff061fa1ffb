/** Choosing the next release version: when the bump loop ends, and what it then yields. */
module ReleaseVersion {
  import opened Options

  datatype Version = Version(major: nat, minor: nat, patch: nat)

  /** Numeric precedence, as in section 11 of Semantic Versioning 2.0.0. */
  predicate Less(a: Version, b: Version) {
    || a.major < b.major
    || (a.major == b.major && a.minor < b.minor)
    || (a.major == b.major && a.minor == b.minor && a.patch < b.patch)
  }

  /** A version with parts smaller than `base` is a number of three digits in that base. */
  function Number(v: Version, base: nat): nat {
    (v.major * base + v.minor) * base + v.patch
  }

  lemma {:induction false} Multiples(x: nat, y: nat, base: nat)
    requires x < y
    ensures x * base + base <= y * base
  {
    if x + 1 < y {
      Multiples(x, y - 1, base);
    }
    assert y * base == (y - 1) * base + base;
  }

  lemma DigitsDecide(x: nat, y: nat, c: nat, d: nat, base: nat)
    requires c < base && d < base
    ensures x * base + c < y * base + d <==> x < y || (x == y && c < d)
  {
    if x < y {
      Multiples(x, y, base);
    } else if y < x {
      Multiples(y, x, base);
    }
  }

  /** The precedence is the order of these numbers. */
  lemma LessIsNumeric(a: Version, b: Version, base: nat)
    requires a.minor < base && a.patch < base && b.minor < base && b.patch < base
    ensures Less(a, b) <==> Number(a, base) < Number(b, base)
  {
    DigitsDecide(a.major, b.major, a.minor, b.minor, base);
    DigitsDecide(b.major, a.major, b.minor, a.minor, base);
    DigitsDecide(a.major * base + a.minor, b.major * base + b.minor, a.patch, b.patch, base);
  }

  function BumpPatch(v: Version): Version {
    v.(patch := v.patch + 1)
  }

  /** Without a parsable ceiling nothing is closed. */
  predicate ClosedTrain(v: Version, highestClosed: Option<Version>) {
    highestClosed.Some? && !Less(highestClosed.value, v)
  }

  function Bumped(v: Version, times: nat): Version {
    v.(patch := v.patch + times)
  }

  predicate TrainBelow(a: Version, b: Version) {
    a.major < b.major || (a.major == b.major && a.minor < b.minor)
  }

  predicate SameTrain(a: Version, b: Version) {
    a.major == b.major && a.minor == b.minor
  }

  /** The loop leaves a train that is not closed after finitely many bumps. */
  ghost predicate Ends(current: Version, closed: Version -> bool) {
    exists times: nat :: times > 0 && !closed(Bumped(current, times))
  }

  /** The least number of bumps, at least one, after which the train is open. */
  ghost predicate FirstOpen(current: Version, closed: Version -> bool, times: nat) {
    && times > 0 && !closed(Bumped(current, times))
    && forall k :: 0 < k < times ==> closed(Bumped(current, k))
  }

  /** For any way of closing trains, the loop ends with the first version above the current one that is
      open, provided there is one. */
  method BumpUntilOpen(current: Version, closed: Version -> bool) returns (candidate: Version)
    requires Ends(current, closed)
    ensures SameTrain(candidate, current) && current.patch < candidate.patch
    ensures FirstOpen(current, closed, candidate.patch - current.patch)
  {
    ghost var limit: nat :| limit > 0 && !closed(Bumped(current, limit));
    candidate := BumpPatch(current);
    while closed(candidate)
      invariant candidate == Bumped(current, candidate.patch - current.patch)
      invariant current.patch < candidate.patch <= current.patch + limit
      invariant forall k :: 0 < k < candidate.patch - current.patch ==> closed(Bumped(current, k))
      decreases current.patch + limit - candidate.patch
    {
      candidate := BumpPatch(candidate);
    }
  }

  datatype Choice = Exact(text: string) | Unchanged | Next(version: Version) | CannotBump

  /** A requested version is taken as it is and the current one is kept unless a bump is asked for;
      `current` is None when it is no version, which cannot be bumped. */
  method Resolve(requested: string, bumpPatch: bool, current: Option<Version>, closed: Version -> bool)
      returns (choice: Choice)
    requires requested == "" && bumpPatch && current.Some? ==> Ends(current.value, closed)
    ensures choice.Exact? <==> requested != ""
    ensures choice.Exact? ==> choice.text == requested
    ensures choice.Unchanged? <==> requested == "" && !bumpPatch
    ensures choice.CannotBump? <==> requested == "" && bumpPatch && current.None?
    ensures choice.Next? ==> current.Some? && current.value.patch < choice.version.patch
                             && SameTrain(choice.version, current.value)
                             && FirstOpen(current.value, closed, choice.version.patch - current.value.patch)
  {
    if requested != "" {
      return Exact(requested);
    }
    if !bumpPatch {
      return Unchanged;
    }
    if current.None? {
      return CannotBump;
    }
    var candidate := BumpUntilOpen(current.value, closed);
    return Next(candidate);
  }

  function ClosedUpTo(ceiling: Option<Version>): Version -> bool {
    v => ClosedTrain(v, ceiling)
  }

  /** Against a fixed ceiling the loop ends exactly when the current train is not below that of the
      ceiling: bumping the patch never leaves a train. */
  lemma EndsIff(current: Version, ceiling: Option<Version>)
    ensures Ends(current, ClosedUpTo(ceiling)) <==> (ceiling.Some? ==> !TrainBelow(current, ceiling.value))
  {
    var closed := ClosedUpTo(ceiling);
    if ceiling.None? || !TrainBelow(current, ceiling.value) {
      var times := 1 + if ceiling.Some? then ceiling.value.patch else 0;
      assert !closed(Bumped(current, times));
    }
  }

  /** Version 1.2.3 against the ceiling 1.3.0, for one. */
  lemma LaterTrainNeverEnds()
    ensures !Ends(Version(1, 2, 3), ClosedUpTo(Some(Version(1, 3, 0))))
  {
    EndsIff(Version(1, 2, 3), Some(Version(1, 3, 0)));
  }

  /** Where it ends it yields the least version of the train above both the current version and the
      ceiling. */
  lemma ResolvesToLeast(current: Version, ceiling: Version, times: nat, other: Version)
    requires FirstOpen(current, ClosedUpTo(Some(ceiling)), times)
    ensures var chosen := Bumped(current, times);
            && SameTrain(chosen, current) && Less(current, chosen) && Less(ceiling, chosen)
            && (SameTrain(other, current) && Less(current, other) && Less(ceiling, other) ==> !Less(other, chosen))
  {
    var closed := ClosedUpTo(Some(ceiling));
    forall k | 0 < k < times ensures !Less(ceiling, Bumped(current, k)) {
      assert closed(Bumped(current, k));
    }
    assert SameTrain(other, current) && Less(current, other) ==> other == Bumped(current, other.patch - current.patch);
  }

  // ----- the highest version

  /** The highest of the versions; of the entries that are no versions nothing is left. */
  method MaxVersion(versions: seq<Option<Version>>) returns (highest: Option<Version>)
    ensures highest.None? <==> forall i :: 0 <= i < |versions| ==> versions[i].None?
    ensures highest.Some? ==> highest in versions
    ensures forall i :: 0 <= i < |versions| && versions[i].Some? && highest.Some? ==> !Less(highest.value, versions[i].value)
  {
    highest := None;
    for i := 0 to |versions|
      invariant highest.None? <==> forall j :: 0 <= j < i ==> versions[j].None?
      invariant highest.Some? ==> highest in versions
      invariant forall j :: 0 <= j < i && versions[j].Some? && highest.Some? ==> !Less(highest.value, versions[j].value)
    {
      if versions[i].Some? && (highest.None? || Less(highest.value, versions[i].value)) {
        highest := versions[i];
      }
    }
  }
}
