/**
 * Age-based selection of review apps: each candidate namespace's release is
 * looked up, and the namespace is put on the delete list when its release was
 * last updated more than the maximum age before the single current time.
 */
module ReleaseSelection {
  import opened Wrappers
  import opened Sequences

  /**
   * One release record of a namespace, reduced to its `updated` field,
   * already parsed into whole seconds since the epoch (UTC).
   */
  datatype Release = Release(updated: int)

  /**
   * The release listing of a namespace: `None` when the listing tool fails or
   * its output is not a JSON list, otherwise the records it returned.
   */
  type ReleaseLookup = string -> Option<seq<Release>>

  const SecondsPerHour: int := 3600

  /** The maximum age, in hours, used when none is given on the command line. */
  const DefaultMaxAgeHours: int := 72

  /**
   * The tail of `get_helm_chart`: a listing of other than one record is only
   * reported, and the first record is taken; an empty listing has none.
   */
  function PickRelease(records: seq<Release>): (chart: Option<Release>)
    ensures chart.Some? <==> |records| >= 1
    ensures chart.Some? ==> chart.value == records[0]
  {
    if records == [] then None else Some(records[0])
  }

  /** `get_helm_chart`: list the releases of a namespace and pick one; `None` is any failure. */
  function GetHelmChart(lookup: ReleaseLookup, namespace: string): Option<Release>
  {
    match lookup(namespace)
    case None => None
    case Some(records) => PickRelease(records)
  }

  /** The release is older than the maximum age: strictly more seconds have passed. */
  predicate IsStale(now: int, updated: int, maxAgeHours: int)
  {
    now - updated > maxAgeHours * SecondsPerHour
  }

  /** Whether the (corrected) loop of `main` puts a namespace on the delete list. */
  function ShouldDelete(lookup: ReleaseLookup, now: int, maxAgeHours: int): string -> bool
  {
    namespace =>
      match GetHelmChart(lookup, namespace)
      case None => false
      case Some(chart) => IsStale(now, chart.updated, maxAgeHours)
  }

  /**
   * The loop of `main` over the review-app namespaces, with the failed lookup
   * skipping to the next namespace. `now` is the one current time, read once
   * before the loop.
   */
  method SelectStale(namespaces: seq<string>, lookup: ReleaseLookup, now: int, maxAgeHours: int)
    returns (toBeDeleted: seq<string>)
    ensures toBeDeleted == Filter(namespaces, ShouldDelete(lookup, now, maxAgeHours))
  {
    toBeDeleted := [];
    for i := 0 to |namespaces|
      invariant toBeDeleted == Filter(namespaces[..i], ShouldDelete(lookup, now, maxAgeHours))
    {
      assert namespaces[..i + 1][..i] == namespaces[..i];
      var chart := GetHelmChart(lookup, namespaces[i]);
      if chart.None? {
        // the lookup failed: the error is logged and this namespace skipped
        continue;
      }
      if IsStale(now, chart.value.updated, maxAgeHours) {
        toBeDeleted := toBeDeleted + [namespaces[i]];
      }
    }
    assert namespaces[..|namespaces|] == namespaces;
  }

  /**
   * A namespace is on the delete list exactly when it is a candidate, its
   * lookup yields a release, and strictly more than `maxAgeHours` hours have
   * passed since that release was updated; a failed lookup never selects.
   */
  lemma DeleteIff(namespaces: seq<string>, lookup: ReleaseLookup, now: int, maxAgeHours: int, namespace: string)
    ensures namespace in Filter(namespaces, ShouldDelete(lookup, now, maxAgeHours)) <==>
            namespace in namespaces &&
            GetHelmChart(lookup, namespace).Some? &&
            now - GetHelmChart(lookup, namespace).value.updated > maxAgeHours * 3600
    ensures GetHelmChart(lookup, namespace).None? ==>
            namespace !in Filter(namespaces, ShouldDelete(lookup, now, maxAgeHours))
  {
    FilterMembership(namespaces, ShouldDelete(lookup, now, maxAgeHours), namespace);
  }

  /**
   * An age of exactly the maximum is not selected; one second more is.
   */
  lemma ThresholdIsStrict(namespace: string, lookup: ReleaseLookup, now: int, maxAgeHours: int)
    requires lookup(namespace).Some? && lookup(namespace).value != []
    ensures lookup(namespace).value[0].updated == now - maxAgeHours * 3600 ==>
            Filter([namespace], ShouldDelete(lookup, now, maxAgeHours)) == []
    ensures lookup(namespace).value[0].updated == now - maxAgeHours * 3600 - 1 ==>
            Filter([namespace], ShouldDelete(lookup, now, maxAgeHours)) == [namespace]
  {
    assert [namespace][..0] == [];
  }

  /** The delete list keeps the candidates' order and never lengthens the list. */
  lemma SelectionKeepsOrder(namespaces: seq<string>, lookup: ReleaseLookup, now: int, maxAgeHours: int)
    ensures IsSubsequence(Filter(namespaces, ShouldDelete(lookup, now, maxAgeHours)), namespaces)
    ensures |Filter(namespaces, ShouldDelete(lookup, now, maxAgeHours))| <= |namespaces|
  {
    FilterSubsequence(namespaces, ShouldDelete(lookup, now, maxAgeHours));
    SubsequenceMultiset(Filter(namespaces, ShouldDelete(lookup, now, maxAgeHours)), namespaces);
  }

  /** Scanning at a later time selects everything an earlier scan selected, in the same order. */
  lemma LaterScanSelectsMore(namespaces: seq<string>, lookup: ReleaseLookup, now: int, later: int, maxAgeHours: int)
    requires now <= later
    ensures IsSubsequence(Filter(namespaces, ShouldDelete(lookup, now, maxAgeHours)),
                          Filter(namespaces, ShouldDelete(lookup, later, maxAgeHours)))
  {
    FilterMonotone(namespaces, ShouldDelete(lookup, now, maxAgeHours), ShouldDelete(lookup, later, maxAgeHours));
  }

  /** A larger maximum age selects a subsequence of what a smaller one selects. */
  lemma LargerMaxAgeSelectsLess(namespaces: seq<string>, lookup: ReleaseLookup, now: int, maxAgeHours: int, larger: int)
    requires maxAgeHours <= larger
    ensures IsSubsequence(Filter(namespaces, ShouldDelete(lookup, now, larger)),
                          Filter(namespaces, ShouldDelete(lookup, now, maxAgeHours)))
  {
    FilterMonotone(namespaces, ShouldDelete(lookup, now, larger), ShouldDelete(lookup, now, maxAgeHours));
  }

  /** How the loop of `main` as written ends: with a delete list, or with `chart` unbound. */
  datatype LoopOutcome = Completed(toBeDeleted: seq<string>) | UnboundChart

  /**
   * The loop of `main` as written: a failed lookup is logged, but the age
   * test still runs on `chart`, which keeps the release of the last
   * successful lookup, and is unbound (a NameError that ends the run) when no
   * lookup has succeeded yet.
   */
  function SelectedAsWritten(namespaces: seq<string>, lookup: ReleaseLookup, now: int, maxAgeHours: int,
                             chart: Option<Release>, toBeDeleted: seq<string>): (outcome: LoopOutcome)
    ensures outcome.Completed? ==> toBeDeleted <= outcome.toBeDeleted
    ensures outcome.Completed? ==> |outcome.toBeDeleted| <= |toBeDeleted| + |namespaces|
    decreases |namespaces|
  {
    if namespaces == [] then Completed(toBeDeleted)
    else
      var fetched := GetHelmChart(lookup, namespaces[0]);
      var current := if fetched.Some? then fetched else chart;
      match current
      case None => UnboundChart
      case Some(release) =>
        SelectedAsWritten(namespaces[1..], lookup, now, maxAgeHours, current,
                          if IsStale(now, release.updated, maxAgeHours) then toBeDeleted + [namespaces[0]] else toBeDeleted)
  }

  /** One turn of the loop as written, when the lookup of its namespace succeeds. */
  lemma AsWrittenStep(namespaces: seq<string>, lookup: ReleaseLookup, now: int, maxAgeHours: int,
                      chart: Option<Release>, toBeDeleted: seq<string>)
    requires namespaces != [] && GetHelmChart(lookup, namespaces[0]).Some?
    ensures SelectedAsWritten(namespaces, lookup, now, maxAgeHours, chart, toBeDeleted)
         == SelectedAsWritten(namespaces[1..], lookup, now, maxAgeHours, GetHelmChart(lookup, namespaces[0]),
                              toBeDeleted + Filter([namespaces[0]], ShouldDelete(lookup, now, maxAgeHours)))
  {
    var x := namespaces[0];
    var fetched := GetHelmChart(lookup, x);
    assert [x][..0] == [];
    if IsStale(now, fetched.value.updated, maxAgeHours) {
      assert Filter([x], ShouldDelete(lookup, now, maxAgeHours)) == [x];
    } else {
      assert Filter([x], ShouldDelete(lookup, now, maxAgeHours)) == [];
      assert toBeDeleted + [] == toBeDeleted;
    }
  }

  /**
   * When every lookup succeeds, the loop as written and the corrected loop
   * produce the same delete list: the two differ only on failed lookups.
   */
  lemma {:induction false} AsWrittenAgreesWithoutFailures(namespaces: seq<string>, lookup: ReleaseLookup, now: int,
                                                          maxAgeHours: int, chart: Option<Release>, toBeDeleted: seq<string>)
    requires forall i :: 0 <= i < |namespaces| ==> GetHelmChart(lookup, namespaces[i]).Some?
    ensures SelectedAsWritten(namespaces, lookup, now, maxAgeHours, chart, toBeDeleted)
         == Completed(toBeDeleted + Filter(namespaces, ShouldDelete(lookup, now, maxAgeHours)))
    decreases |namespaces|
  {
    if namespaces != [] {
      var p := ShouldDelete(lookup, now, maxAgeHours);
      var x, rest := namespaces[0], namespaces[1..];
      var kept := Filter([x], p);
      AsWrittenStep(namespaces, lookup, now, maxAgeHours, chart, toBeDeleted);
      assert forall i :: 0 <= i < |rest| ==> rest[i] == namespaces[i + 1];
      AsWrittenAgreesWithoutFailures(rest, lookup, now, maxAgeHours, GetHelmChart(lookup, x), toBeDeleted + kept);
      assert namespaces == [x] + rest;
      FilterAppend([x], rest, p);
      ConcatAssociative(toBeDeleted, kept, Filter(rest, p));
    } else {
      assert toBeDeleted + [] == toBeDeleted;
    }
  }

  /**
   * With the default maximum age of 72 hours, a failed lookup after a
   * successful one: the loop as written puts the
   * second namespace on the delete list on the strength of the first one's
   * release, while the corrected loop leaves it out.
   */
  lemma StaleChartSelectsFailedLookup()
    ensures SelectedAsWritten(["review-1-web", "review-2-web"], n => if n == "review-1-web" then Some([Release(0)]) else None,
                              73 * 3600, DefaultMaxAgeHours, None, [])
         == Completed(["review-1-web", "review-2-web"])
    ensures Filter(["review-1-web", "review-2-web"],
                   ShouldDelete(n => if n == "review-1-web" then Some([Release(0)]) else None, 73 * 3600, DefaultMaxAgeHours))
         == ["review-1-web"]
  {
    var names := ["review-1-web", "review-2-web"];
    var lookup: ReleaseLookup := n => if n == "review-1-web" then Some([Release(0)]) else None;
    var p := ShouldDelete(lookup, 73 * 3600, DefaultMaxAgeHours);
    assert names[1..][1..] == [];
    assert p(names[0]) && !p(names[1]);
    assert names[..1][..0] == [] && names[..2][..1] == names[..1];
  }

  /**
   * With the default maximum age, a failed first lookup: the loop as written
   * stops on the unbound `chart`, while the corrected loop skips the
   * namespace and carries on.
   */
  lemma FirstFailureIsUnbound()
    ensures SelectedAsWritten(["review-1-web", "review-2-web"], n => if n == "review-2-web" then Some([Release(0)]) else None,
                              73 * 3600, DefaultMaxAgeHours, None, [])
         == UnboundChart
    ensures Filter(["review-1-web", "review-2-web"],
                   ShouldDelete(n => if n == "review-2-web" then Some([Release(0)]) else None, 73 * 3600, DefaultMaxAgeHours))
         == ["review-2-web"]
  {
    var names := ["review-1-web", "review-2-web"];
    var lookup: ReleaseLookup := n => if n == "review-2-web" then Some([Release(0)]) else None;
    var p := ShouldDelete(lookup, 73 * 3600, DefaultMaxAgeHours);
    assert !p(names[0]) && p(names[1]);
    assert names[..1][..0] == [] && names[..2][..1] == names[..1];
  }
}
