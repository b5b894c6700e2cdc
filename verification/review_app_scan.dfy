/**
 * One run of the scan, from the discovered sub-namespace names to the output
 * line: filter the review apps of one application, select those whose
 * release is older than the maximum age, and write their pull-request
 * numbers.
 */
module ReviewAppScan {
  import opened Wrappers
  import opened Sequences
  import opened NamespaceFilter
  import opened ReleaseSelection
  import opened OutputLine

  /**
   * The pull-request numbers of a list of review-app names: the digit run
   * after `review-` of each, in order. This is the reference the tokens of
   * `write_output` are compared against.
   */
  function PrNumbers(namespaces: seq<string>): seq<string>
  {
    seq(|namespaces|, i requires 0 <= i < |namespaces| => PrNumber(namespaces[i]))
  }

  /** The tokens `write_output` takes from review-app names are their pull-request numbers. */
  lemma {:induction false} ReviewAppTokens(namespaces: seq<string>, app: string)
    requires forall i :: 0 <= i < |namespaces| ==> MatchesPattern(namespaces[i], app)
    ensures PrTokens(namespaces) == Some(PrNumbers(namespaces))
    ensures forall i :: 0 <= i < |namespaces| ==> IsPlain(PrNumbers(namespaces)[i])
  {
    forall i | 0 <= i < |namespaces|
      ensures PrToken(namespaces[i]) == Some(PrNumber(namespaces[i]))
      ensures '-' in namespaces[i]
      ensures IsPlain(PrNumber(namespaces[i]))
    {
      MatchedPrToken(namespaces[i], app);
    }
    var tokens := PrTokens(namespaces);
    assert tokens.Some?;
    assert tokens.value == PrNumbers(namespaces);
  }

  /**
   * The body of `main` after discovery: `subnamespaces` is what discovery
   * returned, `now` the current time read once at the start, and `output` the
   * line written for the CI pipeline. The delete list is an order-preserving
   * subsequence of the discovered names, holds exactly the review apps of the
   * application whose release lookup succeeded and is older than the maximum
   * age, and the output line carries their pull-request numbers in the same
   * order.
   */
  method ScanReviewApps(subnamespaces: seq<string>, reviewAppName: string, lookup: ReleaseLookup,
                        now: int, maxAgeHours: int)
    returns (toBeDeleted: seq<string>, output: string)
    requires IsLiteralAppName(reviewAppName)
    ensures toBeDeleted == Filter(Filter(subnamespaces, MatchesApp(reviewAppName)), ShouldDelete(lookup, now, maxAgeHours))
    ensures IsSubsequence(toBeDeleted, subnamespaces)
    ensures forall namespace :: namespace in toBeDeleted <==>
              namespace in subnamespaces && MatchesPattern(namespace, reviewAppName) &&
              ShouldDelete(lookup, now, maxAgeHours)(namespace)
    ensures output == MatrixLine(PrNumbers(toBeDeleted))
    ensures DecodeMatrixLine(output) == Some(PrNumbers(toBeDeleted))
  {
    var reviewApps := FilterNamespaces(subnamespaces, reviewAppName);
    toBeDeleted := SelectStale(reviewApps, lookup, now, maxAgeHours);

    FilterSubsequence(subnamespaces, MatchesApp(reviewAppName));
    FilterSubsequence(reviewApps, ShouldDelete(lookup, now, maxAgeHours));
    SubsequenceTransitive(toBeDeleted, reviewApps, subnamespaces);
    forall namespace
      ensures namespace in toBeDeleted <==>
              namespace in subnamespaces && MatchesPattern(namespace, reviewAppName) &&
              ShouldDelete(lookup, now, maxAgeHours)(namespace)
    {
      FilterMembership(subnamespaces, MatchesApp(reviewAppName), namespace);
      FilterMembership(reviewApps, ShouldDelete(lookup, now, maxAgeHours), namespace);
    }

    assert forall i :: 0 <= i < |toBeDeleted| ==> MatchesPattern(toBeDeleted[i], reviewAppName);
    ReviewAppTokens(toBeDeleted, reviewAppName);
    var written := WriteOutput(toBeDeleted);
    output := written.value;
    DecodeMatrixLineInverse(PrNumbers(toBeDeleted));
  }
}
