/**
 * The review-app name filter: a namespace name is a review app of `app`
 * when the pattern `review-\d{1,4}-<app>` matches at its start. Trailing
 * characters after the application name are allowed, because the match is
 * anchored at the start of the name only.
 */
module NamespaceFilter {
  import opened Sequences

  /** The literal text every review-app namespace name starts with. */
  const Prefix: string := "review-"

  /** The longest digit run the pattern accepts (`\d{1,4}`). */
  const MaxPrDigits: nat := 4

  /** A decimal digit, as `\d` is modelled here (ASCII only). */
  predicate IsDigit(c: char)
  {
    '0' <= c <= '9'
  }

  /** A character that has a special meaning in a Python regular expression. */
  predicate IsRegexMeta(c: char)
  {
    c in ".^$*+?{}[]\\|()"
  }

  /**
   * The application name is spliced into the pattern without escaping, so it
   * stands for itself only when it holds no metacharacter.
   */
  predicate IsLiteralAppName(app: string)
  {
    forall i :: 0 <= i < |app| ==> !IsRegexMeta(app[i])
  }

  /**
   * The declarative reading of the pattern, for a digit run of length `k`:
   * `review-`, then `k` digits with 1 <= k <= 4, then `-`, then `app`
   * literally, then anything.
   */
  ghost predicate MatchesWithRun(name: string, app: string, k: nat)
  {
    1 <= k <= MaxPrDigits &&
    |Prefix| + k + 1 + |app| <= |name| &&
    name[..|Prefix|] == Prefix &&
    (forall i :: |Prefix| <= i < |Prefix| + k ==> IsDigit(name[i])) &&
    name[|Prefix| + k] == '-' &&
    name[|Prefix| + k + 1 .. |Prefix| + k + 1 + |app|] == app
  }

  /** The number of consecutive digits of `s` starting at index `from`. */
  function DigitRun(s: string, from: nat): (n: nat)
    requires from <= |s|
    ensures from + n <= |s|
    ensures forall i :: from <= i < from + n ==> IsDigit(s[i])
    ensures from + n < |s| ==> !IsDigit(s[from + n])
    decreases |s| - from
  {
    if from < |s| && IsDigit(s[from]) then 1 + DigitRun(s, from + 1) else 0
  }

  /**
   * What `re.match` answers for the pattern of one application. The digit
   * class cannot consume the `-` that follows it, so the only digit count
   * the matcher can settle on is the whole digit run after the prefix.
   */
  function MatchesPattern(name: string, app: string): bool
  {
    |Prefix| <= |name| && name[..|Prefix|] == Prefix &&
    var k := DigitRun(name, |Prefix|);
    1 <= k <= MaxPrDigits &&
    |Prefix| + k + 1 + |app| <= |name| &&
    name[|Prefix| + k] == '-' &&
    name[|Prefix| + k + 1 .. |Prefix| + k + 1 + |app|] == app
  }

  /** The pattern test of one application, as a predicate on names. */
  function MatchesApp(app: string): string -> bool
  {
    name => MatchesPattern(name, app)
  }

  /** The digits that follow `review-` in a name: its pull-request number. */
  function PrNumber(name: string): string
  {
    if |Prefix| <= |name| then name[|Prefix| .. |Prefix| + DigitRun(name, |Prefix|)] else ""
  }

  /** A digit run that the pattern accepts is the whole run after the prefix. */
  lemma RunIsUnique(name: string, app: string, k: nat)
    requires MatchesWithRun(name, app, k)
    ensures k == DigitRun(name, |Prefix|)
  {
  }

  /** The matcher accepts a name exactly when the pattern reads it with some digit run. */
  lemma MatchesPatternIff(name: string, app: string)
    ensures MatchesPattern(name, app) <==> exists k :: MatchesWithRun(name, app, k)
  {
    if MatchesPattern(name, app) {
      assert MatchesWithRun(name, app, DigitRun(name, |Prefix|));
    }
    if k :| MatchesWithRun(name, app, k) {
      RunIsUnique(name, app, k);
    }
  }

  /** A matched name carries a pull-request number of one to four digits. */
  lemma MatchedPrNumber(name: string, app: string)
    requires MatchesPattern(name, app)
    ensures 1 <= |PrNumber(name)| <= MaxPrDigits
    ensures forall i :: 0 <= i < |PrNumber(name)| ==> IsDigit(PrNumber(name)[i])
    ensures name == Prefix + PrNumber(name) + "-" + name[|Prefix| + |PrNumber(name)| + 1..]
  {
    var k := DigitRun(name, |Prefix|);
    assert PrNumber(name) == name[|Prefix| .. |Prefix| + k];
    assert name == name[..|Prefix|] + name[|Prefix| .. |Prefix| + k] + [name[|Prefix| + k]] + name[|Prefix| + k + 1..];
  }

  /**
   * Mirrors the loop in `filter_namespaces`: every name is tested in turn and
   * the matching ones are appended to the result.
   */
  method FilterNamespaces(namespaces: seq<string>, reviewAppName: string) returns (filtered: seq<string>)
    requires IsLiteralAppName(reviewAppName)
    ensures filtered == Filter(namespaces, MatchesApp(reviewAppName))
  {
    filtered := [];
    for i := 0 to |namespaces|
      invariant filtered == Filter(namespaces[..i], MatchesApp(reviewAppName))
    {
      assert namespaces[..i + 1][..i] == namespaces[..i];
      if MatchesPattern(namespaces[i], reviewAppName) {
        filtered := filtered + [namespaces[i]];
      }
    }
    assert namespaces[..|namespaces|] == namespaces;
  }

  /**
   * A name survives the filter exactly when it is one of the inputs and reads
   * as `review-`, one to four digits, `-`, the application name, anything.
   */
  lemma KeptIff(namespaces: seq<string>, app: string, name: string)
    ensures name in Filter(namespaces, MatchesApp(app)) <==>
            name in namespaces && exists k :: MatchesWithRun(name, app, k)
  {
    FilterMembership(namespaces, MatchesApp(app), name);
    MatchesPatternIff(name, app);
  }

  /** The filter keeps the input order, invents nothing and never lengthens the list. */
  lemma FilterKeepsOrder(namespaces: seq<string>, app: string)
    ensures IsSubsequence(Filter(namespaces, MatchesApp(app)), namespaces)
    ensures |Filter(namespaces, MatchesApp(app))| <= |namespaces|
    ensures multiset(Filter(namespaces, MatchesApp(app))) <= multiset(namespaces)
  {
    FilterSubsequence(namespaces, MatchesApp(app));
    SubsequenceMultiset(Filter(namespaces, MatchesApp(app)), namespaces);
  }

  /** Filtering the filtered list with the same application name returns it unchanged. */
  lemma FilterNamespacesIdempotent(namespaces: seq<string>, app: string)
    ensures Filter(Filter(namespaces, MatchesApp(app)), MatchesApp(app)) == Filter(namespaces, MatchesApp(app))
  {
    FilterIdempotent(namespaces, MatchesApp(app));
  }

  /**
   * Every name built as `review-`, one to four digits, `-`, the application
   * name and any suffix is accepted, and its pull-request number is those
   * digits.
   */
  lemma ReviewNameMatches(digits: string, app: string, suffix: string)
    requires 1 <= |digits| <= MaxPrDigits
    requires forall i :: 0 <= i < |digits| ==> IsDigit(digits[i])
    ensures MatchesPattern(Prefix + digits + "-" + app + suffix, app)
    ensures PrNumber(Prefix + digits + "-" + app + suffix) == digits
  {
    var name := Prefix + digits + "-" + app + suffix;
    var k := |digits|;
    assert name[..|Prefix|] == Prefix;
    assert forall i :: |Prefix| <= i < |Prefix| + k ==> name[i] == digits[i - |Prefix|];
    assert name[|Prefix| + k] == '-';
    assert name[|Prefix| + k + 1 .. |Prefix| + k + 1 + |app|] == app;
    assert MatchesWithRun(name, app, k);
    RunIsUnique(name, app, k);
    assert name[|Prefix| .. |Prefix| + k] == digits;
  }

  /** Worked cases the pattern accepts: trailing text after the application name is allowed. */
  lemma PatternAccepts()
    ensures MatchesPattern("review-12-foo", "foo")
    ensures MatchesPattern("review-34-foobar", "foo")
    ensures MatchesPattern("review-1234-foo", "foo")
  {
    ReviewNameMatches("12", "foo", "");
    assert Prefix + "12" + "-" + "foo" + "" == "review-12-foo";
    ReviewNameMatches("34", "foo", "bar");
    assert Prefix + "34" + "-" + "foo" + "bar" == "review-34-foobar";
    ReviewNameMatches("1234", "foo", "");
    assert Prefix + "1234" + "-" + "foo" + "" == "review-1234-foo";
  }

  /** Worked cases the pattern rejects: no digits, five digits, a wrong prefix. */
  lemma PatternRejects()
    ensures !MatchesPattern("review-x-foo", "foo")
    ensures !MatchesPattern("review-12345-foo", "foo")
    ensures !MatchesPattern("foo-12-foo", "foo")
  {
    assert !MatchesPattern("review-x-foo", "foo") by {
      assert DigitRun("review-x-foo", 7) == 0;
    }
    assert !MatchesPattern("review-12345-foo", "foo") by {
      assert DigitRun("review-12345-foo", 7) == 5;
    }
  }

  /** The filter applied to a mixed list keeps the two review apps of `foo`, in order. */
  lemma FilterExample()
    ensures Filter(["review-12-foo", "review-x-foo", "review-34-foobar", "foo-12-foo"], MatchesApp("foo"))
         == ["review-12-foo", "review-34-foobar"]
  {
    PatternAccepts();
    PatternRejects();
    var names := ["review-12-foo", "review-x-foo", "review-34-foobar", "foo-12-foo"];
    var p := MatchesApp("foo");
    assert names[..3][..2][..1][..0] == [];
    assert names[..3][..2] == names[..2] && names[..2][..1] == names[..1];
    assert p(names[0]) && !p(names[1]) && p(names[2]) && !p(names[3]);
    assert Filter(names[..1], p) == ["review-12-foo"];
    assert Filter(names[..2], p) == ["review-12-foo"];
    assert Filter(names[..3], p) == ["review-12-foo", "review-34-foobar"];
  }
}
