# review-app-scan, modelled in Dafny

`review_app_scan` finds stale review-app namespaces in a Kubernetes cluster and
writes their pull-request numbers for a CI pipeline. It starts from the
sub-namespaces of a parent namespace. It keeps the names of the form
`review-<digits>-<app>`. It asks `helm` when each one's release was last
updated, and it selects those older than a maximum age. Finally it writes the
line `matrix={"pr_numbers": [...]}`.

This project models the deterministic core of that script. The loops of the
source are methods, each proved against a specification function:

- `NamespaceFilter`: the pattern `review-\d{1,4}-<app>` as a hand-written
  matcher (`MatchesPattern`) and a declarative reading (`MatchesWithRun`).
  `FilterNamespaces` is the loop of `filter_namespaces`.
- `ReleaseSelection`: the release pick at the end of `get_helm_chart`, and
  the strict age test. `SelectStale` is the loop of `main` with the failed
  lookup skipped. `SelectedAsWritten` is the same loop as the source writes
  it (see Findings).
- `OutputLine`: Python's `str.split`, the JSON encoding of `json.dumps` for a
  list of strings (default separators, ASCII-only escaping), and the output
  line. `WriteOutput` is the loop of `write_output`. `DecodeMatrixLine` reads
  the line back and serves as its inverse.
- `ReviewAppScan`: `ScanReviewApps` is the body of `main` after discovery,
  with the corrected loop (`SelectStale`) in place of the loop as written.
- `Sequences`: the order-preserving `Filter` that both selections are
  instances of, and the subsequence relation.

Inputs that the source takes from the outside world are parameters here:

- the discovered sub-namespace names are a `seq<string>`;
- the current time is `now`, in integer seconds, read once;
- the `helm list` call together with its JSON parsing is `lookup`, a function
  from a namespace to `None` (the tool or the parse failed) or its records;
- each record's `updated` field is already parsed into integer seconds since
  the epoch (UTC);
- the maximum age is `maxAgeHours`, whose command-line default is
  `DefaultMaxAgeHours` (72).

Three details of the code fix the exact behaviour that is modelled:

- the pattern at line 64 is `review-\d{1,4}-<app>`, so the digit run has
  one to four digits, and a name with five or more never matches;
- `json.dumps` at line 80 uses its default separators `", "` and `": "`, so
  the line is `matrix={"pr_numbers": ["42", "7"]}`;
- line 83 opens the fixed file name `GITHUB_OUTPUT` with `"w"`, so each run
  overwrites the file. File output itself is not modelled.

## Model

| member | source | states |
|---|---|---|
| `NamespaceFilter.DigitRun` | review_app_scan/review_app_scan.py:64 | the number of consecutive digits from a position: all of them digits, and the next character (if any) not a digit |
| `NamespaceFilter.MatchesPattern` | review_app_scan/review_app_scan.py:64-69 | defines the answer of `re.match` for the pattern of one application: `review-`, a digit run of one to four digits, `-`, the application name, at the start of the name |
| `NamespaceFilter.RunIsUnique` | review_app_scan/review_app_scan.py:64 | any digit count with which `review-\d{1,4}-<app>` reads a name equals the whole digit run, so the regex has only one way to match |
| `NamespaceFilter.MatchesPatternIff` | review_app_scan/review_app_scan.py:64-69 | the matcher accepts a name iff it reads as `review-`, 1 to 4 digits, `-`, the app name literally, then anything (prefix-anchored `re.match`) |
| `NamespaceFilter.MatchedPrNumber` | review_app_scan/review_app_scan.py:64 | an accepted name has a pull-request number of 1 to 4 digits and is `review-` + that number + `-` + the rest |
| `NamespaceFilter.ReviewNameMatches` | review_app_scan/review_app_scan.py:64 | conversely, every `review-<1-4 digits>-<app><suffix>` is accepted, and its number is those digits |
| `NamespaceFilter.PatternAccepts` | review_app_scan/review_app_scan.py:64-69 | `review-12-foo`, `review-34-foobar` and `review-1234-foo` match app `foo`, so a trailing suffix is allowed |
| `NamespaceFilter.PatternRejects` | review_app_scan/review_app_scan.py:64-69 | `review-x-foo`, `review-12345-foo` and `foo-12-foo` do not match app `foo` |
| `NamespaceFilter.FilterNamespaces` | review_app_scan/review_app_scan.py:62-73 | the loop returns exactly the matching names of the input, in input order |
| `NamespaceFilter.KeptIff` | review_app_scan/review_app_scan.py:64-71 | a name is in the result iff it is in the input and reads as `review-<1-4 digits>-<app>...` |
| `NamespaceFilter.FilterKeepsOrder` | review_app_scan/review_app_scan.py:66-73 | the result is an order-preserving subsequence of the input, never longer, and holds no name more often than the input does |
| `NamespaceFilter.FilterNamespacesIdempotent` | review_app_scan/review_app_scan.py:66-71 | filtering the filtered list with the same app name returns it unchanged |
| `NamespaceFilter.FilterExample` | review_app_scan/review_app_scan.py:62-73 | `[review-12-foo, review-x-foo, review-34-foobar, foo-12-foo]` filtered for `foo` is `[review-12-foo, review-34-foobar]` |
| `ReleaseSelection.PickRelease` | review_app_scan/review_app_scan.py:57-59 | a listing with at least one record yields its first record, even with more than one; only the empty listing (the IndexError) yields nothing |
| `ReleaseSelection.GetHelmChart` | review_app_scan/review_app_scan.py:37-59 | defines `get_helm_chart`: the release listing of the namespace, then the record pick; `None` for a failed listing or an empty one |
| `ReleaseSelection.IsStale` | review_app_scan/review_app_scan.py:138-139 | defines the age test: strictly more than `maxAgeHours` hours, in seconds, between the release's update and the current time |
| `ReleaseSelection.ShouldDelete` | review_app_scan/review_app_scan.py:133-139 | defines the corrected decision per namespace: not selected when the lookup fails, otherwise the age test on its release |
| `ReleaseSelection.SelectStale` | review_app_scan/review_app_scan.py:123-143 | the loop's delete list is the candidates whose lookup succeeds and whose release is too old, in order, all judged against the one `now` |
| `ReleaseSelection.DeleteIff` | review_app_scan/review_app_scan.py:132-143 | a namespace is selected iff it is a candidate, its lookup yields a release, and `now - updated > maxAgeHours * 3600`; a failed lookup never selects |
| `ReleaseSelection.ThresholdIsStrict` | review_app_scan/review_app_scan.py:138-139 | an age of exactly the maximum is not selected, one second more is |
| `ReleaseSelection.SelectionKeepsOrder` | review_app_scan/review_app_scan.py:124-143 | the delete list is an order-preserving subsequence of the candidates, never longer |
| `ReleaseSelection.LaterScanSelectsMore` | review_app_scan/review_app_scan.py:123-139 | a later current time selects everything an earlier one did, in the same order |
| `ReleaseSelection.LargerMaxAgeSelectsLess` | review_app_scan/review_app_scan.py:138-139 | a larger maximum age selects a subsequence of what a smaller one selects |
| `ReleaseSelection.SelectedAsWritten` | review_app_scan/review_app_scan.py:132-143 | the loop as written: a failed lookup keeps the previous `chart`, or ends with an unbound `chart`; a finished run only appends to the list it started with |
| `ReleaseSelection.AsWrittenStep` | review_app_scan/review_app_scan.py:133-143 | when a namespace's lookup succeeds, the loop as written judges that namespace by its own release |
| `ReleaseSelection.AsWrittenAgreesWithoutFailures` | review_app_scan/review_app_scan.py:132-143 | when every lookup succeeds, the loop as written gives the same delete list as the corrected loop |
| `ReleaseSelection.StaleChartSelectsFailedLookup` | review_app_scan/review_app_scan.py:133-137 | a failed lookup after a successful one: as written, the failed namespace is selected on the other's release; corrected, it is not |
| `ReleaseSelection.FirstFailureIsUnbound` | review_app_scan/review_app_scan.py:133-137 | a failed first lookup: as written, the run ends on the unbound `chart`; corrected, the namespace is skipped and the rest are processed |
| `OutputLine.Split` | review_app_scan/review_app_scan.py:79 | `str.split("-")`: at least one piece, no piece holds the separator, and joining the pieces gives back the string |
| `OutputLine.SplitWithoutSep` | review_app_scan/review_app_scan.py:79 | text without the separator splits into itself alone |
| `OutputLine.SplitAtFirstSep` | review_app_scan/review_app_scan.py:79 | splitting at the first separator gives the text before it, then the rest split |
| `OutputLine.SplitUnique` | review_app_scan/review_app_scan.py:79 | `Split` is the only separator-free cut that joins back to the string |
| `OutputLine.PrToken` | review_app_scan/review_app_scan.py:79 | `split("-")[1]` exists iff the name holds a `-`, and it holds no `-` |
| `OutputLine.PrTokens` | review_app_scan/review_app_scan.py:77-79 | the token list exists iff every name holds a `-`; it then has one token per name, in order |
| `OutputLine.MatchedPrToken` | review_app_scan/review_app_scan.py:79 | for a name the filter accepts, `split("-")[1]` is exactly its 1 to 4 digit run (e.g. `review-42-foo` gives `42`) |
| `OutputLine.UnicodeEscape` | review_app_scan/review_app_scan.py:80 | a `\uXXXX` escape is six printable ASCII characters |
| `OutputLine.EscapeChar` | review_app_scan/review_app_scan.py:80 | `json.dumps` writes a character with printable ASCII only, and as itself exactly when it is printable ASCII other than `"` and `\` |
| `OutputLine.Escape` | review_app_scan/review_app_scan.py:80 | an escaped string is printable ASCII only |
| `OutputLine.EscapePlain` | review_app_scan/review_app_scan.py:80 | a string of plain characters is written unchanged |
| `OutputLine.JsonString` | review_app_scan/review_app_scan.py:80 | defines a JSON string as `json.dumps` writes it: a quote, the escaped characters, a quote |
| `OutputLine.JsonItems` | review_app_scan/review_app_scan.py:80 | defines the elements of a JSON array of strings, separated by the default `", "` |
| `OutputLine.JsonArray` | review_app_scan/review_app_scan.py:80 | defines a JSON array of strings: the elements between `[` and `]` |
| `OutputLine.MatrixLine` | review_app_scan/review_app_scan.py:80-81 | defines the output line: `matrix=`, then the object with the one key `pr_numbers`, the default `": "`, and the array of tokens |
| `OutputLine.QuoteIndex` | review_app_scan/review_app_scan.py:80 | finds the first `"`, which ends a plain JSON string |
| `OutputLine.MatrixLineShape` | review_app_scan/review_app_scan.py:80-81 | every output line is `matrix={"pr_numbers": [` + the array elements + `]}` |
| `OutputLine.MatrixLineExamples` | review_app_scan/review_app_scan.py:80-81 | no deletions give `matrix={"pr_numbers": []}`; tokens 42 and 7 give `matrix={"pr_numbers": ["42", "7"]}` |
| `OutputLine.DecodeFirstItem` | review_app_scan/review_app_scan.py:80 | a quoted plain token is read back, whether it ends the array or `, ` and more elements follow |
| `OutputLine.DecodeJsonItems` | review_app_scan/review_app_scan.py:80 | the array elements of plain tokens decode back to the tokens |
| `OutputLine.DecodeMatrixLineInverse` | review_app_scan/review_app_scan.py:80-81 | the output line of plain tokens decodes back to the same tokens, in order |
| `OutputLine.WriteOutput` | review_app_scan/review_app_scan.py:76-82 | the loop's line exists iff every name holds a `-` (otherwise the IndexError), and is then the matrix line of the names' tokens |
| `ReviewAppScan.PrNumbers` | review_app_scan/review_app_scan.py:64 | defines the reference list that `ReviewAppTokens` and `ScanReviewApps` are stated against: for each name, the digit run after `review-` that the pattern's `\d{1,4}` matched |
| `ReviewAppScan.ReviewAppTokens` | review_app_scan/review_app_scan.py:77-79 | for review-app names, `write_output`'s tokens are their digit runs, and need no escaping |
| `ReviewAppScan.ScanReviewApps` | review_app_scan/review_app_scan.py:120-148 | `main` after discovery, with the corrected loop that skips a failed lookup: the delete list is a subsequence of the discovered names, and holds exactly the matching names with a successful, too-old release; the output line carries their numbers in order and decodes back to them |

## Left out

- Discovery (`get_namespaces`, `get_subnamespaces`) is a Kubernetes API call. The discovered names are an input, and a discovery failure is not modelled.
- The `helm list` subprocess and `json.loads` of its output are the `lookup` parameter. `None` stands for any exception they raise.
- ReleaseSelection.IsStale: does not model two errors raised outside the `try` that end the run before any output is written. `timedelta(hours=max_age)` at line 139 raises `OverflowError` once the maximum age exceeds what a `timedelta` holds (999999999 days); the model compares unbounded integers. `chart["updated"]` at line 137 raises `KeyError` for a release record without that field; a `Release` here always carries its timestamp.
- `dateutil.parser.parse` of `updated` is not modelled. Timestamps are whole seconds since the epoch, so sub-second differences in `timedelta` are not represented. The timezone-less timestamp that would make the subtraction raise outside the `try` is not represented either.
- `config.load_kube_config`, `datetime.now`, argument parsing, logging and every `print` are not modelled. This includes the "Expected 1 chart" report of `get_helm_chart`, which does not change control flow. `now` and `maxAgeHours` are parameters.
- Writing the line to the file `GITHUB_OUTPUT` is not modelled. The model stops at the string that would be written.
- NamespaceFilter.IsDigit: `\d` is modelled as the ASCII digits `0`-`9`. Python's `\d` on `str` also accepts every other Unicode decimal digit.
- NamespaceFilter.FilterNamespaces: requires the application name to hold no regex metacharacter (`IsLiteralAppName`). The source splices it into the pattern unescaped, and the model reads it as a literal, so it does not describe names matched through metacharacters.
- ReviewAppScan.ScanReviewApps: carries the same requirement on the application name, for the same reason.
- OutputLine.DecodeMatrixLine: does not undo JSON escapes. The round trip is proved for tokens that need none, which covers every token the pipeline produces.

## Findings

| source | as written | input that shows it | evidently intended | confidence | as-written member | corrected member |
|---|---|---|---|---|---|---|
| review_app_scan/review_app_scan.py:133-139 | a failed lookup is logged, but the age test still runs on `chart` from the previous namespace | `review-1-web` has a release 73 hours old; the lookup of `review-2-web` fails; the maximum age is 72 hours: both namespaces are selected | skip the namespace whose lookup failed | high, not executed | `ReleaseSelection.StaleChartSelectsFailedLookup` | `ReleaseSelection.SelectStale` |
| review_app_scan/review_app_scan.py:133-137 | when the first lookup fails, `chart` is unbound and the NameError ends the whole run | the lookup of `review-1-web`, the first candidate, fails: no namespace after it is evaluated | skip the namespace and carry on with the rest | high, not executed | `ReleaseSelection.FirstFailureIsUnbound` | `ReleaseSelection.SelectStale` |
