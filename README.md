# GitLab contribution analysis — a verified model

gitlab-analysis-wasm is a WebAssembly statistics engine written in Rust, with a React dashboard on top. Given a
GitLab group, a date range, a list of valid file extensions and a list of ignored paths, the engine
lists the group's projects and each project's commits. For every commit it fetches the diff and the
refs. It counts added and deleted lines, changed files and diff bytes per author and per project,
and returns a report with three parts:

- one total row per author, with that author's per-project rows as children;
- a flat list of commits;
- the requests that failed for good.

The dashboard intercepts the console into a log feed and normalises the report by sorting sizes,
largest first. It also tracks the expanded rows and draws a bar chart of the author totals.

This project models that core in Dafny. It has the following modules.

- `Text`: the string operations the code relies on.
  - Rust `find`, `contains`, `split`, `lines`, `replace` with an empty replacement, and `len` as a UTF-8 byte count.
  - JavaScript `join`.
  - Decimal rendering of numbers.
- `Rows`: the report's row types and the stable sort by size, largest first. Rust `sort_by` and JavaScript `Array.prototype.sort` are both stable. The sort is proved sorted, a permutation, stable on ties and idempotent.
- `DiffStats`: the diff loop of `analyze_commit_diffs`, as a method. It is proved against per-entry specification functions.
- `CommitRefs`: branch and tag selection from a commit's refs. It also holds the `Merge branch '<name>'` override, written out as the regular-expression search it performs.
- `Aggregation`: the per-author and per-project upsert of `process_commit`.
  - The pure table update is `Record`.
  - A class `AuthorTable` performs the same update step by step.
  - The table invariant is proved and preserved: totals are sums over projects, and there is one detail per commit.
- `Report`: `generate_report` as a method. The author map's iteration order is unspecified, so the loops take its entries in an arbitrary order.
- `Requests`: the retry loop of `fetch_with_retry`, and `log_request_error` with its URL trimming. Each attempt's result is a parameter.
- `Projects`: the excluded-project filter and the page-by-page commit listing.
- `LogFeed`, `Display`, `Session`, `Chart`: the dashboard.
  - `LogFeed`: the log line format and error colouring.
  - `Display`: normalisation, expansion keys and the distinct-author filter.
  - `Session`: the page state as a class whose methods are the handlers.
  - `Chart`: the chart data pipeline and width rule.

Where the code and its description disagree, the model follows the code:

- The engine always returns `codeStats`: the Rust `Report` has no `skip_serializing_if` on it. `RawResult.codeStats` is therefore not optional, and a result without it, which would make the page's `.map` throw, is not modelled.
- `url.replace(prefix, "")` removes every occurrence of the prefix, not just the leading one (`TrimUrl`). When the prefix does not recur, the recorded URL starts with `v4/` (`TrimUrlKeepsPath`). When it does recur, the later occurrences are cut out of the path as well (`TrimUrl`, `RemoveAllAtFirst`).
- Starting a run (`BeginRun`) empties the log and sets `loading`, but keeps the previous tables until the run ends. The page does not clear them on entry.
- Starting a run keeps `showFireworks` as it is. Only the fireworks' own completion callback clears it (`CelebrationDone`).
- With the retry counter starting at 1 and giving up at 20, a request is attempted at most 19 times. The timeout message numbers an attempt one higher than its position: the first attempt reports "第2次". Both are modelled as written.

## Model

| member | source | states |
|---|---|---|
| Text.FindFrom | src/lib.rs:226 | `str::find`: the result is the leftmost occurrence at or after the start, and there is none when it returns nothing |
| Text.ContainsIff | src/lib.rs:681 | `contains` holds exactly when the pattern occurs at some index |
| Text.AfterLast | src/lib.rs:675 | `split('.').last()` is the suffix after the last dot, has no dot in it, and is preceded by a dot unless it is the whole text |
| Text.Split | src/lib.rs:694 | splitting on a character, the basis of `lines()`, yields at least one piece and no piece contains the separator |
| Text.Join | examples/gitlib-analysis/index.tsx:100 | `args.join(' ')` is empty for no arguments, and otherwise starts with the first argument and ends with the last |
| Text.JoinSplit | src/lib.rs:694 | splitting on a character and joining the pieces with that character gives the text back |
| Text.SplitJoin | examples/gitlib-analysis/index.tsx:100 | joining pieces that do not contain the separator and splitting again gives the pieces back |
| Text.Lines | src/lib.rs:694 | `str::lines` yields pieces without a newline, none for empty text, and joining the pieces with newlines gives the text back, up to one final newline |
| Text.Utf8Length | src/lib.rs:704 | `String::len` counts UTF-8 bytes, between 1 and 4 per character |
| Text.Utf8LengthAppend | src/lib.rs:704 | the byte length of a concatenation is the sum of the byte lengths |
| Text.RemoveAll | src/lib.rs:226 | `replace(pat, "")` never lengthens the text, leaves it unchanged for an empty pattern, and removes a leading occurrence |
| Text.RemoveAllAtFirst | src/lib.rs:226 | `replace(pat, "")` keeps the text before the leftmost occurrence, drops that occurrence, and goes on removing every later one |
| Text.RemoveAllAbsent | src/lib.rs:226 | removing a pattern that does not occur leaves the text unchanged |
| Text.NatToString | src/lib.rs:268 | `format!("{}", n)` is a non-empty run of digits with no leading zero |
| Text.NatToStringValue | src/lib.rs:268 | reading the rendered digits back gives the number |
| Rows.InsertBySize | src/lib.rs:804 | inserting a row adds exactly that row to the multiset |
| Rows.InsertKeepsSorted | src/lib.rs:804 | inserting into a list sorted by size, largest first, keeps it sorted |
| Rows.SortBySize | src/lib.rs:824 | `sort_by(b.size.cmp(a.size))` yields a list sorted by size, largest first, that is a permutation of its input |
| Rows.SortKeepsTies | src/lib.rs:824 | the sort is stable: rows of equal size keep their relative order |
| Rows.SortSortedIsIdentity | src/lib.rs:824 | sorting an already sorted list changes nothing |
| Rows.SortIdempotent | src/lib.rs:824 | sorting twice is the same as sorting once |
| Rows.OfSizeAppend | src/lib.rs:824 | the rows of one size in a concatenation are those of each part, in order |
| Rows.PermutationKeepsDistinctKeys | src/lib.rs:824 | reordering rows keeps their keys distinct |
| DiffStats.Extension | src/lib.rs:675 | the extension is a dot followed by the path's text after its last dot |
| DiffStats.ChangedLinesBound | src/lib.rs:695-701 | added plus deleted lines never exceed the number of lines |
| DiffStats.SkippedEntryChangesNothing | src/lib.rs:678-689 | an ignored entry, or one with an extension not allowed, changes no counter |
| DiffStats.CountChangedLines | src/lib.rs:694-701 | the line loop counts exactly the `+` lines that are not `+++` and the `-` lines that are not `---` |
| DiffStats.AnalyzeCommitDiffs | src/lib.rs:671-706 | files, additions, deletions and bytes are the sums over the counted entries, and `lines == additions + deletions` |
| CommitRefs.FirstNamed | src/lib.rs:740-750 | the branch (or tag) is the name of the first ref of that type, and `unknown` when there is none |
| CommitRefs.CommitBranches | src/lib.rs:740-755 | the branch is the name of the first `branch` ref and the tag that of the first `tag` ref, each `unknown` when there is none |
| CommitRefs.RunLength | src/lib.rs:174 | `[^']+` consumes the maximal run of characters other than `'` |
| CommitRefs.MatchFrom | src/lib.rs:174 | the regex search finds the leftmost match, and none when there is no match |
| CommitRefs.MergedBranch | src/lib.rs:174 | a capture exists exactly when the message matches somewhere; it is the capture of the leftmost match, non-empty and with no `'` |
| CommitRefs.EffectiveBranch | src/lib.rs:588-594 | for a message starting with `Merge branch` that matches, the branch is the captured name; when the message does not start so, or does not match, it is the first branch ref |
| CommitRefs.MergeMessageNamesBranch | src/lib.rs:588-594 | a message `Merge branch '<name>'…` makes `<name>` the branch |
| Aggregation.TotalRemove | src/lib.rs:618-631 | a sum over a project map does not depend on the order projects are taken in |
| Aggregation.TotalBump | src/lib.rs:618-631 | adding a contribution to one project raises the sum over projects by that contribution |
| Aggregation.Record | src/lib.rs:597-641 | an upsert adds the commit's author (if new), keeps every other author, never overwrites an existing email, and appends one detail |
| Aggregation.RecordBumpsTotalAndProject | src/lib.rs:613-631 | a commit raises its author's totals and its project's counters by the same amounts, and leaves the other projects alone |
| Aggregation.CountProjectAppend | src/lib.rs:634-640 | appending a detail raises the count of its project by one and no other |
| Aggregation.RecordKeepsValid | src/lib.rs:597-641 | the upsert keeps every author's totals equal to the sums over its projects, `total_commits == |commit_details|`, and per-project commits equal to the number of details |
| Aggregation.AggregateCounts | src/lib.rs:597-641 | after a sequence of commits, the authors present are exactly those with commits, each author's commit total is its number of commits, and the table invariant holds |
| Aggregation.FirstBy | src/lib.rs:598-602 | the first commit of an author is by that author and no earlier commit is |
| Aggregation.EmailFromFirstCommit | src/lib.rs:598-602 | an author's email is the one on that author's first commit |
| Aggregation.BumpCountersCommute | src/lib.rs:613-631 | two commits of one author leave the same counters in either order |
| Aggregation.RecordCountersCommute | src/lib.rs:597-631 | swapping two commits applied one after the other leaves the set of authors and every author's counters and projects unchanged |
| Aggregation.AuthorTable.constructor | src/lib.rs:422 | a fresh table is empty and valid |
| Aggregation.AuthorTable.Upsert | src/lib.rs:597-641 | the in-place update of entry, counters and details gives exactly the table `Record` describes, and keeps the table valid |
| Aggregation.AuthorTable.ProcessCommit | src/lib.rs:560-641 | diff totals, ref branch and tag, the merge override and the upsert together record the commit's input |
| Report.Kilobytes | src/lib.rs:779 | `(size / 1024.0).round()` is the nearest whole kilobyte, halves rounded up |
| Report.KeyOwnerOfTotal | src/lib.rs:770 | the key `<name>-total` names its author |
| Report.ProjectRow | src/lib.rs:787-800 | a project row is keyed `<name>-<project>`, carries the project's counters and its size in whole kilobytes, and is neither a total nor a parent |
| Report.ChildrenCoverProjects | src/lib.rs:785-806 | every project of an author appears among that author's children as its own row |
| Report.DetailCountRemove | src/lib.rs:810-820 | the number of commit rows does not depend on the order authors are visited in |
| Report.ProjectRows | src/lib.rs:785-804 | one child row per project, each with the project's counters and rounded size, keys distinct, sorted by size |
| Report.CommitRow | src/lib.rs:811-819 | a commit row takes the author's name and email and the detail's project, branch, tag, date and message |
| Report.AuthorCommits | src/lib.rs:810-820 | one commit row per detail of the author, in detail order |
| Report.CommitsInOrderHas | src/lib.rs:810-820 | every detail of every visited author has its commit row in the list |
| Report.CommitRows | src/lib.rs:810-820 | the loop pushes exactly the author's commit rows, in detail order |
| Report.TotalRow | src/lib.rs:769-806 | the total row has key `<name>-total`, author `【<name>】`, project `【总计】`, the author's totals, `isTotal` set, and the sorted project rows as children |
| Report.SortedTotals | src/lib.rs:824 | sorting the total rows keeps their number, their distinct keys, and one row per author |
| Report.CollectRows | src/lib.rs:767-821 | visiting the authors in some order, each exactly once, gives one total row per author with distinct keys, and the commit rows are the concatenation of each author's commit rows in that order |
| Report.GenerateReport | src/lib.rs:758-835 | exactly one total row per author, sorted by size with distinct keys, with the children above; the commit rows are every author's commit rows, author after author in a visiting order that lists each author once; `failure_stats` absent exactly when there are no failures |
| Requests.ApiPrefix | src/lib.rs:226 | the prefix ends right before the first `v4/` |
| Requests.TrimUrl | src/lib.rs:226 | the recorded URL is unchanged when the API prefix is empty; otherwise the leading prefix is dropped and every later occurrence of it is removed from the rest, so the URL is at least the prefix shorter |
| Requests.TrimUrlKeepsPath | src/lib.rs:226 | when the prefix does not recur, the recorded URL is the path from the first `v4/` on |
| Requests.ErrorMessage | src/lib.rs:213-219 | the error text per kind: the HTTP status line, starting with the status number and ending with the status text; the network detail; or the timeout text built at lines 266-271, which starts with the operation and the attempt number and ends with the retry notice exactly while attempts remain |
| Requests.LogRequestError | src/lib.rs:224-237 | a record is pushed exactly when the count has reached the retry limit, and it carries the trimmed URL, operation, project, author and error text; the URL must contain `v4/` only when a record is pushed |
| Requests.FetchWithRetry | src/lib.rs:367-414 | at most 19 attempts; every attempt before the last one was retried; success and thrown errors stop with no record; giving up happens on attempt 19 with exactly one record |
| Projects.FilterExcluded | src/lib.rs:429-432 | a project is kept exactly when its name is not excluded |
| Projects.FilterExcludedAppend | src/lib.rs:429-432 | filtering keeps the order of the kept projects |
| Projects.FilterExcludedIdempotent | src/lib.rs:429-432 | filtering twice is the same as filtering once |
| Projects.ProjectCommits | src/lib.rs:520-557 | the listing is the concatenation of pages 1 up to the first empty page, or the first failing page's error |
| LogFeed.InfoLine | examples/gitlib-analysis/index.tsx:98-101 | a `console.log` line is `[INFO] ` followed by the arguments joined by single spaces |
| LogFeed.ErrorLine | examples/gitlib-analysis/index.tsx:103-106 | a `console.error` line is `[ERROR] ` followed by the arguments joined by single spaces |
| LogFeed.IsErrorLine | examples/gitlib-analysis/index.tsx:441 | a line is shown as an error exactly when `[ERROR]` occurs somewhere in it |
| LogFeed.ErrorLinesAreErrors | examples/gitlib-analysis/index.tsx:441 | every `console.error` line is shown as an error |
| LogFeed.InfoLineIsErrorIff | examples/gitlib-analysis/index.tsx:441 | a `console.log` line is shown as an error exactly when its arguments contain `[ERROR]` |
| LogFeed.InfoLineArguments | examples/gitlib-analysis/index.tsx:100 | arguments without spaces can be read back from their log line |
| Display.SortChildren | examples/gitlib-analysis/index.tsx:251-259 | only the children change; they end up sorted by size and are a permutation of the input children |
| Display.SortChildrenStable | examples/gitlib-analysis/index.tsx:255 | children of equal size keep their order |
| Display.SortChildrenSorted | examples/gitlib-analysis/index.tsx:255 | a row whose children are already sorted is unchanged |
| Display.Normalize | examples/gitlib-analysis/index.tsx:251-262 | rows and every row's children are sorted by size, largest first, and the rows are a permutation of the child-sorted input |
| Display.NormalizeStable | examples/gitlib-analysis/index.tsx:262 | author rows of equal size keep their order |
| Display.NormalizeIdempotent | examples/gitlib-analysis/index.tsx:251-262 | normalising twice is the same as normalising once |
| Display.ExpandKeys | examples/gitlib-analysis/index.tsx:265-267 | a key is expanded exactly when some row with that key has a non-empty list of children |
| Display.ExpandKeysAppend | examples/gitlib-analysis/index.tsx:265-267 | expanded keys follow row order |
| Display.Dedup | examples/gitlib-analysis/index.tsx:191 | `Array.from(new Set(xs))` holds exactly the values of `xs`, each once |
| Display.DedupFirstOccurrenceOrder | examples/gitlib-analysis/index.tsx:191 | the distinct values are in the order of their first occurrences |
| Display.DistinctAuthors | examples/gitlib-analysis/index.tsx:191-192 | the author filter lists every commit author exactly once |
| Session.Session.constructor | examples/gitlib-analysis/index.tsx:63-71 | the page starts with empty tables and log, not loading, no fireworks, and an empty date range |
| Session.Session.Info | examples/gitlib-analysis/index.tsx:98-101 | one `[INFO]` line is appended and nothing else changes |
| Session.Session.Error | examples/gitlib-analysis/index.tsx:103-106 | one `[ERROR]` line is appended, it is shown as an error, and nothing else changes |
| Session.Session.ClearLogs | examples/gitlib-analysis/index.tsx:427 | the log becomes empty and nothing else changes |
| Session.Session.BeginRun | examples/gitlib-analysis/index.tsx:221-229 | loading is set, the log holds only the start line, and the date range is recorded; the tables are kept |
| Session.Session.FinishRun | examples/gitlib-analysis/index.tsx:251-279 | success replaces the tables with the normalised rows, their expansion keys and the commit and failure lists (empty when absent), appends the done line and starts the fireworks; failure keeps the tables and appends one error line; loading is cleared either way |
| Session.Session.SetExpandedKeys | examples/gitlib-analysis/index.tsx:468 | the table's own expansion replaces the expanded keys only |
| Session.Session.CelebrationDone | examples/gitlib-analysis/index.tsx:512 | the fireworks stop and nothing else changes |
| Chart.StripBrackets | examples/gitlib-analysis/components/CodeSizeChart.tsx:15 | the label contains no `【` or `】` |
| Chart.StripBracketsAppend | examples/gitlib-analysis/components/CodeSizeChart.tsx:15 | removing brackets works piece by piece, so other characters keep their order |
| Chart.StripBracketsPlain | examples/gitlib-analysis/components/CodeSizeChart.tsx:15 | text without brackets is unchanged |
| Chart.TotalRowLabel | examples/gitlib-analysis/components/CodeSizeChart.tsx:15 | the label of `【<name>】` is `<name>` |
| Chart.Totals | examples/gitlib-analysis/components/CodeSizeChart.tsx:12 | exactly the rows with `isTotal` true are kept, each as often as in the input |
| Chart.EntryOf | examples/gitlib-analysis/components/CodeSizeChart.tsx:14-17 | a bar is named by the author label without brackets and valued at the row's size |
| Chart.ChartData | examples/gitlib-analysis/components/CodeSizeChart.tsx:11-17 | one entry per total row, ordered by value, largest first |
| Chart.ChartDataFromTotals | examples/gitlib-analysis/components/CodeSizeChart.tsx:11-17 | every entry is the label and size of a total row |
| Chart.ChartDataCoversTotals | examples/gitlib-analysis/components/CodeSizeChart.tsx:11-17 | every total row has its entry |
| Chart.ChartDataStable | examples/gitlib-analysis/components/CodeSizeChart.tsx:13 | totals of equal size keep the order they had in the data |
| Chart.Categories | examples/gitlib-analysis/components/CodeSizeChart.tsx:39 | the x-axis has one category per bar: that bar's name, in bar order |
| Chart.ChartWidth | examples/gitlib-analysis/components/CodeSizeChart.tsx:91 | the width is at least 600 and at least 100 per bar, and equals one of the two |

## Left out

- HTTP, timers and JavaScript interop are left out: `build_request`, the `Promise.race` against the 5000 ms timer, `AbortController`, `check_timeout`, `delay` and `window`. How an attempt ended is the parameter `outcome`, and a page fetch is the parameter `fetchPage`.
- The 300 ms pause between attempts is left out.
- `get_group_projects` and the serde conversions are left out. They are a fetch followed by deserialisation.
- `analyze_gitlab_projects` and `process_project` run projects and commits in concurrent chunks (`Arc<Mutex<…>>`, `join_all`); this is left out. Commits are applied one at a time (`Aggregation.Aggregate`, `AuthorTable.ProcessCommit`). Swapping two commits applied one after the other leaves the set of authors and every counter unchanged (`RecordCountersCommute`); this is proved for one swap, not for whole reorderings of the commit sequence. The kept email and the order of the commit details do depend on it.
- `process_commit` may fail when fetching a commit's diff or refs. `join_all` discards that error, so the commit is skipped. `ProcessCommit` models only a commit whose diff and refs were fetched.
- Console messages other than the `[INFO]`/`[ERROR]` lines are left out. So are the request duration and the `{:?}` text of a network error, which is the parameter `detail`.
- Aggregation.Record: counters are unbounded; the u32 `+=` overflow of the source (a panic in debug builds, wrap-around in release builds) is not modelled.
- Report.Kilobytes: the `f64` division and rounding are written as `(size + 512) / 1024`, which agrees with the source for sizes below 2^53 bytes.
- Text.Lines: the trailing `\r` that `str::lines` strips is kept. This never changes whether a line counts as an addition or a deletion.
- Report.GenerateReport: the `HashMap` iteration order is unspecified, so the model visits the authors in an arbitrary order, which it returns as the ghost `order`. The commit rows are fixed once that order is known. Among total rows of equal size, the contract does not fix the order.
- Requests.FetchWithRetry: it requires the URL to contain `v4/`. The source unwraps `find("v4/")`, and would panic on such a URL when it times out or gives up.
- Projects.ProjectCommits: the source loops until a page comes back empty or fails. The model requires such a page to exist (`stop`), because a listing that never ends is not modelled.
- Display.Normalize: the source sorts each row's children array in place (`children.sort`), so the input result is reordered too. The model returns new sequences and does not capture that aliasing.
- Chart.ChartData: `Number(size.toFixed(2))` is the identity on the integer sizes the engine produces, and is modelled as such.
- The dashboard's lodash `debounce` scroll, dayjs date formatting, antd table and form mechanics, ECharts rendering, the React effect lifecycle and `Fireworks.tsx` are left out. Dates arrive already formatted (`BeginRun`).
