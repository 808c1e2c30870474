/**
 * Building the report from the author table: one total row per author
 * with that author's project rows as children, both levels sorted by size,
 * the flat list of commits, and the failures when there are any. The
 * author table is a hash map whose iteration order is unspecified, so the
 * loops below take its entries in an arbitrary order.
 */
module Report {
  import opened Options
  import opened Rows
  import opened Aggregation
  import opened Text

  datatype Report = Report(codeStats: seq<CodeStat>, commitStats: seq<CommitStat>, failureStats: Option<seq<FailureRecord>>)

  const TotalLabel := "【总计】"
  const TotalSuffix := "-total"

  /** The author whose total row carries `key`: the key without its suffix. */
  function KeyOwner(key: string): string {
    if |key| >= |TotalSuffix| then key[..|key| - |TotalSuffix|] else key
  }

  lemma KeyOwnerOfTotal(n: string)
    ensures KeyOwner(n + TotalSuffix) == n
  {
    assert (n + TotalSuffix)[..|n|] == n;
  }

  /** `(bytes as f64 / 1024.0).round()`: the nearest whole kilobyte, halves rounded up. */
  function Kilobytes(bytes: nat): (kb: nat)
    ensures kb * 1024 <= bytes + 512 < kb * 1024 + 1024
  {
    (bytes + 512) / 1024
  }

  /** The row for one project of author `name`. */
  function ProjectRow(name: string, a: AuthorStats, p: string): (r: CodeStat)
    requires p in a.projects
    ensures StartsWith(r.key, name + "-") && r.key[|name| + 1..] == p
    ensures r.author == name && r.email == a.email && r.project == p
    ensures var c := a.projects[p];
            && r.commits == c.commits && r.additions == c.additions && r.deletions == c.deletions
            && r.lines == c.lines && r.files == c.files
            && r.size * 1024 <= c.size + 512 < r.size * 1024 + 1024
    ensures r.isTotal.None? && r.children.None?
  {
    var c := a.projects[p];
    CodeStat(name + "-" + p, name, a.email, p, c.commits, c.additions, c.deletions,
             c.lines, c.files, Kilobytes(c.size), None, None)
  }

  /**
   * `ch` holds exactly one row per project of the author, sorted by size;
   * the order among projects of equal size is not determined.
   */
  ghost predicate ChildrenOf(ch: seq<CodeStat>, name: string, a: AuthorStats) {
    && SortedBySize(ch)
    && DistinctKeys(ch)
    && |ch| == |a.projects|
    && (forall p | p in a.projects :: exists x | x in ch :: x.project == p)
    && (forall x | x in ch :: x.project in a.projects && x == ProjectRow(name, a, x.project))
  }

  /** `row` is the total row of author `name`. */
  ghost predicate IsTotalRow(row: CodeStat, name: string, a: AuthorStats) {
    && row.key == name + TotalSuffix
    && row.author == "【" + name + "】"
    && row.email == a.email
    && row.project == TotalLabel
    && row.commits == a.totals.commits
    && row.additions == a.totals.additions
    && row.deletions == a.totals.deletions
    && row.lines == a.totals.lines
    && row.files == a.totals.files
    && row.size == Kilobytes(a.totals.size)
    && row.isTotal == Some(true)
    && row.children.Some?
    && ChildrenOf(row.children.value, name, a)
  }

  /** Each project of the author has its own row among the children. */
  lemma ChildrenCoverProjects(ch: seq<CodeStat>, name: string, a: AuthorStats, p: string)
    requires ChildrenOf(ch, name, a) && p in a.projects
    ensures ProjectRow(name, a, p) in ch
  {
    var x :| x in ch && x.project == p;
  }

  /** A commit row: the author's name and email, everything else from the detail. */
  function CommitRow(a: AuthorStats, d: CommitDetail): (r: CommitStat)
    ensures r.author == a.name && r.email == a.email
    ensures r.project == d.project && r.branch == d.branch && r.tag == d.tag
    ensures r.committedDate == d.committedDate && r.message == d.message
  {
    CommitStat(a.name, a.email, d.project, d.branch, d.tag, d.committedDate, d.message)
  }

  /** Number of commit details of the authors named in `keys`. */
  ghost function DetailCount(authors: map<string, AuthorStats>, keys: set<string>): nat
    requires keys <= authors.Keys
    decreases keys
  {
    if keys == {} then 0
    else
      var k := Pick(keys);
      |authors[k].details| + DetailCount(authors, keys - {k})
  }

  lemma {:induction false} DetailCountRemove(authors: map<string, AuthorStats>, keys: set<string>, k: string)
    requires keys <= authors.Keys && k in keys
    ensures DetailCount(authors, keys) == |authors[k].details| + DetailCount(authors, keys - {k})
    decreases keys
  {
    var k' := Pick(keys);
    if k' != k {
      DetailCountRemove(authors, keys - {k'}, k);
      DetailCountRemove(authors, keys - {k}, k');
      assert keys - {k'} - {k} == keys - {k} - {k'};
    }
  }

  /** `rows` holds one row for each project of the author not in `remaining`. */
  ghost predicate PartialRows(rows: seq<CodeStat>, name: string, a: AuthorStats, remaining: set<string>) {
    && (forall p | p in a.projects && p !in remaining :: exists x | x in rows :: x.project == p)
    && (forall x | x in rows :: x.project in a.projects && x.project !in remaining && x == ProjectRow(name, a, x.project))
    && DistinctKeys(rows)
  }

  lemma PartialRowsStep(rows: seq<CodeStat>, name: string, a: AuthorStats, remaining: set<string>, p: string)
    requires PartialRows(rows, name, a, remaining) && p in remaining && p in a.projects
    ensures PartialRows(rows + [ProjectRow(name, a, p)], name, a, remaining - {p})
  {
    var row := ProjectRow(name, a, p);
    forall x | x in rows ensures x.key != row.key {
      if x.key == row.key {
        SamePrefix(name + "-", x.project, p);
      }
    }
    var rows' := rows + [row];
    forall i, j | 0 <= i < j < |rows'| ensures rows'[i].key != rows'[j].key {
      if j < |rows| {
        assert rows'[i] == rows[i] && rows'[j] == rows[j];
      } else {
        assert rows'[i] in rows;
      }
    }
  }

  lemma PartialRowsDone(rows: seq<CodeStat>, sorted: seq<CodeStat>, name: string, a: AuthorStats)
    requires PartialRows(rows, name, a, {}) && |rows| == |a.projects|
    requires SortedBySize(sorted) && multiset(sorted) == multiset(rows)
    ensures ChildrenOf(sorted, name, a)
  {
    PermutationKeepsDistinctKeys(rows, sorted);
    assert |sorted| == |multiset(sorted)| == |rows|;
    forall x ensures x in sorted <==> x in rows {
      assert x in sorted <==> x in multiset(sorted);
      assert x in rows <==> x in multiset(rows);
    }
  }

  /** The project rows of one author, sorted by size. */
  method ProjectRows(name: string, a: AuthorStats) returns (rows: seq<CodeStat>)
    ensures ChildrenOf(rows, name, a)
  {
    rows := [];
    var remaining := a.projects.Keys;
    while remaining != {}
      invariant remaining <= a.projects.Keys
      invariant |rows| + |remaining| == |a.projects.Keys|
      invariant PartialRows(rows, name, a, remaining)
    {
      var p :| p in remaining;
      PartialRowsStep(rows, name, a, remaining, p);
      rows := rows + [ProjectRow(name, a, p)];
      remaining := remaining - {p};
    }
    var sorted := SortBySize(rows);
    PartialRowsDone(rows, sorted, name, a);
    rows := sorted;
  }

  /** The commit rows of one author, in the order of the author's details. */
  function AuthorCommits(a: AuthorStats): (rows: seq<CommitStat>)
    ensures |rows| == |a.details|
    ensures forall i | 0 <= i < |rows| :: rows[i] == CommitRow(a, a.details[i])
  {
    seq(|a.details|, i requires 0 <= i < |a.details| => CommitRow(a, a.details[i]))
  }

  /** The loop that pushes one author's commit rows. */
  method CommitRows(a: AuthorStats) returns (rows: seq<CommitStat>)
    ensures rows == AuthorCommits(a)
  {
    rows := [];
    for j := 0 to |a.details|
      invariant |rows| == j
      invariant forall i | 0 <= i < j :: rows[i] == CommitRow(a, a.details[i])
    {
      rows := rows + [CommitRow(a, a.details[j])];
    }
  }

  /** The commit rows of the authors in `order`, one author after another. */
  ghost function CommitsInOrder(authors: map<string, AuthorStats>, order: seq<string>): seq<CommitStat>
    requires forall i | 0 <= i < |order| :: order[i] in authors
  {
    if order == [] then []
    else CommitsInOrder(authors, order[..|order| - 1]) + AuthorCommits(authors[order[|order| - 1]])
  }

  /** Every detail of every author in `order` has its commit row in the list. */
  lemma {:induction false} CommitsInOrderHas(authors: map<string, AuthorStats>, order: seq<string>, n: string, i: nat)
    requires forall k | 0 <= k < |order| :: order[k] in authors
    requires n in order && i < |authors[n].details|
    ensures CommitRow(authors[n], authors[n].details[i]) in CommitsInOrder(authors, order)
    decreases |order|
  {
    var last := order[|order| - 1];
    if n == last {
      assert AuthorCommits(authors[n])[i] == CommitRow(authors[n], authors[n].details[i]);
    } else {
      assert n in order[..|order| - 1] by {
        var k :| 0 <= k < |order| && order[k] == n;
        assert order[..|order| - 1][k] == n;
      }
      CommitsInOrderHas(authors, order[..|order| - 1], n, i);
    }
  }

  /** The total row of one author, with the author's sorted project rows as children. */
  method TotalRow(name: string, a: AuthorStats) returns (row: CodeStat)
    ensures IsTotalRow(row, name, a)
  {
    row := CodeStat(name + TotalSuffix, "【" + name + "】", a.email, TotalLabel,
                    a.totals.commits, a.totals.additions, a.totals.deletions, a.totals.lines,
                    a.totals.files, Kilobytes(a.totals.size), Some(true), Some([]));
    var children := ProjectRows(name, a);
    row := row.(children := Some(children));
  }

  /** A commit row that comes from one of the author's details. */
  ghost predicate CommitRowOf(r: CommitStat, a: AuthorStats) {
    exists i | 0 <= i < |a.details| :: r == CommitRow(a, a.details[i])
  }

  /** Every row of `rs` comes from a detail of some author. */
  ghost predicate CommitsFrom(rs: seq<CommitStat>, authors: map<string, AuthorStats>) {
    forall r | r in rs :: exists n | n in authors :: CommitRowOf(r, authors[n])
  }

  lemma CommitsFromAppend(rs: seq<CommitStat>, rows: seq<CommitStat>, authors: map<string, AuthorStats>, name: string)
    requires CommitsFrom(rs, authors) && name in authors
    requires |rows| == |authors[name].details|
    requires forall i | 0 <= i < |rows| :: rows[i] == CommitRow(authors[name], authors[name].details[i])
    ensures CommitsFrom(rs + rows, authors)
  {
    forall r | r in rs + rows ensures exists n | n in authors :: CommitRowOf(r, authors[n]) {
      if r !in rs {
        var i :| 0 <= i < |rows| && rows[i] == r;
        assert CommitRowOf(r, authors[name]);
      }
    }
  }

  /** `rows[i]` is the total row of author `owners[i]`. */
  ghost predicate TotalsOf(rows: seq<CodeStat>, owners: seq<string>, authors: map<string, AuthorStats>) {
    && |rows| == |owners|
    && (forall i | 0 <= i < |rows| :: owners[i] in authors && IsTotalRow(rows[i], owners[i], authors[owners[i]]))
  }

  lemma TotalKeysDistinct(rows: seq<CodeStat>, owners: seq<string>, total: CodeStat, name: string)
    requires DistinctKeys(rows) && |rows| == |owners| && name !in owners
    requires forall i | 0 <= i < |rows| :: rows[i].key == owners[i] + TotalSuffix
    requires total.key == name + TotalSuffix
    ensures DistinctKeys(rows + [total])
  {
    var rows' := rows + [total];
    forall i, j | 0 <= i < j < |rows'| ensures rows'[i].key != rows'[j].key {
      if j < |rows| {
        assert rows'[i] == rows[i] && rows'[j] == rows[j];
      } else if rows'[i].key == total.key {
        assert rows'[i] == rows[i];
        SameSuffix(owners[i], name, TotalSuffix);
        assert false;
      }
    }
  }

  lemma TotalsStep(rows: seq<CodeStat>, owners: seq<string>, authors: map<string, AuthorStats>,
                   name: string, total: CodeStat)
    requires TotalsOf(rows, owners, authors) && DistinctKeys(rows)
    requires name in authors && name !in owners && IsTotalRow(total, name, authors[name])
    ensures TotalsOf(rows + [total], owners + [name], authors) && DistinctKeys(rows + [total])
  {
    TotalKeysDistinct(rows, owners, total, name);
    var rows', owners' := rows + [total], owners + [name];
    forall i | 0 <= i < |rows'| ensures owners'[i] in authors && IsTotalRow(rows'[i], owners'[i], authors[owners'[i]]) {
      if i < |rows| {
        assert rows'[i] == rows[i] && owners'[i] == owners[i];
      }
    }
  }

  lemma SameElements(s: seq<CodeStat>, t: seq<CodeStat>)
    requires multiset(s) == multiset(t)
    ensures forall x :: x in s <==> x in t
  {
    forall x ensures x in s <==> x in t {
      assert x in s <==> x in multiset(s);
      assert x in t <==> x in multiset(t);
    }
  }

  /** After sorting, each row is still the total row of the author its key names. */
  lemma TotalsOwned(rows: seq<CodeStat>, owners: seq<string>, sorted: seq<CodeStat>, authors: map<string, AuthorStats>)
    requires TotalsOf(rows, owners, authors)
    requires forall x :: x in sorted <==> x in rows
    ensures forall row | row in sorted :: KeyOwner(row.key) in authors && IsTotalRow(row, KeyOwner(row.key), authors[KeyOwner(row.key)])
  {
    forall row | row in sorted ensures KeyOwner(row.key) in authors && IsTotalRow(row, KeyOwner(row.key), authors[KeyOwner(row.key)]) {
      var i :| 0 <= i < |rows| && rows[i] == row;
      KeyOwnerOfTotal(owners[i]);
    }
  }

  /** After sorting, every author still has a row keyed by its name. */
  lemma TotalsCover(rows: seq<CodeStat>, owners: seq<string>, sorted: seq<CodeStat>, authors: map<string, AuthorStats>)
    requires |rows| == |owners| && forall i | 0 <= i < |rows| :: rows[i].key == owners[i] + TotalSuffix
    requires forall n :: n in owners <==> n in authors
    requires forall x :: x in sorted <==> x in rows
    ensures forall n | n in authors :: exists row | row in sorted :: row.key == n + TotalSuffix
  {
    forall n | n in authors ensures exists row | row in sorted :: row.key == n + TotalSuffix {
      var i :| 0 <= i < |owners| && owners[i] == n;
      assert rows[i] in sorted;
    }
  }

  /**
   * The top-level rows of a report: one per author, sorted by size with
   * distinct keys, each the total row of the author its key names.
   */
  ghost predicate ReportTotals(rows: seq<CodeStat>, authors: map<string, AuthorStats>) {
    && |rows| == |authors|
    && SortedBySize(rows) && DistinctKeys(rows)
    && (forall row | row in rows ::
          KeyOwner(row.key) in authors && IsTotalRow(row, KeyOwner(row.key), authors[KeyOwner(row.key)]))
    && (forall n | n in authors :: exists row | row in rows :: row.key == n + TotalSuffix)
  }

  /** `order` lists every author of the table exactly once. */
  ghost predicate VisitOrder(order: seq<string>, authors: map<string, AuthorStats>) {
    && |order| == |authors|
    && (forall n :: n in order <==> n in authors)
    && (forall i | 0 <= i < |order| :: order[i] in authors)
    && (forall i, j | 0 <= i < j < |order| :: order[i] != order[j])
  }

  /** Sorting the total rows keeps one row per author, owned through its key. */
  lemma SortedTotals(rows: seq<CodeStat>, owners: seq<string>, sorted: seq<CodeStat>, authors: map<string, AuthorStats>)
    requires TotalsOf(rows, owners, authors) && DistinctKeys(rows) && |rows| == |authors|
    requires forall n :: n in owners <==> n in authors
    requires SortedBySize(sorted) && multiset(sorted) == multiset(rows)
    ensures ReportTotals(sorted, authors)
  {
    assert |sorted| == |multiset(sorted)| == |rows|;
    PermutationKeepsDistinctKeys(rows, sorted);
    SameElements(rows, sorted);
    TotalsOwned(rows, owners, sorted, authors);
    TotalsCover(rows, owners, sorted, authors);
  }

  /** One more author visited: the order stays repeat-free and covers the visited authors. */
  lemma OwnersStep(owners: seq<string>, remaining: set<string>, authors: map<string, AuthorStats>, name: string)
    requires remaining <= authors.Keys && name in remaining
    requires forall n :: n in owners <==> n in authors && n !in remaining
    requires forall i, j | 0 <= i < j < |owners| :: owners[i] != owners[j]
    ensures forall n :: n in owners + [name] <==> n in authors && n !in remaining - {name}
    ensures forall i, j | 0 <= i < j < |owners + [name]| :: (owners + [name])[i] != (owners + [name])[j]
  {
  }

  /** One more author visited: the commit list grows by that author's rows. */
  lemma CommitsStep(authors: map<string, AuthorStats>, owners: seq<string>, name: string)
    requires forall i | 0 <= i < |owners| :: owners[i] in authors
    requires name in authors
    ensures CommitsInOrder(authors, owners + [name]) == CommitsInOrder(authors, owners) + AuthorCommits(authors[name])
  {
    assert (owners + [name])[..|owners|] == owners;
  }

  /** Once every author is visited, the order lists each one exactly once. */
  lemma OwnersDone(owners: seq<string>, authors: map<string, AuthorStats>)
    requires |owners| == |authors|
    requires forall n :: n in owners <==> n in authors
    requires forall i, j | 0 <= i < j < |owners| :: owners[i] != owners[j]
    ensures VisitOrder(owners, authors)
  {
  }

  /**
   * The state of the report loop once the authors outside `remaining` are
   * visited, in the order `owners`: their total rows and their commit rows.
   */
  ghost predicate Visited(codeStats: seq<CodeStat>, commitStats: seq<CommitStat>, owners: seq<string>,
                          remaining: set<string>, authors: map<string, AuthorStats>) {
    && remaining <= authors.Keys
    && |codeStats| + |remaining| == |authors|
    && TotalsOf(codeStats, owners, authors) && DistinctKeys(codeStats)
    && (forall n :: n in owners <==> n in authors && n !in remaining)
    && (forall i | 0 <= i < |owners| :: owners[i] in authors)
    && (forall i, j | 0 <= i < j < |owners| :: owners[i] != owners[j])
    && commitStats == CommitsInOrder(authors, owners)
    && |commitStats| + DetailCount(authors, remaining) == DetailCount(authors, authors.Keys)
    && CommitsFrom(commitStats, authors)
  }

  /** Visiting one more author keeps the loop state. */
  lemma VisitStep(codeStats: seq<CodeStat>, commitStats: seq<CommitStat>, owners: seq<string>,
                  remaining: set<string>, authors: map<string, AuthorStats>,
                  name: string, total: CodeStat, rows: seq<CommitStat>)
    requires Visited(codeStats, commitStats, owners, remaining, authors) && name in remaining
    requires IsTotalRow(total, name, authors[name]) && rows == AuthorCommits(authors[name])
    ensures Visited(codeStats + [total], commitStats + rows, owners + [name], remaining - {name}, authors)
  {
    TotalsStep(codeStats, owners, authors, name, total);
    OwnersStep(owners, remaining, authors, name);
    CommitsStep(authors, owners, name);
    CommitsFromAppend(commitStats, rows, authors, name);
    DetailCountRemove(authors, remaining, name);
  }

  /**
   * The loop of the report over the author table, in the table's own
   * order: the total row and the commit rows of each author.
   */
  method CollectRows(authors: map<string, AuthorStats>)
    returns (codeStats: seq<CodeStat>, commitStats: seq<CommitStat>, ghost owners: seq<string>)
    ensures TotalsOf(codeStats, owners, authors) && DistinctKeys(codeStats)
    ensures |codeStats| == |authors|
    ensures VisitOrder(owners, authors)
    ensures commitStats == CommitsInOrder(authors, owners)
    ensures |commitStats| == DetailCount(authors, authors.Keys)
    ensures CommitsFrom(commitStats, authors)
  {
    codeStats, commitStats, owners := [], [], [];
    var remaining := authors.Keys;
    while remaining != {}
      invariant Visited(codeStats, commitStats, owners, remaining, authors)
      decreases remaining
    {
      var name :| name in remaining;
      var total := TotalRow(name, authors[name]);
      var rows := CommitRows(authors[name]);
      VisitStep(codeStats, commitStats, owners, remaining, authors, name, total, rows);
      codeStats, commitStats, owners := codeStats + [total], commitStats + rows, owners + [name];
      remaining := remaining - {name};
    }
    OwnersDone(owners, authors);
  }

  /**
   * The report: the total rows sorted by size (exactly one per author, keys
   * distinct), every author's commits, and the failures when there are any.
   */
  method GenerateReport(authors: map<string, AuthorStats>, failures: seq<FailureRecord>)
    returns (report: Report, ghost order: seq<string>)
    ensures ReportTotals(report.codeStats, authors)
    ensures VisitOrder(order, authors)
    ensures report.commitStats == CommitsInOrder(authors, order)
    ensures |report.commitStats| == DetailCount(authors, authors.Keys)
    ensures forall r | r in report.commitStats :: exists n | n in authors :: CommitRowOf(r, authors[n])
    ensures report.failureStats.None? <==> failures == []
    ensures report.failureStats.Some? ==> report.failureStats.value == failures
  {
    var codeStats, commitStats, owners := CollectRows(authors);
    order := owners;
    var sorted := SortBySize(codeStats);
    SortedTotals(codeStats, owners, sorted, authors);
    report := Report(sorted, commitStats, if failures == [] then None else Some(failures));
  }
}
