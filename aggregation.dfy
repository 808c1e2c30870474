/**
 * Per-author aggregation: each processed commit is added to its author's
 * totals and to that author's entry for the commit's project.
 */
module Aggregation {
  import opened DiffStats
  import opened CommitRefs
  import opened Config
  import opened Text

  /** The counters kept per project and, as totals, per author. */
  datatype Counters = Counters(commits: nat, additions: nat, deletions: nat, lines: nat, files: nat, size: nat)

  const Zero := Counters(0, 0, 0, 0, 0, 0)

  function Plus(a: Counters, b: Counters): Counters {
    Counters(a.commits + b.commits, a.additions + b.additions, a.deletions + b.deletions,
             a.lines + b.lines, a.files + b.files, a.size + b.size)
  }

  /** What one commit adds: one commit and its diff statistics. */
  function Contribution(s: Stats): Counters {
    Counters(1, s.additions, s.deletions, s.lines, s.files, s.size)
  }

  datatype CommitDetail = CommitDetail(project: string, branch: string, tag: string, message: string, committedDate: string)

  datatype AuthorStats = AuthorStats(
    name: string,
    email: string,
    projects: map<string, Counters>,
    totals: Counters,
    details: seq<CommitDetail>)

  /** A commit as the GitLab API lists it. */
  datatype Commit = Commit(id: string, authorEmail: string, authorName: string, message: string, committedDate: string)

  /** Everything the aggregation step needs to know about one commit. */
  datatype CommitInput = CommitInput(
    authorName: string,
    authorEmail: string,
    project: string,
    stats: Stats,
    branch: string,
    tag: string,
    message: string,
    committedDate: string)

  function DetailOf(c: CommitInput): CommitDetail {
    CommitDetail(c.project, c.branch, c.tag, c.message, c.committedDate)
  }

  /** The entry created the first time an author is seen. */
  function NewAuthor(c: CommitInput): AuthorStats {
    AuthorStats(c.authorName, c.authorEmail, map[], Zero, [])
  }

  ghost function Pick(ks: set<string>): string
    requires ks != {}
  {
    var k :| k in ks; k
  }

  /** The sum of the counters of all entries of a map, in no particular order. */
  ghost function Total(m: map<string, Counters>): Counters
    decreases m.Keys
  {
    if m.Keys == {} then Zero
    else
      var k := Pick(m.Keys);
      Plus(m[k], Total(m - {k}))
  }

  /** The sum does not depend on which entry is taken first. */
  lemma {:induction false} TotalRemove(m: map<string, Counters>, k: string)
    requires k in m
    ensures Total(m) == Plus(m[k], Total(m - {k}))
    decreases m.Keys
  {
    var k' := Pick(m.Keys);
    if k' != k {
      TotalRemove(m - {k'}, k);
      TotalRemove(m - {k}, k');
      assert m - {k'} - {k} == m - {k} - {k'};
    }
  }

  /** Adding `d` to one entry (created at zero when absent) adds `d` to the sum. */
  lemma TotalBump(m: map<string, Counters>, k: string, d: Counters)
    ensures Total(m[k := Plus(if k in m then m[k] else Zero, d)]) == Plus(Total(m), d)
  {
    var m' := m[k := Plus(if k in m then m[k] else Zero, d)];
    TotalRemove(m', k);
    assert m' - {k} == m - {k};
    if k in m {
      TotalRemove(m, k);
    } else {
      assert m - {k} == m;
    }
  }

  /** Number of commit details for project `p`. */
  function CountProject(ds: seq<CommitDetail>, p: string): nat {
    if ds == [] then 0
    else CountProject(ds[..|ds| - 1], p) + (if ds[|ds| - 1].project == p then 1 else 0)
  }

  /**
   * An author entry agrees with itself: its totals are the sums over its
   * projects, it has one detail per commit, and each project's commit
   * count is the number of details for that project.
   */
  ghost predicate Consistent(a: AuthorStats) {
    && a.totals == Total(a.projects)
    && a.totals.commits == |a.details|
    && (forall p | p in a.projects :: a.projects[p].commits == CountProject(a.details, p))
    && (forall i | 0 <= i < |a.details| :: a.details[i].project in a.projects)
  }

  ghost predicate TableValid(t: map<string, AuthorStats>) {
    forall n | n in t :: t[n].name == n && Consistent(t[n])
  }

  /** The author entry a commit is added to: the existing one, or a new one. */
  function EntryFor(t: map<string, AuthorStats>, c: CommitInput): AuthorStats {
    if c.authorName in t then t[c.authorName] else NewAuthor(c)
  }

  function ProjectEntry(a: AuthorStats, p: string): Counters {
    if p in a.projects then a.projects[p] else Zero
  }

  /** An author entry after one of its commits has been added. */
  function Bump(a: AuthorStats, c: CommitInput): AuthorStats {
    var d := Contribution(c.stats);
    a.(projects := a.projects[c.project := Plus(ProjectEntry(a, c.project), d)],
       totals := Plus(a.totals, d),
       details := a.details + [DetailOf(c)])
  }

  /** The author table after one commit has been added to it. */
  function Record(t: map<string, AuthorStats>, c: CommitInput): (r: map<string, AuthorStats>)
    ensures r.Keys == t.Keys + {c.authorName}
    ensures forall n | n in t && n != c.authorName :: r[n] == t[n]
    ensures c.authorName in t ==> r[c.authorName].email == t[c.authorName].email
    ensures c.authorName !in t ==> r[c.authorName].email == c.authorEmail
    ensures r[c.authorName].details == EntryFor(t, c).details + [DetailOf(c)]
  {
    t[c.authorName := Bump(EntryFor(t, c), c)]
  }

  /** A commit raises its author's totals and its project's counters by the same amounts. */
  lemma RecordBumpsTotalAndProject(t: map<string, AuthorStats>, c: CommitInput)
    ensures var a, a' := EntryFor(t, c), Record(t, c)[c.authorName];
            && a'.totals == Plus(a.totals, Contribution(c.stats))
            && a'.projects[c.project] == Plus(ProjectEntry(a, c.project), Contribution(c.stats))
            && a'.projects.Keys == a.projects.Keys + {c.project}
            && (forall p | p in a.projects && p != c.project :: a'.projects[p] == a.projects[p])
  {
  }

  lemma {:induction false} CountProjectAppend(ds: seq<CommitDetail>, d: CommitDetail, p: string)
    ensures CountProject(ds + [d], p) == CountProject(ds, p) + (if d.project == p then 1 else 0)
  {
    assert (ds + [d])[..|ds|] == ds;
  }

  lemma {:induction false} CountProjectAbsent(ds: seq<CommitDetail>, p: string)
    requires forall i | 0 <= i < |ds| :: ds[i].project != p
    ensures CountProject(ds, p) == 0
    decreases |ds|
  {
    if ds != [] {
      CountProjectAbsent(ds[..|ds| - 1], p);
    }
  }

  /** Adding a commit keeps every author entry consistent. */
  lemma RecordKeepsValid(t: map<string, AuthorStats>, c: CommitInput)
    requires TableValid(t)
    ensures TableValid(Record(t, c))
  {
    var a := EntryFor(t, c);
    var a' := Record(t, c)[c.authorName];
    assert Consistent(a) by {
      if c.authorName !in t {
        assert a.projects == map[];
      }
    }
    TotalBump(a.projects, c.project, Contribution(c.stats));
    forall p | p in a'.projects ensures a'.projects[p].commits == CountProject(a'.details, p) {
      CountProjectAppend(a.details, DetailOf(c), p);
      if p !in a.projects {
        CountProjectAbsent(a.details, p);
      }
    }
    forall i | 0 <= i < |a'.details| ensures a'.details[i].project in a'.projects {
      if i < |a.details| {
        assert a'.details[i] == a.details[i];
      }
    }
  }

  /** The author table built from a sequence of commits processed in order. */
  function Aggregate(cs: seq<CommitInput>): (t: map<string, AuthorStats>)
  {
    if cs == [] then map[] else Record(Aggregate(cs[..|cs| - 1]), cs[|cs| - 1])
  }

  /** Number of commits by author `n`. */
  function CommitsBy(cs: seq<CommitInput>, n: string): nat {
    if cs == [] then 0
    else CommitsBy(cs[..|cs| - 1], n) + (if cs[|cs| - 1].authorName == n then 1 else 0)
  }

  /**
   * After any sequence of commits: every author entry is consistent, there is
   * an entry exactly for the authors that committed, and each entry counts
   * exactly that author's commits.
   */
  lemma {:induction false} AggregateCounts(cs: seq<CommitInput>)
    ensures TableValid(Aggregate(cs))
    ensures forall n :: n in Aggregate(cs) <==> CommitsBy(cs, n) > 0
    ensures forall n | n in Aggregate(cs) :: Aggregate(cs)[n].totals.commits == CommitsBy(cs, n)
    decreases |cs|
  {
    if cs != [] {
      var init := cs[..|cs| - 1];
      AggregateCounts(init);
      RecordKeepsValid(Aggregate(init), cs[|cs| - 1]);
    }
  }

  /** Index of the first commit by `n`. */
  function FirstBy(cs: seq<CommitInput>, n: string): (i: nat)
    requires CommitsBy(cs, n) > 0
    ensures i < |cs| && cs[i].authorName == n
    ensures forall j | 0 <= j < i :: cs[j].authorName != n
  {
    var init := cs[..|cs| - 1];
    if CommitsBy(init, n) > 0 then
      var i := FirstBy(init, n);
      assert forall j | 0 <= j < i :: cs[j] == init[j];
      i
    else
      assert forall j | 0 <= j < |init| :: init[j].authorName != n by {
        NoneBy(init, n);
      }
      |cs| - 1
  }

  lemma {:induction false} NoneBy(cs: seq<CommitInput>, n: string)
    requires CommitsBy(cs, n) == 0
    ensures forall j | 0 <= j < |cs| :: cs[j].authorName != n
    decreases |cs|
  {
    if cs != [] {
      var init := cs[..|cs| - 1];
      NoneBy(init, n);
      assert forall j | 0 <= j < |init| :: cs[j] == init[j];
    }
  }

  /** An author's email is the one on that author's first commit; later commits never overwrite it. */
  lemma {:induction false} EmailFromFirstCommit(cs: seq<CommitInput>, n: string)
    requires n in Aggregate(cs)
    ensures CommitsBy(cs, n) > 0
    ensures Aggregate(cs)[n].email == cs[FirstBy(cs, n)].authorEmail
    decreases |cs|
  {
    AggregateCounts(cs);
    var init := cs[..|cs| - 1];
    AggregateCounts(init);
    if n in Aggregate(init) {
      EmailFromFirstCommit(init, n);
    }
  }

  lemma BumpCountersCommute(a: AuthorStats, c1: CommitInput, c2: CommitInput)
    ensures Bump(Bump(a, c1), c2).totals == Bump(Bump(a, c2), c1).totals
    ensures Bump(Bump(a, c1), c2).projects == Bump(Bump(a, c2), c1).projects
  {
    var d1, d2 := Contribution(c1.stats), Contribution(c2.stats);
    if c1.project == c2.project {
      var e := ProjectEntry(a, c1.project);
      assert Bump(Bump(a, c1), c2).projects == a.projects[c1.project := Plus(Plus(e, d1), d2)];
      assert Bump(Bump(a, c2), c1).projects == a.projects[c1.project := Plus(Plus(e, d2), d1)];
    } else {
      var e1, e2 := ProjectEntry(a, c1.project), ProjectEntry(a, c2.project);
      assert Bump(Bump(a, c1), c2).projects == a.projects[c1.project := Plus(e1, d1)][c2.project := Plus(e2, d2)];
      assert Bump(Bump(a, c2), c1).projects == a.projects[c2.project := Plus(e2, d2)][c1.project := Plus(e1, d1)];
    }
  }

  /** Processing two commits in either order gives the same counters for every author and project. */
  lemma RecordCountersCommute(t: map<string, AuthorStats>, c1: CommitInput, c2: CommitInput)
    ensures var r12, r21 := Record(Record(t, c1), c2), Record(Record(t, c2), c1);
            && r12.Keys == r21.Keys
            && (forall n | n in r12 :: r12[n].totals == r21[n].totals && r12[n].projects == r21[n].projects)
  {
    var t1, t2 := Record(t, c1), Record(t, c2);
    if c1.authorName != c2.authorName {
      assert EntryFor(t1, c2) == EntryFor(t, c2);
      assert EntryFor(t2, c1) == EntryFor(t, c1);
    } else {
      var a1, a2 := EntryFor(t, c1), EntryFor(t, c2);
      assert a1.totals == a2.totals && a1.projects == a2.projects;
      BumpCountersCommute(a1, c1, c2);
      assert Bump(a2, c2).projects == Bump(a1, c2).projects;
      assert Bump(Bump(a2, c2), c1).totals == Bump(Bump(a1, c2), c1).totals;
      assert Bump(Bump(a2, c2), c1).projects == Bump(Bump(a1, c2), c1).projects;
    }
  }

  /** The diff statistics of a commit, as the diff loop computes them. */
  ghost function DiffTotals(diffs: seq<DiffInfo>, cfg: Config): Stats {
    var added, deleted := TotalAdded(diffs, cfg), TotalDeleted(diffs, cfg);
    Stats(added, deleted, added + deleted, CountedFiles(diffs, cfg), TotalBytes(diffs, cfg))
  }

  /** How a fetched commit, its diffs and its refs become one aggregation input. */
  ghost function InputOf(commit: Commit, projectName: string, diffs: seq<DiffInfo>, refs: seq<RefInfo>, cfg: Config): CommitInput {
    CommitInput(commit.authorName, commit.authorEmail, projectName, DiffTotals(diffs, cfg),
                EffectiveBranch(commit.message, refs), FirstNamed(refs, "tag"),
                commit.message, commit.committedDate)
  }

  class AuthorTable {
    var authors: map<string, AuthorStats>

    ghost predicate Valid()
      reads this
    {
      TableValid(authors)
    }

    constructor ()
      ensures Valid() && authors == map[]
    {
      authors := map[];
    }

    /** Adds one commit: upserts the author, then the project, then bumps both and appends the detail. */
    method Upsert(c: CommitInput)
      requires Valid()
      modifies this
      ensures Valid()
      ensures authors == Record(old(authors), c)
    {
      RecordKeepsValid(authors, c);
      if c.authorName !in authors {
        authors := authors[c.authorName := NewAuthor(c)];
      }
      var author := authors[c.authorName];
      var project := if c.project in author.projects then author.projects[c.project] else Zero;
      var delta := Contribution(c.stats);
      project := Plus(project, delta);
      author := author.(projects := author.projects[c.project := project]);
      author := author.(totals := Plus(author.totals, delta));
      author := author.(details := author.details + [DetailOf(c)]);
      authors := authors[c.authorName := author];
    }

    /**
     * One commit of a project: counts its diffs, attributes it to a branch and
     * tag (the merged branch for a merge message), and adds it to the table.
     * The fetched diff list and ref list are parameters.
     */
    method ProcessCommit(commit: Commit, projectName: string, diffs: seq<DiffInfo>, refs: seq<RefInfo>, cfg: Config)
      requires Valid()
      modifies this
      ensures Valid()
      ensures authors == Record(old(authors), InputOf(commit, projectName, diffs, refs, cfg))
    {
      var stats := AnalyzeCommitDiffs(diffs, cfg);
      assert stats == DiffTotals(diffs, cfg);
      var branchInfo := CommitBranches(refs);
      if StartsWith(commit.message, "Merge branch") {
        var merged := MergedBranch(commit.message);
        if merged.Some? {
          branchInfo := branchInfo.(branches := merged.value);
        }
      }
      assert branchInfo.branches == EffectiveBranch(commit.message, refs);
      var input := CommitInput(commit.authorName, commit.authorEmail, projectName, stats,
                               branchInfo.branches, branchInfo.tags, commit.message, commit.committedDate);
      assert input == InputOf(commit, projectName, diffs, refs, cfg);
      Upsert(input);
    }
  }
}
