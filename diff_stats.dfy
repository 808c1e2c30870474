/**
 * Counting the changes of one commit from its list of file diffs: which
 * files count, and how added and deleted lines and bytes are tallied.
 */
module DiffStats {
  import opened Options
  import opened Text
  import opened Config

  /** One file of a commit's diff, as the GitLab API returns it. */
  datatype DiffInfo = DiffInfo(oldPath: Option<string>, newPath: Option<string>, diff: Option<string>)

  /** What one commit contributes. */
  datatype Stats = Stats(additions: nat, deletions: nat, lines: nat, files: nat, size: nat)

  /** The path of a diff entry: the new path, else the old path, else empty. */
  function FilePath(d: DiffInfo): string {
    d.newPath.GetOr(d.oldPath.GetOr(""))
  }

  /** "." followed by the text after the last '.' of the path (all of it when there is none). */
  function Extension(path: string): (ext: string)
    ensures |ext| >= 1 && ext[0] == '.'
    ensures '.' !in ext[1..]
    ensures |ext| - 1 <= |path| && path[|path| - (|ext| - 1)..] == ext[1..]
    ensures |ext| - 1 < |path| ==> path[|path| - |ext|] == '.'
  {
    var last := AfterLast(path, '.');
    assert ("." + last)[1..] == last;
    "." + last
  }

  /** Some ignored pattern occurs in the path. */
  predicate Ignored(path: string, ignoredPaths: seq<string>) {
    exists k | 0 <= k < |ignoredPaths| :: Contains(path, ignoredPaths[k])
  }

  /** A diff entry counts when its path is not ignored and its extension is allowed. */
  predicate Counted(d: DiffInfo, cfg: Config) {
    var path := FilePath(d);
    !Ignored(path, cfg.ignoredPaths) && Extension(path) in cfg.validExtensions
  }

  /** An added line: starts with '+' but is not the "+++" file header. */
  predicate IsAddition(line: string) {
    StartsWith(line, "+") && !StartsWith(line, "+++")
  }

  /** A deleted line: starts with '-' but is not the "---" file header. */
  predicate IsDeletion(line: string) {
    StartsWith(line, "-") && !StartsWith(line, "---")
  }

  /** Number of added lines. */
  function Added(lines: seq<string>): nat {
    if lines == [] then 0
    else Added(lines[..|lines| - 1]) + (if IsAddition(lines[|lines| - 1]) then 1 else 0)
  }

  /** Number of deleted lines. */
  function Deleted(lines: seq<string>): nat {
    if lines == [] then 0
    else Deleted(lines[..|lines| - 1]) + (if IsDeletion(lines[|lines| - 1]) then 1 else 0)
  }

  /** A line is never both added and deleted, so the two counts never exceed the line count. */
  lemma {:induction false} ChangedLinesBound(lines: seq<string>)
    ensures Added(lines) + Deleted(lines) <= |lines|
    decreases |lines|
  {
    if lines != [] {
      ChangedLinesBound(lines[..|lines| - 1]);
    }
  }

  /** The diff text of a counted entry that has one. */
  predicate HasCountedText(d: DiffInfo, cfg: Config) {
    Counted(d, cfg) && d.diff.Some?
  }

  function CountedFiles(ds: seq<DiffInfo>, cfg: Config): nat {
    if ds == [] then 0
    else CountedFiles(ds[..|ds| - 1], cfg) + (if Counted(ds[|ds| - 1], cfg) then 1 else 0)
  }

  function TotalAdded(ds: seq<DiffInfo>, cfg: Config): nat {
    if ds == [] then 0
    else
      var d := ds[|ds| - 1];
      TotalAdded(ds[..|ds| - 1], cfg) + (if HasCountedText(d, cfg) then Added(Lines(d.diff.value)) else 0)
  }

  function TotalDeleted(ds: seq<DiffInfo>, cfg: Config): nat {
    if ds == [] then 0
    else
      var d := ds[|ds| - 1];
      TotalDeleted(ds[..|ds| - 1], cfg) + (if HasCountedText(d, cfg) then Deleted(Lines(d.diff.value)) else 0)
  }

  function TotalBytes(ds: seq<DiffInfo>, cfg: Config): nat {
    if ds == [] then 0
    else
      var d := ds[|ds| - 1];
      TotalBytes(ds[..|ds| - 1], cfg) + (if HasCountedText(d, cfg) then Utf8Length(d.diff.value) else 0)
  }

  /** Entries that do not count add nothing to any total. */
  lemma SkippedEntryChangesNothing(ds: seq<DiffInfo>, d: DiffInfo, cfg: Config)
    requires !Counted(d, cfg)
    ensures CountedFiles(ds + [d], cfg) == CountedFiles(ds, cfg)
    ensures TotalAdded(ds + [d], cfg) == TotalAdded(ds, cfg)
    ensures TotalDeleted(ds + [d], cfg) == TotalDeleted(ds, cfg)
    ensures TotalBytes(ds + [d], cfg) == TotalBytes(ds, cfg)
  {
    assert (ds + [d])[..|ds|] == ds;
  }

  /** The inner loop over one diff text: counts added and deleted lines. */
  method CountChangedLines(lines: seq<string>) returns (additions: nat, deletions: nat)
    ensures additions == Added(lines) && deletions == Deleted(lines)
  {
    additions, deletions := 0, 0;
    for j := 0 to |lines|
      invariant additions == Added(lines[..j])
      invariant deletions == Deleted(lines[..j])
    {
      assert lines[..j + 1][..j] == lines[..j];
      if IsAddition(lines[j]) {
        additions := additions + 1;
      } else if IsDeletion(lines[j]) {
        deletions := deletions + 1;
      }
    }
    assert lines[..|lines|] == lines;
  }

  /**
   * The diff loop: counts files, added and deleted lines and bytes over the
   * counted entries, and keeps `lines` equal to additions plus deletions.
   */
  method AnalyzeCommitDiffs(diffs: seq<DiffInfo>, cfg: Config) returns (stats: Stats)
    ensures stats.files == CountedFiles(diffs, cfg)
    ensures stats.additions == TotalAdded(diffs, cfg)
    ensures stats.deletions == TotalDeleted(diffs, cfg)
    ensures stats.size == TotalBytes(diffs, cfg)
    ensures stats.lines == stats.additions + stats.deletions
  {
    stats := Stats(0, 0, 0, 0, 0);
    for i := 0 to |diffs|
      invariant stats.files == CountedFiles(diffs[..i], cfg)
      invariant stats.additions == TotalAdded(diffs[..i], cfg)
      invariant stats.deletions == TotalDeleted(diffs[..i], cfg)
      invariant stats.size == TotalBytes(diffs[..i], cfg)
      invariant stats.lines == stats.additions + stats.deletions
    {
      var d := diffs[i];
      assert diffs[..i + 1] == diffs[..i] + [d];
      var path := FilePath(d);
      var ext := Extension(path);
      if Ignored(path, cfg.ignoredPaths) {
        SkippedEntryChangesNothing(diffs[..i], d, cfg);
        continue;
      }
      if ext !in cfg.validExtensions {
        SkippedEntryChangesNothing(diffs[..i], d, cfg);
        continue;
      }
      assert Counted(d, cfg);
      assert (diffs[..i] + [d])[..i] == diffs[..i];
      stats := stats.(files := stats.files + 1);
      if d.diff.Some? {
        var content := d.diff.value;
        var added, deleted := CountChangedLines(Lines(content));
        stats := stats.(additions := stats.additions + added, deletions := stats.deletions + deleted);
        stats := stats.(lines := stats.additions + stats.deletions, size := stats.size + Utf8Length(content));
      }
    }
    assert diffs[..|diffs|] == diffs;
  }
}
