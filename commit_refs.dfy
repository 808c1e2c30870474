/**
 * Which branch and tag a commit is attributed to: the first ref of each
 * kind, and the branch named in a "Merge branch '<name>'" message.
 */
module CommitRefs {
  import opened Options
  import opened Text

  /** A ref that contains a commit: `refType` is "branch" or "tag". */
  datatype RefInfo = RefInfo(refType: string, name: string)

  datatype BranchInfo = BranchInfo(branches: string, tags: string)

  const Unknown := "unknown"

  /** The name of the first ref of type `kind`, or "unknown". */
  function FirstNamed(refs: seq<RefInfo>, kind: string): (r: string)
    ensures (forall i | 0 <= i < |refs| :: refs[i].refType != kind) ==> r == Unknown
    ensures forall i | 0 <= i < |refs| && refs[i].refType == kind ::
              (forall j | 0 <= j < i :: refs[j].refType != kind) ==> r == refs[i].name
  {
    if refs == [] then Unknown
    else if refs[0].refType == kind then refs[0].name
    else
      assert forall i | 1 <= i < |refs| :: refs[i] == refs[1..][i - 1];
      FirstNamed(refs[1..], kind)
  }

  /** Branch and tag of a commit from its refs. */
  function CommitBranches(refs: seq<RefInfo>): (r: BranchInfo)
    ensures forall i | 0 <= i < |refs| && refs[i].refType == "branch" ::
              (forall j | 0 <= j < i :: refs[j].refType != "branch") ==> r.branches == refs[i].name
    ensures forall i | 0 <= i < |refs| && refs[i].refType == "tag" ::
              (forall j | 0 <= j < i :: refs[j].refType != "tag") ==> r.tags == refs[i].name
    ensures (forall i | 0 <= i < |refs| :: refs[i].refType != "branch") ==> r.branches == Unknown
    ensures (forall i | 0 <= i < |refs| :: refs[i].refType != "tag") ==> r.tags == Unknown
  {
    BranchInfo(FirstNamed(refs, "branch"), FirstNamed(refs, "tag"))
  }

  const MergePrefix := "Merge branch '"

  /** Length of the run of characters other than '\'' starting at `from`. */
  function RunLength(s: string, from: nat): (n: nat)
    requires from <= |s|
    ensures from + n <= |s|
    ensures forall k | from <= k < from + n :: s[k] != '\''
    ensures from + n < |s| ==> s[from + n] == '\''
    decreases |s| - from
  {
    if from == |s| || s[from] == '\'' then 0 else 1 + RunLength(s, from + 1)
  }

  /** The pattern `Merge branch '([^']+)'` matches at `p`. */
  predicate MatchAt(s: string, p: nat) {
    OccursAt(s, MergePrefix, p) &&
    var q := p + |MergePrefix|;
    var n := RunLength(s, q);
    n >= 1 && q + n < |s|
  }

  /** The capture group of the match at `p`. */
  function CaptureAt(s: string, p: nat): string
    requires MatchAt(s, p)
  {
    var q := p + |MergePrefix|;
    s[q..q + RunLength(s, q)]
  }

  /** The leftmost match at or after `from`. */
  function MatchFrom(s: string, from: nat): (r: Option<nat>)
    ensures r.Some? ==> from <= r.value && MatchAt(s, r.value)
    ensures r.Some? ==> forall p | from <= p < r.value :: !MatchAt(s, p)
    ensures r.None? ==> forall p | from <= p :: !MatchAt(s, p)
    decreases |s| - from
  {
    if from + |MergePrefix| > |s| then None
    else if MatchAt(s, from) then Some(from)
    else MatchFrom(s, from + 1)
  }

  /** The branch name captured from a merge message, when the pattern matches. */
  function MergedBranch(message: string): (r: Option<string>)
    ensures r.Some? ==> r.value != [] && '\'' !in r.value
    ensures r.Some? <==> exists p :: MatchAt(message, p)
    ensures forall p: nat | MatchAt(message, p) && (forall q | 0 <= q < p :: !MatchAt(message, q)) ::
              r == Some(CaptureAt(message, p))
  {
    var m := MatchFrom(message, 0);
    if m.Some? then Some(CaptureAt(message, m.value)) else None
  }

  /**
   * The branch recorded for a commit: the merged branch for a message that
   * starts with "Merge branch" and matches the pattern, else the first branch ref.
   */
  function EffectiveBranch(message: string, refs: seq<RefInfo>): (b: string)
    ensures !StartsWith(message, "Merge branch") ==> b == FirstNamed(refs, "branch")
    ensures MergedBranch(message).None? ==> b == FirstNamed(refs, "branch")
    ensures StartsWith(message, "Merge branch") && MergedBranch(message).Some? ==>
              b == MergedBranch(message).value && b != [] && '\'' !in b
  {
    var merged := MergedBranch(message);
    if StartsWith(message, "Merge branch") && merged.Some? then merged.value
    else FirstNamed(refs, "branch")
  }

  /** Git's default merge message yields the merged branch's name. */
  lemma MergeMessageNamesBranch(name: string, rest: string, refs: seq<RefInfo>)
    requires name != [] && '\'' !in name
    ensures MergedBranch(MergePrefix + name + "'" + rest) == Some(name)
    ensures EffectiveBranch(MergePrefix + name + "'" + rest, refs) == name
  {
    var s := MergePrefix + name + "'" + rest;
    var q := |MergePrefix|;
    assert s[..q] == MergePrefix;
    assert OccursAt(s, MergePrefix, 0);
    RunOver(s, q, name);
    assert MatchAt(s, 0);
    assert s[q..q + |name|] == name;
    assert StartsWith(s, "Merge branch");
  }

  lemma {:induction false} RunOver(s: string, q: nat, name: string)
    requires q + |name| < |s|
    requires s[q..q + |name|] == name && '\'' !in name
    requires s[q + |name|] == '\''
    ensures RunLength(s, q) == |name|
    decreases |name|
  {
    if name != [] {
      assert s[q] == name[0];
      assert s[q + 1..q + 1 + |name[1..]|] == name[1..];
      RunOver(s, q + 1, name[1..]);
    }
  }
}
