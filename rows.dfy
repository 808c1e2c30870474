/**
 * The rows the statistics engine reports and the dashboard displays, and the
 * sort by size (descending) that both the engine and the dashboard apply.
 * Rust's `sort_by` and JavaScript's `Array.prototype.sort` are both stable,
 * so the sort is modelled as a stable insertion sort.
 */
module Rows {
  import opened Options

  /** One code-statistics row: an author total (with children) or an author's project. */
  datatype CodeStat = CodeStat(
    key: string,
    author: string,
    email: string,
    project: string,
    commits: nat,
    additions: nat,
    deletions: nat,
    lines: nat,
    files: nat,
    size: nat,
    isTotal: Option<bool>,
    children: Option<seq<CodeStat>>)

  /** One commit as listed in the commit table. */
  datatype CommitStat = CommitStat(
    author: string,
    email: string,
    project: string,
    branch: string,
    tag: string,
    committedDate: string,
    message: string)

  /** A request that failed on its last retry. */
  datatype FailureRecord = FailureRecord(
    url: string,
    projectName: Option<string>,
    author: Option<string>,
    operation: string,
    error: string)

  /** Sizes never increase from left to right. */
  predicate SortedBySize(s: seq<CodeStat>) {
    forall i, j | 0 <= i < j < |s| :: s[i].size >= s[j].size
  }

  /** `[x]` when `x` has size `v`, else nothing. */
  function IfOfSize(x: CodeStat, v: nat): seq<CodeStat> {
    if x.size == v then [x] else []
  }

  /** The rows of `s` whose size is `v`, in their order in `s`. */
  function OfSize(s: seq<CodeStat>, v: nat): (r: seq<CodeStat>)
    ensures |r| <= |s|
  {
    if s == [] then [] else IfOfSize(s[0], v) + OfSize(s[1..], v)
  }

  /** Puts `x` before the first row of `s` that is not larger than it. */
  function InsertBySize(x: CodeStat, s: seq<CodeStat>): (r: seq<CodeStat>)
    ensures multiset(r) == multiset(s) + multiset{x}
    ensures |r| == |s| + 1
  {
    if s == [] || s[0].size <= x.size then [x] + s
    else
      assert s == [s[0]] + s[1..];
      [s[0]] + InsertBySize(x, s[1..])
  }

  /** No row of `s` is larger than `b`. */
  predicate AtMost(s: seq<CodeStat>, b: nat) {
    forall i | 0 <= i < |s| :: s[i].size <= b
  }

  lemma {:induction false} InsertAtMost(x: CodeStat, s: seq<CodeStat>, b: nat)
    requires AtMost(s, b) && x.size <= b
    ensures AtMost(InsertBySize(x, s), b)
    decreases |s|
  {
    if s != [] && s[0].size > x.size {
      InsertAtMost(x, s[1..], b);
    }
  }

  lemma {:induction false} InsertKeepsSorted(x: CodeStat, s: seq<CodeStat>)
    requires SortedBySize(s)
    ensures SortedBySize(InsertBySize(x, s))
    decreases |s|
  {
    if s != [] && s[0].size > x.size {
      assert SortedBySize(s[1..]);
      InsertKeepsSorted(x, s[1..]);
      InsertAtMost(x, s[1..], s[0].size);
    }
  }

  /** Stable sort by size, largest first. */
  function SortBySize(s: seq<CodeStat>): (r: seq<CodeStat>)
    ensures SortedBySize(r)
    ensures multiset(r) == multiset(s)
    ensures |r| == |s|
  {
    if s == [] then []
    else
      assert s == [s[0]] + s[1..];
      InsertKeepsSorted(s[0], SortBySize(s[1..]));
      InsertBySize(s[0], SortBySize(s[1..]))
  }

  lemma {:induction false} OfSizeAppend(a: seq<CodeStat>, b: seq<CodeStat>, v: nat)
    ensures OfSize(a + b, v) == OfSize(a, v) + OfSize(b, v)
    decreases |a|
  {
    if a == [] {
      assert a + b == b;
    } else {
      var ab := a + b;
      assert ab[0] == a[0];
      assert ab[1..] == a[1..] + b;
      OfSizeAppend(a[1..], b, v);
    }
  }

  lemma {:induction false} OfSizeInsert(x: CodeStat, s: seq<CodeStat>, v: nat)
    requires SortedBySize(s)
    ensures OfSize(InsertBySize(x, s), v) == IfOfSize(x, v) + OfSize(s, v)
    decreases |s|
  {
    if s == [] || s[0].size <= x.size {
      var r := [x] + s;
      assert r[0] == x && r[1..] == s;
    } else {
      assert SortedBySize(s[1..]);
      var t := InsertBySize(x, s[1..]);
      OfSizeInsert(x, s[1..], v);
      var r := [s[0]] + t;
      assert InsertBySize(x, s) == r;
      assert OfSize(r, v) == IfOfSize(s[0], v) + OfSize(t, v) by {
        assert r[0] == s[0] && r[1..] == t;
      }
      if x.size == v {
        assert IfOfSize(s[0], v) == [];
      } else {
        assert IfOfSize(x, v) == [];
      }
    }
  }

  /** The sort is stable: the rows of each size keep their relative order. */
  lemma {:induction false} SortKeepsTies(s: seq<CodeStat>, v: nat)
    ensures OfSize(SortBySize(s), v) == OfSize(s, v)
    decreases |s|
  {
    if s != [] {
      SortKeepsTies(s[1..], v);
      OfSizeInsert(s[0], SortBySize(s[1..]), v);
    }
  }

  /** Sorting an already sorted sequence changes nothing. */
  lemma {:induction false} SortSortedIsIdentity(s: seq<CodeStat>)
    requires SortedBySize(s)
    ensures SortBySize(s) == s
    decreases |s|
  {
    if s != [] {
      SortSortedIsIdentity(s[1..]);
      assert [s[0]] + s[1..] == s;
    }
  }

  lemma SortIdempotent(s: seq<CodeStat>)
    ensures SortBySize(SortBySize(s)) == SortBySize(s)
  {
    SortSortedIsIdentity(SortBySize(s));
  }

  /** No two rows share a key. */
  predicate DistinctKeys(s: seq<CodeStat>) {
    forall i, j | 0 <= i < j < |s| :: s[i].key != s[j].key
  }

  lemma {:induction false} TwiceInMultiset<T>(s: seq<T>, i: nat, j: nat)
    requires i < j < |s| && s[i] == s[j]
    ensures multiset(s)[s[i]] >= 2
  {
    assert s == s[..j] + s[j..];
    assert s[i] in s[..j];
    assert s[j] in s[j..];
    assert multiset(s) == multiset(s[..j]) + multiset(s[j..]);
  }

  /** Reordering rows with distinct keys keeps the keys distinct. */
  lemma PermutationKeepsDistinctKeys(s: seq<CodeStat>, t: seq<CodeStat>)
    requires multiset(s) == multiset(t)
    requires DistinctKeys(s)
    ensures DistinctKeys(t)
  {
    forall i, j | 0 <= i < j < |t| ensures t[i].key != t[j].key {
      if t[i].key == t[j].key {
        assert t[i] in multiset(s) && t[j] in multiset(s);
        var i' :| 0 <= i' < |s| && s[i'] == t[i];
        var j' :| 0 <= j' < |s| && s[j'] == t[j];
        if t[i] == t[j] {
          TwiceInMultiset(t, i, j);
          CountOnce(s, i');
          assert false;
        } else {
          assert false;
        }
      }
    }
  }

  lemma {:induction false} CountOnce(s: seq<CodeStat>, k: nat)
    requires DistinctKeys(s) && k < |s|
    ensures multiset(s)[s[k]] == 1
    decreases |s|
  {
    if k == 0 {
      assert s == [s[0]] + s[1..];
      assert s[0] !in s[1..];
    } else {
      assert s == [s[0]] + s[1..];
      assert DistinctKeys(s[1..]);
      CountOnce(s[1..], k - 1);
      assert s[0] != s[k];
    }
  }
}
