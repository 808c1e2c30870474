/**
 * How the dashboard prepares an analysis result for display: every
 * author row's children and then the author rows themselves are sorted by
 * size, largest first; the rows with children are expanded; and the
 * commit table offers each distinct author once as a filter.
 */
module Display {
  import opened Options
  import opened Rows

  predicate ChildrenSorted(row: CodeStat) {
    row.children.Some? ==> SortedBySize(row.children.value)
  }

  /** `row` with its children, when it has any list of them, sorted by size. */
  function SortChildren(row: CodeStat): (r: CodeStat)
    ensures r.(children := row.children) == row
    ensures r.children.Some? <==> row.children.Some?
    ensures ChildrenSorted(r)
    ensures r.children.Some? ==> multiset(r.children.value) == multiset(row.children.value)
  {
    if row.children.Some? then row.(children := Some(SortBySize(row.children.value))) else row
  }

  /** Children of equal size keep their relative order. */
  lemma SortChildrenStable(row: CodeStat, v: nat)
    requires row.children.Some?
    ensures OfSize(SortChildren(row).children.value, v) == OfSize(row.children.value, v)
  {
    SortKeepsTies(row.children.value, v);
  }

  /** A row whose children are already sorted is left as it is. */
  lemma SortChildrenSorted(row: CodeStat)
    requires ChildrenSorted(row)
    ensures SortChildren(row) == row
  {
    if row.children.Some? {
      SortSortedIsIdentity(row.children.value);
    }
  }

  function MapSortChildren(rows: seq<CodeStat>): (r: seq<CodeStat>)
    ensures |r| == |rows| && forall i | 0 <= i < |rows| :: r[i] == SortChildren(rows[i])
  {
    seq(|rows|, i requires 0 <= i < |rows| => SortChildren(rows[i]))
  }

  predicate Normalized(rows: seq<CodeStat>) {
    SortedBySize(rows) && forall i | 0 <= i < |rows| :: ChildrenSorted(rows[i])
  }

  lemma SortedChildrenKept(m: seq<CodeStat>, r: seq<CodeStat>)
    requires forall i | 0 <= i < |m| :: ChildrenSorted(m[i])
    requires multiset(r) == multiset(m)
    ensures forall i | 0 <= i < |r| :: ChildrenSorted(r[i])
  {
    forall i | 0 <= i < |r| ensures ChildrenSorted(r[i]) {
      assert r[i] in multiset(m);
      var j :| 0 <= j < |m| && m[j] == r[i];
    }
  }

  /**
   * The normalised rows: children sorted in each row, then the rows
   * sorted, both by size with the largest first.
   */
  function Normalize(rows: seq<CodeStat>): (r: seq<CodeStat>)
    ensures Normalized(r)
    ensures |r| == |rows| && multiset(r) == multiset(MapSortChildren(rows))
  {
    var m := MapSortChildren(rows);
    var r := SortBySize(m);
    SortedChildrenKept(m, r);
    r
  }

  /** Author rows of equal size keep their relative order. */
  lemma NormalizeStable(rows: seq<CodeStat>, v: nat)
    ensures OfSize(Normalize(rows), v) == OfSize(MapSortChildren(rows), v)
  {
    SortKeepsTies(MapSortChildren(rows), v);
  }

  /** Normalising a normalised result changes nothing. */
  lemma NormalizeIdempotent(rows: seq<CodeStat>)
    ensures Normalize(Normalize(rows)) == Normalize(rows)
  {
    var n := Normalize(rows);
    forall i | 0 <= i < |n| ensures SortChildren(n[i]) == n[i] {
      SortChildrenSorted(n[i]);
    }
    assert MapSortChildren(n) == n;
    SortSortedIsIdentity(n);
  }

  /** A row the table shows expanded: it has a non-empty list of children. */
  predicate Expandable(row: CodeStat) {
    row.children.Some? && |row.children.value| > 0
  }

  /** The keys of the expandable rows, in row order. */
  function ExpandKeys(rows: seq<CodeStat>): (keys: seq<string>)
    ensures |keys| <= |rows|
    ensures forall k :: k in keys <==> exists x | x in rows :: Expandable(x) && x.key == k
  {
    if rows == [] then []
    else
      var rest := ExpandKeys(rows[1..]);
      assert forall x | x in rows[1..] :: x in rows;
      assert forall x | x in rows :: x == rows[0] || x in rows[1..];
      if Expandable(rows[0]) then [rows[0].key] + rest else rest
  }

  /** Keys of a concatenation are the keys of each part, in order. */
  lemma {:induction false} ExpandKeysAppend(a: seq<CodeStat>, b: seq<CodeStat>)
    ensures ExpandKeys(a + b) == ExpandKeys(a) + ExpandKeys(b)
  {
    if a == [] {
      assert a + b == b;
    } else {
      assert (a + b)[1..] == a[1..] + b;
      ExpandKeysAppend(a[1..], b);
    }
  }

  /** Index of the first occurrence of `x` in `xs`. */
  function FirstIndex(xs: seq<string>, x: string): (i: nat)
    requires x in xs
    ensures i < |xs| && xs[i] == x
    ensures forall j | 0 <= j < i :: xs[j] != x
  {
    if xs[0] == x then 0 else 1 + FirstIndex(xs[1..], x)
  }

  /** JavaScript `Array.from(new Set(xs))`: each value once, at its first occurrence. */
  function Dedup(xs: seq<string>): (r: seq<string>)
    ensures forall x :: x in r <==> x in xs
    ensures forall i, j | 0 <= i < j < |r| :: r[i] != r[j]
  {
    if xs == [] then []
    else
      var init := xs[..|xs| - 1];
      var r := Dedup(init);
      assert forall x | x in xs :: x in init || x == xs[|xs| - 1];
      if xs[|xs| - 1] in r then r else r + [xs[|xs| - 1]]
  }

  /** A value of the prefix first occurs at the same place in the whole. */
  lemma FirstIndexInit(xs: seq<string>, y: string)
    requires |xs| >= 1 && y in xs[..|xs| - 1]
    ensures y in xs && FirstIndex(xs, y) == FirstIndex(xs[..|xs| - 1], y)
  {
    var init := xs[..|xs| - 1];
    var a, b := FirstIndex(xs, y), FirstIndex(init, y);
    assert xs[b] == init[b] == y;
    if a < |init| {
      assert init[a] == xs[a];
    }
  }

  /** The distinct values appear in the order of their first occurrences. */
  lemma {:induction false} DedupFirstOccurrenceOrder(xs: seq<string>)
    ensures forall i, j | 0 <= i < j < |Dedup(xs)| :: FirstIndex(xs, Dedup(xs)[i]) < FirstIndex(xs, Dedup(xs)[j])
  {
    if xs != [] {
      var init, last := xs[..|xs| - 1], xs[|xs| - 1];
      var r, r' := Dedup(xs), Dedup(init);
      DedupFirstOccurrenceOrder(init);
      forall i, j | 0 <= i < j < |r| ensures FirstIndex(xs, r[i]) < FirstIndex(xs, r[j]) {
        assert r[i] == r'[i];
        FirstIndexInit(xs, r[i]);
        if j < |r'| {
          assert r[j] == r'[j];
          FirstIndexInit(xs, r[j]);
        } else {
          assert r[j] == last && last !in init;
        }
      }
    }
  }

  lemma AuthorNames(rows: seq<CommitStat>, names: seq<string>)
    requires |names| == |rows| && forall i | 0 <= i < |rows| :: names[i] == rows[i].author
    ensures forall a :: a in names <==> exists c | c in rows :: c.author == a
  {
    forall a | a in names ensures exists c | c in rows :: c.author == a {
      var i :| 0 <= i < |names| && names[i] == a;
      assert rows[i] in rows;
    }
    forall c | c in rows ensures c.author in names {
      var i :| 0 <= i < |rows| && rows[i] == c;
      assert names[i] == c.author;
    }
  }

  /** The author filter of the commit table. */
  function DistinctAuthors(rows: seq<CommitStat>): (authors: seq<string>)
    ensures forall a :: a in authors <==> exists c | c in rows :: c.author == a
    ensures forall i, j | 0 <= i < j < |authors| :: authors[i] != authors[j]
  {
    var names := seq(|rows|, i requires 0 <= i < |rows| => rows[i].author);
    AuthorNames(rows, names);
    Dedup(names)
  }
}
