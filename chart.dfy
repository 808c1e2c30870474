/**
 * The code-size bar chart: one bar per author total row, largest first,
 * labelled with the author name without its 【】 brackets, and a chart
 * that is 100 px wider per bar but never narrower than 600 px.
 */
module Chart {
  import opened Options
  import opened Rows

  datatype Entry = Entry(name: string, value: nat)

  predicate IsBracket(c: char) {
    c == '【' || c == '】'
  }

  /** `s.replace(/[【】]/g, '')`: every bracket removed, the other characters kept in order. */
  function StripBrackets(s: string): (r: string)
    ensures forall i | 0 <= i < |r| :: !IsBracket(r[i])
    ensures |r| <= |s|
  {
    if s == [] then []
    else (if IsBracket(s[0]) then [] else [s[0]]) + StripBrackets(s[1..])
  }

  lemma {:induction false} StripBracketsAppend(a: string, b: string)
    ensures StripBrackets(a + b) == StripBrackets(a) + StripBrackets(b)
  {
    if a == [] {
      assert a + b == b;
    } else {
      assert (a + b)[1..] == a[1..] + b;
      StripBracketsAppend(a[1..], b);
    }
  }

  /** Text without brackets is left as it is. */
  lemma {:induction false} StripBracketsPlain(s: string)
    requires forall i | 0 <= i < |s| :: !IsBracket(s[i])
    ensures StripBrackets(s) == s
  {
    if s != [] {
      StripBracketsPlain(s[1..]);
    }
  }

  /** The label of a total row `【name】` is the author's own name. */
  lemma TotalRowLabel(name: string)
    requires forall i | 0 <= i < |name| :: !IsBracket(name[i])
    ensures StripBrackets("【" + name + "】") == name
  {
    StripBracketsAppend("【" + name, "】");
    StripBracketsAppend("【", name);
    StripBracketsPlain(name);
  }

  /** Rows flagged as author totals; `isTotal` absent or false does not count. */
  predicate IsTotal(row: CodeStat) {
    row.isTotal == Some(true)
  }

  /** The total rows, in their original order. */
  function Totals(rows: seq<CodeStat>): (r: seq<CodeStat>)
    ensures |r| <= |rows|
    ensures forall x :: x in r <==> x in rows && IsTotal(x)
    ensures forall x | IsTotal(x) :: multiset(r)[x] == multiset(rows)[x]
  {
    if rows == [] then []
    else
      var rest := Totals(rows[1..]);
      assert rows == [rows[0]] + rows[1..];
      if IsTotal(rows[0]) then [rows[0]] + rest else rest
  }

  /** The bar of one total row: its author label without brackets, and its size. */
  function EntryOf(row: CodeStat): (e: Entry)
    ensures forall k | 0 <= k < |e.name| :: !IsBracket(e.name[k])
    ensures |e.name| <= |row.author| && e.value == row.size
  {
    Entry(StripBrackets(row.author), row.size)
  }

  function Entries(rows: seq<CodeStat>): (r: seq<Entry>)
    ensures |r| == |rows| && forall i | 0 <= i < |rows| :: r[i] == EntryOf(rows[i])
  {
    seq(|rows|, i requires 0 <= i < |rows| => EntryOf(rows[i]))
  }

  /** The chart's data: the total rows sorted by size, largest first, as entries. */
  function ChartData(data: seq<CodeStat>): (r: seq<Entry>)
    ensures |r| == |Totals(data)|
    ensures forall i, j | 0 <= i < j < |r| :: r[i].value >= r[j].value
  {
    Entries(SortBySize(Totals(data)))
  }

  /** Every entry comes from a total row of the data. */
  lemma ChartDataFromTotals(data: seq<CodeStat>)
    ensures forall e | e in ChartData(data) :: exists x | x in data :: IsTotal(x) && e == EntryOf(x)
  {
    var t := Totals(data);
    var s := SortBySize(t);
    var r := ChartData(data);
    forall e | e in r ensures exists x | x in data :: IsTotal(x) && e == EntryOf(x) {
      var i :| 0 <= i < |r| && r[i] == e;
      assert r[i] == EntryOf(s[i]);
      assert s[i] in multiset(t);
    }
  }

  /** Every total row of the data has its entry. */
  lemma ChartDataCoversTotals(data: seq<CodeStat>)
    ensures forall x | x in data && IsTotal(x) :: EntryOf(x) in ChartData(data)
  {
    var t := Totals(data);
    var s := SortBySize(t);
    var r := ChartData(data);
    forall x | x in data && IsTotal(x) ensures EntryOf(x) in r {
      assert x in multiset(s);
      var i :| 0 <= i < |s| && s[i] == x;
      assert r[i] == EntryOf(x);
    }
  }

  /** Equal-sized totals keep the order they had in the data. */
  lemma ChartDataStable(data: seq<CodeStat>, v: nat)
    ensures OfSize(SortBySize(Totals(data)), v) == OfSize(Totals(data), v)
  {
    SortKeepsTies(Totals(data), v);
  }

  /** The x-axis categories: the entry names, in chart order, one per bar. */
  function Categories(entries: seq<Entry>): (names: seq<string>)
    ensures |names| == |entries| && forall i | 0 <= i < |entries| :: names[i] == entries[i].name
  {
    seq(|entries|, i requires 0 <= i < |entries| => entries[i].name)
  }

  /** `Math.max(600, n * 100)` pixels for `n` bars. */
  function ChartWidth(n: nat): (w: nat)
    ensures w >= 600 && w >= 100 * n
    ensures w == 600 || w == 100 * n
  {
    if n * 100 > 600 then n * 100 else 600
  }
}
