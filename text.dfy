/**
 * String operations the core relies on, with the semantics of the Rust and
 * JavaScript library calls they stand for. Strings are sequences of Unicode
 * scalar values; byte lengths are computed from the UTF-8 encoding.
 */
module Text {
  import opened Options

  /** Rust `starts_with`, JavaScript `startsWith`. */
  predicate StartsWith(s: string, prefix: string) {
    |prefix| <= |s| && s[..|prefix|] == prefix
  }

  /** Rust `ends_with`. */
  predicate EndsWith(s: string, suffix: string) {
    |suffix| <= |s| && s[|s| - |suffix|..] == suffix
  }

  /** Equal texts after a common prefix are equal. */
  lemma SamePrefix(x: string, y: string, z: string)
    requires x + y == x + z
    ensures y == z
  {
    assert y == (x + y)[|x|..];
    assert z == (x + z)[|x|..];
  }

  /** Equal texts before a common suffix are equal. */
  lemma SameSuffix(x: string, y: string, z: string)
    requires x + z == y + z
    ensures x == y
  {
    assert |x| == |y|;
    assert x == (x + z)[..|x|];
    assert y == (y + z)[..|y|];
  }

  /** A slice that lies in the second part of a concatenation is a slice of that part. */
  lemma SliceAfterPrefix(x: string, y: string, k: nat, len: nat)
    requires |x| <= k && k + len <= |x| + |y|
    ensures (x + y)[k..k + len] == y[k - |x|..k - |x| + len]
  {
    assert (x + y)[|x|..] == y;
  }

  /** `pat` occurs in `s` at index `i`. */
  predicate OccursAt(s: string, pat: string, i: int) {
    0 <= i && i + |pat| <= |s| && s[i..i + |pat|] == pat
  }

  /** Leftmost occurrence of `pat` in `s` at or after `from`. */
  function FindFrom(s: string, pat: string, from: nat): (r: Option<nat>)
    decreases |s| - from
    ensures r.Some? ==> from <= r.value && OccursAt(s, pat, r.value)
    ensures r.Some? ==> forall j | from <= j < r.value :: !OccursAt(s, pat, j)
    ensures r.None? ==> forall j | from <= j :: !OccursAt(s, pat, j)
  {
    if from + |pat| > |s| then None
    else if s[from..from + |pat|] == pat then Some(from)
    else FindFrom(s, pat, from + 1)
  }

  /** Rust `str::find`: the index of the leftmost occurrence. */
  function Find(s: string, pat: string): Option<nat> {
    FindFrom(s, pat, 0)
  }

  /** Rust `str::contains`, JavaScript `String.prototype.includes`. */
  predicate Contains(s: string, pat: string) {
    Find(s, pat).Some?
  }

  lemma ContainsIff(s: string, pat: string)
    ensures Contains(s, pat) <==> exists i :: OccursAt(s, pat, i)
  {
  }

  /**
   * The text after the last `c`, or all of `s` when `c` does not occur:
   * Rust `s.split(c).last().unwrap()` (a split always yields a last piece).
   */
  function AfterLast(s: string, c: char): (r: string)
    ensures c !in r
    ensures |r| <= |s| && s[|s| - |r|..] == r
    ensures |r| < |s| ==> s[|s| - |r| - 1] == c
  {
    if s == [] then []
    else if s[|s| - 1] == c then []
    else AfterLast(s[..|s| - 1], c) + [s[|s| - 1]]
  }

  /** JavaScript `Array.prototype.join(sep)` over strings. */
  function Join(xs: seq<string>, sep: string): (r: string)
    ensures xs == [] ==> r == []
    ensures |xs| >= 1 ==> StartsWith(r, xs[0]) && EndsWith(r, xs[|xs| - 1])
  {
    if xs == [] then []
    else if |xs| == 1 then xs[0]
    else
      var head, rest, last := xs[0] + sep, Join(xs[1..], sep), xs[|xs| - 1];
      assert xs[1..][|xs| - 2] == last;
      assert (head + rest)[..|xs[0]|] == xs[0];
      SliceAfterPrefix(head, rest, |head| + |rest| - |last|, |last|);
      head + rest
  }

  /** JavaScript `String.prototype.split(c)` / Rust `str::split(c)` on one character. */
  function Split(s: string, c: char): (r: seq<string>)
    ensures |r| >= 1
    ensures forall i | 0 <= i < |r| :: c !in r[i]
  {
    if s == [] then [[]]
    else
      var rest := Split(s[1..], c);
      if s[0] == c then [[]] + rest
      else [[s[0]] + rest[0]] + rest[1..]
  }

  lemma {:induction false} SplitPrefix(w: string, c: char, t: string)
    requires c !in w
    ensures Split(w + [c] + t, c) == [w] + Split(t, c)
    ensures Split(w, c) == [w]
    decreases |w|
  {
    if w == [] {
      assert w + [c] + t == [c] + t;
      assert ([c] + t)[1..] == t;
    } else {
      SplitPrefix(w[1..], c, t);
      assert (w + [c] + t)[1..] == w[1..] + [c] + t;
      assert ([w[0]] + w[1..]) == w;
    }
  }

  /**
   * Joining with a one-character separator loses nothing when no piece
   * contains the separator: splitting gives the pieces back.
   */
  lemma {:induction false} SplitJoin(xs: seq<string>, c: char)
    requires |xs| >= 1
    requires forall i | 0 <= i < |xs| :: c !in xs[i]
    ensures Split(Join(xs, [c]), c) == xs
    decreases |xs|
  {
    if |xs| == 1 {
      SplitPrefix(xs[0], c, []);
    } else {
      SplitJoin(xs[1..], c);
      SplitPrefix(xs[0], c, Join(xs[1..], [c]));
    }
  }

  /** One unfolding of `Join` in front of a non-empty list. */
  lemma JoinCons(x: string, xs: seq<string>, sep: string)
    requires |xs| >= 1
    ensures Join([x] + xs, sep) == x + sep + Join(xs, sep)
  {
    assert ([x] + xs)[1..] == xs;
  }

  /** One unfolding of `Split` at the first character. */
  lemma SplitCons(s: string, c: char)
    requires s != []
    ensures s[0] == c ==> Split(s, c) == [[]] + Split(s[1..], c)
    ensures s[0] != c ==> Split(s, c) == [[s[0]] + Split(s[1..], c)[0]] + Split(s[1..], c)[1..]
  {
  }

  /** Splitting and joining again with the same character gives the text back. */
  lemma {:induction false} JoinSplit(s: string, c: char)
    ensures Join(Split(s, c), [c]) == s
    decreases |s|
  {
    if s != [] {
      var rest := Split(s[1..], c);
      JoinSplit(s[1..], c);
      SplitCons(s, c);
      if s[0] == c {
        JoinEmptyFirst(rest, [c]);
      } else {
        JoinExtendFirst(s[0], rest, [c]);
      }
      assert [s[0]] + s[1..] == s;
    }
  }

  /** An empty first piece leaves only the separator in front of the rest. */
  lemma JoinEmptyFirst(rest: seq<string>, sep: string)
    requires |rest| >= 1
    ensures Join([[]] + rest, sep) == sep + Join(rest, sep)
  {
    var pieces: seq<string> := [[]] + rest;
    assert pieces[0] == [] && pieces[1..] == rest;
    assert pieces[0] + sep == sep;
  }

  /** Putting a character in front of the first piece puts it in front of the joined text. */
  lemma JoinExtendFirst(h: char, rest: seq<string>, sep: string)
    requires |rest| >= 1
    ensures Join([[h] + rest[0]] + rest[1..], sep) == [h] + Join(rest, sep)
  {
    JoinPrepend([h], rest[0], rest[1..], sep);
    assert [rest[0]] + rest[1..] == rest;
  }

  /** Text put in front of the first piece ends up in front of the joined text. */
  lemma JoinPrepend(h: string, x: string, ys: seq<string>, sep: string)
    ensures Join([h + x] + ys, sep) == h + Join([x] + ys, sep)
  {
    if ys != [] {
      var tail := Join(ys, sep);
      JoinCons(h + x, ys, sep);
      JoinCons(x, ys, sep);
      assert h + x + sep + tail == h + (x + sep + tail);
    }
  }

  /** Joining with one more piece at the end appends the separator and that piece. */
  lemma {:induction false} JoinSnoc(xs: seq<string>, y: string, sep: string)
    requires |xs| >= 1
    ensures Join(xs + [y], sep) == Join(xs, sep) + sep + y
    decreases |xs|
  {
    assert (xs + [y])[0] == xs[0];
    if |xs| == 1 {
      assert (xs + [y])[1..] == [y];
    } else {
      assert (xs + [y])[1..] == xs[1..] + [y];
      JoinSnoc(xs[1..], y, sep);
    }
  }

  /** The pieces `Lines` keeps join back to the text, up to a final newline. */
  lemma LinesRejoin(s: string)
    ensures var p := Split(s, '\n');
            p[|p| - 1] == [] ==> Join(p[..|p| - 1], "\n") == s || Join(p[..|p| - 1], "\n") + "\n" == s
    ensures var p := Split(s, '\n');
            p[|p| - 1] != [] ==> Join(p, "\n") == s
  {
    var p := Split(s, '\n');
    JoinSplit(s, '\n');
    if p[|p| - 1] == [] && |p| >= 2 {
      JoinSnoc(p[..|p| - 1], [], "\n");
      assert p[..|p| - 1] + [p[|p| - 1]] == p;
    }
  }

  /**
   * Rust `str::lines` as far as the first character of each line matters:
   * the pieces between '\n's, without the empty piece after a final '\n'.
   */
  function Lines(s: string): (r: seq<string>)
    ensures forall i | 0 <= i < |r| :: '\n' !in r[i]
    ensures s == [] ==> r == []
    ensures Join(r, "\n") == s || Join(r, "\n") + "\n" == s
  {
    LinesRejoin(s);
    var pieces := Split(s, '\n');
    if pieces[|pieces| - 1] == [] then pieces[..|pieces| - 1] else pieces
  }

  /** Number of bytes of one character in UTF-8. */
  function Utf8Width(c: char): (n: nat)
    ensures 1 <= n <= 4
  {
    if c as int < 0x80 then 1
    else if c as int < 0x800 then 2
    else if c as int < 0x1_0000 then 3
    else 4
  }

  /** Rust `str::len`: the UTF-8 byte length. */
  function Utf8Length(s: string): (n: nat)
    ensures |s| <= n <= 4 * |s|
  {
    if s == [] then 0 else Utf8Width(s[0]) + Utf8Length(s[1..])
  }

  lemma {:induction false} Utf8LengthAppend(a: string, b: string)
    ensures Utf8Length(a + b) == Utf8Length(a) + Utf8Length(b)
    decreases |a|
  {
    if a != [] {
      assert (a + b)[1..] == a[1..] + b;
      Utf8LengthAppend(a[1..], b);
    } else {
      assert a + b == b;
    }
  }

  /**
   * Rust `s.replace(pat, "")`: every non-overlapping occurrence of `pat`,
   * found left to right, is removed; an empty pattern changes nothing.
   */
  function RemoveAll(s: string, pat: string): (r: string)
    ensures |r| <= |s|
    ensures pat == [] ==> r == s
    ensures pat != [] && StartsWith(s, pat) ==> |r| <= |s| - |pat|
    decreases |s|
  {
    if pat == [] || |s| < |pat| then s
    else if s[..|pat|] == pat then RemoveAll(s[|pat|..], pat)
    else [s[0]] + RemoveAll(s[1..], pat)
  }

  /**
   * Removal at the leftmost occurrence: the text before it is kept, the
   * occurrence is dropped, and removal goes on after it.
   */
  lemma RemoveAllAtFirst(s: string, pat: string, i: nat)
    requires pat != [] && Find(s, pat) == Some(i)
    ensures RemoveAll(s, pat) == s[..i] + RemoveAll(s[i + |pat|..], pat)
  {
    RemoveAllAtLeftmost(s, pat, i);
  }

  /** Occurrences in `s[1..]` are those of `s`, one place earlier. */
  lemma ShiftOccurrences(s: string, pat: string, i: nat)
    requires 1 <= i && OccursAt(s, pat, i)
    requires forall j | 0 <= j < i :: !OccursAt(s, pat, j)
    ensures OccursAt(s[1..], pat, i - 1)
    ensures forall j | 0 <= j < i - 1 :: !OccursAt(s[1..], pat, j)
  {
    var t := s[1..];
    assert t[i - 1..i - 1 + |pat|] == s[i..i + |pat|];
    forall j | 0 <= j < i - 1 ensures !OccursAt(t, pat, j) {
      assert !OccursAt(s, pat, j + 1);
      assert t[j..j + |pat|] == s[j + 1..j + 1 + |pat|];
    }
  }

  lemma {:induction false} RemoveAllAtLeftmost(s: string, pat: string, i: nat)
    requires pat != [] && OccursAt(s, pat, i)
    requires forall j | 0 <= j < i :: !OccursAt(s, pat, j)
    ensures RemoveAll(s, pat) == s[..i] + RemoveAll(s[i + |pat|..], pat)
    decreases i
  {
    if i == 0 {
      assert s[..0] == [];
    } else {
      var t := s[1..];
      RemoveAllSkip(s, pat);
      ShiftOccurrences(s, pat, i);
      RemoveAllAtLeftmost(t, pat, i - 1);
      assert t[i - 1 + |pat|..] == s[i + |pat|..];
      ConsSlice(s, i, RemoveAll(s[i + |pat|..], pat));
    }
  }

  /** Where `pat` does not start the text, `RemoveAll` keeps the first character. */
  lemma RemoveAllSkip(s: string, pat: string)
    requires pat != [] && s != [] && !OccursAt(s, pat, 0)
    ensures RemoveAll(s, pat) == [s[0]] + RemoveAll(s[1..], pat)
  {
    if |s| < |pat| {
      assert [s[0]] + s[1..] == s;
    }
  }

  /** Putting the first character back in front of a prefix of the rest. */
  lemma ConsSlice(s: string, i: nat, x: string)
    requires 1 <= i <= |s|
    ensures [s[0]] + (s[1..][..i - 1] + x) == s[..i] + x
  {
    assert [s[0]] + s[1..][..i - 1] == s[..i];
  }

  /** Removing a pattern that does not occur leaves the text unchanged. */
  lemma {:induction false} RemoveAllAbsent(s: string, pat: string)
    requires !Contains(s, pat)
    ensures RemoveAll(s, pat) == s
    decreases |s|
  {
    if pat == [] || |s| < |pat| {
    } else {
      assert !OccursAt(s, pat, 0);
      assert s[..|pat|] != pat;
      forall j | 0 <= j ensures !OccursAt(s[1..], pat, j) {
        assert !OccursAt(s, pat, j + 1);
      }
      ContainsIff(s[1..], pat);
      RemoveAllAbsent(s[1..], pat);
      assert [s[0]] + s[1..] == s;
    }
  }

  predicate IsDigit(c: char) {
    '0' <= c <= '9'
  }

  /** Decimal rendering of a natural number, as `format!("{}", n)` prints it. */
  function NatToString(n: nat): (s: string)
    ensures |s| >= 1 && forall i | 0 <= i < |s| :: IsDigit(s[i])
    ensures s[0] == '0' ==> n == 0
    decreases n
  {
    if n < 10 then [(n + '0' as int) as char]
    else NatToString(n / 10) + [((n % 10) + '0' as int) as char]
  }

  /** The number a string of decimal digits denotes. */
  function DigitsValue(s: string): nat
    requires forall i | 0 <= i < |s| :: IsDigit(s[i])
  {
    if s == [] then 0
    else
      var last := s[|s| - 1];
      assert IsDigit(last);
      DigitsValue(s[..|s| - 1]) * 10 + (last as int - '0' as int)
  }

  /** Reading the rendered digits back gives the number. */
  lemma {:induction false} NatToStringValue(n: nat)
    ensures DigitsValue(NatToString(n)) == n
    decreases n
  {
    if n >= 10 {
      var s := NatToString(n);
      assert s[..|s| - 1] == NatToString(n / 10);
      NatToStringValue(n / 10);
    }
  }
}
