/**
 * The project list of a group, the excluded-project filter, and the
 * page-by-page listing of a project's commits. Fetching a page is the
 * parameter `fetchPage`: page `k` either fails (the error `?` propagates)
 * or yields that page's commits.
 */
module Projects {
  import opened Options
  import opened Aggregation

  datatype Project = Project(id: int, name: string)

  /** The projects whose names are not in `excluded`, in their original order. */
  function FilterExcluded(projects: seq<Project>, excluded: seq<string>): (r: seq<Project>)
    ensures |r| <= |projects|
    ensures forall p :: p in r <==> p in projects && p.name !in excluded
  {
    if projects == [] then []
    else
      var rest := FilterExcluded(projects[1..], excluded);
      if projects[0].name in excluded then rest else [projects[0]] + rest
  }

  /** Filtering distributes over concatenation, so kept projects stay in order. */
  lemma {:induction false} FilterExcludedAppend(a: seq<Project>, b: seq<Project>, excluded: seq<string>)
    ensures FilterExcluded(a + b, excluded) == FilterExcluded(a, excluded) + FilterExcluded(b, excluded)
  {
    if a != [] {
      assert (a + b)[1..] == a[1..] + b;
      FilterExcludedAppend(a[1..], b, excluded);
    } else {
      assert a + b == b;
    }
  }

  /** Filtering twice with the same list changes nothing. */
  lemma {:induction false} FilterExcludedIdempotent(projects: seq<Project>, excluded: seq<string>)
    ensures FilterExcluded(FilterExcluded(projects, excluded), excluded) == FilterExcluded(projects, excluded)
  {
    if projects != [] {
      FilterExcludedIdempotent(projects[1..], excluded);
      var rest := FilterExcluded(projects[1..], excluded);
      if projects[0].name !in excluded {
        assert ([projects[0]] + rest)[1..] == rest;
      }
    }
  }

  /** A page ends the listing when its fetch fails or it holds no commits. */
  predicate Stops(page: Result<seq<Commit>, string>) {
    page.Failure? || page.value == []
  }

  /** The commits of pages `lo` up to but not including `hi`, in page order. */
  function PagesBetween(fetchPage: nat -> Result<seq<Commit>, string>, lo: nat, hi: nat): seq<Commit>
    requires lo <= hi
    requires (forall k | lo <= k < hi :: fetchPage(k).Success?)
    decreases hi - lo
  {
    if lo == hi then [] else fetchPage(lo).value + PagesBetween(fetchPage, lo + 1, hi)
  }

  lemma {:induction false} PagesBetweenExtend(fetchPage: nat -> Result<seq<Commit>, string>, lo: nat, hi: nat)
    requires lo <= hi
    requires (forall k | lo <= k <= hi :: fetchPage(k).Success?)
    ensures PagesBetween(fetchPage, lo, hi + 1) == PagesBetween(fetchPage, lo, hi) + fetchPage(hi).value
    decreases hi - lo
  {
    if lo < hi {
      PagesBetweenExtend(fetchPage, lo + 1, hi);
    }
  }

  /**
   * `get_project_commit_stats`: pages are requested from 1 on until one
   * fails or comes back empty; `stop` names that page (the listing does not
   * end otherwise).
   */
  method ProjectCommits(fetchPage: nat -> Result<seq<Commit>, string>, ghost stop: nat)
    returns (r: Result<seq<Commit>, string>)
    requires 1 <= stop && Stops(fetchPage(stop))
    requires forall k | 1 <= k < stop :: fetchPage(k).Success? && fetchPage(k).value != []
    ensures fetchPage(stop).Failure? ==> r == Failure(fetchPage(stop).error)
    ensures fetchPage(stop).Success? ==> r == Success(PagesBetween(fetchPage, 1, stop))
  {
    var all: seq<Commit> := [];
    var page: nat := 1;
    while true
      invariant 1 <= page <= stop
      invariant all == PagesBetween(fetchPage, 1, page)
      decreases stop - page
    {
      var response := fetchPage(page);
      if response.Failure? {
        return Failure(response.error);
      }
      if response.value == [] {
        break;
      }
      PagesBetweenExtend(fetchPage, 1, page);
      all := all + response.value;
      page := page + 1;
    }
    r := Success(all);
  }
}
