/**
 * The repository grid: the full list, the filtered (sorted or searched)
 * view of it, and the pages of nine cards revealed one "load more" at a
 * time. The filtered view is always rebuilt from the full list, and every
 * rebuild goes back to page one.
 */
module ListView {
  import opened Records
  import opened ArrayOps
  import Text

  const ReposPerPage: nat := 9

  /** The end of the cards revealed up to `page`: `Math.min(page * 9, n)`. */
  function PageEnd(page: nat, n: nat): nat { Min(page * ReposPerPage, n) }

  /** The cards a page adds: the indices from (page-1)*9 up to, not including, min(page*9, n). */
  function PageSlice(s: seq<Repo>, page: nat): (r: seq<Repo>)
    requires page >= 1
    ensures (page - 1) * ReposPerPage <= |s| ==> r == s[(page - 1) * ReposPerPage..PageEnd(page, |s|)]
    ensures (page - 1) * ReposPerPage >= |s| ==> r == []
  {
    var start := (page - 1) * ReposPerPage;
    var end := PageEnd(page, |s|);
    if start < end then s[start..end] else []
  }

  /** The cards left to reveal, as updateLoadMoreButton counts them. */
  function Remaining(n: nat, page: nat): int {
    n - PageEnd(page, n)
  }

  /** The load-more control is shown exactly while fewer than all cards are revealed. */
  lemma RemainingIff(n: nat, page: nat)
    ensures Remaining(n, page) >= 0
    ensures Remaining(n, page) > 0 <==> page * ReposPerPage < n
  {
  }

  /** Revealing page p after pages 1..p-1 reveals pages 1..p. */
  lemma PageExtends(s: seq<Repo>, page: nat)
    requires page >= 2
    ensures s[..PageEnd(page - 1, |s|)] + PageSlice(s, page) == s[..PageEnd(page, |s|)]
  {
    var a := PageEnd(page - 1, |s|);
    var b := PageEnd(page, |s|);
    if (page - 1) * ReposPerPage < |s| {
      assert s[..a] + s[a..b] == s[..b];
    }
  }

  /** The cards on screen after page one and `k` load-more clicks. */
  function ShownAfter(s: seq<Repo>, k: nat): seq<Repo> {
    if k == 0 then PageSlice(s, 1) else ShownAfter(s, k - 1) + PageSlice(s, k + 1)
  }

  /** After page one and k load-more clicks the first min((k+1)*9, n) repositories are on screen, in order. */
  lemma {:induction false} ShownAfterLoads(s: seq<Repo>, k: nat)
    ensures ShownAfter(s, k) == s[..PageEnd(k + 1, |s|)]
    ensures |ShownAfter(s, k)| == Min((k + 1) * ReposPerPage, |s|)
  {
    if k > 0 {
      ShownAfterLoads(s, k - 1);
      PageExtends(s, k + 1);
    }
  }

  /** The search box value, lower-cased and trimmed. */
  function SearchKey(raw: string): (k: string)
    ensures |k| <= |raw|
    ensures forall i :: 0 <= i < |k| ==> !('A' <= k[i] <= 'Z')
    ensures k == "" <==> forall i :: 0 <= i < |raw| ==> Text.IsSpace(raw[i])
  {
    Text.TrimLowerFacts(raw);
    Text.Trim(Text.Lower(raw))
  }

  /** The search predicate: the term occurs in the lower-cased name, description or any topic. */
  predicate Matches(r: Repo, term: string) {
    Text.Contains(Text.Lower(r.name), term)
    || (r.description != "" && Text.Contains(Text.Lower(r.description), term))
    || (exists t :: t in r.topics && Text.Contains(Text.Lower(t), term))
  }

  /** A repository matches exactly when the term occurs in its lower-cased name, description or some topic. */
  lemma MatchesIff(r: Repo, term: string)
    ensures Matches(r, term) <==>
              (exists i :: Text.OccursAt(Text.Lower(r.name), term, i))
              || (r.description != "" && exists i :: Text.OccursAt(Text.Lower(r.description), term, i))
              || (exists t, i :: t in r.topics && Text.OccursAt(Text.Lower(t), term, i))
  {
    Text.ContainsIff(Text.Lower(r.name), term);
    Text.ContainsIff(Text.Lower(r.description), term);
    forall t | t in r.topics {
      Text.ContainsIff(Text.Lower(t), term);
    }
  }

  /** What the search handler leaves in the filtered view for the raw box value. */
  function SearchResults(all: seq<Repo>, raw: string): (r: seq<Repo>)
    ensures IsSubsequence(r, all)
    ensures SearchKey(raw) != "" ==> forall x :: x in r ==> Matches(x, SearchKey(raw))
    ensures forall x :: x in all && (SearchKey(raw) == "" || Matches(x, SearchKey(raw))) ==> x in r
  {
    var term := SearchKey(raw);
    var p := (r: Repo) => Matches(r, term);
    if term == "" then
      SubsequenceRefl(all);
      all
    else
      FilterFacts(all, p);
      FilterMembers(all, p);
      Filter(all, p)
  }

  /**
   * A blank term shows the whole list; otherwise the results are the
   * matching repositories, each as often as in the list and in list order,
   * and nothing else.
   */
  lemma SearchResultsFacts(all: seq<Repo>, raw: string)
    ensures SearchKey(raw) == "" ==> SearchResults(all, raw) == all
    ensures SearchKey(raw) != "" ==>
              (forall x :: multiset(SearchResults(all, raw))[x]
                           == if Matches(x, SearchKey(raw)) then multiset(all)[x] else 0)
    ensures IsSubsequence(SearchResults(all, raw), all)
    ensures multiset(SearchResults(all, raw)) <= multiset(all)
  {
    var term := SearchKey(raw);
    if term == "" {
      SubsequenceRefl(all);
    } else {
      FilterFacts(all, r => Matches(r, term));
    }
  }

  /** The search results are drawn from the list. */
  lemma SearchResultsWithin(all: seq<Repo>, raw: string)
    ensures multiset(SearchResults(all, raw)) <= multiset(all)
  {
    SearchResultsFacts(all, raw);
  }

  lemma {:induction false} SubsequenceRefl(s: seq<Repo>)
    ensures IsSubsequence(s, s)
  {
    if s != [] {
      SubsequenceRefl(s[1..]);
    }
  }

  /** A box holding only white space shows the whole list. */
  lemma BlankSearchShowsAll(all: seq<Repo>, raw: string)
    requires forall i :: 0 <= i < |raw| ==> Text.IsSpace(raw[i])
    ensures SearchResults(all, raw) == all
  {
    var low := Text.Lower(raw);
    assert forall i :: 0 <= i < |low| ==> Text.IsSpace(low[i]) by {
      forall i | 0 <= i < |low| ensures Text.IsSpace(low[i]) {
        assert low[i] == Text.LowerChar(raw[i]);
      }
    }
  }

  /** The search ignores the case of what was typed. */
  lemma SearchIgnoresCase(all: seq<Repo>, raw: string)
    ensures SearchResults(all, Text.Lower(raw)) == SearchResults(all, raw)
  {
    Text.LowerIdempotent(raw);
  }

  /**
   * The module state of the list view. `shown` is the sequence of cards in
   * the grid, `emptyState` whether the "No repositories found" panel is up,
   * and `loadMoreHidden`/`loadMoreCount` the load-more control.
   */
  class RepoList {
    var allRepos: seq<Repo>
    var filteredRepos: seq<Repo>
    var currentPage: nat
    var shown: seq<Repo>
    var emptyState: bool
    var loadMoreHidden: bool
    var loadMoreCount: nat

    /** The filtered view holds only repositories of the full list, and the page count starts at one. */
    ghost predicate Consistent()
      reads this
    {
      currentPage >= 1 && multiset(filteredRepos) <= multiset(allRepos)
    }

    /** The count is shown exactly while repositories remain, and then says how many. */
    ghost predicate ButtonShowsRemaining()
      reads this
    {
      loadMoreHidden == (Remaining(|filteredRepos|, currentPage) <= 0)
      && (!loadMoreHidden ==> loadMoreCount == Remaining(|filteredRepos|, currentPage))
    }

    /** The grid shows pages 1..currentPage of the filtered view, and the control matches. */
    ghost predicate Valid()
      reads this
    {
      Consistent()
      && shown == filteredRepos[..PageEnd(currentPage, |filteredRepos|)]
      && ButtonShowsRemaining()
      && emptyState == (allRepos == [])
    }

    /** loadRepositories: `fetched` is the parsed list, or None when the request failed. */
    constructor (fetched: Option<seq<Repo>>)
      ensures allRepos == (if fetched.Some? then fetched.value else [])
      ensures filteredRepos == [] && currentPage == 1 && shown == []
      ensures Consistent()
    {
      allRepos := if fetched.Some? then fetched.value else [];
      filteredRepos := [];
      currentPage := 1;
      shown := [];
      emptyState := false;
      loadMoreHidden := false;
      loadMoreCount := 0;
    }

    /** The cards on screen count min(currentPage*9, n), and the control is hidden exactly when currentPage*9 >= n. */
    lemma ValidCounts()
      requires Valid()
      ensures |shown| == Min(currentPage * ReposPerPage, |filteredRepos|)
      ensures loadMoreHidden <==> currentPage * ReposPerPage >= |filteredRepos|
    {
    }

    method UpdateLoadMoreButton()
      modifies this`loadMoreHidden, this`loadMoreCount
      ensures ButtonShowsRemaining()
      ensures loadMoreHidden ==> loadMoreCount == old(loadMoreCount)
    {
      var endIndex := Min(currentPage * ReposPerPage, |filteredRepos|);
      var remaining := |filteredRepos| - endIndex;
      if remaining > 0 {
        loadMoreHidden := false;
        loadMoreCount := remaining;
      } else {
        loadMoreHidden := true;
      }
    }

    /** displayReposPage: replaces the grid with the current page (or the empty panel). */
    method DisplayReposPage()
      requires Consistent()
      modifies this`shown, this`emptyState, this`loadMoreHidden, this`loadMoreCount
      ensures shown == PageSlice(filteredRepos, currentPage)
      ensures emptyState == (allRepos == [])
      ensures ButtonShowsRemaining()
      ensures currentPage == 1 ==> Valid()
    {
      if |allRepos| == 0 {
        emptyState := true;
        shown := [];
        UpdateLoadMoreButton();
        return;
      }
      var startIndex := (currentPage - 1) * ReposPerPage;
      var endIndex := Min(startIndex + ReposPerPage, |filteredRepos|);
      var cards: seq<Repo> := [];
      var i := startIndex;
      while i < endIndex
        invariant startIndex < endIndex ==> startIndex <= i <= endIndex && cards == filteredRepos[startIndex..i]
        invariant startIndex >= endIndex ==> i == startIndex && cards == []
      {
        cards := cards + [filteredRepos[i]];
        i := i + 1;
      }
      shown := cards;
      emptyState := false;
      UpdateLoadMoreButton();
    }

    /** loadMoreRepos: appends the cards of the current page to the grid. */
    method LoadMoreRepos()
      requires currentPage >= 1
      modifies this`shown, this`loadMoreHidden, this`loadMoreCount
      ensures shown == old(shown) + PageSlice(filteredRepos, currentPage)
      ensures ButtonShowsRemaining()
    {
      var startIndex := (currentPage - 1) * ReposPerPage;
      var endIndex := Min(startIndex + ReposPerPage, |filteredRepos|);
      var i := startIndex;
      while i < endIndex
        invariant startIndex < endIndex ==> startIndex <= i <= endIndex && shown == old(shown) + filteredRepos[startIndex..i]
        invariant startIndex >= endIndex ==> i == startIndex && shown == old(shown)
      {
        shown := shown + [filteredRepos[i]];
        i := i + 1;
      }
      UpdateLoadMoreButton();
    }

    /** The load-more click: the next page, then its cards. */
    method LoadMoreClicked()
      requires Valid()
      modifies this`currentPage, this`shown, this`loadMoreHidden, this`loadMoreCount
      ensures Valid()
      ensures currentPage == old(currentPage) + 1
      ensures shown == old(shown) + PageSlice(filteredRepos, currentPage)
    {
      currentPage := currentPage + 1;
      LoadMoreRepos();
      PageExtends(filteredRepos, currentPage);
    }

    /** filterAndDisplayRepos: the view sorted newest first, from page one. */
    method FilterAndDisplayRepos()
      requires Consistent()
      modifies this
      ensures allRepos == old(allRepos)
      ensures filteredRepos == SortDesc(allRepos, UpdatedKey)
      ensures currentPage == 1 && Valid()
    {
      filteredRepos := SortDesc(allRepos, UpdatedKey);
      SortDescSorted(allRepos, UpdatedKey);
      currentPage := 1;
      DisplayReposPage();
    }

    /** applyFilter: "stars" sorts by star count, every other key by update time, newest first. */
    method ApplyFilter(filter: string)
      requires Consistent()
      modifies this
      ensures allRepos == old(allRepos)
      ensures filteredRepos == SortDesc(allRepos, if filter == "stars" then StarsKey else UpdatedKey)
      ensures currentPage == 1 && Valid()
    {
      if filter == "stars" {
        filteredRepos := SortDesc(allRepos, StarsKey);
        SortDescSorted(allRepos, StarsKey);
      } else if filter == "updated" {
        filteredRepos := SortDesc(allRepos, UpdatedKey);
        SortDescSorted(allRepos, UpdatedKey);
      } else {
        filteredRepos := SortDesc(allRepos, UpdatedKey);
        SortDescSorted(allRepos, UpdatedKey);
      }
      currentPage := 1;
      DisplayReposPage();
    }

    /** The body of the debounced search handler, for the box value `raw`. */
    method Search(raw: string)
      requires Consistent()
      modifies this
      ensures allRepos == old(allRepos)
      ensures filteredRepos == SearchResults(allRepos, raw)
      ensures currentPage == 1 && Valid()
    {
      var searchTerm := SearchKey(raw);
      if searchTerm == "" {
        filteredRepos := allRepos;
      } else {
        filteredRepos := Filter(allRepos, r => Matches(r, searchTerm));
      }
      SearchResultsWithin(allRepos, raw);
      currentPage := 1;
      DisplayReposPage();
    }
  }

  /** The order the filter buttons promise: sorted by the key, a permutation, ties in list order. */
  lemma ApplyFilterOrder(all: seq<Repo>, filter: string, k: int)
    ensures var key := if filter == "stars" then StarsKey else UpdatedKey;
            SortedDesc(SortDesc(all, key), key)
            && multiset(SortDesc(all, key)) == multiset(all)
            && WithKey(SortDesc(all, key), key, k) == WithKey(all, key, k)
  {
    var key := if filter == "stars" then StarsKey else UpdatedKey;
    SortDescSorted(all, key);
    SortDescStable(all, key, k);
  }
}
