/**
 * The derived figures of the statistics and analytics panels: the
 * approximate contribution count, the star and size totals, and the
 * language tally with its top five.
 */
module Metrics {
  import opened Records
  import ArrayOps

  /** Repositories updated fewer than this many days ago count as active. */
  const ActiveDays: int := 90
  /** The contribution figure never shows less than this. */
  const ContributionFloor: nat := 42
  /** calculateTotalLinesOfCode: estimated lines of code per size unit. */
  const LinesPerSizeUnit: nat := 75
  /** updateAnalytics shows this many languages at most. */
  const TopLanguageCount: nat := 5

  /** One repository's share of the contribution estimate. */
  function ContributionTerm(r: Repo, now: int): (c: nat)
    ensures c >= 1
    ensures DaysSince(now, r.updatedAt) < ActiveDays ==> c >= 5
  {
    if DaysSince(now, r.updatedAt) < ActiveDays then r.size / 100 + 5 else r.size / 500 + 1
  }

  /** The raw contribution estimate: the sum of the terms. */
  function ContributionSum(repos: seq<Repo>, now: int): (t: nat)
    ensures t >= |repos|
  {
    if repos == [] then 0
    else ContributionSum(repos[..|repos| - 1], now) + ContributionTerm(repos[|repos| - 1], now)
  }

  /** calculateTotalContributions: accumulate the terms, then floor the total at 42. */
  method TotalContributions(repos: seq<Repo>, now: int) returns (total: nat)
    ensures total == Max(ContributionSum(repos, now), ContributionFloor)
  {
    var totalCommits := 0;
    for i := 0 to |repos|
      invariant totalCommits == ContributionSum(repos[..i], now)
    {
      var repo := repos[i];
      assert repos[..i + 1][..i] == repos[..i];
      if DaysSince(now, repo.updatedAt) < ActiveDays {
        totalCommits := totalCommits + (repo.size / 100 + 5);
      } else {
        totalCommits := totalCommits + (repo.size / 500 + 1);
      }
    }
    assert repos[..|repos|] == repos;
    total := Max(totalCommits, ContributionFloor);
  }

  /** The estimate of a list is the estimates of its parts added up. */
  lemma {:induction false} ContributionSumAppend(a: seq<Repo>, b: seq<Repo>, now: int)
    ensures ContributionSum(a + b, now) == ContributionSum(a, now) + ContributionSum(b, now)
    decreases |b|
  {
    if b == [] {
      assert a + b == a;
    } else {
      var b' := b[..|b| - 1];
      ContributionSumAppend(a, b', now);
      assert (a + b)[..|a + b| - 1] == a + b';
    }
  }

  /** The total shown: at least 42, exactly 42 without repositories, the raw sum from 42 repositories on. */
  lemma TotalContributionsFacts(repos: seq<Repo>, now: int)
    ensures Max(ContributionSum(repos, now), ContributionFloor) >= ContributionFloor
    ensures repos == [] ==> Max(ContributionSum(repos, now), ContributionFloor) == ContributionFloor
    ensures |repos| >= ContributionFloor ==> Max(ContributionSum(repos, now), ContributionFloor) == ContributionSum(repos, now)
  {
  }

  /** The total star count (the `reduce` over `stargazers_count`). */
  function TotalStars(repos: seq<Repo>): (t: nat)
    ensures repos == [] ==> t == 0
    ensures forall r :: r in repos ==> r.stars <= t
  {
    if repos == [] then 0 else TotalStars(repos[..|repos| - 1]) + repos[|repos| - 1].stars
  }

  /** The total size (the `reduce` over `size`). */
  function TotalSize(repos: seq<Repo>): (t: nat)
    ensures repos == [] ==> t == 0
    ensures forall r :: r in repos ==> r.size <= t
  {
    if repos == [] then 0 else TotalSize(repos[..|repos| - 1]) + repos[|repos| - 1].size
  }

  /** calculateTotalLinesOfCode, before locale formatting. */
  function EstimatedLines(repos: seq<Repo>): (n: nat)
    ensures n % LinesPerSizeUnit == 0 && n / LinesPerSizeUnit == TotalSize(repos)
    ensures forall r :: r in repos ==> r.size * LinesPerSizeUnit <= n
  {
    TotalSize(repos) * LinesPerSizeUnit
  }

  /** The star total and the line estimate are additive over concatenation. */
  lemma {:induction false} TotalsFacts(a: seq<Repo>, b: seq<Repo>)
    ensures TotalStars(a + b) == TotalStars(a) + TotalStars(b)
    ensures EstimatedLines(a + b) == EstimatedLines(a) + EstimatedLines(b)
    decreases |b|
  {
    if b == [] {
      assert a + b == a;
    } else {
      var b' := b[..|b| - 1];
      TotalsFacts(a, b');
      assert (a + b)[..|a + b| - 1] == a + b';
    }
  }

  /** The languages of the repositories, each once, in order of first appearance. */
  function LanguageKeys(repos: seq<Repo>): (k: seq<string>)
    ensures forall l :: l in k <==> l != "" && exists r :: r in repos && r.language == l
    ensures forall i, j :: 0 <= i < j < |k| ==> k[i] != k[j]
  {
    if repos == [] then []
    else
      var init := repos[..|repos| - 1];
      var k := LanguageKeys(init);
      var l := repos[|repos| - 1].language;
      assert repos == init + [repos[|repos| - 1]];
      if l == "" || l in k then k else k + [l]
  }

  /** How many repositories have language `l`. */
  function CountLanguage(repos: seq<Repo>, l: string): (c: nat)
    ensures c <= |repos|
    ensures c > 0 <==> exists r :: r in repos && r.language == l
  {
    if repos == [] then 0
    else
      var init := repos[..|repos| - 1];
      assert repos == init + [repos[|repos| - 1]];
      CountLanguage(init, l) + (if repos[|repos| - 1].language == l then 1 else 0)
  }

  /**
   * The first half of updateAnalytics: the `languages` dictionary, as its
   * keys in insertion order and the count kept under each key.
   */
  method TallyLanguages(repos: seq<Repo>) returns (keys: seq<string>, counts: map<string, nat>)
    ensures keys == LanguageKeys(repos)
    ensures forall l :: l in counts <==> l in keys
    ensures forall l :: l in counts ==> counts[l] == CountLanguage(repos, l)
  {
    keys := [];
    counts := map[];
    for i := 0 to |repos|
      invariant keys == LanguageKeys(repos[..i])
      invariant forall l :: l in counts <==> l in keys
      invariant forall l :: l in counts ==> counts[l] == CountLanguage(repos[..i], l)
    {
      var lang := repos[i].language;
      assert repos[..i + 1][..i] == repos[..i];
      if lang != "" {
        if lang in counts {
          counts := counts[lang := counts[lang] + 1];
        } else {
          counts := counts[lang := 1];
          keys := keys + [lang];
        }
      }
    }
    assert repos[..|repos|] == repos;
  }

  function EntryCount(e: (string, nat)): int { e.1 }

  /** `Object.entries(languages)`: each language with its count, in insertion order. */
  function LanguageEntries(repos: seq<Repo>): seq<(string, nat)> {
    var k := LanguageKeys(repos);
    seq(|k|, i requires 0 <= i < |k| => (k[i], CountLanguage(repos, k[i])))
  }

  /** The entries sorted by descending count and cut to the first five. */
  function TopLanguagesOf(repos: seq<Repo>): seq<(string, nat)> {
    var sorted := ArrayOps.SortDesc(LanguageEntries(repos), EntryCount);
    sorted[..Min(TopLanguageCount, |sorted|)]
  }

  /** updateAnalytics, up to the rendering of the language list. */
  method TopLanguages(repos: seq<Repo>) returns (top: seq<(string, nat)>)
    ensures top == TopLanguagesOf(repos)
  {
    var keys, counts := TallyLanguages(repos);
    var entries := seq(|keys|, i requires 0 <= i < |keys| => (keys[i], counts[keys[i]]));
    assert entries == LanguageEntries(repos);
    var sorted := ArrayOps.SortDesc(entries, EntryCount);
    top := sorted[..Min(TopLanguageCount, |sorted|)];
  }

  /**
   * As many languages are shown as there are, up to five, by non-increasing
   * count; the list is empty exactly when no repository names a language.
   */
  lemma TopLanguagesShape(repos: seq<Repo>)
    ensures |TopLanguagesOf(repos)| == Min(TopLanguageCount, |LanguageKeys(repos)|)
    ensures TopLanguagesOf(repos) == [] <==> forall r :: r in repos ==> r.language == ""
    ensures ArrayOps.SortedDesc(TopLanguagesOf(repos), EntryCount)
    ensures forall i, j :: 0 <= i < j < |TopLanguagesOf(repos)| ==> TopLanguagesOf(repos)[i].0 != TopLanguagesOf(repos)[j].0
  {
    SortedEntriesDistinct(repos);
    var keys := LanguageKeys(repos);
    ArrayOps.SortDescSorted(LanguageEntries(repos), EntryCount);
    if keys != [] {
      assert keys[0] in keys;
    }
  }

  /** The sorted entries name each language once. */
  lemma SortedEntriesDistinct(repos: seq<Repo>)
    ensures var sorted := ArrayOps.SortDesc(LanguageEntries(repos), EntryCount);
            forall i, j :: 0 <= i < j < |sorted| ==> sorted[i].0 != sorted[j].0
  {
    var entries := LanguageEntries(repos);
    var keys := LanguageKeys(repos);
    var sorted := ArrayOps.SortDesc(entries, EntryCount);
    ArrayOps.SortDescPermutes(entries, EntryCount);
    assert ArrayOps.Distinct(entries) by {
      forall i, j | 0 <= i < j < |entries| ensures entries[i] != entries[j] {
        assert entries[i].0 == keys[i] && entries[j].0 == keys[j];
      }
    }
    ArrayOps.PermutationKeepsDistinct(entries, sorted);
    forall i, j | 0 <= i < j < |sorted|
      ensures sorted[i].0 != sorted[j].0
    {
      // An entry is fixed by its language: (l, CountLanguage(repos, l)).
      assert sorted[i] in multiset(entries) && sorted[j] in multiset(entries);
      var a :| 0 <= a < |entries| && entries[a] == sorted[i];
      var b :| 0 <= b < |entries| && entries[b] == sorted[j];
      assert sorted[i] != sorted[j];
    }
  }

  /** Every language shown is a language of some repository, with its true count. */
  lemma TopLanguagesCounts(repos: seq<Repo>, e: (string, nat))
    requires e in TopLanguagesOf(repos)
    ensures e.0 in LanguageKeys(repos) && e.1 == CountLanguage(repos, e.0) && e.1 > 0
  {
    var entries := LanguageEntries(repos);
    var keys := LanguageKeys(repos);
    var sorted := ArrayOps.SortDesc(entries, EntryCount);
    ArrayOps.SortDescSorted(entries, EntryCount);
    assert e in sorted;
    assert e in multiset(entries);
    var i :| 0 <= i < |entries| && entries[i] == e;
    assert keys[i] in keys;
  }

  /** No language left out of the top five has a larger count than one shown. */
  lemma TopLanguagesOutrank(repos: seq<Repo>, e: (string, nat), l: string)
    requires e in TopLanguagesOf(repos) && l in LanguageKeys(repos)
    requires forall f :: f in TopLanguagesOf(repos) ==> f.0 != l
    ensures e.1 >= CountLanguage(repos, l)
  {
    var entries := LanguageEntries(repos);
    var keys := LanguageKeys(repos);
    var j :| 0 <= j < |keys| && keys[j] == l;
    var le := entries[j];
    assert le in entries;
    ArrayOps.SortDescPrefixOutranks(entries, EntryCount, Min(TopLanguageCount, |entries|), e, le);
  }
}
