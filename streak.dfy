/**
 * The activity streak: the number of consecutive contribution days that
 * ends today, computed from the events feed (looking back at most 365
 * days) or, failing that, from the update days of the 20 most recently
 * updated repositories (looking back at most 30 days).
 *
 * Both walks are modelled as written: when today has no contribution, the
 * first iteration `continue`s without stepping back a day, the second
 * iteration finds today missing again and stops, so the streak is 0.
 */
module Streak {
  import opened Records
  import ArrayOps

  const EventsLookback: nat := 365
  const ReposLookback: nat := 30
  const RecentRepoCount: nat := 20

  /** The four event types that count as a contribution. */
  predicate IsContribution(kind: string) {
    kind == "PushEvent" || kind == "CreateEvent" || kind == "PullRequestEvent" || kind == "IssuesEvent"
  }

  /** The `k` days ending at `from` (from-k+1 up to `from`) all lie in `days`. */
  ghost predicate RunOf(days: set<int>, from: int, k: nat) {
    forall d :: from - k < d <= from ==> d in days
  }

  /**
   * The length of the run of consecutive days in `days` that ends at
   * `from`, cut off at `limit`: the days from, from-1, ... all lie in
   * `days`, and the first missing day (if within the limit) ends the run.
   */
  function Run(days: set<int>, from: int, limit: nat): (r: nat)
    ensures r <= limit
    ensures RunOf(days, from, r)
    ensures r < limit ==> from - r !in days
    decreases limit
  {
    if limit == 0 || from !in days then 0
    else
      1 + Run(days, from - 1, limit - 1)
  }

  /** A run of exactly `k` days, ended by a missing day or by the limit, is what Run counts. */
  lemma RunExact(days: set<int>, from: int, limit: nat, k: nat)
    requires k <= limit && RunOf(days, from, k)
    requires k < limit ==> from - k !in days
    ensures Run(days, from, limit) == k
  {
  }

  /**
   * The backward walk of both streak functions: up to `limit` iterations,
   * a hit counts and steps back one day; a miss on the first iteration
   * `continue`s without stepping back; a later miss stops the walk.
   */
  method WalkBack(days: set<int>, today: int, limit: nat) returns (streak: nat)
    ensures streak == Run(days, today, limit)
  {
    streak := 0;
    var current := today;
    for i := 0 to limit
      invariant current == today - streak
      invariant streak == i || (i == 1 && streak == 0 && today !in days)
      invariant RunOf(days, today, streak)
    {
      if current in days {
        streak := streak + 1;
      } else {
        if i == 0 {
          continue;
        } else {
          RunExact(days, today, limit, streak);
          break;
        }
      }
      current := current - 1;
    }
    RunExact(days, today, limit, streak);
  }

  /** The UTC days of the contribution events of a feed. */
  function EventDays(events: seq<Event>): set<int> {
    set e | e in events && IsContribution(e.kind) :: Day(e.createdAt)
  }

  /** The streak the events feed gives at time `now`. */
  function EventsStreak(events: seq<Event>, now: int): nat {
    Run(EventDays(events), Day(now), EventsLookback)
  }

  /** calculateStreakFromEvents: collect the contribution days, then walk back from today. */
  method StreakFromEvents(events: seq<Event>, now: int) returns (streak: nat)
    ensures streak == EventsStreak(events, now)
  {
    if |events| == 0 {
      return 0;
    }
    var dates: set<int> := {};
    for i := 0 to |events|
      invariant dates == EventDays(events[..i])
    {
      var e := events[i];
      assert events[..i + 1] == events[..i] + [e];
      if IsContribution(e.kind) {
        dates := dates + {Day(e.createdAt)};
      }
    }
    assert events[..|events|] == events;
    streak := WalkBack(dates, Day(now), EventsLookback);
  }

  /** The 20 most recently updated repositories, newest first. */
  function RecentRepos(repos: seq<Repo>): seq<Repo> {
    var sorted := ArrayOps.SortDesc(repos, UpdatedKey);
    sorted[..Min(RecentRepoCount, |sorted|)]
  }

  /** The distinct UTC update days of the recent repositories. */
  function RecentDays(repos: seq<Repo>): set<int> {
    set r | r in RecentRepos(repos) :: Day(r.updatedAt)
  }

  /** The streak the repository list gives at time `now`. */
  function RepoStreak(repos: seq<Repo>, now: int): nat {
    Run(RecentDays(repos), Day(now), ReposLookback)
  }

  /** calculateStreakFromRepos: the update days of the recent repositories, walked back from today. */
  method StreakFromRepos(repos: seq<Repo>, now: int) returns (streak: nat)
    ensures streak == RepoStreak(repos, now)
  {
    if |repos| == 0 {
      return 0;
    }
    var recent := RecentRepos(repos);
    var uniqueDates := set r | r in recent :: Day(r.updatedAt);
    streak := WalkBack(uniqueDates, Day(now), ReposLookback);
  }

  /**
   * fetchGitHubStreak: `events` is the parsed events feed, or None when the
   * request failed or answered with a non-success status. The events streak
   * is taken when it is positive; otherwise the repository streak.
   */
  method FetchStreak(events: Option<seq<Event>>, repos: seq<Repo>, now: int) returns (streak: nat)
    ensures events.Some? && EventsStreak(events.value, now) > 0 ==> streak == EventsStreak(events.value, now)
    ensures !(events.Some? && EventsStreak(events.value, now) > 0) ==> streak == RepoStreak(repos, now)
  {
    if events.Some? {
      var s := StreakFromEvents(events.value, now);
      if s > 0 {
        return s;
      }
    }
    streak := StreakFromRepos(repos, now);
  }

  /** The events streak: 0 without events, at most 365, 0 when today has no contribution. */
  lemma EventsStreakBounds(events: seq<Event>, now: int)
    ensures EventsStreak(events, now) <= EventsLookback
    ensures events == [] ==> EventsStreak(events, now) == 0
    ensures Day(now) !in EventDays(events) ==> EventsStreak(events, now) == 0
  {
  }

  /** The events streak counts only the four contribution types: other events change nothing. */
  lemma EventsStreakIgnoresOtherEvents(events: seq<Event>, e: Event, now: int)
    requires !IsContribution(e.kind)
    ensures EventsStreak(events + [e], now) == EventsStreak(events, now)
  {
    assert EventDays(events + [e]) == EventDays(events);
  }

  /** Contribution days on today and the k-1 days before it, with the day before them empty, give a streak of k. */
  lemma EventsStreakCountsRun(events: seq<Event>, now: int, k: nat)
    requires 0 < k < EventsLookback
    requires RunOf(EventDays(events), Day(now), k)
    requires Day(now) - k !in EventDays(events)
    ensures EventsStreak(events, now) == k
  {
    RunExact(EventDays(events), Day(now), EventsLookback, k);
  }

  /** The repository streak: 0 without repositories, at most 30, 0 when no recent repository was updated today. */
  lemma RepoStreakBounds(repos: seq<Repo>, now: int)
    ensures RepoStreak(repos, now) <= ReposLookback
    ensures repos == [] ==> RepoStreak(repos, now) == 0
    ensures Day(now) !in RecentDays(repos) ==> RepoStreak(repos, now) == 0
  {
  }

  /** The recent repositories are min(20, n) of the given ones, each at most as often as there. */
  lemma RecentReposShape(repos: seq<Repo>)
    ensures |RecentRepos(repos)| == Min(RecentRepoCount, |repos|)
    ensures multiset(RecentRepos(repos)) <= multiset(repos)
  {
    var sorted := ArrayOps.SortDesc(repos, UpdatedKey);
    var m := Min(RecentRepoCount, |sorted|);
    ArrayOps.SortDescSorted(repos, UpdatedKey);
    assert sorted == sorted[..m] + sorted[m..];
    assert multiset(sorted) == multiset(sorted[..m]) + multiset(sorted[m..]);
  }

  /** No repository updated later than one of the recent repositories is left out of them. */
  lemma RecentReposAreNewest(repos: seq<Repo>, x: Repo, y: Repo)
    requires x in RecentRepos(repos) && y in repos && y.updatedAt > x.updatedAt
    ensures y in RecentRepos(repos)
  {
    if y !in RecentRepos(repos) {
      ArrayOps.SortDescPrefixOutranks(repos, UpdatedKey, Min(RecentRepoCount, |repos|), x, y);
    }
  }

  /** The shown streak is 0 exactly when neither source has a streak going. */
  lemma FetchedStreakZero(events: Option<seq<Event>>, repos: seq<Repo>, now: int, streak: nat)
    requires events.Some? && EventsStreak(events.value, now) > 0 ==> streak == EventsStreak(events.value, now)
    requires !(events.Some? && EventsStreak(events.value, now) > 0) ==> streak == RepoStreak(repos, now)
    ensures streak <= EventsLookback
    ensures streak == 0 <==> (events.None? || EventsStreak(events.value, now) == 0) && RepoStreak(repos, now) == 0
  {
  }

  /** The badge tiers of the streak panel. */
  datatype Badge = StartCoding | Light | Moderate | Strong

  function BadgeRank(b: Badge): nat {
    match b
    case StartCoding => 0
    case Light => 1
    case Moderate => 2
    case Strong => 3
  }

  /** updateStreakUI: 7 or more is strong, 3 or more moderate, any other positive streak light. */
  function BadgeFor(streak: int): (b: Badge)
    ensures b == Strong <==> streak >= 7
    ensures b == Moderate <==> 3 <= streak < 7
    ensures b == Light <==> 1 <= streak < 3
    ensures b == StartCoding <==> streak <= 0
  {
    if streak >= 7 then Strong
    else if streak >= 3 then Moderate
    else if streak > 0 then Light
    else StartCoding
  }

  /** A longer streak never earns a lower badge, and only a zero streak shows "Start coding!". */
  lemma BadgeMonotone(a: int, b: int)
    requires a <= b
    ensures BadgeRank(BadgeFor(a)) <= BadgeRank(BadgeFor(b))
    ensures BadgeFor(b) == StartCoding ==> b <= 0
    ensures BadgeFor(a) == Strong ==> BadgeFor(b) == Strong
  {
  }

  /**
   * The walk as the guard at i == 0 evidently means it: a
   * missing today is skipped AND the walk steps back to yesterday, so a
   * streak still running from yesterday is kept.
   */
  function TolerantRun(days: set<int>, today: int, limit: nat): (r: nat)
    ensures r <= limit
    ensures today in days || limit == 0 ==> RunOf(days, today, r) && (r < limit ==> today - r !in days)
    ensures today !in days && limit > 0 ==>
              r < limit && RunOf(days, today - 1, r) && (r < limit - 1 ==> today - 1 - r !in days)
  {
    if limit > 0 && today !in days then Run(days, today - 1, limit - 1) else Run(days, today, limit)
  }

  /** The corrected walk counts a run that ends yesterday when today has no contribution yet. */
  lemma TolerantRunKeepsYesterday(days: set<int>, today: int, limit: nat, k: nat)
    requires today !in days && k < limit
    requires RunOf(days, today - 1, k) && today - 1 - k !in days
    ensures TolerantRun(days, today, limit) == k
  {
    RunExact(days, today - 1, limit - 1, k);
  }

  /** When today has a contribution, the corrected walk and the walk as written agree. */
  lemma TolerantRunAgrees(days: set<int>, today: int, limit: nat)
    requires today in days
    ensures TolerantRun(days, today, limit) == Run(days, today, limit)
  {
  }

  /** As written, a contribution yesterday and none today shows a streak of 0 instead of 1. */
  lemma AsWrittenDropsYesterday(today: int)
    ensures Run({today - 1}, today, EventsLookback) == 0
    ensures TolerantRun({today - 1}, today, EventsLookback) == 1
  {
    RunExact({today - 1}, today - 1, EventsLookback - 1, 1);
  }

  /** The corrected walk as a loop: the skip at i == 0 also steps back a day. */
  method TolerantWalkBack(days: set<int>, today: int, limit: nat) returns (streak: nat)
    ensures streak == TolerantRun(days, today, limit)
  {
    streak := 0;
    var current := today;
    var skipped := false;
    for i := 0 to limit
      invariant current == today - streak - (if skipped then 1 else 0)
      invariant skipped <==> (i > 0 && today !in days)
      invariant streak == i - (if skipped then 1 else 0)
      invariant RunOf(days, current + streak, streak)
    {
      if current in days {
        streak := streak + 1;
      } else {
        if i == 0 {
          skipped := true;
          current := current - 1;
          continue;
        } else {
          break;
        }
      }
      current := current - 1;
    }
    if skipped {
      RunExact(days, today - 1, limit - 1, streak);
    } else {
      RunExact(days, today, limit, streak);
    }
  }
}
