# GitHub dashboard rules, modelled in Dafny

This project models the computational rules of a single-page GitHub profile
dashboard (`assets/js/app.js`). These rules cover:

- the activity streak, computed from the public events feed or, failing that, from the repositories' update days, and its badge tier;
- the approximate contribution count, the star total and the line estimate;
- the language tally and its top five;
- the repository grid: sorting filters, the case-insensitive search, and pagination by nine cards with a "load more" control;
- the small classifiers of a repository card and of the detail view: the relative "last updated" label, description truncation, topic overflow, language colour and activity level.

Modelling choices:

- Dates are integer milliseconds since the epoch.
- A calendar day is the UTC day number `t / 86400000`, which is what keying a date by `toISOString().split('T')[0]` amounts to.
- "Now" is a parameter.
- The results of the network requests are inputs: `Option<seq<...>>`, where `None` means the request failed.
- The module-level state of the list view (`allRepos`, `filteredRepos`, `currentPage`, plus what the grid and the load-more control show) is the class `ListView.RepoList`.

Files:

- `records.dfy`: the records and the day arithmetic.
- `text.dfy`: `toLowerCase`, `trim`, `includes` and decimal rendering.
- `array_ops.dfy`: the stable descending `sort` and `filter`.
- `streak.dfy`: the streak walks, their selection and the badge.
- `metrics.dfy`: the contribution estimate, the totals and the language tally.
- `card.dfy`: the card and detail-view classifiers.
- `list_view.dfy`: the repository grid.

## Model

| member | source | states |
|---|---|---|
| Streak.Run | assets/js/app.js:107-126 | The walk's result is at most the limit. The days from `from` back over `r` days all carry a contribution. When the limit is not reached, the day before the run has none. |
| Streak.RunExact | assets/js/app.js:107-126 | A run of exactly k days, ended by a missing day or by the limit, is the walk's result, so the result is uniquely determined. |
| Streak.WalkBack | assets/js/app.js:107-126 | The `for` loop with its `continue` at i == 0 and `break` afterwards computes exactly `Run` from today. |
| Streak.StreakFromEvents | assets/js/app.js:92-127 | Collects the UTC days of the four contribution event types. It returns the walk from today over at most 365 days (0 for an empty feed). |
| Streak.StreakFromRepos | assets/js/app.js:129-162 | Returns the walk, over at most 30 days, of the distinct update days of the 20 most recently updated repositories (0 without repositories). |
| Streak.FetchStreak | assets/js/app.js:73-90 | The events streak when the feed was fetched and gives a positive streak; otherwise the repository streak. |
| Streak.EventsStreakBounds | assets/js/app.js:92-127 | The events streak is at most 365. It is 0 for an empty feed, and 0 when today has no contribution. |
| Streak.EventsStreakIgnoresOtherEvents | assets/js/app.js:98-104 | An event of any type other than the four contribution types leaves the streak unchanged. |
| Streak.EventsStreakCountsRun | assets/js/app.js:107-126 | Contributions on today and the k-1 days before, with none on the day before those, give a streak of exactly k. |
| Streak.RepoStreakBounds | assets/js/app.js:129-162 | The repository streak is at most 30. It is 0 without repositories, and 0 when no recent repository was updated today. |
| Streak.RecentReposShape | assets/js/app.js:132-135 | The recent list holds min(20, n) of the repositories, each at most as often as in the full list. |
| Streak.RecentReposAreNewest | assets/js/app.js:132-135 | No repository updated later than a listed one is left out of the recent list. |
| Streak.FetchedStreakZero | assets/js/app.js:78-84 | The chosen streak is at most 365. It is 0 exactly when neither source has a streak going. |
| Streak.BadgeFor | assets/js/app.js:175-191 | Strong exactly from 7, Moderate exactly for 3-6, Light exactly for 1-2, and "Start coding!" exactly for 0 or less. |
| Streak.BadgeMonotone | assets/js/app.js:169-192 | A longer streak never earns a lower badge. Only a streak of 0 or less shows "Start coding!". Strong (7 and up) is kept by any longer streak. |
| Streak.TolerantRun | assets/js/app.js:107-126 | The corrected walk is at most the limit. When today has a contribution it counts the run ending today, stopped by the first missing day. When today has none and the limit is positive, it counts the run ending yesterday, under a limit one day lower. |
| Streak.TolerantRunKeepsYesterday | assets/js/app.js:116-118 | The corrected walk counts exactly a run ending yesterday when today has no contribution. |
| Streak.TolerantRunAgrees | assets/js/app.js:113-114 | When today has a contribution, the corrected walk gives the same streak as the walk as written. |
| Streak.AsWrittenDropsYesterday | assets/js/app.js:116-118 | With a contribution yesterday and none today, the walk as written gives 0 and the corrected walk gives 1. |
| Streak.TolerantWalkBack | assets/js/app.js:107-126 | The loop with the skip stepping back a day computes the corrected walk. |
| Metrics.ContributionTerm | assets/js/app.js:268-275 | Each repository contributes at least 1, and at least 5 when updated fewer than 90 days ago. |
| Metrics.ContributionSum | assets/js/app.js:267-276 | The raw estimate is at least the number of repositories. |
| Metrics.TotalContributions | assets/js/app.js:264-279 | The accumulating loop returns max(sum of the terms, 42). |
| Metrics.ContributionSumAppend | assets/js/app.js:267-276 | The estimate of a concatenation is the sum of the estimates. |
| Metrics.TotalContributionsFacts | assets/js/app.js:278 | The total is at least 42. It is exactly 42 without repositories, and the raw sum once there are 42 or more repositories. |
| Metrics.TotalStars | assets/js/app.js:252 | 0 without repositories, and no repository has more stars than the total. |
| Metrics.TotalSize | assets/js/app.js:282 | 0 without repositories, and no repository is larger than the total. |
| Metrics.EstimatedLines | assets/js/app.js:281-285 | The estimate is a multiple of 75: 75 lines per unit of total size. It is at least 75 times the size of any one repository. |
| Metrics.TotalsFacts | assets/js/app.js:281-285 | Line estimates, and the star totals of line 252, are additive over concatenation. |
| Metrics.LanguageKeys | assets/js/app.js:688-693 | The dictionary keys are exactly the non-empty languages of the repositories, each once. |
| Metrics.CountLanguage | assets/js/app.js:688-693 | A language's count is at most the number of repositories, and positive exactly when some repository has it. |
| Metrics.TallyLanguages | assets/js/app.js:688-693 | The loop's keys are the languages in order of first appearance, and each key's count is the number of repositories with that language. |
| Metrics.TopLanguages | assets/js/app.js:695-697 | The entries sorted by descending count and cut to five are `TopLanguagesOf`. |
| Metrics.TopLanguagesShape | assets/js/app.js:695-697 | min(5, number of languages) entries, in non-increasing count order, each language at most once. The list is empty exactly when no repository names a language. |
| Metrics.TopLanguagesCounts | assets/js/app.js:695-697 | Every shown entry is a real language with its true, positive count. |
| Metrics.TopLanguagesOutrank | assets/js/app.js:695-697 | No language left out of the top five has a larger count than a shown one. |
| Card.LabelFor | assets/js/app.js:381-391 | "Today" exactly for 0 days, "Yesterday" exactly for 1, "N days ago" exactly for 2-6 days, and floor(N/7) weeks for 7-29 days. A date is shown exactly from 30 days on. |
| Card.CardDiffDays | assets/js/app.js:375-378 | The whole number of days in the absolute distance between now and the update, rounded down. |
| Card.CardLabelFacts | assets/js/app.js:375-391 | Over timestamps: "Today" exactly within 24 hours of now in either direction, "Yesterday" exactly from 24 up to 48 hours, and a date exactly from 30 whole days. An update in the future gets the label of a past update at the same distance. |
| Card.LabelMonotone | assets/js/app.js:381-391 | An older update never gets a more recent-sounding label. |
| Card.LabelExamples | assets/js/app.js:384-388 | 0 days reads "Today", 10 days reads "1 weeks ago", and 40 days gives a date. |
| Card.CardDescription | assets/js/app.js:369-371 | The placeholder for no description. A description of 120 characters or fewer is kept whole. A longer one is its first 120 characters followed by "...". |
| Card.CardTopics | assets/js/app.js:404-408 | No topic block without topics. Otherwise at most the first three topics, and the "+N" chip counts the rest. |
| Card.LanguageColor | assets/js/app.js:871-893 | The table's colour for a listed language, and the fallback `#8b5cf6` exactly for a language not in the table (and for none). |
| Card.ActivityLevel | assets/js/app.js:500-501 | High exactly below 7 days, Low exactly from 30 days, Medium in between. |
| Card.ModalActivity | assets/js/app.js:500-501 | Over timestamps: High exactly when the update is less than 7 × 24 hours old (including future updates), and Low exactly from 30 × 24 hours. |
| Card.ActivityMonotone | assets/js/app.js:500-501 | A more recent update never gives a lower activity level. |
| Text.Trim | assets/js/app.js:801 | The result is the input without leading and trailing white space, and is empty exactly when the input is all white space. |
| Text.LowerIdempotent | assets/js/app.js:801 | Lower-casing twice is lower-casing once. |
| Text.ContainsIff | assets/js/app.js:805-807 | `includes` holds exactly when the term occurs at some position. |
| Text.DecimalRoundTrip | assets/js/app.js:386-388 | The decimal text of a number reads back as that number. |
| Text.Decimal | assets/js/app.js:386-388 | The text is non-empty, all digits, and has no leading zero. |
| ArrayOps.SortDescSorted | assets/js/app.js:855-863 | The comparator sort yields a non-increasing order and a permutation of its input. |
| ArrayOps.PermutationKeepsDistinct | assets/js/app.js:695-697 | A rearrangement of a list without repeated elements has none either, so sorting the dictionary entries repeats no language. |
| ArrayOps.SortDescStable | assets/js/app.js:855-863 | The sort is stable: elements with equal keys keep their input order. |
| ArrayOps.FilterMembers | assets/js/app.js:805-809 | An element is in the filter's result exactly when it is in the input and passes. |
| ArrayOps.FilterFacts | assets/js/app.js:804-808 | `filter` keeps every passing element as often as it occurs and no failing one, in input order. |
| ListView.PageSlice | assets/js/app.js:311-312 | The page's cards are the indices [(page-1)×9, min(page×9, n)), or none past the end. The same bounds are computed again at lines 335-336. |
| ListView.RemainingIff | assets/js/app.js:353-366 | The remaining count is never negative, and positive exactly when page×9 < n. |
| ListView.PageExtends | assets/js/app.js:333-351 | Pages 1..p-1 followed by page p are pages 1..p. |
| ListView.ShownAfterLoads | assets/js/app.js:819-822 | After page one and k load-more clicks the grid holds the first min((k+1)×9, n) repositories, in order. |
| ListView.SearchKey | assets/js/app.js:801 | The term is no longer than the box value and contains no upper-case letter. It is empty exactly when the box holds only white space. |
| ListView.MatchesIff | assets/js/app.js:806-810 | A repository matches exactly when the term occurs in its lower-cased name, in its lower-cased non-empty description, or in some lower-cased topic. |
| ListView.SearchResults | assets/js/app.js:801-811 | The results keep list order. For a non-blank term they hold only matches, and every repository that matches (every one, for a blank term) is among them. |
| ListView.SearchResultsFacts | assets/js/app.js:801-814 | A blank term gives the whole list. Otherwise every match is kept as often as it occurs and no non-match is kept, in list order. |
| ListView.BlankSearchShowsAll | assets/js/app.js:801-803 | A box holding only white space shows the whole list. |
| ListView.SearchIgnoresCase | assets/js/app.js:801 | Typing the term in upper or lower case gives the same results. |
| ListView.ApplyFilterOrder | assets/js/app.js:851-869 | The filter's order is non-increasing by stars for "stars" and by update time otherwise. It is a permutation of the list, with ties in list order. |
| ListView.RepoList.constructor | assets/js/app.js:61-71 | The full list is the fetched one, or empty when the request failed. The view starts empty on page one. |
| ListView.RepoList.ValidCounts | assets/js/app.js:353-366 | In a consistent state the grid counts min(page×9, n) cards. The control is hidden exactly when page×9 ≥ n. |
| ListView.RepoList.UpdateLoadMoreButton | assets/js/app.js:353-366 | The control is shown exactly while cards remain, and then shows how many. |
| ListView.RepoList.DisplayReposPage | assets/js/app.js:296-331 | The grid becomes the current page's slice, or the empty panel when there are no repositories at all. The control is updated. |
| ListView.RepoList.LoadMoreRepos | assets/js/app.js:333-351 | The current page's slice is appended to the grid and the control is updated. |
| ListView.RepoList.LoadMoreClicked | assets/js/app.js:819-822 | The page advances by one, the next slice is appended, and the grid invariant is kept. |
| ListView.RepoList.FilterAndDisplayRepos | assets/js/app.js:287-294 | The view is the full list sorted newest first, shown from page one, with the invariant established. |
| ListView.RepoList.ApplyFilter | assets/js/app.js:851-869 | The view is the full list sorted by stars for "stars" and by update time otherwise, shown from page one. |
| ListView.RepoList.Search | assets/js/app.js:797-814 | The view is the search result for the box value, shown from page one. The full list is unchanged. |

## Left out

- Network requests (profile, repositories, events, followers) and JSON decoding are not modelled. Their results are inputs, and a failed request is `None`.
- Markup is not modelled: HTML strings, class toggles, event wiring, tabs, modals, the followers list and the profile panel (`loadUserData`, `updateProfileUI`, `showError`). The grid is the sequence of repositories it shows.
- The 300 ms search debounce and the streak refresh timer are not modelled; only the search handler's body is.
- Locale date formatting (`toLocaleDateString`, `toLocaleString`) is not modelled. The label for 30 days and more is the constructor `ShortDate`, and the line estimate is the integer before formatting.
- Days are UTC day numbers. Stepping back with `setDate` is modelled as day − 1, so the local-time offset and daylight-saving effects of that call are not captured.
- Invalid date strings, which would make `toISOString` throw, are not modelled.
- Floating-point values are not modelled: the KB/MB sizes, the averages and the language percentages.
- Text.Lower: only ASCII letters are lower-cased; the Unicode case mapping of `toLowerCase` is not modelled. Lengths count characters, not UTF-16 code units.
- Card.LanguageColor: looking up a key such as `"constructor"` in the object literal would find an inherited property. The model treats every name outside the table as unknown.
- ListView.RepoList.constructor: the initial state of the load-more control before the first render is not specified.
- Streak.FetchStreak: an exception thrown while reading the feed takes the same path as a failed request.

## Findings

| source | as written | input that shows it | evidently intended | confidence | as-written member | corrected member |
|---|---|---|---|---|---|---|
| assets/js/app.js:116-118 (and 152-154) | when today has no contribution, `continue` skips the step back to yesterday, so the next iteration tests today again and breaks: the streak is 0 | contribution days = {yesterday}, none today | skip today and count the run that ends yesterday (streak 1) | not executed | Streak.AsWrittenDropsYesterday | Streak.TolerantRunKeepsYesterday |

The dashboard's own streak (`Streak.WalkBack`, `Streak.FetchStreak`) keeps the walk as written, since that is what the page displays. `Streak.TolerantRun` and `Streak.TolerantWalkBack` are the corrected walk.
