# Contributor statistics, modelled in Dafny

`scripts/gh-statistics.py` walks the issues (and pull requests) that its
query returns, in the order the query returns them. For each item it reads
the creation month and the author's login. If the author has not been seen
before, it adds one to that month's entry in a `Counter` and remembers the
author in `seen_users`. Every item, new author or not, adds one to
`total_count`. At the end it prints `total_count` and then the counter's
items, sorted by `(year, month)`.

So each distinct author is counted exactly once, in the month of their
first item in iteration order. This is global first-appearance counting.

`gh_statistics.dfy` holds one module, `GhStatistics`:

- `Issue(year, month, user)` is one issue, reduced to what the loop
  reads. `Period` is a `(year, month)` pair.
- The reference meaning is stated without any loop. `Logins(s)` is the
  set of authors in `s`. `FirstIndex(s, u)` is the position of `u`'s
  first issue. `NewUsersIn(s, p)` is the set of authors whose first issue
  falls in month `p`. `FirstAppearance(s)` maps every such month to the
  size of that set.
- `CountContributors` is the loop of `main`. Its locals `seenUsers`,
  `counter` and `totalCount` are the script's three variables. It is
  proved to end with `Logins(issues)`, `FirstAppearance(issues)` and
  `|issues|`. The loop invariant says the same of every processed prefix.
- `FirstAppearanceSnoc` is the step the loop relies on. An issue by a
  seen author leaves the counter alone. An issue by a new author bumps
  the entry of its own month.
- `SortedItems` is `sorted(counter.items(), key=lambda x: x[0])`. It
  repeatedly emits the entry with the smallest key under Python's tuple
  order.
- `Statistics` is the whole of `main` after the query. It returns the
  printed total and the printed items.

## Model

| member | source | states |
|---|---|---|
| `GhStatistics.CountContributors` | scripts/gh-statistics.py:8-22 | after the loop, `totalCount` is the number of issues, `seenUsers` is exactly the set of authors, `counter` is the first-appearance counter, and the counter's values add up to the number of distinct authors, which is at most `totalCount` |
| `GhStatistics.FirstIndex` | scripts/gh-statistics.py:11-15 | the issue at the returned position is by `u`, and no earlier issue is by `u`, so `u` is credited at their first issue and never at a later one |
| `GhStatistics.FirstAppearance` | scripts/gh-statistics.py:14-17 | every key of the counter is the month of some processed issue, and every value is at least 1 |
| `GhStatistics.Bump` | scripts/gh-statistics.py:16 | `counter[p] += 1` on a `Counter`: a missing key reads as 0, the entry for `p` grows by one, and no other entry changes |
| `GhStatistics.LoginsSnoc` | scripts/gh-statistics.py:15-17 | after one more issue, the set of seen authors is the old set plus that issue's author |
| `GhStatistics.FirstIndexSnoc` | scripts/gh-statistics.py:15-20 | a later issue never moves an author's first issue |
| `GhStatistics.FirstIndexNewUser` | scripts/gh-statistics.py:15-17 | the first issue of a new author is the issue being processed |
| `GhStatistics.FirstPeriodSnoc` | scripts/gh-statistics.py:15-20 | a later issue never changes the month an author is credited to |
| `GhStatistics.NewUsersSnoc` | scripts/gh-statistics.py:15-17 | the authors credited to a month grow by the issue's author exactly when that author is new and the issue is in that month |
| `GhStatistics.FirstPeriodsSnoc` | scripts/gh-statistics.py:15-17 | the counter gains a key only for a new author, and that key is the issue's own month |
| `GhStatistics.FirstAppearanceAt` | scripts/gh-statistics.py:16 | unfolds the definition of the reference counter for one month (a month is a key exactly when some author's first issue is in it, and its value is the number of such authors); a bridge used by `Statistics`, not a result |
| `GhStatistics.FirstAppearanceSnocAt` | scripts/gh-statistics.py:15-20 | one entry of the counter after one more issue: it grows by one exactly when the author is new and the issue is in that month |
| `GhStatistics.FirstAppearanceSnoc` | scripts/gh-statistics.py:15-20 | an issue by a seen author leaves the counter unchanged; an issue by a new author bumps the entry of the issue's month |
| `GhStatistics.MapSumBump` | scripts/gh-statistics.py:16 | one increment adds exactly one to the sum of the counter's values |
| `GhStatistics.LoginsBound` | scripts/gh-statistics.py:15-22 | there are no more distinct authors than issues |
| `GhStatistics.SumStep` | scripts/gh-statistics.py:15-20 | one pass of the loop body keeps the counter's sum equal to the number of authors seen: a new author adds one to both, a seen author changes neither |
| `GhStatistics.FirstAppearanceSum` | scripts/gh-statistics.py:15-17 | each distinct author causes exactly one increment: the counter's values add up to the number of distinct authors |
| `GhStatistics.CounterSumBounded` | scripts/gh-statistics.py:15-22 | the counter's values add up to at most `total_count` |
| `GhStatistics.MonthCountBounded` | scripts/gh-statistics.py:15-22 | each month's count is at most the number of issues created in that month |
| `GhStatistics.PeriodLess` | scripts/gh-statistics.py:25 | Python's comparison of `(year, month)` tuples: by year, then by month; `PeriodLessStrictTotal` proves it a strict total order |
| `GhStatistics.PeriodLessStrictTotal` | scripts/gh-statistics.py:25 | the tuple order is irreflexive and transitive, and any two distinct months are ordered one way or the other, so sorting by it is well defined |
| `GhStatistics.MinPeriodExists` | scripts/gh-statistics.py:25 | every non-empty set of months has a least one under tuple order |
| `GhStatistics.MinKey` | scripts/gh-statistics.py:25 | the chosen key is in the counter and strictly below every other key |
| `GhStatistics.SortedItems` | scripts/gh-statistics.py:25 | `sorted(counter.items(), key=lambda x: x[0])`; its contract is stated by `SortedItemsKeys`, `SortedItemsEntries`, `SortedItemsAscending` and `SortedItemsSum` |
| `GhStatistics.SortedItemsKeys` | scripts/gh-statistics.py:25 | the sorted items carry exactly the counter's keys, one item per key |
| `GhStatistics.SortedItemsEntries` | scripts/gh-statistics.py:25 | every sorted item is an entry of the counter: a key with that key's count |
| `GhStatistics.SortedItemsAscending` | scripts/gh-statistics.py:25 | the sorted items are strictly ascending in `(year, month)` order |
| `GhStatistics.SortedItemsSum` | scripts/gh-statistics.py:25-26 | the printed counts add up to the sum of the counter's values |
| `GhStatistics.Statistics` | scripts/gh-statistics.py:8-26 | the printed total is the number of issues; the printed items are strictly ascending by month, cover exactly the months in which some author first appeared, give each month the number of authors who first appeared in it, and add up to the number of distinct authors |

## Left out

- The GitHub client and the `get_repo(...).get_issues(...)` query (scripts/gh-statistics.py:6-7) are network calls through a third-party library. The items are an input sequence instead, in the library's iteration order.
- The query's selection (`milestone="none", assignee="*", state="all"` at scripts/gh-statistics.py:7, which also returns pull requests) and its ordering are not modelled. The model takes the order as given and proves nothing about chronology: "first issue" means first in iteration order, and if the service returns newest first, an author is credited to the month of their latest item.
- Command-line parsing and the `__main__` block (scripts/gh-statistics.py:28-32) only pass the access token to the client.
- The `print` calls (scripts/gh-statistics.py:18, 20, 24 and 26) are output only. `Statistics` returns the total and the sorted items instead of printing them. The "Adding" and "Skipping" messages are the two branches of the loop.
- Reading `.year` and `.month` from the `datetime` at scripts/gh-statistics.py:12 and 16 is not modelled. Each issue carries its year and month as integers. The range 1..12 of the month is not checked, because no property depends on it.
- Logins are `seq<char>`. Python string equality is the only operation the script applies to them, and sequence equality models it.
- `allennlp/pretrained.py` and `allennlp/models/ensemble/ensemble.py` are not part of this model. They download archives and wrap framework classes, and say nothing that can be stated without that framework.
