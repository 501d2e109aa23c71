# Contributor repository queries of catwatch

catwatch collects statistics about an organization's open-source projects.
It stores one `Contributor` row per contributor, organization and snapshot
date. The custom part of its contributor repository answers two queries:

- `findAllTimeTopContributors(organizationId, snapshotDate, offset, limit)`:
  the contributors of one snapshot date, optionally of one organization,
  ranked by organizational commit count (largest first), paged by offset and
  limit.
- `findContributorsTimeSeries(organizationId, startDate, endDate, namePrefix)`:
  the rows of every snapshot in an optional date range, optionally of one
  organization and with names starting with a prefix. The most recent
  snapshot comes first, then the larger contributor key id.

The model covers both queries:

- Building the list of restrictions. A method appends to a sequence the way
  the source appends to its `ArrayList`.
- The failures raised before any rows are read.
- What the store does with the finished query: conjunction, selection, the
  multi-key `orderBy`, the `LIKE` operator and the offset/limit window.

The store is a sequence of rows passed to each operation. It stands in for
the persistence context. Each query's answer is specified by a predicate:

- `TopContributorsAnswer`: the matching rows in some order of non-increasing
  commit count, then windowed.
- `TimeSeriesAnswer`: every matching row, each as often as it is stored, in
  time-series order.

The methods are proved to produce such an answer. Lemmas then prove what
every such answer satisfies, and when the answer is unique.

Modules:

- `Wrappers`: `Option` and `Result`.
- `Contributors`: the entity, its composite key and the store's
  unique-key invariant.
- `SqlLike`: `LIKE` matching with `%` and `_`.
- `Criteria`: restrictions, their conjunction, selection, sorting by a list
  of sort keys (a stable insertion sort), and the window.
- `ContributorRepository`: the two operations and their properties.
- `RepositoryExamples`: worked examples over small stores.

A missing snapshot date ends `findAllTimeTopContributors` in the
`NullPointerException` that Guava's `checkNotNull` throws, with the message
"snapshot date must not be null but was", before any query is built
(ContributorRepositoryImpl.java:29). A negative offset or limit fails later,
when the query's window is set.

One place where the model follows the code rather than the interface's
description: the interface documents that the prefix "joh" matches "John".
The code emits a plain `LIKE 'joh%'`, so the match follows the database's
collation. The model takes a case-sensitive collation, so
`SqlLike.CaseSensitive` shows "joh" not matching "John".

Two consequences of the sort keys that the model makes explicit:

- The time-series order is guaranteed strict only within one organization over a
  store with unique keys (`TimeSeriesStrictOrder`, `TimeSeriesDeterministic`).
  Without an organization, rows of two organizations with the same key id
  and snapshot date tie (`TimeSeriesTieAcrossOrganizations`).
- The top-contributors ranking has no tie-break. When the limit cuts
  through rows of equal commit count, correct answers may hold different
  rows (`TopContributorsWindowSplitsTie`). They still agree on the commit
  count at every position (`TopContributorsCommitsDetermined`).

## Model

| member | source | states |
|---|---|---|
| ContributorRepository.FindAllTimeTopContributors | catwatch-backend/src/main/java/org/zalando/catwatch/backend/repo/ContributorRepositoryImpl.java:26-53 | A missing snapshot date fails with exactly the NullPointerException and its message, before anything else. Otherwise a negative offset, then a negative limit, fails. In every other case the result is a correct top-contributors answer for the offset (default 0) and limit (default 10000000). |
| ContributorRepository.TopContributorsOrder | catwatch-backend/src/main/java/org/zalando/catwatch/backend/repo/ContributorRepositoryImpl.java:50 | The ranking's sort keys: the organizational commit count, descending, and nothing else. |
| ContributorRepository.TopContributorsAnswer | catwatch-backend/src/main/java/org/zalando/catwatch/backend/repo/ContributorRepositoryImpl.java:46-53 | A correct answer: the window, at the given offset and limit, of some ordering of exactly the matching stored rows (each as often as stored) by non-increasing commit count. |
| ContributorRepository.TopContributorsPredicates | catwatch-backend/src/main/java/org/zalando/catwatch/backend/repo/ContributorRepositoryImpl.java:39-44 | The restriction list is an organization equality only when an organization is given, followed by a snapshot-date equality, which is always the last restriction. A row satisfies the conjunction iff it has that date and, if given, that organization. |
| ContributorRepository.Add | catwatch-backend/src/main/java/org/zalando/catwatch/backend/repo/ContributorRepositoryImpl.java:41 | Adding a restriction puts it at the end of the list. The conjunction becomes the old one and the new restriction. The restrictions per column and the LIKE patterns grow by exactly it. |
| ContributorRepository.TopContributorsRows | catwatch-backend/src/main/java/org/zalando/catwatch/backend/repo/ContributorRepositoryImpl.java:46-49 | Each stored row is selected as often as it is stored if it matches the date and organization, and not at all otherwise. |
| ContributorRepository.TopContributorsQueryCorrect | catwatch-backend/src/main/java/org/zalando/catwatch/backend/repo/ContributorRepositoryImpl.java:46-53 | Evaluating any restriction list whose conjunction means the intended match, then sorting by commit count and windowing, gives a correct answer. |
| ContributorRepository.TopContributorsOrderMeaning | catwatch-backend/src/main/java/org/zalando/catwatch/backend/repo/ContributorRepositoryImpl.java:50 | A sequence is sorted by the ranking order iff its commit counts are non-increasing, in both directions. |
| ContributorRepository.TopContributorsAnswerProperties | catwatch-backend/src/main/java/org/zalando/catwatch/backend/repo/ContributorRepositoryImpl.java:46-53 | Every answer row matches the query. Commit counts are non-increasing. The length is 0 when the offset is past the matching rows, else the smaller of the limit and the rows left. The answer is a sub-multiset of the matching rows. |
| ContributorRepository.DefaultWindow | catwatch-backend/src/main/java/org/zalando/catwatch/backend/repo/ContributorRepositoryImpl.java:51-52 | With neither offset nor limit, the answer holds every matching row when there are at most 10000000; otherwise exactly 10000000 rows. |
| ContributorRepository.FirstResult | catwatch-backend/src/main/java/org/zalando/catwatch/backend/repo/ContributorRepositoryImpl.java:51 | The rows skipped: the offset when given, 0 otherwise. |
| ContributorRepository.MaxResults | catwatch-backend/src/main/java/org/zalando/catwatch/backend/repo/ContributorRepositoryImpl.java:52 | The row limit: the limit when given, 10000000 otherwise. |
| ContributorRepository.TopContributorsCommitsDetermined | catwatch-backend/src/main/java/org/zalando/catwatch/backend/repo/ContributorRepositoryImpl.java:50-52 | Any two correct answers to the same query have the same length and the same commit count at every position. They may hold different rows of equal commit count, in any order, when the window cuts through a group of tied rows. |
| ContributorRepository.RankingsAgreeOnCommits | catwatch-backend/src/main/java/org/zalando/catwatch/backend/repo/ContributorRepositoryImpl.java:50 | Two rankings by commit count of the same rows have equal commit-count sequences. |
| ContributorRepository.WindowsAgreeOnCommits | catwatch-backend/src/main/java/org/zalando/catwatch/backend/repo/ContributorRepositoryImpl.java:51-52 | Windows cut at the same offset and limit from rankings with equal commit counts have equal commit counts. |
| ContributorRepository.CommitCountsMultiset | catwatch-backend/src/main/java/org/zalando/catwatch/backend/repo/ContributorRepositoryImpl.java:50 | Permutations of the same rows have permuted commit counts. |
| ContributorRepository.TimeSeriesOrder | catwatch-backend/src/main/java/org/zalando/catwatch/backend/repo/ContributorRepositoryImpl.java:88 | The time-series sort keys: the snapshot date descending, then the contributor key id descending. |
| ContributorRepository.TimeSeriesAnswer | catwatch-backend/src/main/java/org/zalando/catwatch/backend/repo/ContributorRepositoryImpl.java:85-88 | A correct answer: exactly the matching stored rows, each as often as stored, sorted by the time-series keys, with no window. |
| ContributorRepository.AddDateRestriction | catwatch-backend/src/main/java/org/zalando/catwatch/backend/repo/ContributorRepositoryImpl.java:73-79 | Exactly one date restriction when a bound is given: between with both bounds, >= with only a start, <= with only an end; none with neither. The conjunction gains the inclusive date-range test. |
| ContributorRepository.TimeSeriesPredicates | catwatch-backend/src/main/java/org/zalando/catwatch/backend/repo/ContributorRepositoryImpl.java:68-83 | A row satisfies the conjunction iff it matches the organization, date range and name pattern given. The date restriction follows the three-way choice. The organization restriction is present iff an organization is given. The only LIKE pattern is the prefix followed by "%", present iff a prefix is given. The list length is the number of these present. |
| ContributorRepository.TimeSeriesRows | catwatch-backend/src/main/java/org/zalando/catwatch/backend/repo/ContributorRepositoryImpl.java:85-87 | Each stored row is selected as often as it is stored if it matches organization, date range and name pattern, and not at all otherwise. |
| ContributorRepository.FindContributorsTimeSeries | catwatch-backend/src/main/java/org/zalando/catwatch/backend/repo/ContributorRepositoryImpl.java:57-88 | The result is a correct time-series answer. A row is in it iff it is stored and matches. Any earlier row has a later date, or the same date and a key id at least as large. |
| ContributorRepository.PrecedesInTimeSeries | catwatch-backend/src/main/java/org/zalando/catwatch/backend/repo/ContributorRepositoryImpl.java:88 | One row may precede another under the two descending sort keys iff its date is later, or equal with a key id at least as large. With `Criteria.Sorted` this is the time-series order on whole sequences. |
| ContributorRepository.TimeSeriesAnswerProperties | catwatch-backend/src/main/java/org/zalando/catwatch/backend/repo/ContributorRepositoryCustom.java:10-15 | Every correct answer holds exactly the stored matching rows and is in descending time order, then descending key id. |
| ContributorRepository.TimeSeriesLiteralPrefix | catwatch-backend/src/main/java/org/zalando/catwatch/backend/repo/ContributorRepositoryCustom.java:20 | For a prefix without wildcard characters, a row is in the answer iff it is stored, matches organization and range, and its name starts with the prefix. |
| ContributorRepository.TimeSeriesKeysUnique | catwatch-backend/src/main/java/org/zalando/catwatch/backend/repo/ContributorRepositoryCustom.java:11-13 | Over a store with unique keys, the answer has at most one row per contributor, organization and snapshot date. |
| ContributorRepository.TimeSeriesStrictOrder | catwatch-backend/src/main/java/org/zalando/catwatch/backend/repo/ContributorRepositoryCustom.java:15 | Within one organization over a store with unique keys, every earlier row has a later date, or the same date and a strictly larger key id. |
| ContributorRepository.TimeSeriesDeterministic | catwatch-backend/src/main/java/org/zalando/catwatch/backend/repo/ContributorRepositoryCustom.java:15 | Within one organization over a store with unique keys, any two correct answers are equal. |
| SqlLike.Like | catwatch-backend/src/main/java/org/zalando/catwatch/backend/repo/ContributorRepositoryImpl.java:81 | LIKE matching: "%" matches any run of characters, "_" exactly one, every other character itself (case-sensitively); the empty pattern matches only the empty name. |
| SqlLike.PercentMatchesAll | catwatch-backend/src/main/java/org/zalando/catwatch/backend/repo/ContributorRepositoryImpl.java:81 | The pattern "%" matches every name. |
| SqlLike.TrailingPercentPattern | catwatch-backend/src/main/java/org/zalando/catwatch/backend/repo/ContributorRepositoryImpl.java:81 | For a prefix without "%", the pattern prefix + "%" accepts a name iff the name starts with the prefix, each "_" standing for any one character. |
| SqlLike.LiteralPrefixPattern | catwatch-backend/src/main/java/org/zalando/catwatch/backend/repo/ContributorRepositoryImpl.java:81 | For a prefix without wildcards, prefix + "%" accepts a name iff the prefix is a prefix of the name. |
| SqlLike.UnescapedUnderscoreMatches | catwatch-backend/src/main/java/org/zalando/catwatch/backend/repo/ContributorRepositoryImpl.java:81 | The prefix "J_" is not escaped, so it lets "Jo" through although "Jo" does not start with "J_". |
| SqlLike.UnescapedPercentMatchesAll | catwatch-backend/src/main/java/org/zalando/catwatch/backend/repo/ContributorRepositoryImpl.java:81 | The prefix "%" is not escaped, so it lets every name through. |
| SqlLike.CaseSensitive | catwatch-backend/src/main/java/org/zalando/catwatch/backend/repo/ContributorRepositoryCustom.java:20 | Under a case-sensitive collation, the prefix "joh" does not match "John". |
| Criteria.Append | catwatch-backend/src/main/java/org/zalando/catwatch/backend/repo/ContributorRepositoryImpl.java:49 | Appending a restriction conjoins it: a row satisfies the extended list iff it satisfies the list and the restriction. It also appends its pattern to the LIKE patterns when it is a LIKE. |
| Criteria.AppendRestriction | catwatch-backend/src/main/java/org/zalando/catwatch/backend/repo/ContributorRepositoryImpl.java:49 | Appending a restriction adds it to the restrictions of its own column and no other. |
| Criteria.Holds | catwatch-backend/src/main/java/org/zalando/catwatch/backend/repo/ContributorRepositoryImpl.java:71-81 | What one restriction accepts: equal means the column has the value; between, greater-than-or-equal and less-than-or-equal keep their bounds (inclusive); like matches the name against the pattern. |
| Criteria.Conjunction | catwatch-backend/src/main/java/org/zalando/catwatch/backend/repo/ContributorRepositoryImpl.java:49 | A row satisfies a restriction list when every restriction in it holds; the empty list restricts nothing. |
| Criteria.Where | catwatch-backend/src/main/java/org/zalando/catwatch/backend/repo/ContributorRepositoryImpl.java:87 | The stored rows, in stored order, that satisfy the conjunction of the restriction list. |
| Criteria.Select | catwatch-backend/src/main/java/org/zalando/catwatch/backend/repo/ContributorRepositoryImpl.java:49 | Selection keeps each accepted row exactly as often as it occurs and drops every other row. |
| Criteria.SelectMembers | catwatch-backend/src/main/java/org/zalando/catwatch/backend/repo/ContributorRepositoryImpl.java:49 | A row is selected iff it occurs and is accepted. |
| Criteria.SelectAgrees | catwatch-backend/src/main/java/org/zalando/catwatch/backend/repo/ContributorRepositoryImpl.java:49 | Two acceptance tests that agree on every row select the same sequence. |
| Criteria.Precedes | catwatch-backend/src/main/java/org/zalando/catwatch/backend/repo/ContributorRepositoryImpl.java:88 | Whether one row may come before another under a list of sort keys: the first key on which they differ decides, by its direction; rows equal on every key may come in either order. |
| Criteria.Sorted | catwatch-backend/src/main/java/org/zalando/catwatch/backend/repo/ContributorRepositoryImpl.java:50 | Every row may precede every later row under the sort keys. |
| Criteria.PrecedesTotal | catwatch-backend/src/main/java/org/zalando/catwatch/backend/repo/ContributorRepositoryImpl.java:50 | Under any list of sort keys, of two rows at least one may precede the other. |
| Criteria.PrecedesTransitive | catwatch-backend/src/main/java/org/zalando/catwatch/backend/repo/ContributorRepositoryImpl.java:50 | Under any list of sort keys, "may precede" is transitive. |
| Criteria.Insert | catwatch-backend/src/main/java/org/zalando/catwatch/backend/repo/ContributorRepositoryImpl.java:50 | Inserting a row adds exactly that row to the contents. |
| Criteria.InsertSorted | catwatch-backend/src/main/java/org/zalando/catwatch/backend/repo/ContributorRepositoryImpl.java:50 | Inserting into a sorted sequence keeps it sorted. |
| Criteria.Sort | catwatch-backend/src/main/java/org/zalando/catwatch/backend/repo/ContributorRepositoryImpl.java:50 | Sorting permutes its input. |
| Criteria.SortSorted | catwatch-backend/src/main/java/org/zalando/catwatch/backend/repo/ContributorRepositoryImpl.java:88 | The sort's output is sorted by the given sort keys. |
| Criteria.SortedPermutationsEqual | catwatch-backend/src/main/java/org/zalando/catwatch/backend/repo/ContributorRepositoryImpl.java:88 | Two permutations of each other, both sorted by an order that is antisymmetric on their elements, are equal. |
| Criteria.Window | catwatch-backend/src/main/java/org/zalando/catwatch/backend/repo/ContributorRepositoryImpl.java:51-52 | The window skips the first rows and keeps at most the maximum of the rest, in order: its length is 0 past the end, else the smaller of the maximum and the rows left. |
| Criteria.WindowIsSlice | catwatch-backend/src/main/java/org/zalando/catwatch/backend/repo/ContributorRepositoryImpl.java:51-52 | The window is a contiguous slice of its input. |
| Criteria.WindowSubMultiset | catwatch-backend/src/main/java/org/zalando/catwatch/backend/repo/ContributorRepositoryImpl.java:51-52 | The window holds no row more often than its input does. |
| Criteria.WindowSorted | catwatch-backend/src/main/java/org/zalando/catwatch/backend/repo/ContributorRepositoryImpl.java:51-52 | A window of a sorted sequence is sorted. |
| Contributors.UniqueKeysNoRepeats | catwatch-backend/src/main/java/org/zalando/catwatch/backend/repo/ContributorRepositoryCustom.java:11-13 | Under unique keys no row occurs twice. |
| Contributors.UniqueKeysOfSubMultiset | catwatch-backend/src/main/java/org/zalando/catwatch/backend/repo/ContributorRepositoryCustom.java:11-13 | Rows drawn from a store with unique keys have unique keys. |
| RepositoryExamples.TimeSeriesExample | catwatch-backend/src/main/java/org/zalando/catwatch/backend/repo/ContributorRepositoryCustom.java:10-20 | For organization 123 (the documented example) and the range 2023-01-15 to 2023-02-28, the only correct answer is the two February rows, key id 8 before key id 7. |
| RepositoryExamples.TimeSeriesTieAcrossOrganizations | catwatch-backend/src/main/java/org/zalando/catwatch/backend/repo/ContributorRepositoryImpl.java:88 | Without an organization, two rows with the same key id and date in different organizations can come in either order. Both orders are correct answers. |
| RepositoryExamples.PaginationExample | catwatch-backend/src/main/java/org/zalando/catwatch/backend/repo/ContributorRepositoryImpl.java:51-52 | Offset 2 and limit 3 over ten matching rows return the third to fifth rows of a ranking, in order. |
| RepositoryExamples.TopContributorsWindowSplitsTie | catwatch-backend/src/main/java/org/zalando/catwatch/backend/repo/ContributorRepositoryImpl.java:50-52 | With one leader and two rows tied on commit count, limit 2 admits two correct answers holding different rows: the leader with either tied row. |

## Left out

- The persistence plumbing is not modelled: the entity manager, criteria builder, query objects and SQL generation. The store is a sequence of rows given to each operation. Storage failures, transactions and concurrent writers are out of scope.
- The `Contributor` and `ContributorKey` entity classes are not part of this model. Only the fields the queries name are kept: key id, organization id, snapshot date, name and organizational commit count.
- Dates are day numbers. `java.util.Date` carries a time of day and the database a time zone; comparisons are modelled at day granularity.
- The collation of `LIKE` and its default escape character are the database's. The model matches case-sensitively and lets no character escape another; several databases treat a backslash in the pattern as an escape even without an `ESCAPE` clause, so a prefix containing `\` can match differently there. A case-insensitive collation would make the documented "joh"/"John" example hold.
- The order of rows that tie on every sort key is left to the store. Answers are specified up to that order, and the model's stable sort is one admissible choice.
- ContributorRepository.FindAllTimeTopContributors: `offset` and `limit` are Java `Integer`s; their 32-bit range is not modelled, because no arithmetic is done on them.
- ContributorRepository.FindAllTimeTopContributors: the negative-argument failures stand for the `IllegalArgumentException` of `setFirstResult` and `setMaxResults`; their messages are the persistence provider's and are not modelled.
