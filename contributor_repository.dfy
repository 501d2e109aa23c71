/** The two custom queries of the contributor repository: which restrictions
    are composed from the optional arguments, which ordering is requested,
    and which window of the ordered rows is returned. The store is an
    in-memory sequence of rows standing in for the persistence context. */
module ContributorRepository {
  import opened Wrappers
  import opened Contributors
  import opened SqlLike
  import opened Criteria

  /** The exceptions `findAllTimeTopContributors` ends with: the one its
      null check throws on a missing date, and the `IllegalArgumentException`
      the query's `setFirstResult` and `setMaxResults` throw on a negative
      argument. */
  datatype QueryError =
    | NullPointerException(message: string)
    | NegativeFirstResult(firstResult: int)
    | NegativeMaxResults(maxResults: int)

  const SnapshotDateMessage := "snapshot date must not be null but was"

  /** The rows skipped when no offset is given. */
  const DefaultFirstResult: nat := 0

  /** The row limit applied when no limit is given. */
  const DefaultMaxResults: nat := 10000000

  /** Ranking by commit count, largest first, with no tie-break. */
  const TopContributorsOrder: seq<Order> := [Order(OrganizationalCommitsCount, Desc)]

  /** Most recent snapshot first, then the larger contributor key id first. */
  const TimeSeriesOrder: seq<Order> := [Order(SnapshotDate, Desc), Order(Id, Desc)]

  /** An optional window argument the query accepts: absent or not negative. */
  predicate NonNegative(n: Option<int>) {
    n.Some? ==> n.value >= 0
  }

  function FirstResult(offset: Option<int>): nat
    requires NonNegative(offset)
  {
    if offset.None? then DefaultFirstResult else offset.value
  }

  function MaxResults(limit: Option<int>): nat
    requires NonNegative(limit)
  {
    if limit.None? then DefaultMaxResults else limit.value
  }

  // ----- What each argument is meant to contribute, stated one at a time

  /** The organization restriction: none when no organization is given. */
  predicate OrganizationMatches(organizationId: Option<int>, c: Contributor) {
    organizationId.Some? ==> c.key.organizationId == organizationId.value
  }

  /** The date-range restriction: each bound given excludes the dates beyond
      it and keeps the bound itself. */
  predicate DateInRange(startDate: Option<Date>, endDate: Option<Date>, c: Contributor) {
    && (startDate.Some? ==> c.key.snapshotDate >= startDate.value)
    && (endDate.Some? ==> c.key.snapshotDate <= endDate.value)
  }

  /** The name restriction: the names the store's `LIKE prefix%` accepts. */
  predicate NameMatches(namePrefix: Option<string>, c: Contributor) {
    namePrefix.Some? ==> Like(namePrefix.value + "%", c.name)
  }

  /** A row the top-contributors query is meant to return: exactly the given
      snapshot date, and the given organization if there is one. */
  predicate TopContributorsMatch(organizationId: Option<int>, snapshotDate: Date, c: Contributor) {
    OrganizationMatches(organizationId, c) && c.key.snapshotDate == snapshotDate
  }

  /** A row the time-series query is meant to return. */
  predicate TimeSeriesMatch(organizationId: Option<int>, startDate: Option<Date>, endDate: Option<Date>,
                            namePrefix: Option<string>, c: Contributor)
  {
    OrganizationMatches(organizationId, c) && DateInRange(startDate, endDate, c) && NameMatches(namePrefix, c)
  }

  /** The stored rows the top-contributors query is meant to select, each
      as often as it is stored. */
  function TopContributorsRows(store: seq<Contributor>, organizationId: Option<int>, snapshotDate: Date)
    : (r: seq<Contributor>)
    ensures forall x :: multiset(r)[x] ==
                        if TopContributorsMatch(organizationId, snapshotDate, x) then multiset(store)[x] else 0
  {
    Select(store, c => TopContributorsMatch(organizationId, snapshotDate, c))
  }

  /** The stored rows the time-series query is meant to select, each as often
      as it is stored. */
  function TimeSeriesRows(store: seq<Contributor>, organizationId: Option<int>, startDate: Option<Date>,
                          endDate: Option<Date>, namePrefix: Option<string>): (r: seq<Contributor>)
    ensures forall x :: multiset(r)[x] ==
                        if TimeSeriesMatch(organizationId, startDate, endDate, namePrefix, x) then multiset(store)[x] else 0
  {
    Select(store, c => TimeSeriesMatch(organizationId, startDate, endDate, namePrefix, c))
  }

  /** A correct answer to the top-contributors query: the matching rows in
      some order of non-increasing commit count (the order among ties is the
      store's), windowed by `first` and `max`. */
  ghost predicate TopContributorsAnswer(store: seq<Contributor>, organizationId: Option<int>, snapshotDate: Date,
                                        first: nat, max: nat, r: seq<Contributor>)
  {
    exists ranked ::
      && multiset(ranked) == multiset(TopContributorsRows(store, organizationId, snapshotDate))
      && Sorted(TopContributorsOrder, ranked)
      && r == Window(ranked, first, max)
  }

  /** A correct answer to the time-series query: every matching row, each as
      often as it is stored, most recent first and then by key id. */
  predicate TimeSeriesAnswer(store: seq<Contributor>, organizationId: Option<int>, startDate: Option<Date>,
                             endDate: Option<Date>, namePrefix: Option<string>, r: seq<Contributor>)
  {
    && multiset(r) == multiset(TimeSeriesRows(store, organizationId, startDate, endDate, namePrefix))
    && Sorted(TimeSeriesOrder, r)
  }

  // ----- Building the `where` clause

  /** `andPredicates.add(p)`: one more restriction at the end of the list. */
  method Add(andPredicates: seq<Pred>, p: Pred) returns (extended: seq<Pred>)
    ensures extended == andPredicates + [p]
    ensures forall c :: Conjunction(extended, c) <==> Conjunction(andPredicates, c) && Holds(p, c)
    ensures RestrictionsOn(extended, OrganizationId) ==
            RestrictionsOn(andPredicates, OrganizationId) + (if OnField(p, OrganizationId) then [p] else [])
    ensures RestrictionsOn(extended, SnapshotDate) ==
            RestrictionsOn(andPredicates, SnapshotDate) + (if OnField(p, SnapshotDate) then [p] else [])
    ensures LikePatterns(extended) == LikePatterns(andPredicates) + (if p.NameLike? then [p.pattern] else [])
  {
    Append(andPredicates, p);
    AppendRestriction(andPredicates, p, OrganizationId);
    AppendRestriction(andPredicates, p, SnapshotDate);
    extended := andPredicates + [p];
  }

  /** The restrictions of the top-contributors query: the organization only
      when one is given, the snapshot date always. */
  method TopContributorsPredicates(organizationId: Option<int>, snapshotDate: Date)
    returns (andPredicates: seq<Pred>)
    ensures forall c :: Conjunction(andPredicates, c) <==> TopContributorsMatch(organizationId, snapshotDate, c)
    ensures RestrictionsOn(andPredicates, SnapshotDate) == [Equal(SnapshotDate, snapshotDate)]
    ensures RestrictionsOn(andPredicates, OrganizationId) ==
            if organizationId.Some? then [Equal(OrganizationId, organizationId.value)] else []
    ensures |andPredicates| == if organizationId.Some? then 2 else 1
    ensures andPredicates[|andPredicates| - 1] == Equal(SnapshotDate, snapshotDate)
  {
    andPredicates := [];
    if organizationId.Some? {
      andPredicates := Add(andPredicates, Equal(OrganizationId, organizationId.value));
    }
    andPredicates := Add(andPredicates, Equal(SnapshotDate, snapshotDate));
  }

  /** The date block of the time-series query: at most one restriction on
      the snapshot date, chosen by which bounds are given. */
  method AddDateRestriction(andPredicates: seq<Pred>, startDate: Option<Date>, endDate: Option<Date>)
    returns (extended: seq<Pred>)
    ensures forall c :: Conjunction(extended, c) <==> Conjunction(andPredicates, c) && DateInRange(startDate, endDate, c)
    ensures RestrictionsOn(extended, SnapshotDate) == RestrictionsOn(andPredicates, SnapshotDate) +
            if startDate.Some? && endDate.Some? then [Between(SnapshotDate, startDate.value, endDate.value)]
            else if startDate.Some? then [GreaterThanOrEqualTo(SnapshotDate, startDate.value)]
            else if endDate.Some? then [LessThanOrEqualTo(SnapshotDate, endDate.value)]
            else []
    ensures RestrictionsOn(extended, OrganizationId) == RestrictionsOn(andPredicates, OrganizationId)
    ensures LikePatterns(extended) == LikePatterns(andPredicates)
    ensures |extended| == |andPredicates| + if startDate.Some? || endDate.Some? then 1 else 0
  {
    extended := andPredicates;
    if startDate.Some? && endDate.Some? {
      extended := Add(extended, Between(SnapshotDate, startDate.value, endDate.value));
    } else if startDate.Some? {
      extended := Add(extended, GreaterThanOrEqualTo(SnapshotDate, startDate.value));
    } else if endDate.Some? {
      extended := Add(extended, LessThanOrEqualTo(SnapshotDate, endDate.value));
    }
  }

  /** The restrictions of the time-series query: an optional organization,
      at most one date restriction chosen by which bounds are given, and an
      optional name pattern. */
  method TimeSeriesPredicates(organizationId: Option<int>, startDate: Option<Date>, endDate: Option<Date>,
                              namePrefix: Option<string>)
    returns (andPredicates: seq<Pred>)
    ensures forall c :: Conjunction(andPredicates, c) <==>
                        TimeSeriesMatch(organizationId, startDate, endDate, namePrefix, c)
    ensures RestrictionsOn(andPredicates, SnapshotDate) ==
            if startDate.Some? && endDate.Some? then [Between(SnapshotDate, startDate.value, endDate.value)]
            else if startDate.Some? then [GreaterThanOrEqualTo(SnapshotDate, startDate.value)]
            else if endDate.Some? then [LessThanOrEqualTo(SnapshotDate, endDate.value)]
            else []
    ensures RestrictionsOn(andPredicates, OrganizationId) ==
            if organizationId.Some? then [Equal(OrganizationId, organizationId.value)] else []
    ensures LikePatterns(andPredicates) == if namePrefix.Some? then [namePrefix.value + "%"] else []
    ensures |andPredicates| == (if organizationId.Some? then 1 else 0)
                             + (if startDate.Some? || endDate.Some? then 1 else 0)
                             + (if namePrefix.Some? then 1 else 0)
  {
    andPredicates := [];
    if organizationId.Some? {
      andPredicates := Add(andPredicates, Equal(OrganizationId, organizationId.value));
    }
    andPredicates := AddDateRestriction(andPredicates, startDate, endDate);
    if namePrefix.Some? {
      andPredicates := Add(andPredicates, NameLike(namePrefix.value + "%"));
    }
  }

  // ----- The two queries

  /** `findAllTimeTopContributors`: fails on a missing snapshot date before
      any query is built, then on a negative offset, then on a negative
      limit; otherwise returns the window of the matching rows ranked by
      commit count. */
  method FindAllTimeTopContributors(store: seq<Contributor>, organizationId: Option<int>, snapshotDate: Option<Date>,
                                    offset: Option<int>, limit: Option<int>)
    returns (result: Result<seq<Contributor>, QueryError>)
    ensures snapshotDate.None? <==> result == Failure(NullPointerException(SnapshotDateMessage))
    ensures snapshotDate.Some? && !NonNegative(offset) <==> result.Failure? && result.error.NegativeFirstResult?
    ensures result.Failure? && result.error.NegativeFirstResult? ==> offset == Some(result.error.firstResult)
    ensures snapshotDate.Some? && NonNegative(offset) && !NonNegative(limit) <==>
            result.Failure? && result.error.NegativeMaxResults?
    ensures result.Failure? && result.error.NegativeMaxResults? ==> limit == Some(result.error.maxResults)
    ensures result.Success? <==> snapshotDate.Some? && NonNegative(offset) && NonNegative(limit)
    ensures result.Success? ==>
              TopContributorsAnswer(store, organizationId, snapshotDate.value,
                                    FirstResult(offset), MaxResults(limit), result.value)
  {
    if snapshotDate.None? {
      return Failure(NullPointerException(SnapshotDateMessage));
    }
    var date := snapshotDate.value;
    var andPredicates := TopContributorsPredicates(organizationId, date);
    if !NonNegative(offset) {
      return Failure(NegativeFirstResult(offset.value));
    }
    if !NonNegative(limit) {
      return Failure(NegativeMaxResults(limit.value));
    }
    var selected := Where(store, andPredicates);
    var ranked := Sort(TopContributorsOrder, selected);
    var rows := Window(ranked, FirstResult(offset), MaxResults(limit));
    TopContributorsQueryCorrect(store, organizationId, date, andPredicates, FirstResult(offset), MaxResults(limit));
    result := Success(rows);
  }

  /** `findContributorsTimeSeries`: every matching row, one per stored
      (contributor, snapshot date), most recent first then by key id, with
      no window. */
  method FindContributorsTimeSeries(store: seq<Contributor>, organizationId: Option<int>, startDate: Option<Date>,
                                    endDate: Option<Date>, namePrefix: Option<string>)
    returns (rows: seq<Contributor>)
    ensures TimeSeriesAnswer(store, organizationId, startDate, endDate, namePrefix, rows)
    ensures forall c :: c in rows <==> c in store && TimeSeriesMatch(organizationId, startDate, endDate, namePrefix, c)
    ensures forall i, j :: 0 <= i < j < |rows| ==>
              || rows[i].key.snapshotDate > rows[j].key.snapshotDate
              || (rows[i].key.snapshotDate == rows[j].key.snapshotDate && rows[i].key.id >= rows[j].key.id)
  {
    var andPredicates := TimeSeriesPredicates(organizationId, startDate, endDate, namePrefix);
    var selected := Where(store, andPredicates);
    rows := Sort(TimeSeriesOrder, selected);
    SelectAgrees(store, c => Conjunction(andPredicates, c),
                 c => TimeSeriesMatch(organizationId, startDate, endDate, namePrefix, c));
    SortSorted(TimeSeriesOrder, selected);
    TimeSeriesAnswerProperties(store, organizationId, startDate, endDate, namePrefix, rows);
  }

  // ----- What the orderings mean

  /** Sorted by the ranking order means non-increasing commit counts. */
  lemma TopContributorsOrderMeaning(s: seq<Contributor>)
    ensures Sorted(TopContributorsOrder, s) <==>
            forall i, j :: 0 <= i < j < |s| ==> s[i].organizationalCommitsCount >= s[j].organizationalCommitsCount
  {
  }

  // ----- Properties of every correct answer

  /** Evaluating restrictions with the intended meaning, ranking and
      windowing gives a correct answer. */
  lemma TopContributorsQueryCorrect(store: seq<Contributor>, organizationId: Option<int>, snapshotDate: Date,
                                    andPredicates: seq<Pred>, first: nat, max: nat)
    requires forall c :: Conjunction(andPredicates, c) <==> TopContributorsMatch(organizationId, snapshotDate, c)
    ensures TopContributorsAnswer(store, organizationId, snapshotDate, first, max,
                                  Window(Sort(TopContributorsOrder, Where(store, andPredicates)), first, max))
  {
    var selected := Where(store, andPredicates);
    SelectAgrees(store, c => Conjunction(andPredicates, c), c => TopContributorsMatch(organizationId, snapshotDate, c));
    assert selected == TopContributorsRows(store, organizationId, snapshotDate);
    SortSorted(TopContributorsOrder, selected);
  }

  lemma TopContributorsAnswerProperties(store: seq<Contributor>, organizationId: Option<int>, snapshotDate: Date,
                                        first: nat, max: nat, r: seq<Contributor>)
    requires TopContributorsAnswer(store, organizationId, snapshotDate, first, max, r)
    ensures forall c :: c in r ==> TopContributorsMatch(organizationId, snapshotDate, c)
    ensures forall i, j :: 0 <= i < j < |r| ==> r[i].organizationalCommitsCount >= r[j].organizationalCommitsCount
    ensures var n := |TopContributorsRows(store, organizationId, snapshotDate)|;
            |r| == if first >= n then 0 else Min(max, n - first)
    ensures multiset(r) <= multiset(TopContributorsRows(store, organizationId, snapshotDate))
  {
    var rows := TopContributorsRows(store, organizationId, snapshotDate);
    var ranked :| && multiset(ranked) == multiset(rows)
                  && Sorted(TopContributorsOrder, ranked)
                  && r == Window(ranked, first, max);
    assert |ranked| == |rows| by {
      assert |ranked| == |multiset(ranked)|;
      assert |rows| == |multiset(rows)|;
    }
    assert Sorted(TopContributorsOrder, r) by {
      WindowSorted(TopContributorsOrder, ranked, first, max);
    }
    TopContributorsOrderMeaning(r);
    assert multiset(r) <= multiset(rows) by {
      WindowSubMultiset(ranked, first, max);
    }
    SelectedRowsMatch(store, c => TopContributorsMatch(organizationId, snapshotDate, c), r);
  }

  /** Without an offset and a limit, an answer holds every matching row as
      long as there are no more than the default limit of them, and exactly
      the default limit of rows otherwise. */
  lemma DefaultWindow(store: seq<Contributor>, organizationId: Option<int>, snapshotDate: Date, r: seq<Contributor>)
    requires TopContributorsAnswer(store, organizationId, snapshotDate, FirstResult(None), MaxResults(None), r)
    ensures var rows := TopContributorsRows(store, organizationId, snapshotDate);
            if |rows| <= DefaultMaxResults then multiset(r) == multiset(rows) else |r| == DefaultMaxResults
  {
    var rows := TopContributorsRows(store, organizationId, snapshotDate);
    var ranked :| && multiset(ranked) == multiset(rows)
                  && Sorted(TopContributorsOrder, ranked)
                  && r == Window(ranked, 0, DefaultMaxResults);
    assert |ranked| == |rows| by {
      assert |ranked| == |multiset(ranked)|;
      assert |rows| == |multiset(rows)|;
    }
    if |rows| <= DefaultMaxResults {
      assert r == ranked;
    }
  }

  /** Rows drawn from a selection satisfy its acceptance test. */
  lemma SelectedRowsMatch(store: seq<Contributor>, keep: Contributor -> bool, r: seq<Contributor>)
    requires multiset(r) <= multiset(Select(store, keep))
    ensures forall c :: c in r ==> keep(c)
  {
    forall c | c in r ensures keep(c) {
      assert multiset(r)[c] > 0;
    }
  }

  lemma TimeSeriesAnswerProperties(store: seq<Contributor>, organizationId: Option<int>, startDate: Option<Date>,
                                   endDate: Option<Date>, namePrefix: Option<string>, r: seq<Contributor>)
    requires TimeSeriesAnswer(store, organizationId, startDate, endDate, namePrefix, r)
    ensures forall c :: c in r <==> c in store && TimeSeriesMatch(organizationId, startDate, endDate, namePrefix, c)
    ensures forall i, j :: 0 <= i < j < |r| ==>
              || r[i].key.snapshotDate > r[j].key.snapshotDate
              || (r[i].key.snapshotDate == r[j].key.snapshotDate && r[i].key.id >= r[j].key.id)
  {
    forall a, b {
      PrecedesInTimeSeries(a, b);
    }
    var keep := c => TimeSeriesMatch(organizationId, startDate, endDate, namePrefix, c);
    forall c ensures c in r <==> c in store && keep(c) {
      assert c in r <==> multiset(r)[c] > 0;
      assert c in store <==> multiset(store)[c] > 0;
    }
  }

  /** With a literal prefix (no `%`, no `_`), the name restriction is the
      prefix test: the answer holds exactly the stored rows in range whose
      name starts with the prefix. */
  lemma TimeSeriesLiteralPrefix(store: seq<Contributor>, organizationId: Option<int>, startDate: Option<Date>,
                                endDate: Option<Date>, prefix: string, r: seq<Contributor>)
    requires Literal(prefix)
    requires TimeSeriesAnswer(store, organizationId, startDate, endDate, Some(prefix), r)
    ensures forall c :: c in r <==>
              c in store && OrganizationMatches(organizationId, c) && DateInRange(startDate, endDate, c) && prefix <= c.name
  {
    TimeSeriesAnswerProperties(store, organizationId, startDate, endDate, Some(prefix), r);
    forall c: Contributor {
      LiteralPrefixPattern(prefix, c.name);
    }
  }

  // ----- One row per contributor and snapshot date; when the order is strict

  /** When the store's keys are unique, so are the answer's: each
      (contributor, organization, snapshot date) appears at most once. */
  lemma TimeSeriesKeysUnique(store: seq<Contributor>, organizationId: Option<int>, startDate: Option<Date>,
                             endDate: Option<Date>, namePrefix: Option<string>, r: seq<Contributor>)
    requires UniqueKeys(store)
    requires TimeSeriesAnswer(store, organizationId, startDate, endDate, namePrefix, r)
    ensures UniqueKeys(r)
  {
    var rows := TimeSeriesRows(store, organizationId, startDate, endDate, namePrefix);
    assert multiset(rows) <= multiset(store);
    UniqueKeysOfSubMultiset(r, store);
  }

  /** The time-series order on two rows: a later snapshot date first, and on
      the same date a key id at least as large. */
  lemma PrecedesInTimeSeries(a: Contributor, b: Contributor)
    ensures Precedes(TimeSeriesOrder, a, b) <==>
            || a.key.snapshotDate > b.key.snapshotDate
            || (a.key.snapshotDate == b.key.snapshotDate && a.key.id >= b.key.id)
  {
    assert TimeSeriesOrder[1..] == [Order(Id, Desc)];
    assert TimeSeriesOrder[1..][1..] == [];
  }

  /** Within one organization over a store with unique keys, the order is
      strict: a later snapshot date first, and on the same date a strictly
      larger key id first. */
  lemma TimeSeriesStrictOrder(store: seq<Contributor>, organizationId: Option<int>, startDate: Option<Date>,
                              endDate: Option<Date>, namePrefix: Option<string>, r: seq<Contributor>)
    requires UniqueKeys(store) && organizationId.Some?
    requires TimeSeriesAnswer(store, organizationId, startDate, endDate, namePrefix, r)
    ensures forall i, j :: 0 <= i < j < |r| ==>
              || r[i].key.snapshotDate > r[j].key.snapshotDate
              || (r[i].key.snapshotDate == r[j].key.snapshotDate && r[i].key.id > r[j].key.id)
  {
    TimeSeriesKeysUnique(store, organizationId, startDate, endDate, namePrefix, r);
    TimeSeriesAnswerProperties(store, organizationId, startDate, endDate, namePrefix, r);
    forall i, j | 0 <= i < j < |r|
      ensures || r[i].key.snapshotDate > r[j].key.snapshotDate
              || (r[i].key.snapshotDate == r[j].key.snapshotDate && r[i].key.id > r[j].key.id)
    {
      assert r[i] in r && r[j] in r;
      assert r[i].key.organizationId == r[j].key.organizationId == organizationId.value;
      assert r[i].key != r[j].key;
    }
  }

  /** Within one organization over a store with unique keys, the answer is
      fully determined: any two correct answers are equal. */
  lemma TimeSeriesDeterministic(store: seq<Contributor>, organizationId: Option<int>, startDate: Option<Date>,
                                endDate: Option<Date>, namePrefix: Option<string>, r1: seq<Contributor>,
                                r2: seq<Contributor>)
    requires UniqueKeys(store) && organizationId.Some?
    requires TimeSeriesAnswer(store, organizationId, startDate, endDate, namePrefix, r1)
    requires TimeSeriesAnswer(store, organizationId, startDate, endDate, namePrefix, r2)
    ensures r1 == r2
  {
    var le := (a: Contributor, b: Contributor) => Precedes(TimeSeriesOrder, a, b);
    TimeSeriesStrictOrder(store, organizationId, startDate, endDate, namePrefix, r1);
    forall a, b | a in r1 && b in r1 && le(a, b) && le(b, a) ensures a == b {
      var i :| 0 <= i < |r1| && r1[i] == a;
      var j :| 0 <= j < |r1| && r1[j] == b;
      PrecedesInTimeSeries(a, b);
      PrecedesInTimeSeries(b, a);
    }
    SortedPermutationsEqual(le, r1, r2);
  }

  // ----- The ranking is determined up to ties

  /** The commit counts of `s`, position by position. */
  function CommitCounts(s: seq<Contributor>): (r: seq<int>)
    ensures |r| == |s|
    ensures forall i :: 0 <= i < |s| ==> r[i] == s[i].organizationalCommitsCount
  {
    if s == [] then [] else [s[0].organizationalCommitsCount] + CommitCounts(s[1..])
  }

  /** Commit counts of a concatenation are the concatenated counts. */
  lemma CommitCountsConcat(a: seq<Contributor>, b: seq<Contributor>)
    ensures CommitCounts(a + b) == CommitCounts(a) + CommitCounts(b)
  {
    assert forall i :: 0 <= i < |a + b| ==> CommitCounts(a + b)[i] == (CommitCounts(a) + CommitCounts(b))[i];
  }

  lemma RemoveAt(t: seq<Contributor>, k: nat)
    requires k < |t|
    ensures multiset(t[..k] + t[k + 1..]) == multiset(t) - multiset{t[k]}
  {
    assert t == t[..k] + [t[k]] + t[k + 1..];
  }

  /** Taking row `m` out removes exactly its commit count. */
  lemma CountsAround(before: seq<Contributor>, m: Contributor, after: seq<Contributor>)
    ensures multiset(CommitCounts(before + [m] + after)) ==
            multiset(CommitCounts(before + after)) + multiset{m.organizationalCommitsCount}
  {
    assert before + [m] + after == before + ([m] + after);
    CommitCountsConcat(before, [m] + after);
    CommitCountsConcat([m], after);
    CommitCountsConcat(before, after);
    assert CommitCounts([m]) == [m.organizationalCommitsCount];
  }

  lemma {:induction false} CommitCountsMultiset(s: seq<Contributor>, t: seq<Contributor>)
    requires multiset(s) == multiset(t)
    ensures multiset(CommitCounts(s)) == multiset(CommitCounts(t))
    decreases |s|
  {
    if s == [] {
      assert |t| == |multiset(t)| == 0;
    } else {
      assert s[0] in multiset(s);
      var k := IndexOf(t, s[0]);
      var before, after := t[..k], t[k + 1..];
      assert t == before + [s[0]] + after;
      assert multiset(s[1..]) == multiset(before + after) by {
        RemoveAt(t, k);
        assert s == [s[0]] + s[1..];
      }
      CommitCountsMultiset(s[1..], before + after);
      CountsAround(before, s[0], after);
      assert multiset(CommitCounts(s)) ==
             multiset(CommitCounts(s[1..])) + multiset{s[0].organizationalCommitsCount} by {
        assert CommitCounts(s) == [s[0].organizationalCommitsCount] + CommitCounts(s[1..]);
      }
    }
  }

  /** Two rankings of the same rows agree on the commit count at every
      position. */
  lemma RankingsAgreeOnCommits(ranked1: seq<Contributor>, ranked2: seq<Contributor>)
    requires multiset(ranked1) == multiset(ranked2)
    requires Sorted(TopContributorsOrder, ranked1) && Sorted(TopContributorsOrder, ranked2)
    ensures CommitCounts(ranked1) == CommitCounts(ranked2)
  {
    CommitCountsMultiset(ranked1, ranked2);
    TopContributorsOrderMeaning(ranked1);
    TopContributorsOrderMeaning(ranked2);
    SortedPermutationsEqual((x: int, y: int) => x >= y, CommitCounts(ranked1), CommitCounts(ranked2));
  }

  /** Correct answers to the same top-contributors query have the same
      length and the same commit count at every position. They may still
      differ in which rows of equal commit count they hold, and in their
      order, when the window cuts through a group of tied rows. */
  lemma TopContributorsCommitsDetermined(store: seq<Contributor>, organizationId: Option<int>, snapshotDate: Date,
                                         first: nat, max: nat, r1: seq<Contributor>, r2: seq<Contributor>)
    requires TopContributorsAnswer(store, organizationId, snapshotDate, first, max, r1)
    requires TopContributorsAnswer(store, organizationId, snapshotDate, first, max, r2)
    ensures CommitCounts(r1) == CommitCounts(r2)
  {
    var rows := TopContributorsRows(store, organizationId, snapshotDate);
    var ranked1 :| && multiset(ranked1) == multiset(rows)
                   && Sorted(TopContributorsOrder, ranked1)
                   && r1 == Window(ranked1, first, max);
    var ranked2 :| && multiset(ranked2) == multiset(rows)
                   && Sorted(TopContributorsOrder, ranked2)
                   && r2 == Window(ranked2, first, max);
    RankingsAgreeOnCommits(ranked1, ranked2);
    WindowsAgreeOnCommits(ranked1, ranked2, first, max);
  }

  lemma WindowsAgreeOnCommits(ranked1: seq<Contributor>, ranked2: seq<Contributor>, first: nat, max: nat)
    requires CommitCounts(ranked1) == CommitCounts(ranked2)
    ensures CommitCounts(Window(ranked1, first, max)) == CommitCounts(Window(ranked2, first, max))
  {
    var counts1, counts2 := CommitCounts(ranked1), CommitCounts(ranked2);
    var w1, w2 := Window(ranked1, first, max), Window(ranked2, first, max);
    assert |ranked1| == |counts1| == |counts2| == |ranked2|;
    forall i | 0 <= i < |w1| ensures w1[i].organizationalCommitsCount == w2[i].organizationalCommitsCount {
      assert counts1[first + i] == counts2[first + i];
    }
  }
}
