/** Worked examples of the two queries over small stores. Dates are day
    numbers counted from 1970-01-01. */
module RepositoryExamples {
  import opened Wrappers
  import opened Contributors
  import opened Criteria
  import opened ContributorRepository

  const Jan1: Date := 19358   // 2023-01-01
  const Jan15: Date := 19372  // 2023-01-15
  const Feb1: Date := 19389   // 2023-02-01
  const Feb28: Date := 19416  // 2023-02-28

  const AliceJan := Contributor(ContributorKey(7, 123, Jan1), "Alice", 4)
  const BobJan := Contributor(ContributorKey(8, 123, Jan1), "Bob", 2)
  const AliceFeb := Contributor(ContributorKey(7, 123, Feb1), "Alice", 6)
  const BobFeb := Contributor(ContributorKey(8, 123, Feb1), "Bob", 3)

  /** Two contributors of organization 123, each with a January and a
      February snapshot. */
  const Snapshots := [AliceJan, BobJan, AliceFeb, BobFeb]

  /** Only the February rows fall in 2023-01-15 to 2023-02-28. */
  lemma FebruaryRowsMatch()
    ensures !TimeSeriesMatch(Some(123), Some(Jan15), Some(Feb28), None, AliceJan)
    ensures !TimeSeriesMatch(Some(123), Some(Jan15), Some(Feb28), None, BobJan)
    ensures TimeSeriesMatch(Some(123), Some(Jan15), Some(Feb28), None, AliceFeb)
    ensures TimeSeriesMatch(Some(123), Some(Jan15), Some(Feb28), None, BobFeb)
  {
  }

  /** The rows selected for that range are the two February rows, once each. */
  lemma FebruaryRows()
    ensures multiset(TimeSeriesRows(Snapshots, Some(123), Some(Jan15), Some(Feb28), None))
            == multiset{AliceFeb, BobFeb}
  {
    var rows := TimeSeriesRows(Snapshots, Some(123), Some(Jan15), Some(Feb28), None);
    FebruaryRowsMatch();
    assert multiset(Snapshots) == multiset{AliceJan, BobJan, AliceFeb, BobFeb};
    forall x ensures multiset(rows)[x] == multiset{AliceFeb, BobFeb}[x] {
      if x == AliceFeb || x == BobFeb {
        assert multiset(Snapshots)[x] == 1;
      }
    }
  }

  /** No two stored snapshots share a key. */
  lemma SnapshotsUniqueKeys()
    ensures UniqueKeys(Snapshots)
  {
    var keys := [AliceJan.key, BobJan.key, AliceFeb.key, BobFeb.key];
    assert forall i :: 0 <= i < 4 ==> Snapshots[i].key == keys[i];
    forall i, j | 0 <= i < 4 && 0 <= j < 4 && i != j ensures keys[i] != keys[j] {
      assert keys[i].id % 2 != keys[j].id % 2 || keys[i].snapshotDate != keys[j].snapshotDate;
    }
  }

  /** A two-row sequence is sorted when its first row may precede its second. */
  lemma SortedPair(orders: seq<Order>, a: Contributor, b: Contributor)
    requires Precedes(orders, a, b)
    ensures Sorted(orders, [a, b])
  {
  }

  /** Bob's February row, then Alice's, answers the query. */
  lemma FebruaryAnswer()
    ensures TimeSeriesAnswer(Snapshots, Some(123), Some(Jan15), Some(Feb28), None, [BobFeb, AliceFeb])
  {
    FebruaryRows();
    assert multiset([BobFeb, AliceFeb]) == multiset{AliceFeb, BobFeb};
    PrecedesInTimeSeries(BobFeb, AliceFeb);
    SortedPair(TimeSeriesOrder, BobFeb, AliceFeb);
  }

  /** Asking organization 123 for 2023-01-15 to 2023-02-28 yields exactly the
      February rows, Bob (key id 8) before Alice (key id 7). */
  lemma TimeSeriesExample(r: seq<Contributor>)
    requires TimeSeriesAnswer(Snapshots, Some(123), Some(Jan15), Some(Feb28), None, r)
    ensures r == [BobFeb, AliceFeb]
  {
    FebruaryAnswer();
    SnapshotsUniqueKeys();
    TimeSeriesDeterministic(Snapshots, Some(123), Some(Jan15), Some(Feb28), None, r, [BobFeb, AliceFeb]);
  }

  /** One contributor's snapshots of the same day in two organizations, under
      the same key id. */
  const AliceOrg1 := Contributor(ContributorKey(7, 1, Feb1), "Alice", 6)
  const AliceOrg2 := Contributor(ContributorKey(7, 2, Feb1), "Alice", 9)

  /** With no restriction both rows are selected, once each. */
  lemma TieRows()
    ensures multiset(TimeSeriesRows([AliceOrg1, AliceOrg2], None, None, None, None)) == multiset{AliceOrg1, AliceOrg2}
  {
    assert TimeSeriesMatch(None, None, None, None, AliceOrg1);
    assert TimeSeriesMatch(None, None, None, None, AliceOrg2);
    assert multiset([AliceOrg1, AliceOrg2]) == multiset{AliceOrg1, AliceOrg2};
  }

  /** Without an organization, rows of two organizations that share a key id
      and a snapshot date tie on both sort keys, so either order is a correct
      answer: the order is fully determined only within one organization. */
  lemma TimeSeriesTieAcrossOrganizations()
    ensures UniqueKeys([AliceOrg1, AliceOrg2])
    ensures TimeSeriesAnswer([AliceOrg1, AliceOrg2], None, None, None, None, [AliceOrg1, AliceOrg2])
    ensures TimeSeriesAnswer([AliceOrg1, AliceOrg2], None, None, None, None, [AliceOrg2, AliceOrg1])
    ensures [AliceOrg1, AliceOrg2] != [AliceOrg2, AliceOrg1]
  {
    TieRows();
    PrecedesInTimeSeries(AliceOrg1, AliceOrg2);
    PrecedesInTimeSeries(AliceOrg2, AliceOrg1);
    SortedPair(TimeSeriesOrder, AliceOrg1, AliceOrg2);
    SortedPair(TimeSeriesOrder, AliceOrg2, AliceOrg1);
    assert multiset([AliceOrg1, AliceOrg2]) == multiset{AliceOrg1, AliceOrg2};
    assert multiset([AliceOrg2, AliceOrg1]) == multiset{AliceOrg1, AliceOrg2};
  }

  /** One leader and two contributors tied on commit count, all of one
      snapshot date. */
  const Leader := Contributor(ContributorKey(1, 5, Jan1), "Ann", 5)
  const TiedFirst := Contributor(ContributorKey(2, 5, Jan1), "Ben", 3)
  const TiedSecond := Contributor(ContributorKey(3, 5, Jan1), "Cid", 3)
  const Ranking := [Leader, TiedFirst, TiedSecond]

  /** Every row of `Ranking` is selected, once each. */
  lemma RankingRows()
    ensures multiset(TopContributorsRows(Ranking, None, Jan1)) == multiset{Leader, TiedFirst, TiedSecond}
  {
    assert TopContributorsMatch(None, Jan1, Leader);
    assert TopContributorsMatch(None, Jan1, TiedFirst);
    assert TopContributorsMatch(None, Jan1, TiedSecond);
    assert multiset(Ranking) == multiset{Leader, TiedFirst, TiedSecond};
  }

  /** Any ranking of the matching rows, windowed, is a correct answer. */
  lemma AnswerOfRanking(store: seq<Contributor>, organizationId: Option<int>, snapshotDate: Date,
                        first: nat, max: nat, ranked: seq<Contributor>)
    requires multiset(ranked) == multiset(TopContributorsRows(store, organizationId, snapshotDate))
    requires Sorted(TopContributorsOrder, ranked)
    ensures TopContributorsAnswer(store, organizationId, snapshotDate, first, max, Window(ranked, first, max))
  {
  }

  /** Leader first, then the two tied rows in either order, holds the rows
      of `Ranking`. */
  lemma TieOrderPermutes(tied1: Contributor, tied2: Contributor)
    requires || (tied1 == TiedFirst && tied2 == TiedSecond)
             || (tied1 == TiedSecond && tied2 == TiedFirst)
    ensures multiset([Leader, tied1, tied2]) == multiset(TopContributorsRows(Ranking, None, Jan1))
  {
    RankingRows();
    if tied1 == TiedFirst {
      assert multiset([Leader, tied1, tied2]) == multiset{Leader, TiedFirst, TiedSecond};
    } else {
      assert multiset([Leader, tied1, tied2]) == multiset{Leader, TiedSecond, TiedFirst};
    }
  }

  /** Leader first, then two rows of three commits, is ranked. */
  lemma TieOrderSorted(tied1: Contributor, tied2: Contributor)
    requires tied1.organizationalCommitsCount == tied2.organizationalCommitsCount == 3
    ensures Sorted(TopContributorsOrder, [Leader, tied1, tied2])
  {
    TopContributorsOrderMeaning([Leader, tied1, tied2]);
  }

  /** Cutting that ranking to two rows gives a correct answer. */
  lemma RankingWithTieOrder(tied1: Contributor, tied2: Contributor)
    requires || (tied1 == TiedFirst && tied2 == TiedSecond)
             || (tied1 == TiedSecond && tied2 == TiedFirst)
    ensures TopContributorsAnswer(Ranking, None, Jan1, 0, 2, [Leader, tied1])
  {
    var ranked := [Leader, tied1, tied2];
    TieOrderPermutes(tied1, tied2);
    TieOrderSorted(tied1, tied2);
    AnswerOfRanking(Ranking, None, Jan1, 0, 2, ranked);
    assert Window(ranked, 0, 2) == [Leader, tied1];
  }

  /** A limit that cuts through rows of equal commit count leaves the store
      free to return either of them: two correct answers may hold different
      rows, though their commit counts agree position by position. */
  lemma TopContributorsWindowSplitsTie()
    ensures TopContributorsAnswer(Ranking, None, Jan1, 0, 2, [Leader, TiedFirst])
    ensures TopContributorsAnswer(Ranking, None, Jan1, 0, 2, [Leader, TiedSecond])
    ensures multiset([Leader, TiedFirst]) != multiset([Leader, TiedSecond])
  {
    RankingWithTieOrder(TiedFirst, TiedSecond);
    RankingWithTieOrder(TiedSecond, TiedFirst);
    assert TiedFirst !in multiset([Leader, TiedSecond]);
  }

  /** Offset 2 and limit 3 over ten matching rows return the third, fourth
      and fifth rows of a ranking of them, in that order. */
  lemma PaginationExample(store: seq<Contributor>, organizationId: Option<int>, snapshotDate: Date,
                          r: seq<Contributor>)
    requires |TopContributorsRows(store, organizationId, snapshotDate)| == 10
    requires TopContributorsAnswer(store, organizationId, snapshotDate, 2, 3, r)
    ensures |r| == 3
    ensures exists ranked ::
              && multiset(ranked) == multiset(TopContributorsRows(store, organizationId, snapshotDate))
              && Sorted(TopContributorsOrder, ranked)
              && r == [ranked[2], ranked[3], ranked[4]]
  {
    var ranked :| && multiset(ranked) == multiset(TopContributorsRows(store, organizationId, snapshotDate))
                  && Sorted(TopContributorsOrder, ranked)
                  && r == Window(ranked, 2, 3);
    assert |ranked| == 10 by {
      assert |ranked| == |multiset(ranked)|;
    }
    assert r == [ranked[2], ranked[3], ranked[4]];
  }
}
