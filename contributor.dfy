/** The persisted entity that both queries return. */
module Contributors {

  /** A calendar date at day granularity, as a day number. */
  type Date = int

  /** The composite key of a row: the contributor's key id, the organization
      it contributes to, and the date of the snapshot. */
  datatype ContributorKey = ContributorKey(id: int, organizationId: int, snapshotDate: Date)

  /** One contributor's state within one organization as of one snapshot
      date. Descriptive metrics that no query looks at are not modelled. */
  datatype Contributor = Contributor(
    key: ContributorKey,
    name: string,
    organizationalCommitsCount: nat)

  /** The store's identity invariant: no two distinct rows share a key, so a
      contributor has at most one row per snapshot date. */
  ghost predicate UniqueKeys(store: seq<Contributor>) {
    forall i, j :: 0 <= i < |store| && 0 <= j < |store| && i != j ==> store[i].key != store[j].key
  }

  /** Under unique keys no row is stored twice. */
  lemma {:induction false} UniqueKeysNoRepeats(t: seq<Contributor>)
    requires UniqueKeys(t)
    ensures forall x :: multiset(t)[x] <= 1
  {
    if t != [] {
      var rest := t[1..];
      assert UniqueKeys(rest) by {
        forall i, j | 0 <= i < |rest| && 0 <= j < |rest| && i != j ensures rest[i].key != rest[j].key {
          assert rest[i] == t[i + 1] && rest[j] == t[j + 1];
        }
      }
      UniqueKeysNoRepeats(rest);
      assert t[0] !in rest by {
        forall k | 0 <= k < |rest| ensures rest[k] != t[0] {
          assert rest[k] == t[k + 1];
        }
      }
      assert t == [t[0]] + rest;
    }
  }

  /** A row that occurs at two positions occurs at least twice. */
  lemma RepeatCounted(s: seq<Contributor>, i: nat, j: nat)
    requires i < j < |s|
    ensures s[i] == s[j] ==> multiset(s)[s[i]] >= 2
  {
    assert s == s[..j] + [s[j]] + s[j + 1..];
    assert s[i] == s[..j][i];
    assert s[i] in multiset(s[..j]);
  }

  /** Rows drawn from a store with unique keys have unique keys. */
  lemma UniqueKeysOfSubMultiset(s: seq<Contributor>, t: seq<Contributor>)
    requires multiset(s) <= multiset(t)
    requires UniqueKeys(t)
    ensures UniqueKeys(s)
  {
    UniqueKeysNoRepeats(t);
    forall i, j | 0 <= i < |s| && 0 <= j < |s| && i != j ensures s[i].key != s[j].key {
      assert s[i] in multiset(t) && s[j] in multiset(t);
      var k :| 0 <= k < |t| && t[k] == s[i];
      var l :| 0 <= l < |t| && t[l] == s[j];
      if i < j {
        RepeatCounted(s, i, j);
      } else {
        RepeatCounted(s, j, i);
      }
    }
  }
}
