/** What the query-building code asks of the store, stated over an
    in-memory sequence of rows: typed restrictions and their conjunction,
    selection, a multi-key sort and an offset/limit window. */
module Criteria {
  import opened Contributors
  import opened SqlLike

  /** The columns a restriction or an ordering can name. */
  datatype Field = Id | OrganizationId | SnapshotDate | OrganizationalCommitsCount

  function Value(f: Field, c: Contributor): int {
    match f
    case Id => c.key.id
    case OrganizationId => c.key.organizationId
    case SnapshotDate => c.key.snapshotDate
    case OrganizationalCommitsCount => c.organizationalCommitsCount
  }

  /** One restriction, as the criteria builder composes it. */
  datatype Pred =
    | Equal(field: Field, value: int)
    | Between(field: Field, lo: int, hi: int)
    | GreaterThanOrEqualTo(field: Field, bound: int)
    | LessThanOrEqualTo(field: Field, bound: int)
    | NameLike(pattern: string)

  predicate Holds(p: Pred, c: Contributor) {
    match p
    case Equal(f, v) => Value(f, c) == v
    case Between(f, lo, hi) => lo <= Value(f, c) <= hi
    case GreaterThanOrEqualTo(f, lo) => Value(f, c) >= lo
    case LessThanOrEqualTo(f, hi) => Value(f, c) <= hi
    case NameLike(pattern) => Like(pattern, c.name)
  }

  /** The `where` clause: a row qualifies when every restriction holds; an
      empty list restricts nothing. */
  predicate Conjunction(preds: seq<Pred>, c: Contributor) {
    forall i :: 0 <= i < |preds| ==> Holds(preds[i], c)
  }

  /** Whether `p` restricts the key or metric column `f`. */
  predicate OnField(p: Pred, f: Field) {
    !p.NameLike? && p.field == f
  }

  /** The restrictions of `preds` on column `f`, in order. */
  function RestrictionsOn(preds: seq<Pred>, f: Field): seq<Pred> {
    if preds == [] then []
    else
      var last := preds[|preds| - 1];
      RestrictionsOn(preds[..|preds| - 1], f) + (if OnField(last, f) then [last] else [])
  }

  /** The patterns of the `NameLike` restrictions of `preds`, in order. */
  function LikePatterns(preds: seq<Pred>): seq<string> {
    if preds == [] then []
    else
      var last := preds[|preds| - 1];
      LikePatterns(preds[..|preds| - 1]) + (if last.NameLike? then [last.pattern] else [])
  }

  /** Appending one restriction extends the `where` clause by exactly it. */
  lemma Append(preds: seq<Pred>, p: Pred)
    ensures forall c :: Conjunction(preds + [p], c) <==> Conjunction(preds, c) && Holds(p, c)
    ensures LikePatterns(preds + [p]) == LikePatterns(preds) + (if p.NameLike? then [p.pattern] else [])
  {
    assert (preds + [p])[..|preds|] == preds;
    forall c ensures Conjunction(preds + [p], c) <==> Conjunction(preds, c) && Holds(p, c) {
      if Conjunction(preds + [p], c) {
        forall i | 0 <= i < |preds| ensures Holds(preds[i], c) {
          assert (preds + [p])[i] == preds[i];
        }
        assert (preds + [p])[|preds|] == p;
      }
    }
  }

  lemma AppendRestriction(preds: seq<Pred>, p: Pred, f: Field)
    ensures RestrictionsOn(preds + [p], f) == RestrictionsOn(preds, f) + (if OnField(p, f) then [p] else [])
  {
    assert (preds + [p])[..|preds|] == preds;
  }

  /** The rows of `s` that `keep` accepts, in their original order. */
  function Select(s: seq<Contributor>, keep: Contributor -> bool): (r: seq<Contributor>)
    ensures forall x :: multiset(r)[x] == if keep(x) then multiset(s)[x] else 0
    ensures |r| <= |s|
  {
    if s == [] then []
    else
      assert s == [s[0]] + s[1..];
      (if keep(s[0]) then [s[0]] else []) + Select(s[1..], keep)
  }

  lemma SelectMembers(s: seq<Contributor>, keep: Contributor -> bool, x: Contributor)
    ensures x in Select(s, keep) <==> x in s && keep(x)
  {
    assert x in Select(s, keep) <==> multiset(Select(s, keep))[x] > 0;
    assert x in s <==> multiset(s)[x] > 0;
  }

  /** Two acceptance tests that agree on every row select the same rows. */
  lemma {:induction false} SelectAgrees(s: seq<Contributor>, f: Contributor -> bool, g: Contributor -> bool)
    requires forall c :: f(c) == g(c)
    ensures Select(s, f) == Select(s, g)
  {
    if s != [] {
      SelectAgrees(s[1..], f, g);
    }
  }

  /** The rows of the store that satisfy the `where` clause. */
  function Where(store: seq<Contributor>, preds: seq<Pred>): seq<Contributor> {
    Select(store, c => Conjunction(preds, c))
  }

  datatype Direction = Asc | Desc

  /** One sort key of an `orderBy` clause. */
  datatype Order = Order(field: Field, direction: Direction)

  /** Whether `a` may come before `b` under the sort keys `orders`: the
      first key on which they differ decides; rows equal on every key may
      come in either order. */
  predicate Precedes(orders: seq<Order>, a: Contributor, b: Contributor)
    decreases |orders|
  {
    if orders == [] then true
    else
      var va, vb := Value(orders[0].field, a), Value(orders[0].field, b);
      if va == vb then Precedes(orders[1..], a, b)
      else if orders[0].direction == Asc then va < vb
      else va > vb
  }

  lemma {:induction false} PrecedesTotal(orders: seq<Order>, a: Contributor, b: Contributor)
    ensures Precedes(orders, a, b) || Precedes(orders, b, a)
    decreases |orders|
  {
    if orders != [] {
      PrecedesTotal(orders[1..], a, b);
    }
  }

  lemma {:induction false} PrecedesTransitive(orders: seq<Order>, a: Contributor, b: Contributor, c: Contributor)
    requires Precedes(orders, a, b) && Precedes(orders, b, c)
    ensures Precedes(orders, a, c)
    decreases |orders|
  {
    if orders != [] {
      var f := orders[0].field;
      if Value(f, a) == Value(f, b) == Value(f, c) {
        PrecedesTransitive(orders[1..], a, b, c);
      }
    }
  }

  predicate Sorted(orders: seq<Order>, s: seq<Contributor>) {
    forall i, j :: 0 <= i < j < |s| ==> Precedes(orders, s[i], s[j])
  }

  /** Inserts `x` before the first row it may precede. */
  function Insert(orders: seq<Order>, x: Contributor, s: seq<Contributor>): (r: seq<Contributor>)
    ensures multiset(r) == multiset(s) + multiset{x}
  {
    if s == [] then [x]
    else if Precedes(orders, x, s[0]) then [x] + s
    else
      assert s == [s[0]] + s[1..];
      [s[0]] + Insert(orders, x, s[1..])
  }

  lemma {:induction false} InsertSorted(orders: seq<Order>, x: Contributor, s: seq<Contributor>)
    requires Sorted(orders, s)
    ensures Sorted(orders, Insert(orders, x, s))
  {
    if s == [] {
    } else if Precedes(orders, x, s[0]) {
      var r := Insert(orders, x, s);
      forall i, j | 0 <= i < j < |r| ensures Precedes(orders, r[i], r[j]) {
        if i == 0 && j > 1 {
          PrecedesTransitive(orders, x, s[0], s[j - 1]);
        }
      }
    } else {
      InsertSorted(orders, x, s[1..]);
      PrecedesTotal(orders, x, s[0]);
      HeadPrecedesInsert(orders, x, s);
      ConsSorted(orders, s[0], Insert(orders, x, s[1..]));
    }
  }

  /** When `x` goes after the head, the head may precede every row of the
      insertion into the tail. */
  lemma HeadPrecedesInsert(orders: seq<Order>, x: Contributor, s: seq<Contributor>)
    requires s != [] && Sorted(orders, s) && Precedes(orders, s[0], x)
    ensures forall y :: y in multiset(Insert(orders, x, s[1..])) ==> Precedes(orders, s[0], y)
  {
    forall y | y in multiset(Insert(orders, x, s[1..])) ensures Precedes(orders, s[0], y) {
      if y != x {
        assert y in multiset(s[1..]);
        var k :| 0 <= k < |s[1..]| && s[1..][k] == y;
        assert s[k + 1] == y;
      }
    }
  }

  /** A row that may precede every row of a sorted sequence can head it. */
  lemma ConsSorted(orders: seq<Order>, a: Contributor, t: seq<Contributor>)
    requires Sorted(orders, t)
    requires forall y :: y in multiset(t) ==> Precedes(orders, a, y)
    ensures Sorted(orders, [a] + t)
  {
    var r := [a] + t;
    forall i, j | 0 <= i < j < |r| ensures Precedes(orders, r[i], r[j]) {
      assert r[j] == t[j - 1];
      if i == 0 {
        assert t[j - 1] in multiset(t);
      } else {
        assert r[i] == t[i - 1];
      }
    }
  }

  /** The store's sort: an insertion sort, so rows that tie on every key
      keep their stored order. */
  function Sort(orders: seq<Order>, s: seq<Contributor>): (r: seq<Contributor>)
    ensures multiset(r) == multiset(s)
  {
    if s == [] then []
    else
      assert s == [s[0]] + s[1..];
      Insert(orders, s[0], Sort(orders, s[1..]))
  }

  lemma {:induction false} SortSorted(orders: seq<Order>, s: seq<Contributor>)
    ensures Sorted(orders, Sort(orders, s))
  {
    if s != [] {
      SortSorted(orders, s[1..]);
      InsertSorted(orders, s[0], Sort(orders, s[1..]));
    }
  }

  function Min(a: int, b: int): int {
    if a <= b then a else b
  }

  /** `setFirstResult(first)` then `setMaxResults(max)`: skip `first` rows,
      then keep at most `max`. */
  function Window(s: seq<Contributor>, first: nat, max: nat): (r: seq<Contributor>)
    ensures |r| == if first >= |s| then 0 else Min(max, |s| - first)
    ensures forall i :: 0 <= i < |r| ==> r[i] == s[first + i]
  {
    if first >= |s| then [] else s[first..][..Min(max, |s| - first)]
  }

  lemma WindowIsSlice(s: seq<Contributor>, first: nat, max: nat)
    requires first <= |s|
    ensures Window(s, first, max) == s[first..first + Min(max, |s| - first)]
  {
  }

  /** A window holds only rows of the sequence it is cut from. */
  lemma WindowSubMultiset(s: seq<Contributor>, first: nat, max: nat)
    ensures multiset(Window(s, first, max)) <= multiset(s)
  {
    if first < |s| {
      var hi := first + Min(max, |s| - first);
      WindowIsSlice(s, first, max);
      assert s == s[..first] + s[first..hi] + s[hi..];
    }
  }

  /** A window of a sorted sequence is sorted. */
  lemma WindowSorted(orders: seq<Order>, s: seq<Contributor>, first: nat, max: nat)
    requires Sorted(orders, s)
    ensures Sorted(orders, Window(s, first, max))
  {
    var r := Window(s, first, max);
    forall i, j | 0 <= i < j < |r| ensures Precedes(orders, r[i], r[j]) {
      assert r[i] == s[first + i] && r[j] == s[first + j];
    }
  }

  /** A position at which a member of the multiset of `t` occurs. */
  lemma IndexOf<T>(t: seq<T>, x: T) returns (k: nat)
    requires x in multiset(t)
    ensures k < |t| && t[k] == x
  {
    assert x in t;
    k :| k < |t| && t[k] == x;
  }

  /** A sorted arrangement of a multiset of values is unique when no two
      distinct values are interchangeable under the order `le`. */
  lemma {:induction false} SortedPermutationsEqual<T>(le: (T, T) -> bool, s: seq<T>, t: seq<T>)
    requires forall i, j :: 0 <= i < j < |s| ==> le(s[i], s[j])
    requires forall i, j :: 0 <= i < j < |t| ==> le(t[i], t[j])
    requires multiset(s) == multiset(t)
    requires forall a, b :: a in s && b in s && le(a, b) && le(b, a) ==> a == b
    ensures s == t
  {
    if s == [] {
      assert |multiset(t)| == 0;
    } else {
      assert |t| == |multiset(t)| == |multiset(s)| > 0;
      assert t[0] in multiset(s);
      SortedHeadsEqual(le, s, t);
      TailMultisets(s, t);
      SortedPermutationsEqual(le, s[1..], t[1..]);
      assert s == [s[0]] + s[1..] && t == [t[0]] + t[1..];
    }
  }

  lemma SortedHeadsEqual<T>(le: (T, T) -> bool, s: seq<T>, t: seq<T>)
    requires s != [] && t != []
    requires forall j :: 0 < j < |s| ==> le(s[0], s[j])
    requires forall j :: 0 < j < |t| ==> le(t[0], t[j])
    requires multiset(s) == multiset(t)
    requires le(s[0], t[0]) && le(t[0], s[0]) ==> s[0] == t[0]
    ensures s[0] == t[0]
  {
    var j := IndexOf(t, s[0]);
    var i := IndexOf(s, t[0]);
    if i != 0 && j != 0 {
      assert le(s[0], s[i]) && le(t[0], t[j]);
    }
  }

  lemma TailMultisets<T>(s: seq<T>, t: seq<T>)
    requires s != [] && t != [] && s[0] == t[0]
    requires multiset(s) == multiset(t)
    ensures multiset(s[1..]) == multiset(t[1..])
  {
    assert s == [s[0]] + s[1..] && t == [t[0]] + t[1..];
    assert multiset(s[1..]) == multiset(s) - multiset{s[0]};
    assert multiset(t[1..]) == multiset(t) - multiset{t[0]};
  }
}
