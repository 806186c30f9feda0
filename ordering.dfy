/**
 * The two orderings of filtered rows: GET /transactions returns them by
 * `date DESC, id DESC`, GET /export by `date ASC, id ASC`.
 */
module Ordering {
  import opened Text
  import opened Ledger
  import opened Filter

  /** `(a.date, a.id) <= (b.date, b.id)`, dates compared as text. */
  predicate KeyLe(a: Transaction, b: Transaction) {
    LexLt(a.date, b.date) || (a.date == b.date && a.id <= b.id)
  }

  /** `a` may come before `b`: ascending key order, or descending when `desc`. */
  predicate Before(a: Transaction, b: Transaction, desc: bool) {
    if desc then KeyLe(b, a) else KeyLe(a, b)
  }

  lemma KeyLeTotal(a: Transaction, b: Transaction)
    ensures KeyLe(a, b) || KeyLe(b, a)
  {
    LexLeTotal(a.date, b.date);
  }

  lemma KeyLeTransitive(a: Transaction, b: Transaction, c: Transaction)
    requires KeyLe(a, b) && KeyLe(b, c)
    ensures KeyLe(a, c)
  {
    LexLeReflexive(a.date);
    LexLeReflexive(b.date);
    LexLeTransitive(a.date, b.date, c.date);
    if a.date == c.date {
      LexLeAntisymmetric(a.date, b.date);
    }
  }

  /** Equal keys mean the same date and the same id. */
  lemma KeyLeAntisymmetric(a: Transaction, b: Transaction)
    requires KeyLe(a, b) && KeyLe(b, a)
    ensures a.date == b.date && a.id == b.id
  {
    if a.date != b.date {
      LexLeAntisymmetric(a.date, b.date);
    }
  }

  lemma BeforeTransitive(a: Transaction, b: Transaction, c: Transaction, desc: bool)
    requires Before(a, b, desc) && Before(b, c, desc)
    ensures Before(a, c, desc)
  {
    if desc { KeyLeTransitive(c, b, a); } else { KeyLeTransitive(a, b, c); }
  }

  ghost predicate SortedBy(s: seq<Transaction>, desc: bool) {
    forall i, j :: 0 <= i < j < |s| ==> Before(s[i], s[j], desc)
  }

  /** Insert `t` in front of the first element it may precede. */
  function Insert(t: Transaction, s: seq<Transaction>, desc: bool): (r: seq<Transaction>)
    ensures multiset(r) == multiset(s) + multiset{t}
  {
    if s == [] || Before(t, s[0], desc) then [t] + s
    else
      assert s == [s[0]] + s[1..];
      [s[0]] + Insert(t, s[1..], desc)
  }

  /** The head of a sorted sequence may precede everything in it and anything after which it may not be put. */
  lemma HeadBeforeInserted(t: Transaction, s: seq<Transaction>, desc: bool)
    requires s != [] && SortedBy(s, desc) && !Before(t, s[0], desc)
    ensures forall x :: x in multiset(Insert(t, s[1..], desc)) ==> Before(s[0], x, desc)
  {
    KeyLeTotal(t, s[0]);
    forall x | x in multiset(Insert(t, s[1..], desc)) ensures Before(s[0], x, desc) {
      if x != t {
        assert x in multiset(s[1..]);
        var k :| 0 <= k < |s[1..]| && s[1..][k] == x;
        assert s[k + 1] == x;
      }
    }
  }

  /** The tail of a sorted sequence is sorted. */
  lemma SortedTail(s: seq<Transaction>, desc: bool)
    requires s != [] && SortedBy(s, desc)
    ensures SortedBy(s[1..], desc)
  {
    var tail := s[1..];
    forall i, j | 0 <= i < j < |tail| ensures Before(tail[i], tail[j], desc) {
      assert tail[i] == s[i + 1] && tail[j] == s[j + 1];
    }
  }

  /** An element that may precede everything in a sorted sequence may lead it. */
  lemma SortedCons(t: Transaction, s: seq<Transaction>, desc: bool)
    requires SortedBy(s, desc)
    requires forall x :: x in multiset(s) ==> Before(t, x, desc)
    ensures SortedBy([t] + s, desc)
  {
    var all := [t] + s;
    forall i, j | 0 <= i < j < |all| ensures Before(all[i], all[j], desc) {
      assert all[j] == s[j - 1] && s[j - 1] in multiset(s);
      if i > 0 { assert all[i] == s[i - 1]; }
    }
  }

  lemma {:induction false} InsertSorted(t: Transaction, s: seq<Transaction>, desc: bool)
    requires SortedBy(s, desc)
    ensures SortedBy(Insert(t, s, desc), desc)
  {
    if s == [] || Before(t, s[0], desc) {
      forall x | x in multiset(s) ensures Before(t, x, desc) {
        var k :| 0 <= k < |s| && s[k] == x;
        if k > 0 { BeforeTransitive(t, s[0], x, desc); }
      }
      SortedCons(t, s, desc);
    } else {
      SortedTail(s, desc);
      InsertSorted(t, s[1..], desc);
      HeadBeforeInserted(t, s, desc);
      SortedCons(s[0], Insert(t, s[1..], desc), desc);
    }
  }

  /** Insertion sort by (date, id), ascending or descending. */
  function Sort(s: seq<Transaction>, desc: bool): (r: seq<Transaction>)
    ensures multiset(r) == multiset(s)
    ensures SortedBy(r, desc)
  {
    if s == [] then []
    else
      var rest := Sort(s[1..], desc);
      InsertSorted(s[0], rest, desc);
      assert s == [s[0]] + s[1..];
      assert multiset(s) == multiset(s[1..]) + multiset{s[0]};
      Insert(s[0], rest, desc)
  }

  /** The rows of GET /transactions: the matches, newest date first, then highest id. */
  function ListRows(rows: seq<Transaction>, c: Criteria): seq<Transaction> {
    Sort(FilterRows(rows, c), true)
  }

  /** The rows of GET /export: the matches, oldest date first, then lowest id. */
  function ExportRows(rows: seq<Transaction>, c: Criteria): seq<Transaction> {
    Sort(FilterRows(rows, c), false)
  }

  /** List and export hold exactly the rows that match, each as often as it is stored. */
  lemma ListAndExportSelectMatches(rows: seq<Transaction>, c: Criteria)
    ensures multiset(ListRows(rows, c)) == multiset(FilterRows(rows, c))
    ensures multiset(ExportRows(rows, c)) == multiset(FilterRows(rows, c))
    ensures forall t :: t in ListRows(rows, c) <==> t in rows && Matches(c, t)
    ensures forall t :: t in ExportRows(rows, c) <==> t in rows && Matches(c, t)
    ensures SortedBy(ListRows(rows, c), true) && SortedBy(ExportRows(rows, c), false)
    ensures forall t :: multiset(ListRows(rows, c))[t] == if Matches(c, t) then multiset(rows)[t] else 0
    ensures forall t :: multiset(ExportRows(rows, c))[t] == if Matches(c, t) then multiset(rows)[t] else 0
  {
    var f := FilterRows(rows, c);
    FilterRowsCount(rows, c);
    forall t ensures t in ListRows(rows, c) <==> t in f {
      assert t in multiset(ListRows(rows, c)) <==> t in multiset(f);
    }
    forall t ensures t in ExportRows(rows, c) <==> t in f {
      assert t in multiset(ExportRows(rows, c)) <==> t in multiset(f);
    }
  }

  // ---------------------------------------------------------------------------
  // With unique ids the two orders are mirror images
  // ---------------------------------------------------------------------------

  function Reverse(s: seq<Transaction>): (r: seq<Transaction>)
    ensures |r| == |s|
    ensures forall i :: 0 <= i < |s| ==> r[i] == s[|s| - 1 - i]
  {
    if s == [] then [] else Reverse(s[1..]) + [s[0]]
  }

  lemma {:induction false} ReverseMultiset(s: seq<Transaction>)
    ensures multiset(Reverse(s)) == multiset(s)
  {
    if s != [] {
      ReverseMultiset(s[1..]);
      assert s == [s[0]] + s[1..];
    }
  }

  /** No two distinct stored records share an id. */
  ghost predicate UniqueIds(s: seq<Transaction>) {
    forall i, j :: 0 <= i < |s| && 0 <= j < |s| && s[i].id == s[j].id ==> s[i] == s[j]
  }

  lemma AscendingIdsUnique(s: seq<Transaction>)
    requires IdsAscending(s)
    ensures UniqueIds(s)
  {
    forall i, j | 0 <= i < |s| && 0 <= j < |s| && s[i].id == s[j].id ensures s[i] == s[j] {
      assert i == j;
    }
  }

  lemma UniqueIdsPermutation(a: seq<Transaction>, b: seq<Transaction>)
    requires multiset(a) == multiset(b) && UniqueIds(a)
    ensures UniqueIds(b)
  {
    forall i, j | 0 <= i < |b| && 0 <= j < |b| && b[i].id == b[j].id ensures b[i] == b[j] {
      assert b[i] in multiset(a) && b[j] in multiset(a);
      var k :| 0 <= k < |a| && a[k] == b[i];
      var m :| 0 <= m < |a| && a[m] == b[j];
    }
  }

  lemma HeadFirst(a: seq<Transaction>, x: Transaction, desc: bool)
    requires SortedBy(a, desc) && x in multiset(a)
    ensures Before(a[0], x, desc)
  {
    var k :| 0 <= k < |a| && a[k] == x;
    if k > 0 { assert Before(a[0], a[k], desc); }
  }

  lemma UniqueIdsTail(a: seq<Transaction>)
    requires a != [] && UniqueIds(a)
    ensures UniqueIds(a[1..])
  {
    forall i, j | 0 <= i < |a[1..]| && 0 <= j < |a[1..]| && a[1..][i].id == a[1..][j].id
      ensures a[1..][i] == a[1..][j]
    {
      assert a[1..][i] == a[i + 1] && a[1..][j] == a[j + 1];
    }
  }

  lemma MultisetTail(a: seq<Transaction>, b: seq<Transaction>)
    requires a != [] && b != [] && multiset(a) == multiset(b) && a[0] == b[0]
    ensures multiset(a[1..]) == multiset(b[1..])
  {
    assert a == [a[0]] + a[1..] && b == [b[0]] + b[1..];
    assert multiset(a) == multiset{a[0]} + multiset(a[1..]);
    assert multiset(b) == multiset{b[0]} + multiset(b[1..]);
    assert multiset(a[1..]) == multiset(a) - multiset{a[0]};
    assert multiset(b[1..]) == multiset(b) - multiset{b[0]};
  }

  /** Two orderings of the same rows by the same key agree when ids are unique. */
  lemma {:induction false} SortedUnique(a: seq<Transaction>, b: seq<Transaction>, desc: bool)
    requires multiset(a) == multiset(b) && UniqueIds(a)
    requires SortedBy(a, desc) && SortedBy(b, desc)
    ensures a == b
  {
    if a != [] {
      assert |b| == |multiset(b)| == |multiset(a)| == |a|;
      assert b[0] in multiset(a) && a[0] in multiset(b);
      HeadFirst(a, b[0], desc);
      HeadFirst(b, a[0], desc);
      KeyLeAntisymmetric(a[0], b[0]);
      var k :| 0 <= k < |a| && a[k] == b[0];
      assert a[0] == a[k];
      MultisetTail(a, b);
      UniqueIdsTail(a);
      SortedUnique(a[1..], b[1..], desc);
      assert a == [a[0]] + a[1..] && b == [b[0]] + b[1..];
    }
  }

  lemma ReverseSorted(s: seq<Transaction>)
    requires SortedBy(s, false)
    ensures SortedBy(Reverse(s), true)
  {
    var r := Reverse(s);
    forall i, j | 0 <= i < j < |r| ensures Before(r[i], r[j], true) {
      assert r[i] == s[|s| - 1 - i] && r[j] == s[|s| - 1 - j];
    }
  }

  /** List order is export order reversed, because stored ids are unique. */
  lemma ListIsReversedExport(rows: seq<Transaction>, c: Criteria)
    requires IdsAscending(rows)
    ensures ListRows(rows, c) == Reverse(ExportRows(rows, c))
  {
    var f := FilterRows(rows, c);
    var up := ExportRows(rows, c);
    ReverseMultiset(up);
    ReverseSorted(up);
    AscendingIdsUnique(f);
    UniqueIdsPermutation(f, ListRows(rows, c));
    SortedUnique(ListRows(rows, c), Reverse(up), true);
  }
}
