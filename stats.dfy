/**
 * GET /stats over the filtered rows: income, expense and balance totals, the
 * month series (`GROUP BY substr(date,1,7) ORDER BY ym ASC`) and the
 * per-category breakdown (`GROUP BY category ORDER BY total ASC`).
 */
module Stats {
  import opened Text
  import opened Ledger

  // ---------------------------------------------------------------------------
  // Totals
  // ---------------------------------------------------------------------------

  /** `SUM(amount)`, taken as 0 over no rows. */
  function Sum(rows: seq<Transaction>): int {
    if rows == [] then 0 else rows[0].amount + Sum(rows[1..])
  }

  /** `SUM(CASE WHEN amount >= 0 THEN amount ELSE 0 END)`, 0 when no row matches. */
  function Income(rows: seq<Transaction>): (r: int)
    ensures r >= 0
  {
    if rows == [] then 0
    else (if rows[0].amount >= 0 then rows[0].amount else 0) + Income(rows[1..])
  }

  /** `SUM(CASE WHEN amount < 0 THEN amount ELSE 0 END)`, 0 when no row matches. */
  function Expense(rows: seq<Transaction>): (r: int)
    ensures r <= 0
  {
    if rows == [] then 0
    else (if rows[0].amount < 0 then rows[0].amount else 0) + Expense(rows[1..])
  }

  /** Income and expense split the rows by sign, so together they are the sum of every amount. */
  lemma {:induction false} IncomeExpensePartition(rows: seq<Transaction>)
    ensures Income(rows) + Expense(rows) == Sum(rows)
  {
    if rows != [] {
      IncomeExpensePartition(rows[1..]);
    }
  }

  // ---------------------------------------------------------------------------
  // Grouped sums
  // ---------------------------------------------------------------------------

  /** One row of a grouped query: the group key and `SUM(amount)` of its rows. */
  datatype Group = Group(key: string, total: int)

  datatype Grouping = ByMonth | ByCategory

  /** `substr(date, 1, 7)`: the first seven characters, "YYYY-MM" for a stored date. */
  function Month(date: string): (ym: string)
    ensures |date| >= 7 ==> |ym| == 7 && ym == date[..7]
    ensures |date| < 7 ==> ym == date
  {
    if |date| <= 7 then date else date[..7]
  }

  /** The first `k` characters of `s`, or all of `s` when it is shorter. */
  function Take(s: string, k: nat): string {
    if |s| <= k then s else s[..k]
  }

  /** Cutting two texts to the same length keeps their order. */
  lemma {:induction false} TakeMonotone(a: string, b: string, k: nat)
    requires LexLe(a, b)
    ensures LexLe(Take(a, k), Take(b, k))
  {
    var ta, tb := Take(a, k), Take(b, k);
    if ta != [] && a[0] == b[0] {
      assert tb != [] && ta[0] == a[0] && tb[0] == b[0];
      TakeMonotone(a[1..], b[1..], k - 1);
      assert ta[1..] == Take(a[1..], k - 1);
      assert tb[1..] == Take(b[1..], k - 1);
    }
  }

  /** An earlier date never falls in a later month, so the month series follows date order. */
  lemma MonthMonotone(a: string, b: string)
    requires LexLe(a, b)
    ensures LexLe(Month(a), Month(b))
  {
    TakeMonotone(a, b, 7);
    assert Month(a) == Take(a, 7) && Month(b) == Take(b, 7);
  }

  /** The month of a stored date is its "YYYY-MM" part. */
  lemma MonthOfDate(date: string)
    requires IsDatePattern(date)
    ensures Month(date) == date[..7] && |Month(date)| == 7
    ensures forall i :: 0 <= i < 7 && i != 4 ==> IsDigit(Month(date)[i])
    ensures Month(date)[4] == '-'
  {
  }

  function KeyOf(g: Grouping, t: Transaction): string {
    match g
    case ByMonth => Month(t.date)
    case ByCategory => t.category
  }

  /** The distinct group keys among the rows. */
  function Keys(rows: seq<Transaction>, g: Grouping): set<string> {
    set t | t in rows :: KeyOf(g, t)
  }

  /** Sum of the amounts of the rows in group `k`. */
  function SumWhere(rows: seq<Transaction>, g: Grouping, k: string): int {
    if rows == [] then 0
    else (if KeyOf(g, rows[0]) == k then rows[0].amount else 0) + SumWhere(rows[1..], g, k)
  }

  function KeySet(groups: seq<Group>): set<string> {
    set grp | grp in groups :: grp.key
  }

  function SumTotals(groups: seq<Group>): int {
    if groups == [] then 0 else groups[0].total + SumTotals(groups[1..])
  }

  ghost predicate StrictlyAscending(groups: seq<Group>) {
    forall i, j :: 0 <= i < j < |groups| ==> LexLt(groups[i].key, groups[j].key)
  }

  /** The total recorded for key `k`, 0 when there is no such group. */
  function TotalOf(groups: seq<Group>, k: string): int {
    if groups == [] then 0
    else if groups[0].key == k then groups[0].total
    else TotalOf(groups[1..], k)
  }

  lemma LexLtTransitive(a: string, b: string, c: string)
    requires LexLt(a, b) && LexLt(b, c)
    ensures LexLt(a, c)
  {
    LexLeTransitive(a, b, c);
    if a == c { LexLeAntisymmetric(a, b); }
  }

  lemma KeysCons(rows: seq<Transaction>, g: Grouping)
    requires rows != []
    ensures Keys(rows, g) == {KeyOf(g, rows[0])} + Keys(rows[1..], g)
  {
    assert rows == [rows[0]] + rows[1..];
    forall k | k in Keys(rows, g) ensures k in {KeyOf(g, rows[0])} + Keys(rows[1..], g) {
      var t :| t in rows && KeyOf(g, t) == k;
      if t != rows[0] { assert t in rows[1..]; }
    }
    forall k | k in Keys(rows[1..], g) ensures k in Keys(rows, g) {
      var t :| t in rows[1..] && KeyOf(g, t) == k;
      assert t in rows;
    }
  }

  lemma KeySetCons(groups: seq<Group>)
    requires groups != []
    ensures KeySet(groups) == {groups[0].key} + KeySet(groups[1..])
  {
    assert groups == [groups[0]] + groups[1..];
    forall k | k in KeySet(groups) ensures k in {groups[0].key} + KeySet(groups[1..]) {
      var grp :| grp in groups && grp.key == k;
      if grp != groups[0] { assert grp in groups[1..]; }
    }
    forall k | k in KeySet(groups[1..]) ensures k in KeySet(groups) {
      var grp :| grp in groups[1..] && grp.key == k;
      assert grp in groups;
    }
  }

  lemma {:induction false} SumWhereAbsent(rows: seq<Transaction>, g: Grouping, k: string)
    requires k !in Keys(rows, g)
    ensures SumWhere(rows, g, k) == 0
  {
    if rows != [] {
      KeysCons(rows, g);
      SumWhereAbsent(rows[1..], g, k);
    }
  }

  lemma {:induction false} TotalOfMember(groups: seq<Group>, grp: Group)
    requires StrictlyAscending(groups) && grp in groups
    ensures TotalOf(groups, grp.key) == grp.total
  {
    if groups[0] != grp {
      assert grp in groups[1..];
      var j :| 0 <= j < |groups[1..]| && groups[1..][j] == grp;
      assert groups[j + 1] == grp;
      assert LexLt(groups[0].key, grp.key);
      TotalOfMember(groups[1..], grp);
    }
  }

  lemma {:induction false} TotalOfAbsent(groups: seq<Group>, k: string)
    requires k !in KeySet(groups)
    ensures TotalOf(groups, k) == 0
  {
    if groups != [] {
      KeySetCons(groups);
      TotalOfAbsent(groups[1..], k);
    }
  }

  /** Add one row of key `k` and amount `a` to groups kept in ascending key order. */
  function AddTo(groups: seq<Group>, k: string, a: int): seq<Group> {
    if groups == [] then [Group(k, a)]
    else if groups[0].key == k then [Group(k, groups[0].total + a)] + groups[1..]
    else if LexLe(k, groups[0].key) then [Group(k, a)] + groups
    else [groups[0]] + AddTo(groups[1..], k, a)
  }

  lemma {:induction false} AddToKeys(groups: seq<Group>, k: string, a: int)
    ensures KeySet(AddTo(groups, k, a)) == KeySet(groups) + {k}
  {
    var r := AddTo(groups, k, a);
    if groups == [] {
      assert r == [Group(k, a)];
      assert KeySet(r) == {k} by { KeySetCons(r); assert r[1..] == []; }
    } else {
      KeySetCons(groups);
      KeySetCons(r);
      if groups[0].key == k {
        assert r[1..] == groups[1..];
      } else if LexLe(k, groups[0].key) {
        assert r[1..] == groups;
      } else {
        assert r[1..] == AddTo(groups[1..], k, a);
        AddToKeys(groups[1..], k, a);
      }
    }
  }

  /** Behind the head of ascending groups: ascending groups, every key above the head's. */
  lemma AscendingTail(groups: seq<Group>)
    requires StrictlyAscending(groups) && groups != []
    ensures StrictlyAscending(groups[1..])
    ensures forall k :: k in KeySet(groups[1..]) ==> LexLt(groups[0].key, k)
  {
    var tail := groups[1..];
    forall i, j | 0 <= i < j < |tail| ensures LexLt(tail[i].key, tail[j].key) {
      assert tail[i] == groups[i + 1] && tail[j] == groups[j + 1];
    }
    forall k | k in KeySet(tail) ensures LexLt(groups[0].key, k) {
      var grp :| grp in tail && grp.key == k;
      var m :| 0 <= m < |tail| && tail[m] == grp;
      assert groups[m + 1] == grp;
    }
  }

  /** A group whose key is below every key of ascending groups may lead them. */
  lemma AscendingCons(grp: Group, rest: seq<Group>)
    requires StrictlyAscending(rest)
    requires forall k :: k in KeySet(rest) ==> LexLt(grp.key, k)
    ensures StrictlyAscending([grp] + rest)
  {
    var all := [grp] + rest;
    forall i, j | 0 <= i < j < |all| ensures LexLt(all[i].key, all[j].key) {
      assert all[j] == rest[j - 1] && rest[j - 1] in rest;
      if i > 0 { assert all[i] == rest[i - 1]; }
    }
  }

  lemma {:induction false} AddToAscending(groups: seq<Group>, k: string, a: int)
    requires StrictlyAscending(groups)
    ensures StrictlyAscending(AddTo(groups, k, a))
  {
    if groups != [] {
      var head := groups[0];
      AscendingTail(groups);
      KeySetCons(groups);
      if head.key == k {
        AscendingCons(Group(k, head.total + a), groups[1..]);
      } else if LexLe(k, head.key) {
        forall key | key in KeySet(groups) ensures LexLt(k, key) {
          if key != head.key { LexLtTransitive(k, head.key, key); }
        }
        AscendingCons(Group(k, a), groups);
      } else {
        LexLeTotal(k, head.key);
        AddToAscending(groups[1..], k, a);
        AddToKeys(groups[1..], k, a);
        AscendingCons(head, AddTo(groups[1..], k, a));
      }
    }
  }


  /** Adding a row changes exactly the total of its own group, by its amount. */
  lemma {:induction false} AddToTotals(groups: seq<Group>, k: string, a: int)
    requires StrictlyAscending(groups)
    ensures forall grp :: grp in AddTo(groups, k, a) ==>
      if grp.key == k then grp.total == TotalOf(groups, k) + a else grp in groups
    ensures SumTotals(AddTo(groups, k, a)) == SumTotals(groups) + a
  {
    var r := AddTo(groups, k, a);
    if groups == [] {
      assert r == [Group(k, a)];
    } else if groups[0].key == k {
      forall grp | grp in r && grp.key != k ensures grp in groups {
        assert grp in groups[1..];
      }
    } else if LexLe(k, groups[0].key) {
      forall grp | grp in groups ensures grp.key != k {
        var m :| 0 <= m < |groups| && groups[m] == grp;
        if m > 0 { LexLtTransitive(k, groups[0].key, groups[m].key); }
      }
      TotalOfAbsent(groups, k);
      forall grp | grp in r && grp.key != k ensures grp in groups {
        assert grp in r[1..];
      }
    } else {
      var rest := AddTo(groups[1..], k, a);
      assert StrictlyAscending(groups[1..]) by {
        forall i, j | 0 <= i < j < |groups[1..]| ensures LexLt(groups[1..][i].key, groups[1..][j].key) {
          assert groups[1..][i] == groups[i + 1] && groups[1..][j] == groups[j + 1];
        }
      }
      AddToTotals(groups[1..], k, a);
      forall grp | grp in r ensures if grp.key == k then grp.total == TotalOf(groups, k) + a else grp in groups {
        if grp != groups[0] {
          assert grp in rest;
          if grp.key != k { assert grp in groups[1..]; }
        }
      }
    }
  }

  /**
   * The rows grouped by `g`: one group per distinct key, keys strictly
   * ascending, each total the sum of its rows' amounts, all totals summing to
   * the sum of every amount.
   */
  function GroupSums(rows: seq<Transaction>, g: Grouping): (r: seq<Group>)
    ensures StrictlyAscending(r)
    ensures KeySet(r) == Keys(rows, g)
    ensures forall grp :: grp in r ==> grp.total == SumWhere(rows, g, grp.key)
    ensures SumTotals(r) == Sum(rows)
  {
    if rows == [] then []
    else
      var rest := GroupSums(rows[1..], g);
      var k := KeyOf(g, rows[0]);
      var r := AddTo(rest, k, rows[0].amount);
      AddToKeys(rest, k, rows[0].amount);
      AddToAscending(rest, k, rows[0].amount);
      AddToTotals(rest, k, rows[0].amount);
      KeysCons(rows, g);
      assert TotalOf(rest, k) == SumWhere(rows[1..], g, k) by {
        if k in KeySet(rest) {
          var grp :| grp in rest && grp.key == k;
          TotalOfMember(rest, grp);
        } else {
          TotalOfAbsent(rest, k);
          SumWhereAbsent(rows[1..], g, k);
        }
      }
      r
  }

  lemma {:induction false} AscendingKeysDistinct(groups: seq<Group>)
    requires StrictlyAscending(groups)
    ensures |KeySet(groups)| == |groups|
  {
    if groups != [] {
      KeySetCons(groups);
      assert StrictlyAscending(groups[1..]) by {
        forall i, j | 0 <= i < j < |groups[1..]| ensures LexLt(groups[1..][i].key, groups[1..][j].key) {
          assert groups[1..][i] == groups[i + 1] && groups[1..][j] == groups[j + 1];
        }
      }
      AscendingKeysDistinct(groups[1..]);
      forall grp | grp in groups[1..] ensures grp.key != groups[0].key {
        var m :| 0 <= m < |groups[1..]| && groups[1..][m] == grp;
        assert groups[m + 1] == grp;
      }
    }
  }

  // ---------------------------------------------------------------------------
  // Ordering groups by total
  // ---------------------------------------------------------------------------

  function InsertByTotal(grp: Group, s: seq<Group>): (r: seq<Group>)
    ensures multiset(r) == multiset(s) + multiset{grp}
    ensures SumTotals(r) == grp.total + SumTotals(s)
  {
    if s == [] || grp.total <= s[0].total then [grp] + s
    else
      assert s == [s[0]] + s[1..];
      [s[0]] + InsertByTotal(grp, s[1..])
  }

  ghost predicate TotalsAscending(s: seq<Group>) {
    forall i, j :: 0 <= i < j < |s| ==> s[i].total <= s[j].total
  }

  /** Everything inserted after the head of an ascending sequence has a total at least the head's. */
  lemma HeadBelowInserted(grp: Group, s: seq<Group>)
    requires s != [] && TotalsAscending(s) && grp.total > s[0].total
    ensures forall x :: x in multiset(InsertByTotal(grp, s[1..])) ==> s[0].total <= x.total
  {
    forall x | x in multiset(InsertByTotal(grp, s[1..])) ensures s[0].total <= x.total {
      if x != grp {
        assert x in multiset(s[1..]);
        var m :| 0 <= m < |s[1..]| && s[1..][m] == x;
        assert s[m + 1] == x;
      }
    }
  }

  lemma ConsSorted(x: Group, s: seq<Group>)
    requires TotalsAscending(s)
    requires forall y :: y in multiset(s) ==> x.total <= y.total
    ensures TotalsAscending([x] + s)
  {
    var r := [x] + s;
    forall i, j | 0 <= i < j < |r| ensures r[i].total <= r[j].total {
      assert r[j] == s[j - 1] && r[j] in multiset(s);
      if i > 0 { assert r[i] == s[i - 1]; }
    }
  }

  lemma {:induction false} InsertByTotalSorted(grp: Group, s: seq<Group>)
    requires TotalsAscending(s)
    ensures TotalsAscending(InsertByTotal(grp, s))
  {
    if s == [] || grp.total <= s[0].total {
      forall y | y in multiset(s) ensures grp.total <= y.total {
        var m :| 0 <= m < |s| && s[m] == y;
        if m > 0 { assert s[0].total <= s[m].total; }
      }
      ConsSorted(grp, s);
    } else {
      InsertByTotalSorted(grp, s[1..]);
      HeadBelowInserted(grp, s);
      ConsSorted(s[0], InsertByTotal(grp, s[1..]));
    }
  }

  /** `ORDER BY total ASC`, stable: groups of equal total keep their order. */
  function SortByTotal(s: seq<Group>): (r: seq<Group>)
    ensures multiset(r) == multiset(s)
    ensures TotalsAscending(r)
    ensures SumTotals(r) == SumTotals(s)
  {
    if s == [] then []
    else
      var rest := SortByTotal(s[1..]);
      InsertByTotalSorted(s[0], rest);
      assert s == [s[0]] + s[1..];
      assert multiset(s) == multiset(s[1..]) + multiset{s[0]};
      assert SumTotals(s) == s[0].total + SumTotals(s[1..]);
      InsertByTotal(s[0], rest)
  }

  lemma SameElementsSameKeys(a: seq<Group>, b: seq<Group>)
    requires multiset(a) == multiset(b)
    ensures KeySet(a) == KeySet(b) && |a| == |b|
  {
    forall grp ensures grp in a <==> grp in b {
      assert grp in a <==> grp in multiset(a);
      assert grp in b <==> grp in multiset(b);
    }
    assert |a| == |multiset(a)| == |multiset(b)| == |b|;
  }

  // ---------------------------------------------------------------------------
  // The stats response
  // ---------------------------------------------------------------------------

  datatype Summary = Summary(
    income: int, expense: int, balance: int, series: seq<Group>, byCategory: seq<Group>)

  /** The `/stats` response computed from the filtered rows. */
  function Summarize(rows: seq<Transaction>): Summary {
    var income := Income(rows);
    var expense := Expense(rows);
    Summary(income, expense, income + expense,
            GroupSums(rows, ByMonth), SortByTotal(GroupSums(rows, ByCategory)))
  }

  /** Everything `/stats` promises about its totals and its two breakdowns. */
  lemma SummaryConsistent(rows: seq<Transaction>)
    ensures var s := Summarize(rows);
      && s.income >= 0 && s.expense <= 0
      && s.balance == s.income + s.expense == Sum(rows)
      && (rows == [] ==> s.income == 0 && s.expense == 0 && s.balance == 0)
      && StrictlyAscending(s.series)
      && KeySet(s.series) == Keys(rows, ByMonth) && |s.series| == |Keys(rows, ByMonth)|
      && (forall grp :: grp in s.series ==> grp.total == SumWhere(rows, ByMonth, grp.key))
      && SumTotals(s.series) == s.balance
      && TotalsAscending(s.byCategory)
      && KeySet(s.byCategory) == Keys(rows, ByCategory)
      && |s.byCategory| == |Keys(rows, ByCategory)|
      && (forall grp :: grp in s.byCategory ==> grp.total == SumWhere(rows, ByCategory, grp.key))
      && SumTotals(s.byCategory) == s.balance
  {
    IncomeExpensePartition(rows);
    var series := GroupSums(rows, ByMonth);
    var cats := GroupSums(rows, ByCategory);
    var byCat := SortByTotal(cats);
    AscendingKeysDistinct(series);
    AscendingKeysDistinct(cats);
    SameElementsSameKeys(cats, byCat);
    forall grp | grp in byCat ensures grp.total == SumWhere(rows, ByCategory, grp.key) {
      assert grp in multiset(byCat);
      assert grp in cats;
    }
  }
}
