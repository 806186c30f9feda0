/**
 * The filter builder shared by GET /transactions, GET /stats and GET /export:
 * the optional criteria from, to, category and q become AND-ed SQL clauses
 * with positional `?` placeholders and a parallel list of bound values.
 * The model gives both the clause list (with its SQL text) and the row
 * predicate SQLite evaluates for it.
 */
module Filter {
  import opened Text
  import opened Ledger

  // ---------------------------------------------------------------------------
  // Request criteria
  // ---------------------------------------------------------------------------

  /** The four criteria as `query()` returns them (null when absent or ""). */
  datatype Criteria = Criteria(
    from: Option<string>, to: Option<string>, category: Option<string>, q: Option<string>)

  /** `query(k)`: the request's value for `k`, or null when it is missing or "". */
  function Query(get: map<string, string>, k: string): Option<string> {
    if k in get && get[k] != "" then Some(get[k]) else None
  }

  function CriteriaOf(get: map<string, string>): Criteria {
    Criteria(Query(get, "from"), Query(get, "to"), Query(get, "category"), Query(get, "q"))
  }

  /** PHP truthiness of a `?string`: null, "" and "0" are falsy. */
  predicate Active(o: Option<string>) {
    o.Some? && o.value != "" && o.value != "0"
  }

  /** A criterion filters exactly when the request carries it with a value other than "" and "0". */
  lemma ActiveQuery(get: map<string, string>, k: string)
    ensures Active(Query(get, k)) <==> k in get && get[k] != "" && get[k] != "0"
    ensures Active(Query(get, k)) ==> Query(get, k).value == get[k]
  {
  }

  // ---------------------------------------------------------------------------
  // Clauses and their SQL text
  // ---------------------------------------------------------------------------

  datatype Clause = DateFrom | DateTo | CategoryIs | Search

  const Placeholder := "?"

  function ClauseSql(c: Clause): string {
    match c
    case DateFrom => "date >= " + Placeholder
    case DateTo => "date <= " + Placeholder
    case CategoryIs => "category = " + Placeholder
    case Search =>
      "(description LIKE " + Placeholder + " OR tags LIKE " + Placeholder
      + " OR account LIKE " + Placeholder + ")"
  }

  /** Number of values a clause binds. */
  function Arity(c: Clause): nat {
    if c == Search then 3 else 1
  }

  /** The fixed order in which the builder considers the criteria. */
  function ClauseRank(c: Clause): nat {
    match c
    case DateFrom => 0
    case DateTo => 1
    case CategoryIs => 2
    case Search => 3
  }

  function Placeholders(where: seq<Clause>): nat {
    if where == [] then 0 else Arity(where[0]) + Placeholders(where[1..])
  }

  /** `implode(' AND ', $where)`. */
  function Conjunction(where: seq<Clause>): string {
    if where == [] then ""
    else if |where| == 1 then ClauseSql(where[0])
    else ClauseSql(where[0]) + " AND " + Conjunction(where[1..])
  }

  /** The WHERE part of the statement; none at all without clauses. */
  function WhereSql(where: seq<Clause>): string {
    if where == [] then "" else " WHERE " + Conjunction(where)
  }

  lemma {:induction false} CountAbsent(c: char, s: string)
    requires forall i :: 0 <= i < |s| ==> s[i] != c
    ensures CountChar(c, s) == 0
  {
    if s != [] { CountAbsent(c, s[1..]); }
  }

  /** A literal without `?` followed by one placeholder. */
  lemma OnePlaceholder(text: string)
    requires forall i :: 0 <= i < |text| ==> text[i] != '?'
    ensures CountChar('?', text + Placeholder) == 1
  {
    CountAbsent('?', text);
    CountCharAppend('?', text, Placeholder);
  }

  lemma SearchPlaceholders()
    ensures CountChar('?', ClauseSql(Search)) == 3
  {
    var a, b, d := "(description LIKE ", " OR tags LIKE ", " OR account LIKE ";
    OnePlaceholder(a);
    OnePlaceholder(b);
    OnePlaceholder(d);
    CountAbsent('?', ")");
    CountCharAppend('?', a + Placeholder, b + Placeholder);
    CountCharAppend('?', a + Placeholder + (b + Placeholder), d + Placeholder);
    CountCharAppend('?', a + Placeholder + (b + Placeholder) + (d + Placeholder), ")");
    assert ClauseSql(Search) == a + Placeholder + (b + Placeholder) + (d + Placeholder) + ")";
  }

  /** The text of each clause holds as many `?` as the values it binds. */
  lemma ClausePlaceholders(c: Clause)
    ensures CountChar('?', ClauseSql(c)) == Arity(c)
  {
    match c
    case DateFrom => OnePlaceholder("date >= ");
    case DateTo => OnePlaceholder("date <= ");
    case CategoryIs => OnePlaceholder("category = ");
    case Search => SearchPlaceholders();
  }

  lemma {:induction false} ConjunctionPlaceholders(where: seq<Clause>)
    ensures CountChar('?', Conjunction(where)) == Placeholders(where)
  {
    if where != [] {
      ClausePlaceholders(where[0]);
      if |where| > 1 {
        ConjunctionPlaceholders(where[1..]);
        CountAbsent('?', " AND ");
        CountCharAppend('?', ClauseSql(where[0]), " AND ");
        CountCharAppend('?', ClauseSql(where[0]) + " AND ", Conjunction(where[1..]));
      } else {
        assert where[1..] == [];
      }
    }
  }

  /** The generated SQL carries exactly `Placeholders(where)` question marks. */
  lemma WherePlaceholders(where: seq<Clause>)
    ensures CountChar('?', WhereSql(where)) == Placeholders(where)
  {
    if where != [] {
      ConjunctionPlaceholders(where);
      CountAbsent('?', " WHERE ");
      CountCharAppend('?', " WHERE ", Conjunction(where));
    }
  }

  lemma {:induction false} PlaceholdersAppend(w1: seq<Clause>, w2: seq<Clause>)
    ensures Placeholders(w1 + w2) == Placeholders(w1) + Placeholders(w2)
  {
    if w1 == [] {
      assert w1 + w2 == w2;
    } else {
      assert (w1 + w2)[1..] == w1[1..] + w2;
      PlaceholdersAppend(w1[1..], w2);
    }
  }

  // ---------------------------------------------------------------------------
  // What SQLite evaluates for a clause list and its bound values
  // ---------------------------------------------------------------------------

  /**
   * One clause against one row, given the values bound to its placeholders.
   * `tags LIKE ?` is NULL for a NULL tags column and an OR with NULL selects
   * the row only through one of its other operands.
   */
  predicate ClauseHolds(c: Clause, args: seq<string>, t: Transaction)
    requires |args| == Arity(c)
  {
    match c
    case DateFrom => LexLe(args[0], t.date)
    case DateTo => LexLe(t.date, args[0])
    case CategoryIs => t.category == args[0]
    case Search =>
      Like(t.description, args[0]) || (t.tags.Some? && Like(t.tags.value, args[1]))
      || Like(t.account, args[2])
  }

  /** The row satisfies every clause, placeholders bound left to right. */
  predicate Holds(where: seq<Clause>, params: seq<string>, t: Transaction)
    requires |params| == Placeholders(where)
  {
    where == []
    || (&& ClauseHolds(where[0], params[..Arity(where[0])], t)
        && Holds(where[1..], params[Arity(where[0])..], t))
  }

  lemma {:induction false} HoldsAppend(
    w1: seq<Clause>, p1: seq<string>, w2: seq<Clause>, p2: seq<string>, t: Transaction)
    requires |p1| == Placeholders(w1) && |p2| == Placeholders(w2)
    ensures |p1 + p2| == Placeholders(w1 + w2)
    ensures Holds(w1 + w2, p1 + p2, t) <==> Holds(w1, p1, t) && Holds(w2, p2, t)
  {
    PlaceholdersAppend(w1, w2);
    if w1 == [] {
      assert w1 + w2 == w2;
      assert p1 + p2 == p2;
    } else {
      var n := Arity(w1[0]);
      assert (w1 + w2)[0] == w1[0];
      assert (w1 + w2)[1..] == w1[1..] + w2;
      assert (p1 + p2)[..n] == p1[..n];
      assert (p1 + p2)[n..] == p1[n..] + p2;
      HoldsAppend(w1[1..], p1[n..], w2, p2, t);
    }
  }

  // ---------------------------------------------------------------------------
  // What the criteria mean
  // ---------------------------------------------------------------------------

  /** The LIKE pattern `'%' . $q . '%'`. */
  function Pattern(q: string): string {
    "%" + q + "%"
  }

  /** `q` found in description, tags or account; a NULL tags column never matches. */
  predicate SearchHit(q: string, t: Transaction) {
    || Like(t.description, Pattern(q))
    || (t.tags.Some? && Like(t.tags.value, Pattern(q)))
    || Like(t.account, Pattern(q))
  }

  predicate FromOk(c: Criteria, t: Transaction) {
    Active(c.from) ==> LexLe(c.from.value, t.date)
  }

  predicate ToOk(c: Criteria, t: Transaction) {
    Active(c.to) ==> LexLe(t.date, c.to.value)
  }

  predicate CategoryOk(c: Criteria, t: Transaction) {
    Active(c.category) ==> t.category == c.category.value
  }

  predicate SearchOk(c: Criteria, t: Transaction) {
    Active(c.q) ==> SearchHit(c.q.value, t)
  }

  /**
   * The rows the criteria select: from <= date <= to in text order, the
   * exact category, and q somewhere in description, tags or account.
   */
  predicate Matches(c: Criteria, t: Transaction) {
    FromOk(c, t) && ToOk(c, t) && CategoryOk(c, t) && SearchOk(c, t)
  }

  /** With no active criterion every row matches. */
  lemma MatchesEverythingUnfiltered(c: Criteria, t: Transaction)
    requires !Active(c.from) && !Active(c.to) && !Active(c.category) && !Active(c.q)
    ensures Matches(c, t)
  {
  }

  /**
   * Free of the wildcards % and _, the search is a case-insensitive (ASCII)
   * substring test on description, tags and account.
   */
  lemma SearchHitIsSubstring(q: string, t: Transaction)
    requires NoWildcards(q)
    ensures SearchHit(q, t) <==>
      || FoldContains(t.description, q)
      || (t.tags.Some? && FoldContains(t.tags.value, q))
      || FoldContains(t.account, q)
  {
    LikeContains(t.description, q);
    LikeContains(t.account, q);
    if t.tags.Some? { LikeContains(t.tags.value, q); }
  }

  // ---------------------------------------------------------------------------
  // The builder
  // ---------------------------------------------------------------------------

  lemma PlaceholdersSnoc(where: seq<Clause>, c: Clause)
    ensures Placeholders(where + [c]) == Placeholders(where) + Arity(c)
  {
    PlaceholdersAppend(where, [c]);
    assert [c][1..] == [];
  }

  /** The criterion behind each kind of clause. */
  function CriterionFor(c: Criteria, cl: Clause): Option<string> {
    match cl
    case DateFrom => c.from
    case DateTo => c.to
    case CategoryIs => c.category
    case Search => c.q
  }

  /** The values the builder binds for a clause: q's pattern three times, otherwise the value itself. */
  function ArgsFor(cl: Clause, v: string): (args: seq<string>)
    ensures |args| == Arity(cl)
  {
    if cl == Search then [Pattern(v), Pattern(v), Pattern(v)] else [v]
  }

  /** The clause the criterion for `cl` contributes holds of `t`, or the criterion is inactive. */
  predicate ClauseOk(c: Criteria, cl: Clause, t: Transaction) {
    Active(CriterionFor(c, cl)) ==> ClauseHolds(cl, ArgsFor(cl, CriterionFor(c, cl).value), t)
  }

  /**
   * What the builder has produced once it has considered the criteria of
   * rank below `k`: values line up with placeholders, the clauses appear in
   * rank order, one per active criterion, and together select the rows
   * that satisfy those criteria.
   */
  ghost predicate BuiltUpTo(where: seq<Clause>, params: seq<string>, c: Criteria, k: nat) {
    && |params| == Placeholders(where)
    && (forall i, j :: 0 <= i < j < |where| ==> ClauseRank(where[i]) < ClauseRank(where[j]))
    && (forall i :: 0 <= i < |where| ==> ClauseRank(where[i]) < k)
    && (forall cl :: ClauseRank(cl) < k ==> (cl in where <==> Active(CriterionFor(c, cl))))
    && (forall t :: Holds(where, params, t) <==> forall cl :: ClauseRank(cl) < k ==> ClauseOk(c, cl, t))
  }

  /** An active criterion appends its clause and values, and the result is built one rank further. */
  lemma BuildActive(where: seq<Clause>, params: seq<string>, c: Criteria, cl: Clause)
    requires BuiltUpTo(where, params, c, ClauseRank(cl))
    requires Active(CriterionFor(c, cl))
    ensures BuiltUpTo(where + [cl], params + ArgsFor(cl, CriterionFor(c, cl).value), c, ClauseRank(cl) + 1)
  {
    var k := ClauseRank(cl);
    var args := ArgsFor(cl, CriterionFor(c, cl).value);
    var where', params' := where + [cl], params + args;
    PlaceholdersSnoc(where, cl);
    assert Placeholders([cl]) == Arity(cl) && [cl][1..] == [];
    assert args[..Arity(cl)] == args && args[Arity(cl)..] == [];
    assert forall d :: ClauseRank(d) < k + 1 <==> ClauseRank(d) < k || d == cl;
    forall t ensures Holds(where', params', t) <==> Holds(where, params, t) && ClauseOk(c, cl, t) {
      HoldsAppend(where, params, [cl], args, t);
    }
    assert where'[|where|] == cl;
    assert forall i :: 0 <= i < |where| ==> where'[i] == where[i];
  }

  /** An inactive criterion leaves the clauses as they are, built one rank further. */
  lemma BuildInactive(where: seq<Clause>, params: seq<string>, c: Criteria, cl: Clause)
    requires BuiltUpTo(where, params, c, ClauseRank(cl))
    requires !Active(CriterionFor(c, cl))
    ensures BuiltUpTo(where, params, c, ClauseRank(cl) + 1)
  {
    var k := ClauseRank(cl);
    assert forall d :: ClauseRank(d) < k + 1 <==> ClauseRank(d) < k || d == cl;
  }

  /** The builder's clauses together mean exactly `Matches`. */
  lemma AllClausesOk(c: Criteria, t: Transaction)
    ensures (forall cl :: ClauseRank(cl) < 4 ==> ClauseOk(c, cl, t)) <==> Matches(c, t)
  {
    assert ClauseOk(c, DateFrom, t) <==> FromOk(c, t);
    assert ClauseOk(c, DateTo, t) <==> ToOk(c, t);
    assert ClauseOk(c, CategoryIs, t) <==> CategoryOk(c, t);
    assert ClauseOk(c, Search, t) <==> SearchOk(c, t);
  }

  /**
   * One `if ($x = query(...)) { $where[] = ...; $params[] = ...; }` step:
   * the clause for `cl` and its values are appended when its criterion is active.
   */
  method AddClause(where: seq<Clause>, params: seq<string>, c: Criteria, cl: Clause)
    returns (where': seq<Clause>, params': seq<string>)
    requires BuiltUpTo(where, params, c, ClauseRank(cl))
    ensures BuiltUpTo(where', params', c, ClauseRank(cl) + 1)
  {
    where', params' := where, params;
    var criterion := CriterionFor(c, cl);
    if Active(criterion) {
      BuildActive(where, params, c, cl);
      where', params' := where + [cl], params + ArgsFor(cl, criterion.value);
    } else {
      BuildInactive(where, params, c, cl);
    }
  }

  /**
   * The where/params builder: one clause per active criterion, in the order
   * from, to, category, q; q binds its pattern three times.
   */
  method BuildFilter(c: Criteria) returns (where: seq<Clause>, params: seq<string>)
    ensures |params| == Placeholders(where)
    ensures CountChar('?', WhereSql(where)) == |params|
    ensures forall t :: Holds(where, params, t) <==> Matches(c, t)
    ensures forall cl :: cl in where <==> Active(CriterionFor(c, cl))
    ensures forall i, j :: 0 <= i < j < |where| ==> ClauseRank(where[i]) < ClauseRank(where[j])
  {
    where, params := [], [];
    assert BuiltUpTo(where, params, c, 0);
    where, params := AddClause(where, params, c, DateFrom);
    where, params := AddClause(where, params, c, DateTo);
    where, params := AddClause(where, params, c, CategoryIs);
    where, params := AddClause(where, params, c, Search);
    BuiltAll(where, params, c);
    WherePlaceholders(where);
  }

  /** Once all four criteria are considered, the clauses mean exactly `Matches`. */
  lemma BuiltAll(where: seq<Clause>, params: seq<string>, c: Criteria)
    requires BuiltUpTo(where, params, c, 4)
    ensures forall t :: Holds(where, params, t) <==> Matches(c, t)
    ensures forall cl :: cl in where <==> Active(CriterionFor(c, cl))
  {
    forall t ensures Holds(where, params, t) <==> Matches(c, t) {
      AllClausesOk(c, t);
    }
  }

  // ---------------------------------------------------------------------------
  // Selecting rows
  // ---------------------------------------------------------------------------

  /** `SELECT ... FROM transactions <WhereSql(where)>`, rows in table order. */
  function Select(rows: seq<Transaction>, where: seq<Clause>, params: seq<string>): (r: seq<Transaction>)
    requires |params| == Placeholders(where)
    ensures forall t :: t in r <==> t in rows && Holds(where, params, t)
  {
    if rows == [] then []
    else if Holds(where, params, rows[0]) then [rows[0]] + Select(rows[1..], where, params)
    else Select(rows[1..], where, params)
  }

  /** The rows matching the criteria, in table order. */
  function FilterRows(rows: seq<Transaction>, c: Criteria): (r: seq<Transaction>)
    ensures forall t :: t in r <==> t in rows && Matches(c, t)
    ensures |r| <= |rows|
    ensures IdsAscending(rows) ==> IdsAscending(r)
  {
    if rows == [] then []
    else if Matches(c, rows[0]) then
      var rest := FilterRows(rows[1..], c);
      assert IdsAscending(rows) ==> forall k :: 0 <= k < |rest| ==> rows[0].id < rest[k].id by {
        if IdsAscending(rows) {
          forall k | 0 <= k < |rest| ensures rows[0].id < rest[k].id {
            assert rest[k] in rows[1..];
            var j :| 0 <= j < |rows[1..]| && rows[1..][j] == rest[k];
            assert rows[j + 1] == rest[k];
          }
        }
      }
      [rows[0]] + rest
    else FilterRows(rows[1..], c)
  }

  /** Each matching row is kept as often as it is stored; a row that does not match never is. */
  lemma {:induction false} FilterRowsCount(rows: seq<Transaction>, c: Criteria)
    ensures forall t :: multiset(FilterRows(rows, c))[t] == if Matches(c, t) then multiset(rows)[t] else 0
  {
    if rows != [] {
      FilterRowsCount(rows[1..], c);
      assert rows == [rows[0]] + rows[1..];
      assert multiset(rows) == multiset{rows[0]} + multiset(rows[1..]);
    }
  }

  /** The generated statement selects exactly the rows the criteria describe, in the same order. */
  lemma {:induction false} SelectIsFilter(
    rows: seq<Transaction>, c: Criteria, where: seq<Clause>, params: seq<string>)
    requires |params| == Placeholders(where)
    requires forall t :: Holds(where, params, t) <==> Matches(c, t)
    ensures Select(rows, where, params) == FilterRows(rows, c)
  {
    if rows != [] {
      SelectIsFilter(rows[1..], c, where, params);
    }
  }
}
