/**
 * The `transactions` table and the API operations that read and change it:
 * POST /transactions, GET, PUT and DELETE /transactions/{id}, POST /import,
 * and the filtered reads GET /transactions, /stats and /export.
 */
module Store {
  import opened Text
  import opened Ledger
  import opened Validation
  import opened Filter
  import opened Ordering
  import opened Stats
  import opened Csv

  // ---------------------------------------------------------------------------
  // Writing one record
  // ---------------------------------------------------------------------------

  /** Binding null to the column of `f` breaks its NOT NULL constraint (amount is cast first, tags may be NULL). */
  predicate NullViolation(p: Payload, f: Field) {
    f in p && p[f] == Null && f != Amount && f != Tags
  }

  /** The first NOT NULL constraint, in column order, that binding `p` breaks. */
  function FirstNullColumn(p: Payload): (r: Option<Field>)
    ensures r.Some? ==> NullViolation(p, r.value)
    ensures r.Some? ==> forall g :: Rank(g) < Rank(r.value) ==> !NullViolation(p, g)
    ensures r.None? <==> forall f :: !NullViolation(p, f)
  {
    if NullViolation(p, Date) then Some(Date)
    else if NullViolation(p, Description) then Some(Description)
    else if NullViolation(p, Category) then Some(Category)
    else if NullViolation(p, Account) then Some(Account)
    else None
  }

  /** The row INSERT stores for a create payload; an absent tags key is NULL. */
  function NewRecord(p: Payload, id: nat, now: Timestamp): (t: Transaction)
    requires Date in p && Description in p && Category in p && Account in p && Amount in p
    ensures t.id == id && t.createdAt == now && t.updatedAt == None
    ensures t.amount == AmountOf(p[Amount])
    ensures Tags !in p ==> t.tags == None
  {
    Transaction(id, TextOf(p[Date]), TextOf(p[Description]), TextOf(p[Category]),
                TextOf(p[Account]), AmountOf(p[Amount]),
                if Tags in p then NullableText(p[Tags]) else None, now, None)
  }

  /** What validation guarantees of a row written by POST or PUT: a well-formed date and no blank text column. */
  predicate NonBlank(t: Transaction) {
    IsDatePattern(t.date) && Trim(t.description) != "" && Trim(t.category) != "" && Trim(t.account) != ""
  }

  /** A create payload that passes validation and binds no null to a NOT NULL column stores a non-blank row. */
  lemma NewRecordNonBlank(p: Payload, id: nat, now: Timestamp)
    requires Acceptable(p, false)
    requires forall f :: !NullViolation(p, f)
    ensures Date in p && Description in p && Category in p && Account in p && Amount in p
    ensures NonBlank(NewRecord(p, id, now))
  {
    assert !Missing(p, Date, false) && !Missing(p, Description, false) && !Missing(p, Category, false);
    assert !Missing(p, Account, false) && !Missing(p, Amount, false);
    GivenPasses(p, Date);
    GivenPasses(p, Description);
    GivenPasses(p, Category);
    GivenPasses(p, Account);
    var t := NewRecord(p, id, now);
    assert t.date == TextOf(p[Date]) && t.description == TextOf(p[Description]);
    assert t.category == TextOf(p[Category]) && t.account == TextOf(p[Account]);
  }

  /** A NOT NULL column present in a payload that passes validation holds a value its check accepts. */
  lemma GivenPasses(p: Payload, f: Field)
    requires f in p && f != Amount && f != Tags
    requires !Fails(p, f) && forall g :: !NullViolation(p, g)
    ensures !Violates(f, p[f])
  {
    assert !NullViolation(p, f);
    assert IsSet(p, f);
  }

  /** A partial payload that passes validation and binds no null to a NOT NULL column keeps a row non-blank. */
  lemma UpdatedNonBlank(t: Transaction, p: Payload, now: Timestamp)
    requires NonBlank(t)
    requires Acceptable(p, true)
    requires forall f :: !NullViolation(p, f)
    ensures NonBlank(Updated(t, p, now))
  {
    assert !Fails(p, Date) && !NullViolation(p, Date);
    assert !Fails(p, Description) && !NullViolation(p, Description);
    assert !Fails(p, Category) && !NullViolation(p, Category);
    assert !Fails(p, Account) && !NullViolation(p, Account);
    UpdatedDate(t, p, now);
    UpdatedDescription(t, p, now);
    UpdatedCategory(t, p, now);
    UpdatedAccount(t, p, now);
  }

  lemma UpdatedDate(t: Transaction, p: Payload, now: Timestamp)
    requires IsDatePattern(t.date)
    requires !Fails(p, Date) && !NullViolation(p, Date)
    ensures IsDatePattern(Updated(t, p, now).date)
  {
    if Date in p { assert Updated(t, p, now).date == TextOf(p[Date]); }
  }

  /** A column that either keeps a non-blank value or takes one stays non-blank. */
  lemma KeptNonBlank(before: string, given: string, changed: bool, after: string)
    requires after == if changed then given else before
    requires Trim(before) != "" && (changed ==> Trim(given) != "")
    ensures Trim(after) != ""
  {
  }

  lemma UpdatedDescription(t: Transaction, p: Payload, now: Timestamp)
    requires Trim(t.description) != ""
    requires !Fails(p, Description) && !NullViolation(p, Description)
    ensures Trim(Updated(t, p, now).description) != ""
  {
    var given := if Description in p then TextOf(p[Description]) else "";
    if Description in p {
      assert IsSet(p, Description) && !Violates(Description, p[Description]);
    }
    KeptNonBlank(t.description, given, Description in p, Updated(t, p, now).description);
  }

  lemma UpdatedCategory(t: Transaction, p: Payload, now: Timestamp)
    requires Trim(t.category) != ""
    requires !Fails(p, Category) && !NullViolation(p, Category)
    ensures Trim(Updated(t, p, now).category) != ""
  {
    var given := if Category in p then TextOf(p[Category]) else "";
    if Category in p {
      assert IsSet(p, Category) && !Violates(Category, p[Category]);
    }
    KeptNonBlank(t.category, given, Category in p, Updated(t, p, now).category);
  }

  lemma UpdatedAccount(t: Transaction, p: Payload, now: Timestamp)
    requires Trim(t.account) != ""
    requires !Fails(p, Account) && !NullViolation(p, Account)
    ensures Trim(Updated(t, p, now).account) != ""
  {
    var given := if Account in p then TextOf(p[Account]) else "";
    if Account in p {
      assert IsSet(p, Account) && !Violates(Account, p[Account]);
    }
    KeptNonBlank(t.account, given, Account in p, Updated(t, p, now).account);
  }

  /** `f = :f` applied to one row, or the NOT NULL failure it causes. */
  function SetColumn(t: Transaction, f: Field, v: Value): Result<Transaction> {
    match f
    case Date => if v == Null then Err(NotNullViolation(Date)) else Ok(t.(date := TextOf(v)))
    case Description =>
      if v == Null then Err(NotNullViolation(Description)) else Ok(t.(description := TextOf(v)))
    case Category => if v == Null then Err(NotNullViolation(Category)) else Ok(t.(category := TextOf(v)))
    case Account => if v == Null then Err(NotNullViolation(Account)) else Ok(t.(account := TextOf(v)))
    case Amount => Ok(t.(amount := AmountOf(v)))
    case Tags => Ok(t.(tags := NullableText(v)))
  }

  /** The columns named in `cols` take their new values from `p`; the others keep theirs. */
  function Assign(t: Transaction, cols: set<Field>, p: Payload): Transaction
    requires cols <= p.Keys
  {
    t.(date := if Date in cols then TextOf(p[Date]) else t.date,
       description := if Description in cols then TextOf(p[Description]) else t.description,
       category := if Category in cols then TextOf(p[Category]) else t.category,
       account := if Account in cols then TextOf(p[Account]) else t.account,
       amount := if Amount in cols then AmountOf(p[Amount]) else t.amount,
       tags := if Tags in cols then NullableText(p[Tags]) else t.tags)
  }

  /** The row after a PUT of `p` at time `now`: every column the payload names is set, and `updated_at`. */
  function Updated(t: Transaction, p: Payload, now: Timestamp): Transaction {
    Assign(t, p.Keys, p).(updatedAt := Some(now))
  }

  /** A PUT naming only tags changes only tags and `updated_at`. */
  lemma UpdateTagsOnly(t: Transaction, v: Value, now: Timestamp)
    ensures Updated(t, map[Tags := v], now)
         == t.(tags := NullableText(v), updatedAt := Some(now))
  {
    assert map[Tags := v].Keys == {Tags};
  }

  /** A violation with no earlier one among the payload's columns is the first in column order. */
  lemma FirstNullIsFirst(p: Payload, f: Field)
    requires NullViolation(p, f)
    requires forall g :: g in p && Rank(g) < Rank(f) ==> !NullViolation(p, g)
    ensures FirstNullColumn(p) == Some(f)
  {
    var g := FirstNullColumn(p).value;
    assert Rank(g) <= Rank(f) && Rank(f) <= Rank(g);
    assert Fields[Rank(g)] == g && Fields[Rank(f)] == f;
  }

  /** The columns of a PUT payload in column order. */
  ghost predicate InColumnOrder(fields: seq<Field>) {
    forall i, j :: 0 <= i < j < |fields| ==> Rank(fields[i]) < Rank(fields[j])
  }

  /** `f` is the first listed column whose new value breaks NOT NULL. */
  predicate FirstIn(fields: seq<Field>, p: Payload, f: Field) {
    f in fields && NullViolation(p, f) && forall g :: g in fields && Rank(g) < Rank(f) ==> !NullViolation(p, g)
  }

  function Patch(t: Transaction, fields: seq<Field>, p: Payload): Result<Transaction>
    requires forall f :: f in fields ==> f in p
    decreases |fields|
  {
    if fields == [] then Ok(t)
    else
      match SetColumn(t, fields[0], p[fields[0]])
      case Err(e) => Err(e)
      case Ok(u) => Patch(u, fields[1..], p)
  }

  function Columns(fields: seq<Field>): (cols: set<Field>)
    ensures forall f :: f in cols <==> f in fields
  {
    set f | f in fields
  }

  lemma SetColumnAssigns(t: Transaction, f: Field, p: Payload)
    requires f in p
    ensures SetColumn(t, f, p[f]).Err? <==> NullViolation(p, f)
    ensures SetColumn(t, f, p[f]).Err? ==> SetColumn(t, f, p[f]).error == NotNullViolation(f)
    ensures SetColumn(t, f, p[f]).Ok? ==> SetColumn(t, f, p[f]).value == Assign(t, {f}, p)
  {
  }

  lemma AssignTwice(t: Transaction, a: set<Field>, b: set<Field>, p: Payload)
    requires a <= p.Keys && b <= p.Keys
    ensures Assign(Assign(t, a, p), b, p) == Assign(t, a + b, p)
  {
  }

  lemma InColumnOrderTail(fields: seq<Field>)
    requires fields != [] && InColumnOrder(fields)
    ensures InColumnOrder(fields[1..])
    ensures forall g :: g in fields[1..] ==> Rank(fields[0]) < Rank(g)
  {
    forall g | g in fields[1..] ensures Rank(fields[0]) < Rank(g) {
      var k :| 0 <= k < |fields[1..]| && fields[1..][k] == g;
      assert fields[k + 1] == g;
    }
    forall i, j | 0 <= i < j < |fields[1..]| ensures Rank(fields[1..][i]) < Rank(fields[1..][j]) {
      assert fields[1..][i] == fields[i + 1] && fields[1..][j] == fields[j + 1];
    }
  }

  /**
   * The SET list of an UPDATE applied to one row: the listed columns take
   * their new values and the others keep theirs, unless a NOT NULL column is
   * set to null, in which case the first such column in column order aborts
   * the statement.
   */
  lemma {:induction false} PatchEffect(t: Transaction, fields: seq<Field>, p: Payload)
    requires forall f :: f in fields ==> f in p
    requires InColumnOrder(fields)
    ensures Patch(t, fields, p).Err? <==> exists f :: f in fields && NullViolation(p, f)
    ensures Patch(t, fields, p).Err? ==> exists f :: FirstIn(fields, p, f) && Patch(t, fields, p).error == NotNullViolation(f)
    ensures Patch(t, fields, p).Ok? ==> Patch(t, fields, p).value == Assign(t, Columns(fields), p)
    decreases |fields|
  {
    if fields != [] {
      var f := fields[0];
      var rest := fields[1..];
      InColumnOrderTail(fields);
      SetColumnAssigns(t, f, p);
      assert forall g :: g in fields <==> g == f || g in rest;
      match SetColumn(t, f, p[f])
      case Err(e) =>
        assert FirstIn(fields, p, f);
      case Ok(u) =>
        PatchEffect(u, rest, p);
        AssignTwice(t, {f}, Columns(rest), p);
        assert Columns(fields) == {f} + Columns(rest);
        if Patch(t, fields, p).Err? {
          var g :| FirstIn(rest, p, g) && Patch(u, rest, p).error == NotNullViolation(g);
          assert FirstIn(fields, p, g);
        }
    }
  }

  /** A column ranked after every listed one extends the list in column order. */
  lemma InColumnOrderSnoc(fields: seq<Field>, f: Field)
    requires InColumnOrder(fields)
    requires forall k :: 0 <= k < |fields| ==> Rank(fields[k]) < Rank(f)
    ensures InColumnOrder(fields + [f])
  {
    var all := fields + [f];
    forall i, j | 0 <= i < j < |all| ensures Rank(all[i]) < Rank(all[j]) {
      assert all[i] == fields[i];
      if j < |fields| { assert all[j] == fields[j]; }
    }
  }

  /** The columns a PUT payload names, in column order. */
  method Assignments(p: Payload) returns (fields: seq<Field>)
    ensures forall f :: f in fields <==> f in p
    ensures InColumnOrder(fields)
    ensures fields == [] <==> p == map[]
  {
    fields := [];
    for i := 0 to |Fields|
      invariant forall f :: f in fields <==> f in p && Rank(f) < i
      invariant forall k :: 0 <= k < |fields| ==> Rank(fields[k]) < i
      invariant InColumnOrder(fields)
    {
      var f := Fields[i];
      RankAt(i);
      if f in p {
        InColumnOrderSnoc(fields, f);
        fields := fields + [f];
      }
    }
    if p != map[] {
      var f :| f in p;
      assert f in fields;
    }
    if fields != [] {
      assert fields[0] in fields;
    }
  }

  /** Position of the row with id `id`. */
  function Find(rows: seq<Transaction>, id: nat): (r: Option<nat>)
    ensures r.Some? ==> r.value < |rows| && rows[r.value].id == id
    ensures r.None? <==> forall t :: t in rows ==> t.id != id
  {
    if rows == [] then None
    else if rows[0].id == id then Some(0)
    else match Find(rows[1..], id)
      case None => None
      case Some(k) => Some(k + 1)
  }

  /** The rows that remain after `DELETE ... WHERE id = ?`. */
  function Without(rows: seq<Transaction>, id: nat): (r: seq<Transaction>)
    ensures forall t :: t in r <==> t in rows && t.id != id
    ensures |r| <= |rows|
  {
    if rows == [] then []
    else
      assert rows == [rows[0]] + rows[1..];
      (if rows[0].id == id then [] else [rows[0]]) + Without(rows[1..], id)
  }

  /** Deleting an id no row has leaves the table as it is. */
  lemma {:induction false} WithoutAbsent(rows: seq<Transaction>, id: nat)
    requires forall t :: t in rows ==> t.id != id
    ensures Without(rows, id) == rows
  {
    if rows != [] {
      assert rows[0] in rows;
      assert forall t :: t in rows[1..] ==> t in rows;
      WithoutAbsent(rows[1..], id);
    }
  }

  // ---------------------------------------------------------------------------
  // The table
  // ---------------------------------------------------------------------------

  /**
   * What every state of the table satisfies: AUTOINCREMENT ids ascending in
   * rowid order and below the counter, and every date of the YYYY-MM-DD form
   * (create, update and import all check it before storing).
   */
  ghost predicate Table(rows: seq<Transaction>, next: nat) {
    && next > 0
    && IdsAscending(rows)
    && (forall t :: t in rows ==> 0 < t.id < next)
    && (forall t :: t in rows ==> IsDatePattern(t.date))
  }

  lemma AppendKeepsTable(rows: seq<Transaction>, next: nat, extra: seq<Transaction>)
    requires Table(rows, next)
    requires forall i :: 0 <= i < |extra| ==> extra[i].id == next + i && IsDatePattern(extra[i].date)
    ensures Table(rows + extra, next + |extra|)
  {
    var all := rows + extra;
    forall i, j | 0 <= i < j < |all| ensures all[i].id < all[j].id {
      if j < |rows| {
        assert all[i] == rows[i] && all[j] == rows[j];
      } else if i < |rows| {
        assert all[i] == rows[i] && rows[i] in rows;
        assert all[j] == extra[j - |rows|];
      } else {
        assert all[i] == extra[i - |rows|] && all[j] == extra[j - |rows|];
      }
    }
    forall t | t in all ensures 0 < t.id < next + |extra| && IsDatePattern(t.date) {
      var k :| 0 <= k < |all| && all[k] == t;
      if k < |rows| { assert t == rows[k] && rows[k] in rows; } else { assert t == extra[k - |rows|]; }
    }
  }

  lemma ReplaceKeepsTable(rows: seq<Transaction>, next: nat, k: nat, u: Transaction)
    requires Table(rows, next) && k < |rows|
    requires u.id == rows[k].id && IsDatePattern(u.date)
    ensures Table(rows[k := u], next)
  {
    var all := rows[k := u];
    forall i, j | 0 <= i < j < |all| ensures all[i].id < all[j].id {
      assert rows[i].id < rows[j].id;
    }
    forall t | t in all ensures 0 < t.id < next && IsDatePattern(t.date) {
      var m :| 0 <= m < |all| && all[m] == t;
      assert rows[m] in rows;
    }
  }

  /** The tail of a table is a table, and its first id is below every later one. */
  lemma TableTail(rows: seq<Transaction>, next: nat)
    requires Table(rows, next) && rows != []
    ensures Table(rows[1..], next)
    ensures forall t :: t in rows[1..] ==> rows[0].id < t.id
  {
    var tail := rows[1..];
    forall i, j | 0 <= i < j < |tail| ensures tail[i].id < tail[j].id {
      assert tail[i] == rows[i + 1] && tail[j] == rows[j + 1];
    }
    forall t | t in tail ensures t in rows && rows[0].id < t.id {
      var m :| 0 <= m < |tail| && tail[m] == t;
      assert rows[m + 1] == t;
    }
  }

  /** Prepending a row whose id is below every other keeps the ids ascending. */
  lemma ConsAscending(t: Transaction, rest: seq<Transaction>)
    requires IdsAscending(rest)
    requires forall u :: u in rest ==> t.id < u.id
    ensures IdsAscending([t] + rest)
  {
    var all := [t] + rest;
    forall i, j | 0 <= i < j < |all| ensures all[i].id < all[j].id {
      assert all[j] == rest[j - 1] && rest[j - 1] in rest;
      if i > 0 { assert all[i] == rest[i - 1]; }
    }
  }

  lemma {:induction false} WithoutKeepsTable(rows: seq<Transaction>, next: nat, id: nat)
    requires Table(rows, next)
    ensures Table(Without(rows, id), next)
  {
    if rows != [] {
      TableTail(rows, next);
      WithoutKeepsTable(rows[1..], next, id);
      var rest := Without(rows[1..], id);
      assert Without(rows, id) == (if rows[0].id == id then [] else [rows[0]]) + rest;
      if rows[0].id != id {
        assert rows[0] in rows;
        ConsAscending(rows[0], rest);
      }
    }
  }

  /** Appending the records of an import to a table numbered up to `next` keeps it a table. */
  lemma ImportKeepsTable(rows: seq<Transaction>, next: nat, body: CsvFile, now: Timestamp)
    requires Table(rows, next)
    ensures Table(rows + Imported(body, next, now), next + |Imported(body, next, now)|)
  {
    ImportedWellFormed(body, next, now);
    AppendKeepsTable(rows, next, Imported(body, next, now));
  }

  class Store {
    /** The stored rows in rowid order. */
    var rows: seq<Transaction>
    /** The AUTOINCREMENT counter: the id the next insert receives. */
    var nextId: nat

    ghost predicate Valid()
      reads this
    {
      Table(rows, nextId)
    }

    constructor()
      ensures rows == [] && nextId == 1
      ensures Valid()
    {
      rows := [];
      nextId := 1;
    }

    /**
     * POST /transactions: validation first, then the INSERT, which fails on
     * the first NOT NULL column bound to null and otherwise takes the next id.
     */
    method Create(p: Payload, now: Timestamp) returns (res: Result<Transaction>)
      requires Valid()
      modifies this
      ensures Valid()
      ensures !Acceptable(p, false) ==>
        res.Err? && res.error.Invalid? && Reports(res.error.errors, p, false)
      ensures Acceptable(p, false) && FirstNullColumn(p).Some? ==>
        res == Err(NotNullViolation(FirstNullColumn(p).value))
      ensures res.Err? ==> rows == old(rows) && nextId == old(nextId)
      ensures Acceptable(p, false) && FirstNullColumn(p).None? ==>
        && Date in p && Description in p && Category in p && Account in p && Amount in p
        && res == Ok(NewRecord(p, old(nextId), now))
        && rows == old(rows) + [res.value]
        && nextId == old(nextId) + 1
    {
      var errors := Validate(p, false);
      if errors != map[] {
        return Err(Invalid(errors));
      }
      assert !Missing(p, Date, false) && !Missing(p, Description, false) && !Missing(p, Category, false);
      assert !Missing(p, Account, false) && !Missing(p, Amount, false) && !Fails(p, Date);
      var column := FirstNullColumn(p);
      if column.Some? {
        return Err(NotNullViolation(column.value));
      }
      assert !NullViolation(p, Date);
      var t := NewRecord(p, nextId, now);
      AppendKeepsTable(rows, nextId, [t]);
      rows := rows + [t];
      nextId := nextId + 1;
      res := Ok(t);
    }

    /** GET /transactions/{id}. */
    function Get(id: nat): (res: Result<Transaction>)
      reads this
      ensures res.Ok? ==> res.value in rows && res.value.id == id
      ensures res.Err? <==> forall t :: t in rows ==> t.id != id
      ensures res.Err? ==> res.error == NotFound
    {
      match Find(rows, id)
      case None => Err(NotFound)
      case Some(k) => Ok(rows[k])
    }

    /**
     * PUT /transactions/{id}. A missing id is not an error: the UPDATE
     * changes nothing and the response carries no row.
     */
    method Update(id: nat, p: Payload, now: Timestamp) returns (res: Result<Option<Transaction>>)
      requires Valid()
      modifies this
      ensures Valid()
      ensures nextId == old(nextId)
      ensures !Acceptable(p, true) ==>
        res.Err? && res.error.Invalid? && Reports(res.error.errors, p, true)
      ensures Acceptable(p, true) && p == map[] ==> res == Err(NothingToUpdate)
      ensures Acceptable(p, true) && p != map[] && Find(old(rows), id).None? ==> res == Ok(None)
      ensures Acceptable(p, true) && p != map[] && Find(old(rows), id).Some? && FirstNullColumn(p).Some? ==>
        res == Err(NotNullViolation(FirstNullColumn(p).value))
      ensures res.Err? || res == Ok(None) ==> rows == old(rows)
      ensures Acceptable(p, true) && p != map[] && Find(old(rows), id).Some? && FirstNullColumn(p).None? ==>
        var k := Find(old(rows), id).value;
        && res == Ok(Some(Updated(old(rows)[k], p, now)))
        && rows == old(rows)[k := Updated(old(rows)[k], p, now)]
    {
      var errors := Validate(p, true);
      if errors != map[] {
        return Err(Invalid(errors));
      }
      var fields := Assignments(p);
      if fields == [] {
        return Err(NothingToUpdate);
      }
      var found := Find(rows, id);
      if found.None? {
        return Ok(None);
      }
      var k := found.value;
      var patched := Patch(rows[k], fields, p);
      PatchEffect(rows[k], fields, p);
      if patched.Err? {
        var f :| FirstIn(fields, p, f) && patched.error == NotNullViolation(f);
        FirstNullIsFirst(p, f);
        return Err(patched.error);
      }
      var u := patched.value.(updatedAt := Some(now));
      assert Columns(fields) == p.Keys;
      assert !Fails(p, Date) && !NullViolation(p, Date);
      ReplaceKeepsTable(rows, nextId, k, u);
      rows := rows[k := u];
      res := Ok(Some(u));
    }

    /** DELETE /transactions/{id}: answers the id whether or not a row had it. */
    method Delete(id: nat) returns (deleted: nat)
      requires Valid()
      modifies this
      ensures Valid()
      ensures deleted == id
      ensures rows == Without(old(rows), id) && nextId == old(nextId)
    {
      WithoutKeepsTable(rows, nextId, id);
      rows := Without(rows, id);
      deleted := id;
    }

    /**
     * POST /import: with a matching header, every accepted record is
     * inserted in file order and the count of inserted records is answered;
     * with any other header nothing is inserted.
     */
    method Import(file: CsvFile, now: Timestamp) returns (res: Result<nat>)
      requires Valid()
      modifies this
      ensures Valid()
      ensures (file == [] || !HeaderOk(file[0])) ==>
        res == Err(HeaderMismatch) && rows == old(rows) && nextId == old(nextId)
      ensures file != [] && HeaderOk(file[0]) ==>
        var added := Imported(file[1..], old(nextId), now);
        && res == Ok(|added|)
        && rows == old(rows) + added
        && nextId == old(nextId) + |added|
    {
      if file == [] || !HeaderOk(file[0]) {
        return Err(HeaderMismatch);
      }
      ghost var before := rows;
      ghost var first := nextId;
      var count := InsertAccepted(file[1..], now);
      ImportKeepsTable(before, first, file[1..], now);
      res := Ok(count);
    }

    /**
     * The body of the import transaction: each record whose date and amount
     * pass is inserted with the next id, the others are skipped.
     */
    method InsertAccepted(body: CsvFile, now: Timestamp) returns (count: nat)
      modifies this
      ensures rows == old(rows) + Imported(body, old(nextId), now)
      ensures count == |Imported(body, old(nextId), now)|
      ensures nextId == old(nextId) + count
    {
      ghost var before := rows;
      ghost var first := nextId;
      ghost var done: seq<Transaction> := [];
      count := 0;
      var i := 0;
      while i < |body|
        invariant 0 <= i <= |body|
        invariant done == Imported(body[..i], first, now)
        invariant rows == before + done
        invariant count == |done|
        invariant nextId == first + count
      {
        var row := body[i];
        ImportStep(body, i, first, now, done);
        if !IsDatePattern(CellText(Cell(row, 0))) {
          i := i + 1;
          continue;
        }
        if !(Cell(row, 4).Some? && IsNumeric(Cell(row, 4).value)) {
          i := i + 1;
          continue;
        }
        var record := RowRecord(row, nextId, now);
        assert rows + [record] == before + (done + [record]);
        assert record == RowRecord(body[i], first + |done|, now);
        assert done + [record] == Imported(body[..i + 1], first, now);
        done := done + [record];
        rows := rows + [record];
        nextId := nextId + 1;
        count := count + 1;
        i := i + 1;
      }
      assert body[..i] == body;
    }

    /** GET /transactions. */
    method List(get: map<string, string>) returns (items: seq<Transaction>)
      ensures items == ListRows(rows, CriteriaOf(get))
    {
      var c := CriteriaOf(get);
      var where, params := BuildFilter(c);
      var selected := Select(rows, where, params);
      SelectIsFilter(rows, c, where, params);
      items := Sort(selected, true);
    }

    /** GET /stats. */
    method Statistics(get: map<string, string>) returns (s: Summary)
      ensures s == Summarize(FilterRows(rows, CriteriaOf(get)))
    {
      var c := CriteriaOf(get);
      var where, params := BuildFilter(c);
      var selected := Select(rows, where, params);
      SelectIsFilter(rows, c, where, params);
      s := Summarize(selected);
    }

    /** GET /export. */
    method Export(get: map<string, string>) returns (file: CsvFile)
      ensures file == ExportFile(rows, CriteriaOf(get))
    {
      var c := CriteriaOf(get);
      var where, params := BuildFilter(c);
      var selected := Select(rows, where, params);
      SelectIsFilter(rows, c, where, params);
      file := [ExpectedHeader] + ExportLines(Sort(selected, false));
    }
  }

  // ---------------------------------------------------------------------------
  // A worked example
  // ---------------------------------------------------------------------------

  /** The stats of a single row: its sign decides income or expense, and its month is the one series entry. */
  lemma SingleRowSummary(t: Transaction)
    requires |t.date| >= 7
    ensures var s := Summarize([t]);
      && s.income == (if t.amount >= 0 then t.amount else 0)
      && s.expense == (if t.amount < 0 then t.amount else 0)
      && s.balance == t.amount
      && s.series == [Group(t.date[..7], t.amount)]
  {
    assert [t][1..] == [];
    assert Income([t]) == (if t.amount >= 0 then t.amount else 0) + Income([]);
    assert Expense([t]) == (if t.amount < 0 then t.amount else 0) + Expense([]);
    assert GroupSums([], ByMonth) == [];
    assert GroupSums([t], ByMonth) == AddTo([], Month(t.date), t.amount);
    assert Month(t.date) == t.date[..7];
  }

  const March := Transaction(1, "2024-03-05", "Groceries", "Food", "Card", -120, None, "", None)
  const April := Transaction(2, "2024-04-01", "Bus", "Transport", "Card", -30, None, "", None)
  const MarchOnly := Criteria(Some("2024-03-01"), Some("2024-03-31"), None, None)

  lemma MarchAfterFrom()
    ensures LexLe("2024-03-01", "2024-03-05")
  {
    LexLeFirstDifference("2024-03-01", "2024-03-05", 9);
  }

  lemma MarchBeforeTo()
    ensures LexLe("2024-03-05", "2024-03-31")
  {
    LexLeFirstDifference("2024-03-05", "2024-03-31", 8);
  }

  lemma MarchMatches()
    ensures Matches(MarchOnly, March)
  {
    MarchAfterFrom();
    MarchBeforeTo();
  }

  lemma AprilExcluded()
    ensures !Matches(MarchOnly, April)
  {
    LexLeFirstDifference("2024-04-01", "2024-03-31", 6);
  }

  lemma MarchFilterSelects()
    ensures FilterRows([March, April], MarchOnly) == [March]
  {
    MarchMatches();
    AprilExcluded();
    var rows := [March, April];
    assert rows[1..] == [April] && [April][1..] == [];
    assert FilterRows([April], MarchOnly) == FilterRows([], MarchOnly) == [];
  }

  /**
   * Two expenses, one in March and one in April 2024, filtered to March:
   * the expense total is the March amount alone and the series has the one
   * March entry.
   */
  lemma MarchFilterExample()
    ensures var s := Summarize(FilterRows([March, April], MarchOnly));
      && s.expense == -120 && s.income == 0 && s.balance == -120
      && s.series == [Group("2024-03", -120)]
  {
    MarchFilterSelects();
    SingleRowSummary(March);
    assert March.date[..7] == "2024-03";
  }
}
