/**
 * `validate_transaction`: the per-field checks applied to a create payload
 * (every key required) or to an update payload (partial mode).
 */
module Validation {
  import opened Text
  import opened Ledger

  const Required := "Required"
  const BadDate := "Use YYYY-MM-DD"
  const Blank := "Cannot be empty"
  const NotNumeric := "Must be numeric (positive=income, negative=expense)"

  /** The check a present, non-null value of `f` fails; tags are never checked. */
  predicate Violates(f: Field, v: Value) {
    match f
    case Date => !IsDatePattern(TextOf(v))
    case Description => Trim(TextOf(v)) == ""
    case Category => Trim(TextOf(v)) == ""
    case Account => Trim(TextOf(v)) == ""
    case Amount => !IsNumericValue(v)
    case Tags => false
  }

  /** The message of the check on `f`. */
  function CheckMessage(f: Field): string {
    match f
    case Date => BadDate
    case Amount => NotNumeric
    case _ => Blank
  }

  /** Create mode requires every one of the six keys, tags included. */
  predicate Missing(t: Payload, f: Field, partial: bool) {
    !partial && f !in t
  }

  /** Checks run only on values that are set (present and not null). */
  predicate Fails(t: Payload, f: Field) {
    IsSet(t, f) && Violates(f, t[f])
  }

  /**
   * `errors` is the map validate_transaction returns for `t`: one entry per
   * field that is missing or fails its check, all of them collected.
   */
  ghost predicate Reports(errors: map<Field, string>, t: Payload, partial: bool) {
    forall f: Field ::
      && (f in errors <==> Missing(t, f, partial) || Fails(t, f))
      && (f in errors ==> errors[f] == if f in t then CheckMessage(f) else Required)
  }

  /** A payload the API accepts. */
  predicate Acceptable(t: Payload, partial: bool) {
    forall f: Field :: !Missing(t, f, partial) && !Fails(t, f)
  }

  /** One `if (isset($t[f]) && <check fails>) $errors[f] = <message>;` step. */
  function Flag(errors: map<Field, string>, t: Payload, f: Field): (r: map<Field, string>)
    ensures forall g :: g in r <==> g in errors || (g == f && Fails(t, f))
    ensures forall g :: g in r ==> r[g] == if g == f && Fails(t, f) then CheckMessage(f) else errors[g]
  {
    if Fails(t, f) then errors[f := CheckMessage(f)] else errors
  }

  /** `errors` holds the missing keys and the failures of the checks on the fields ranked below `n`. */
  ghost predicate ReportsUpTo(errors: map<Field, string>, t: Payload, partial: bool, n: nat) {
    forall f: Field ::
      && (f in errors <==> Missing(t, f, partial) || (Rank(f) < n && Fails(t, f)))
      && (f in errors ==> errors[f] == if f in t then CheckMessage(f) else Required)
  }

  /** Each check extends the report by its own field. */
  lemma FlagStep(errors: map<Field, string>, t: Payload, partial: bool, f: Field)
    requires ReportsUpTo(errors, t, partial, Rank(f))
    ensures ReportsUpTo(Flag(errors, t, f), t, partial, Rank(f) + 1)
  {
  }

  /** After the five checks the report is complete; in partial mode nothing is reported missing. */
  lemma ReportsAll(errors: map<Field, string>, t: Payload, partial: bool)
    requires ReportsUpTo(errors, t, partial, 5)
    ensures Reports(errors, t, partial)
    ensures errors == map[] <==> Acceptable(t, partial)
    ensures partial ==> Required !in errors.Values
  {
    forall f: Field ensures f in errors <==> Missing(t, f, partial) || Fails(t, f) {
      assert Rank(f) < 5 || f == Tags;
    }
    if errors == map[] {
      forall f: Field ensures !Missing(t, f, partial) && !Fails(t, f) {
        assert f !in errors;
      }
    }
    if partial {
      forall f | f in errors ensures errors[f] != Required {
        assert f in t;
      }
    }
  }

  method Validate(t: Payload, partial: bool) returns (errors: map<Field, string>)
    ensures Reports(errors, t, partial)
    ensures errors == map[] <==> Acceptable(t, partial)
    ensures partial ==> Required !in errors.Values
  {
    errors := map[];
    for i := 0 to |Fields|
      invariant forall f :: f in errors <==> !partial && f !in t && Rank(f) < i
      invariant forall f :: f in errors ==> errors[f] == Required
    {
      var f := Fields[i];
      RankAt(i);
      if !partial && f !in t {
        errors := errors[f := Required];
      }
    }
    assert ReportsUpTo(errors, t, partial, 0);
    FlagStep(errors, t, partial, Date);
    errors := Flag(errors, t, Date);
    FlagStep(errors, t, partial, Description);
    errors := Flag(errors, t, Description);
    FlagStep(errors, t, partial, Category);
    errors := Flag(errors, t, Category);
    FlagStep(errors, t, partial, Account);
    errors := Flag(errors, t, Account);
    FlagStep(errors, t, partial, Amount);
    errors := Flag(errors, t, Amount);
    ReportsAll(errors, t, partial);
  }
}
