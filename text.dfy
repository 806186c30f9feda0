/**
 * String primitives the ledger relies on, each modelling one PHP or SQLite
 * built-in: trim(), strtolower(), the PCRE date pattern, is_numeric() and the
 * string/number casts, SQLite's BINARY text ordering and its LIKE operator.
 */
module Text {

  // ---------------------------------------------------------------------------
  // trim() and strtolower()
  // ---------------------------------------------------------------------------

  /** The characters PHP's trim() strips by default: " \t\n\r\0\x0B". */
  predicate IsTrimChar(c: char) {
    c == ' ' || c == '\t' || c == '\n' || c == '\r' || c == '\0' || c == '\U{000B}'
  }

  predicate AllTrimChars(s: string) {
    forall i :: 0 <= i < |s| ==> IsTrimChar(s[i])
  }

  function TrimLeft(s: string): (r: string)
    ensures |r| <= |s| && r == s[|s| - |r|..]
    ensures AllTrimChars(s[..|s| - |r|])
    ensures r == [] || !IsTrimChar(r[0])
  {
    if s == [] || !IsTrimChar(s[0]) then s
    else
      var r := TrimLeft(s[1..]);
      assert s[1..][..|s| - 1 - |r|] == s[1..|s| - |r|];
      r
  }

  function TrimRight(s: string): (r: string)
    ensures |r| <= |s| && r == s[..|r|]
    ensures AllTrimChars(s[|r|..])
    ensures r == [] || !IsTrimChar(r[|r| - 1])
  {
    if s == [] || !IsTrimChar(s[|s| - 1]) then s
    else
      var r := TrimRight(s[..|s| - 1]);
      assert s[..|s| - 1][|r|..] == s[|r|..|s| - 1];
      r
  }

  /** PHP trim(): strip trim characters from both ends. */
  function Trim(s: string): string {
    TrimRight(TrimLeft(s))
  }

  /** A non-empty string is all trim characters when its head is one and its tail is. */
  lemma AllTrimCharsCons(s: string)
    requires s != []
    ensures AllTrimChars(s) <==> IsTrimChar(s[0]) && AllTrimChars(s[1..])
  {
    if IsTrimChar(s[0]) && AllTrimChars(s[1..]) {
      forall i | 0 < i < |s| ensures IsTrimChar(s[i]) { assert s[i] == s[1..][i - 1]; }
    }
  }

  lemma {:induction false} TrimLeftEmptyIffBlank(s: string)
    ensures TrimLeft(s) == "" <==> AllTrimChars(s)
  {
    if s != [] {
      AllTrimCharsCons(s);
      if IsTrimChar(s[0]) {
        assert TrimLeft(s) == TrimLeft(s[1..]);
        TrimLeftEmptyIffBlank(s[1..]);
      }
    }
  }

  lemma {:induction false} TrimRightEmptyIffBlank(s: string)
    ensures TrimRight(s) == "" <==> AllTrimChars(s)
  {
    if s != [] && IsTrimChar(s[|s| - 1]) {
      var init := s[..|s| - 1];
      TrimRightEmptyIffBlank(init);
      assert AllTrimChars(s) <==> AllTrimChars(init) by {
        if AllTrimChars(init) {
          forall i | 0 <= i < |s| - 1 ensures IsTrimChar(s[i]) { assert s[i] == init[i]; }
        }
      }
    }
  }

  /** A string trims to "" exactly when it is made of trim characters only. */
  lemma TrimEmptyIffBlank(s: string)
    ensures Trim(s) == "" <==> AllTrimChars(s)
  {
    var l := TrimLeft(s);
    TrimRightEmptyIffBlank(l);
    TrimLeftEmptyIffBlank(l);
    assert TrimLeft(l) == l;
    TrimLeftEmptyIffBlank(s);
  }

  /** The ASCII case folding of PHP 8 strtolower() and of SQLite's LIKE. */
  function LowerChar(c: char): (r: char)
    ensures 'A' <= c <= 'Z' ==> 'a' <= r <= 'z'
    ensures !('A' <= c <= 'Z') ==> r == c
  {
    if 'A' <= c <= 'Z' then (c as int - 'A' as int + 'a' as int) as char else c
  }

  function Lower(s: string): (r: string)
    ensures |r| == |s|
    ensures forall i :: 0 <= i < |s| ==> r[i] == LowerChar(s[i])
  {
    if s == [] then [] else [LowerChar(s[0])] + Lower(s[1..])
  }

  lemma LowerLettersUntrimmed(s: string)
    requires forall i :: 0 <= i < |s| ==> 'a' <= s[i] <= 'z'
    ensures Trim(s) == s
  {
    if s != [] {
      assert !IsTrimChar(s[0]);
      assert !IsTrimChar(s[|s| - 1]);
    }
    assert TrimLeft(s) == s;
  }

  lemma LowerLettersUnfolded(s: string)
    requires forall i :: 0 <= i < |s| ==> 'a' <= s[i] <= 'z'
    ensures Lower(s) == s
  {
    assert forall i :: 0 <= i < |s| ==> Lower(s)[i] == s[i];
  }

  /** Lower-case letters are neither trimmed nor changed by strtolower(). */
  lemma LowerLettersUnchanged(s: string)
    requires forall i :: 0 <= i < |s| ==> 'a' <= s[i] <= 'z'
    ensures Trim(s) == s && Lower(s) == s
  {
    LowerLettersUntrimmed(s);
    LowerLettersUnfolded(s);
  }

  // ---------------------------------------------------------------------------
  // The date pattern /^\d{4}-\d{2}-\d{2}$/
  // ---------------------------------------------------------------------------

  /** PCRE's \d without the u modifier: an ASCII digit. */
  predicate IsDigit(c: char) {
    '0' <= c <= '9'
  }

  /** Exactly the ten characters "dddd-dd-dd". */
  predicate DateShape(s: string) {
    && |s| == 10
    && IsDigit(s[0]) && IsDigit(s[1]) && IsDigit(s[2]) && IsDigit(s[3])
    && s[4] == '-'
    && IsDigit(s[5]) && IsDigit(s[6])
    && s[7] == '-'
    && IsDigit(s[8]) && IsDigit(s[9])
  }

  /**
   * preg_match('/^\d{4}-\d{2}-\d{2}$/', s): without the D modifier `$` also
   * matches just before one final "\n", so "2024-03-01\n" is accepted too.
   * Month and day ranges are not checked.
   */
  predicate IsDatePattern(s: string) {
    DateShape(s) || (|s| == 11 && s[10] == '\n' && DateShape(s[..10]))
  }

  // ---------------------------------------------------------------------------
  // Decimal integers: is_numeric(), (float) of a numeric string, (string) of a number
  // ---------------------------------------------------------------------------

  function DigitValue(c: char): nat
    requires IsDigit(c)
  {
    c as int - '0' as int
  }

  function DigitChar(d: nat): (c: char)
    requires d < 10
    ensures IsDigit(c) && DigitValue(c) == d
  {
    ('0' as int + d) as char
  }

  predicate AllDigits(s: string) {
    forall i :: 0 <= i < |s| ==> IsDigit(s[i])
  }

  /** A numeric string of the model: an optional sign and at least one digit. */
  predicate IsNumeric(s: string) {
    if |s| > 0 && (s[0] == '+' || s[0] == '-') then |s| > 1 && AllDigits(s[1..])
    else |s| > 0 && AllDigits(s)
  }

  function ParseNat(s: string): nat
    requires AllDigits(s)
  {
    if s == [] then 0 else ParseNat(s[..|s| - 1]) * 10 + DigitValue(s[|s| - 1])
  }

  /** The number a numeric string denotes (PHP's (float) cast of it). */
  function ParseInt(s: string): int
    requires IsNumeric(s)
  {
    if s[0] == '-' then -(ParseNat(s[1..]) as int)
    else if s[0] == '+' then ParseNat(s[1..])
    else ParseNat(s)
  }

  /** Decimal digits of n, most significant first, without leading zeros. */
  function NatToText(n: nat): (r: string)
    ensures |r| > 0 && AllDigits(r)
    ensures |r| > 1 ==> r[0] != '0'
  {
    if n < 10 then [DigitChar(n)] else NatToText(n / 10) + [DigitChar(n % 10)]
  }

  /** PHP's (string) of a whole number: a '-' for negatives, then the digits. */
  function IntToText(n: int): string {
    if n < 0 then "-" + NatToText(-n) else NatToText(n)
  }

  lemma {:induction false} ParseNatToText(n: nat)
    ensures ParseNat(NatToText(n)) == n
  {
    if n >= 10 {
      var s := NatToText(n);
      assert s[..|s| - 1] == NatToText(n / 10);
      ParseNatToText(n / 10);
    }
  }

  /** The text a number is written as is numeric and parses back to the number. */
  lemma IntTextRoundTrip(n: int)
    ensures IsNumeric(IntToText(n))
    ensures ParseInt(IntToText(n)) == n
  {
    if n < 0 {
      assert IntToText(n)[1..] == NatToText(-n);
      ParseNatToText(-n);
    } else {
      ParseNatToText(n);
    }
  }

  // ---------------------------------------------------------------------------
  // SQLite BINARY collation: lexicographic order of the characters
  // ---------------------------------------------------------------------------

  predicate LexLe(a: string, b: string) {
    a == [] || (b != [] && (a[0] < b[0] || (a[0] == b[0] && LexLe(a[1..], b[1..]))))
  }

  predicate LexLt(a: string, b: string) {
    LexLe(a, b) && a != b
  }

  lemma {:induction false} LexLeReflexive(a: string)
    ensures LexLe(a, a)
  {
    if a != [] { LexLeReflexive(a[1..]); }
  }

  lemma {:induction false} LexLeTotal(a: string, b: string)
    ensures LexLe(a, b) || LexLe(b, a)
  {
    if a != [] && b != [] && a[0] == b[0] { LexLeTotal(a[1..], b[1..]); }
  }

  lemma {:induction false} LexLeAntisymmetric(a: string, b: string)
    requires LexLe(a, b) && LexLe(b, a)
    ensures a == b
  {
    if a != [] && b != [] {
      LexLeAntisymmetric(a[1..], b[1..]);
      assert a == [a[0]] + a[1..];
      assert b == [b[0]] + b[1..];
    }
  }

  /** Texts that agree before position `k` are ordered by their characters at `k`. */
  lemma {:induction false} LexLeFirstDifference(a: string, b: string, k: nat)
    requires k < |a| && k < |b| && a[..k] == b[..k] && a[k] != b[k]
    ensures LexLe(a, b) <==> a[k] < b[k]
  {
    if k > 0 {
      assert a[0] == a[..k][0] && b[0] == b[..k][0];
      assert a[1..][..k - 1] == a[..k][1..] && b[1..][..k - 1] == b[..k][1..];
      LexLeFirstDifference(a[1..], b[1..], k - 1);
    }
  }

  lemma {:induction false} LexLeTransitive(a: string, b: string, c: string)
    requires LexLe(a, b) && LexLe(b, c)
    ensures LexLe(a, c)
  {
    if a != [] && a[0] == b[0] && b[0] == c[0] {
      LexLeTransitive(a[1..], b[1..], c[1..]);
    }
  }

  // ---------------------------------------------------------------------------
  // SQLite LIKE without an ESCAPE clause
  // ---------------------------------------------------------------------------

  /** Equal up to ASCII case, the only folding SQLite's LIKE performs. */
  predicate FoldEq(a: char, b: char) {
    LowerChar(a) == LowerChar(b)
  }

  /**
   * `s LIKE p`: '%' matches any run of characters, '_' any one character, and
   * every other character itself up to ASCII case.
   */
  predicate Like(s: string, p: string)
    decreases |p| + |s|
  {
    if p == [] then s == []
    else if p[0] == '%' then Like(s, p[1..]) || (s != [] && Like(s[1..], p))
    else s != [] && (p[0] == '_' || FoldEq(p[0], s[0])) && Like(s[1..], p[1..])
  }

  predicate NoWildcards(q: string) {
    forall i :: 0 <= i < |q| ==> q[i] != '%' && q[i] != '_'
  }

  /** `s` begins with `q`, up to ASCII case. */
  predicate FoldPrefix(q: string, s: string) {
    |q| <= |s| && forall i :: 0 <= i < |q| ==> FoldEq(q[i], s[i])
  }

  /** `q` occurs in `s` at some position, up to ASCII case. */
  predicate FoldContains(s: string, q: string) {
    exists k :: 0 <= k <= |s| && FoldPrefix(q, s[k..])
  }

  lemma {:induction false} LikeTrailingPercent(s: string)
    ensures Like(s, "%")
  {
    if s != [] { LikeTrailingPercent(s[1..]); }
  }

  /** A wildcard-free `q` followed by '%' matches exactly the strings that begin with `q`. */
  lemma {:induction false} LikePrefix(s: string, q: string)
    requires NoWildcards(q)
    ensures Like(s, q + "%") <==> FoldPrefix(q, s)
  {
    if q == [] {
      assert q + "%" == "%";
      LikeTrailingPercent(s);
    } else {
      assert (q + "%")[1..] == q[1..] + "%";
      if s != [] {
        LikePrefix(s[1..], q[1..]);
        if FoldPrefix(q, s) {
          assert FoldPrefix(q[1..], s[1..]);
        } else if FoldPrefix(q[1..], s[1..]) && FoldEq(q[0], s[0]) {
          forall i | 0 <= i < |q| ensures FoldEq(q[i], s[i]) {
            if i > 0 { assert q[i] == q[1..][i - 1] && s[i] == s[1..][i - 1]; }
          }
        }
      }
    }
  }

  /** A leading '%' lets the rest of the pattern match at any position. */
  lemma {:induction false} LikeLeadingPercent(s: string, r: string)
    ensures Like(s, "%" + r) <==> exists k :: 0 <= k <= |s| && Like(s[k..], r)
  {
    var p := "%" + r;
    assert p[1..] == r;
    if s == [] {
      assert s[0..] == s;
    } else {
      LikeLeadingPercent(s[1..], r);
      if Like(s, p) {
        if !Like(s, r) {
          var k :| 0 <= k <= |s[1..]| && Like(s[1..][k..], r);
          assert s[1..][k..] == s[k + 1..];
        } else {
          assert s[0..] == s;
        }
      } else {
        forall k | 0 <= k <= |s| ensures !Like(s[k..], r) {
          if k == 0 { assert s[0..] == s; }
          else { assert s[k..] == s[1..][k - 1..]; }
        }
      }
    }
  }

  /** `s LIKE '%' || q || '%'` is case-insensitive substring search when `q` has no wildcard. */
  lemma LikeContains(s: string, q: string)
    requires NoWildcards(q)
    ensures Like(s, "%" + q + "%") <==> FoldContains(s, q)
  {
    assert "%" + q + "%" == "%" + (q + "%");
    LikeLeadingPercent(s, q + "%");
    if Like(s, "%" + q + "%") {
      var k :| 0 <= k <= |s| && Like(s[k..], q + "%");
      LikePrefix(s[k..], q);
    } else {
      forall k | 0 <= k <= |s| ensures !FoldPrefix(q, s[k..]) {
        LikePrefix(s[k..], q);
      }
    }
  }

  // ---------------------------------------------------------------------------
  // Counting characters (placeholders in generated SQL)
  // ---------------------------------------------------------------------------

  function CountChar(c: char, s: string): nat {
    if s == [] then 0 else (if s[0] == c then 1 else 0) + CountChar(c, s[1..])
  }

  lemma {:induction false} CountCharAppend(c: char, a: string, b: string)
    ensures CountChar(c, a + b) == CountChar(c, a) + CountChar(c, b)
  {
    if a == [] {
      assert a + b == b;
    } else {
      assert (a + b)[1..] == a[1..] + b;
      CountCharAppend(c, a[1..], b);
    }
  }
}
