/**
 * The string operations the bot relies on: Python's substring test
 * `pat in s`, the decimal rendering used by `'%d' % n` and by a tweet's
 * `id_str`, and the decimal parsing done by `int(s)`.
 */
module Text {
  import opened Wrappers

  /** Python's `pat in s` for strings: `pat` occurs contiguously in `s` (the empty string occurs everywhere). */
  predicate Contains(s: string, pat: string)
    decreases |s|
  {
    pat <= s || (|s| > 0 && Contains(s[1..], pat))
  }

  /** `pat` occurs in `s` starting at index `i`. */
  ghost predicate OccursAt(s: string, pat: string, i: int)
  {
    0 <= i && i + |pat| <= |s| && s[i..i + |pat|] == pat
  }

  /** The scanning definition of `Contains` agrees with the positional one, in both directions. */
  lemma {:induction false} ContainsIffOccurs(s: string, pat: string)
    ensures Contains(s, pat) <==> exists i :: OccursAt(s, pat, i)
    decreases |s|
  {
    if pat <= s {
      assert s[0..|pat|] == pat;
      assert OccursAt(s, pat, 0);
    } else if |s| > 0 {
      ContainsIffOccurs(s[1..], pat);
      if Contains(s[1..], pat) {
        var i :| OccursAt(s[1..], pat, i);
        assert s[1..][i..i + |pat|] == s[i + 1..i + 1 + |pat|];
        assert OccursAt(s, pat, i + 1);
      } else {
        assert !OccursAt(s, pat, 0);
        forall i | 0 < i && i + |pat| <= |s| ensures !OccursAt(s, pat, i) {
          assert s[1..][i - 1..i - 1 + |pat|] == s[i..i + |pat|];
          assert !OccursAt(s[1..], pat, i - 1);
        }
      }
    }
  }

  /** A pattern whose first character does not appear in `s` is not contained in `s`. */
  lemma {:induction false} FirstCharAbsent(s: string, pat: string)
    requires |pat| > 0 && pat[0] !in s
    ensures !Contains(s, pat)
    decreases |s|
  {
    if |s| > 0 {
      assert s[0] != pat[0];
      assert !(pat <= s);
      assert forall c :: c in s[1..] ==> c in s;
      FirstCharAbsent(s[1..], pat);
    } else {
      assert !(pat <= s);
    }
  }

  predicate IsDigit(c: char)
  {
    '0' <= c <= '9'
  }

  predicate AllDigits(s: string)
  {
    forall i :: 0 <= i < |s| ==> IsDigit(s[i])
  }

  function DigitChar(d: nat): (c: char)
    requires d < 10
    ensures IsDigit(c) && c as int - '0' as int == d
  {
    ('0' as int + d) as char
  }

  /** `'%d' % n` (and `str(n)`) for a natural number: its decimal digits, without leading zeros. */
  function Decimal(n: nat): (r: string)
    ensures |r| > 0 && AllDigits(r)
    ensures r[0] == '0' ==> n == 0
    decreases n
  {
    if n < 10 then [DigitChar(n)] else Decimal(n / 10) + [DigitChar(n % 10)]
  }

  /** The number a run of decimal digits denotes (0 for the empty run; leading zeros allowed, as `int()` allows them). */
  function DigitsValue(s: string): nat
    requires AllDigits(s)
    decreases |s|
  {
    if s == [] then 0 else DigitsValue(s[..|s| - 1]) * 10 + (s[|s| - 1] as int - '0' as int)
  }

  predicate IsSign(c: char)
  {
    c == '+' || c == '-'
  }

  /** What `int()` accepts in base 10 here: an optional `+` or `-` followed by at least one ASCII digit. */
  predicate IsIntLiteral(s: string)
  {
    |s| > 0 && if IsSign(s[0]) then |s| > 1 && AllDigits(s[1..]) else AllDigits(s)
  }

  /**
   * `int(s)` for base-10 strings. `None` stands for the `ValueError` that
   * `int` raises; it is raised exactly on strings that are not integer literals,
   * and a literal's value is its digits' value, negated after a minus sign.
   */
  function ParseInt(s: string): (r: Option<int>)
    ensures r.None? <==> !IsIntLiteral(s)
    ensures r.Some? && IsSign(s[0]) ==>
      r.value == if s[0] == '-' then -(DigitsValue(s[1..]) as int) else DigitsValue(s[1..])
    ensures r.Some? && !IsSign(s[0]) ==> r.value == DigitsValue(s)
    ensures r.Some? && r.value < 0 ==> s[0] == '-'
    ensures |s| > 0 && AllDigits(s) && s[0] != '0' ==> r.Some? && r.value >= 0 && Decimal(r.value as nat) == s
  {
    if |s| > 0 && (s[0] == '-' || s[0] == '+') then
      if |s| > 1 && AllDigits(s[1..]) then
        var magnitude: int := DigitsValue(s[1..]);
        Some(if s[0] == '-' then -magnitude else magnitude)
      else
        None
    else if |s| > 0 && AllDigits(s) then
      if s[0] != '0' then (DecimalOfDigits(s); Some(DigitsValue(s))) else Some(DigitsValue(s))
    else
      None
  }

  /** Leading zeros do not change the value of a digit run. */
  lemma {:induction false} LeadingZeroIgnored(digits: string)
    requires AllDigits(digits)
    ensures AllDigits("0" + digits) && DigitsValue("0" + digits) == DigitsValue(digits)
    decreases |digits|
  {
    var s := "0" + digits;
    assert AllDigits(s);
    if |digits| > 0 {
      var p := digits[..|digits| - 1];
      LeadingZeroIgnored(p);
      assert s[..|s| - 1] == "0" + p;
    }
  }

  /** `int()` of an unsigned digit run, zero padding included. */
  lemma ParseIntOfDigits(digits: string)
    requires |digits| > 0 && AllDigits(digits)
    ensures ParseInt(digits) == Some(DigitsValue(digits))
    ensures ParseInt("0" + digits) == ParseInt(digits)
  {
    LeadingZeroIgnored(digits);
    var z := "0" + digits;
    assert IsIntLiteral(z) && !IsSign(z[0]);
  }

  /** `int()` of a digit run after an explicit sign. */
  lemma ParseIntOfSigned(sign: char, digits: string)
    requires IsSign(sign) && |digits| > 0 && AllDigits(digits)
    ensures ParseInt([sign] + digits) == Some(if sign == '-' then -(DigitsValue(digits) as int) else DigitsValue(digits))
  {
    var s := [sign] + digits;
    assert s[0] == sign;
    assert s[1..] == digits;
    assert IsIntLiteral(s);
    var r := ParseInt(s);
    assert r.Some? && IsSign(s[0]);
  }

  /** A run of digits with a non-zero first digit denotes a positive number. */
  lemma {:induction false} LeadingDigitPositive(s: string)
    requires |s| > 0 && AllDigits(s) && s[0] != '0'
    ensures DigitsValue(s) >= 1
    decreases |s|
  {
    if |s| > 1 {
      LeadingDigitPositive(s[..|s| - 1]);
    }
  }

  /** A run of digits without a leading zero is the decimal rendering of its value. */
  lemma {:induction false} DecimalOfDigits(s: string)
    requires |s| > 0 && AllDigits(s) && s[0] != '0'
    ensures Decimal(DigitsValue(s)) == s
    decreases |s|
  {
    if |s| > 1 {
      var p := s[..|s| - 1];
      LeadingDigitPositive(p);
      DecimalOfDigits(p);
      assert s == p + [s[|s| - 1]];
    }
  }

  lemma {:induction false} DigitsValueOfDecimal(n: nat)
    ensures DigitsValue(Decimal(n)) == n
    decreases n
  {
    if n >= 10 {
      var s := Decimal(n);
      assert s[..|s| - 1] == Decimal(n / 10);
      DigitsValueOfDecimal(n / 10);
    }
  }

  /** Parsing the decimal rendering of a natural number gives that number back. */
  lemma ParseIntOfDecimal(n: nat)
    ensures ParseInt(Decimal(n)) == Some(n)
  {
    DigitsValueOfDecimal(n);
  }

  /** A minus sign in front of a decimal rendering parses to the negated number. */
  lemma ParseIntOfNegatedDecimal(n: nat)
    ensures ParseInt("-" + Decimal(n)) == Some(-(n as int))
  {
    DigitsValueOfDecimal(n);
    assert ("-" + Decimal(n))[1..] == Decimal(n);
  }

  /** Distinct numbers have distinct decimal renderings. */
  lemma DecimalInjective(a: nat, b: nat)
    ensures Decimal(a) == Decimal(b) ==> a == b
  {
    DigitsValueOfDecimal(a);
    DigitsValueOfDecimal(b);
  }
}
