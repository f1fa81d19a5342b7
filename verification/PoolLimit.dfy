/**
 * `publintConcurrency`: how many workers a pool gets, and which settings of the limit
 * it accepts (scripts/publint-all.ts:62-75).
 */
module PoolLimit {
  import opened Options
  import opened Text

  const MAX_SAFE_INTEGER := 9007199254740991

  // ----- numerals -----

  predicate IsDigit(c: char) {
    '0' <= c <= '9'
  }

  function DigitValue(c: char): nat
    requires IsDigit(c)
  {
    c as int - '0' as int
  }

  function DigitOf(n: nat): (c: char)
    requires n < 10
    ensures IsDigit(c) && DigitValue(c) == n
  {
    ('0' as int + n) as char
  }

  // `String` of a whole number.
  function Decimal(n: nat): (s: string)
    ensures s != [] && IsDigit(s[0])
  {
    if n < 10 then [DigitOf(n)] else Decimal(n / 10) + [DigitOf(n % 10)]
  }

  function SignedDecimal(n: int): string {
    if n < 0 then "-" + Decimal(-n) else Decimal(n)
  }

  function LeadingDigits(s: string): (k: nat)
    ensures k <= |s| && forall i :: 0 <= i < k ==> IsDigit(s[i])
    ensures k < |s| ==> !IsDigit(s[k])
  {
    if s == [] || !IsDigit(s[0]) then 0 else 1 + LeadingDigits(s[1..])
  }

  function Value(digits: string): nat
    requires forall i :: 0 <= i < |digits| ==> IsDigit(digits[i])
  {
    if digits == [] then 0
    else Value(digits[..|digits| - 1]) * 10 + DigitValue(digits[|digits| - 1])
  }

  function SkipSpace(s: string): string {
    if s == [] || !IsSpace(s[0]) then s else SkipSpace(s[1..])
  }

  // `Number.parseInt(raw, 10)`, with nothing for `NaN`: white space, a sign, and the
  // leading digits.  Numbers past the safe integers are kept exact, as every one of
  // them is refused.
  function ParseInt(raw: string): Option<int> {
    var s := SkipSpace(raw);
    var negative := s != [] && s[0] == '-';
    var t := if s != [] && (s[0] == '-' || s[0] == '+') then s[1..] else s;
    var k := LeadingDigits(t);
    if k == 0 then None
    else
      var value: int := Value(t[..k]);
      Some(if negative then -value else value)
  }

  // ----- the limit -----

  function Min(a: nat, b: nat): nat {
    if a < b then a else b
  }

  // The value of the environment variable, if it is set; the error is the value.
  function PublintConcurrency(total: nat, raw: Option<string>, cores: nat): Result<nat, string> {
    if total == 0 then Ok(0)
    else if raw.Some? && raw.value != "" then
      match ParseInt(raw.value)
      case None => Err(raw.value)
      case Some(parsed) =>
        if parsed > MAX_SAFE_INTEGER || parsed < -MAX_SAFE_INTEGER || parsed < 1 || SignedDecimal(parsed) != raw.value
        then Err(raw.value)
        else Ok(Min(total, parsed))
    else Ok(Min(total, cores))
  }

  lemma {:induction false} AllDigits(n: nat)
    ensures forall i :: 0 <= i < |Decimal(n)| ==> IsDigit(Decimal(n)[i])
    ensures Value(Decimal(n)) == n
  {
    if n >= 10 {
      AllDigits(n / 10);
      var s := Decimal(n);
      assert s[..|s| - 1] == Decimal(n / 10);
    } else {
      assert Decimal(n)[..0] == [];
    }
  }

  lemma {:induction false} DigitsLead(s: string)
    requires forall i :: 0 <= i < |s| ==> IsDigit(s[i])
    ensures LeadingDigits(s) == |s|
  {
    if s != [] {
      DigitsLead(s[1..]);
    }
  }

  lemma ParsesDecimal(n: nat)
    ensures ParseInt(Decimal(n)) == Some(n)
  {
    var s := Decimal(n);
    AllDigits(n);
    DigitsLead(s);
    assert !IsSpace(s[0]);
    assert s[..|s|] == s;
  }

  // The setting is a numeral of a positive safe integer as it is printed.
  ghost predicate Accepted(raw: string, limit: nat) {
    1 <= limit <= 9007199254740991 && raw == Decimal(limit)
  }

  // A numeral is its digits, without leading zeros.
  lemma DecimalSpelled(n: nat)
    ensures Decimal(n) == (if n < 10 then [] else Decimal(n / 10)) + [('0' as int + n % 10) as char]
  {
  }

  // Main result: with something to lint, a setting is accepted exactly when it is the
  // plain numeral of a positive safe integer, which is then the limit; the workers are
  // never more than the targets or the limit, and none exactly when there is no target.
  lemma ConcurrencyIff(total: nat, raw: Option<string>, cores: nat)
    requires cores >= 1
    ensures var r := PublintConcurrency(total, raw, cores);
            && (r.Err? <==> total > 0 && raw.Some? && raw.value != "" && forall n :: !Accepted(raw.value, n))
            && (r.Ok? ==> r.value <= total && (r.value == 0 <==> total == 0))
            && (forall n: nat :: total > 0 && raw.Some? && Accepted(raw.value, n) ==>
                  r == Ok(if total < n then total else n))
            && (total > 0 && (raw.None? || raw.value == "") ==> r == Ok(if total < cores then total else cores))
  {
    if total > 0 && raw.Some? && raw.value != "" {
      forall n | Accepted(raw.value, n)
        ensures PublintConcurrency(total, raw, cores) == Ok(if total < n then total else n)
      {
        ParsesDecimal(n);
      }
      var r := PublintConcurrency(total, raw, cores);
      if r.Ok? {
        assert Accepted(raw.value, ParseInt(raw.value).value);
      }
    }
  }
}
