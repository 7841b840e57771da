/** Predicates over single values: the Luhn credit-card check and the inclusive range check. */
module Validators {
  import opened Chars
  import opened Wrappers

  /** value.replace(" ", "").replace("-", ""): the characters other than spaces and hyphens, in order. */
  function StripSeparators(s: string): (r: string)
    ensures |r| <= |s|
    ensures forall i :: 0 <= i < |r| ==> r[i] != ' ' && r[i] != '-'
  {
    if s == [] then []
    else if s[0] == ' ' || s[0] == '-' then StripSeparators(s[1..])
    else [s[0]] + StripSeparators(s[1..])
  }

  predicate AllDigits(s: string)
  {
    forall i :: 0 <= i < |s| ==> IsDigit(s[i])
  }

  /** str.isdigit(): at least one character, and all of them digits. */
  predicate IsDigits(s: string)
  {
    |s| > 0 && AllDigits(s)
  }

  function DigitValue(c: char): (d: nat)
    requires IsDigit(c)
    ensures d <= 9
  {
    c as int - '0' as int
  }

  /** What one digit adds to the Luhn checksum: a doubled digit above 9 loses 9. */
  function LuhnTerm(d: nat, doubled: bool): (t: nat)
    requires d <= 9
    ensures t <= 9
    ensures !doubled ==> t == d
    ensures doubled ==> t % 9 == (2 * d) % 9 && (d == 9 <==> t == 9)
  {
    if doubled then (if 2 * d > 9 then 2 * d - 9 else 2 * d) else d
  }

  /**
   * The Luhn checksum of a digit string: the digit at position i counted from
   * the right (the last digit is position 0) is doubled when i is odd.
   */
  function LuhnSum(s: string): nat
    requires AllDigits(s)
  {
    if s == [] then 0
    else LuhnTerm(DigitValue(s[0]), (|s| - 1) % 2 == 1) + LuhnSum(s[1..])
  }

  /** The verdict of is_credit_card. */
  predicate CardAccepted(value: string)
  {
    var digits := StripSeparators(value);
    IsDigits(digits) && 13 <= |digits| <= 19 && LuhnSum(digits) % 10 == 0
  }

  /**
   * is_credit_card(value): strip spaces and hyphens; then false unless what
   * is left is 13 to 19 digits whose Luhn checksum is a multiple of 10.
   */
  method IsCreditCard(value: string) returns (ok: bool)
    ensures ok == CardAccepted(value)
    ensures !IsDigits(StripSeparators(value)) ==> !ok
    ensures !(13 <= |StripSeparators(value)| <= 19) ==> !ok
  {
    var digits := StripSeparators(value);
    if !IsDigits(digits) {
      return false;
    }
    if !(13 <= |digits| <= 19) {
      return false;
    }
    var checksum := 0;
    var i := 0;
    while i < |digits|
      invariant 0 <= i <= |digits|
      invariant checksum == LuhnSum(digits[|digits| - i..])
    {
      var digit := DigitValue(digits[|digits| - 1 - i]);
      if i % 2 == 1 {
        digit := digit * 2;
        if digit > 9 {
          digit := digit - 9;
        }
      }
      assert digits[|digits| - (i + 1)..] == [digits[|digits| - 1 - i]] + digits[|digits| - i..];
      checksum := checksum + digit;
      i := i + 1;
    }
    assert digits[|digits| - i..] == digits;
    ok := checksum % 10 == 0;
  }

  lemma {:induction false} StripAppend(a: string, b: string)
    ensures StripSeparators(a + b) == StripSeparators(a) + StripSeparators(b)
    decreases |a|
  {
    if a == [] {
      assert a + b == b;
    } else {
      assert (a + b)[1..] == a[1..] + b;
      StripAppend(a[1..], b);
    }
  }

  /** Spaces and hyphens are deleted first, so inserting one anywhere never changes the verdict. */
  lemma SeparatorIgnored(value: string, k: nat, sep: char)
    requires k <= |value|
    requires sep == ' ' || sep == '-'
    ensures CardAccepted(value[..k] + [sep] + value[k..]) == CardAccepted(value)
  {
    var a, b := value[..k], value[k..];
    StripAppend(a + [sep], b);
    StripAppend(a, [sep]);
    StripAppend(a, b);
    assert [sep][1..] == [];
    assert StripSeparators([sep]) == [];
    assert a + b == value;
    assert StripSeparators(a + [sep] + b) == StripSeparators(value);
  }

  lemma {:induction false} LuhnSumReplace(s: string, k: nat, c: char)
    requires AllDigits(s)
    requires k < |s| && IsDigit(c)
    ensures AllDigits(s[k := c])
    ensures LuhnSum(s[k := c]) + LuhnTerm(DigitValue(s[k]), (|s| - 1 - k) % 2 == 1) ==
            LuhnSum(s) + LuhnTerm(DigitValue(c), (|s| - 1 - k) % 2 == 1)
    decreases |s|
  {
    assert forall i :: 0 <= i < |s| ==> s[k := c][i] == if i == k then c else s[i];
    if k == 0 {
      assert s[k := c][1..] == s[1..];
    } else {
      assert s[k := c][1..] == s[1..][k - 1 := c];
      LuhnSumReplace(s[1..], k - 1, c);
    }
  }

  /** The digit a Luhn term comes from is determined by the term and the position's parity. */
  lemma LuhnTermInjective(a: nat, b: nat, doubled: bool)
    requires a <= 9 && b <= 9 && a != b
    ensures LuhnTerm(a, doubled) != LuhnTerm(b, doubled)
  {
  }

  /**
   * The Luhn check catches every single-digit error: changing one digit of
   * an accepted card number to another digit gives a rejected one.
   */
  lemma SingleDigitErrorDetected(digits: string, k: nat, c: char)
    requires IsDigits(digits) && CardAccepted(digits)
    requires k < |digits| && IsDigit(c) && c != digits[k]
    ensures !CardAccepted(digits[k := c])
  {
    var changed := digits[k := c];
    var doubled := (|digits| - 1 - k) % 2 == 1;
    StripNoSeparators(digits);
    LuhnSumReplace(digits, k, c);
    assert AllDigits(changed);
    StripNoSeparators(changed);
    LuhnTermInjective(DigitValue(digits[k]), DigitValue(c), doubled);
    MultipleOfTenShifted(LuhnSum(digits), LuhnSum(changed),
      LuhnTerm(DigitValue(digits[k]), doubled), LuhnTerm(DigitValue(c), doubled));
  }

  lemma MultipleOfTenShifted(sum: int, sum': int, a: int, b: int)
    requires sum % 10 == 0 && sum' + a == sum + b
    requires 0 <= a <= 9 && 0 <= b <= 9 && a != b
    ensures sum' % 10 != 0
  {
    var q := sum / 10;
    assert sum == 10 * q;
    assert sum' == 10 * q + (b - a);
  }

  /** A string without spaces and hyphens is kept as it is, every character in its place. */
  lemma {:induction false} StripNoSeparators(s: string)
    requires forall i :: 0 <= i < |s| ==> s[i] != ' ' && s[i] != '-'
    ensures StripSeparators(s) == s
    decreases |s|
  {
    if s != [] {
      var tail := s[1..];
      assert forall i :: 0 <= i < |tail| ==> tail[i] == s[i + 1];
      StripNoSeparators(tail);
    }
  }

  /** A string of spaces and hyphens only is deleted entirely. */
  lemma {:induction false} StripOnlySeparators(s: string)
    requires forall i :: 0 <= i < |s| ==> s[i] == ' ' || s[i] == '-'
    ensures StripSeparators(s) == []
    decreases |s|
  {
    if s != [] {
      var tail := s[1..];
      assert forall i :: 0 <= i < |tail| ==> tail[i] == s[i + 1];
      StripOnlySeparators(tail);
    }
  }

  /**
   * Any character other than a space, a hyphen or a digit makes the value
   * invalid: it survives the stripping and then fails the digit test.
   */
  lemma NonDigitRejected(value: string, k: nat)
    requires k < |value|
    requires value[k] != ' ' && value[k] != '-' && !IsDigit(value[k])
    ensures !CardAccepted(value)
  {
    var a, c, b := value[..k], value[k], value[k + 1..];
    assert value == a + [c] + b;
    StripAppend(a + [c], b);
    StripAppend(a, [c]);
    StripNoSeparators([c]);
    var digits := StripSeparators(value);
    assert digits == StripSeparators(a) + [c] + StripSeparators(b);
    assert digits[|StripSeparators(a)|] == c;
  }

  /**
   * is_number_in_range(value, min_val, max_val): both bounds are inclusive,
   * and an absent bound does not constrain.
   */
  function IsNumberInRange(value: int, minVal: Option<int>, maxVal: Option<int>): (r: bool)
    ensures r <==> (minVal.None? || minVal.value <= value) && (maxVal.None? || value <= maxVal.value)
  {
    if minVal.Some? && value < minVal.value then false
    else if maxVal.Some? && value > maxVal.value then false
    else true
  }

  /** With no bound given, every number is in range; a range whose minimum exceeds its maximum holds none. */
  lemma RangeBoundsExtremes(value: int, lo: int, hi: int)
    ensures IsNumberInRange(value, None, None)
    ensures lo > hi ==> !IsNumberInRange(value, Some(lo), Some(hi))
  {
  }

  /** 1, 5 and 10 lie in [1, 10]; 0 and 11 do not. */
  lemma RangeExamples()
    ensures IsNumberInRange(5, Some(1), Some(10)) && IsNumberInRange(1, Some(1), Some(10))
    ensures IsNumberInRange(10, Some(1), Some(10))
    ensures !IsNumberInRange(0, Some(1), Some(10)) && !IsNumberInRange(11, Some(1), Some(10))
  {
  }
}
