/** Decimal text of ports: strconv.Atoi and strconv.FormatUint in base ten. */
module Decimal {
  import opened Wrappers

  predicate IsDigit(c: char) { '0' <= c <= '9' }

  function Value(c: char): (d: nat)
    requires IsDigit(c)
    ensures d < 10
  {
    c as int - '0' as int
  }

  function Format(n: nat): (s: string)
    ensures s != "" && IsDigit(s[0])
  {
    if n < 10 then [('0' as int + n) as char]
    else Format(n / 10) + [('0' as int + n % 10) as char]
  }

  /** A non-empty run of digits, read most significant first. */
  function Digits(s: string): Option<nat> {
    if s == "" || !IsDigit(s[|s| - 1]) then None
    else if |s| == 1 then Some(Value(s[0]))
    else
      match Digits(s[..|s| - 1])
      case Some(hi) => Some(10 * hi + Value(s[|s| - 1]))
      case None => None
  }

  /**
   * strconv.Atoi: an optional sign, then digits. Atoi also refuses values outside the 64-bit
   * range; its callers refuse everything above 65535, so the bound never changes their answer.
   */
  function Atoi(s: string): Option<int> {
    if s == "" then None
    else if s[0] == '-' then
      match Digits(s[1..]) case Some(n) => Some(0 - n as int) case None => None
    else if s[0] == '+' then
      match Digits(s[1..]) case Some(n) => Some(n) case None => None
    else
      match Digits(s) case Some(n) => Some(n) case None => None
  }

  lemma {:induction false} DigitsFormat(n: nat)
    ensures Digits(Format(n)) == Some(n)
  {
    if n >= 10 {
      DigitsFormat(n / 10);
      var s := Format(n);
      assert s[..|s| - 1] == Format(n / 10);
      assert Value(s[|s| - 1]) == n % 10;
    }
  }

  lemma AtoiFormat(n: nat)
    ensures Atoi(Format(n)) == Some(n)
  {
    DigitsFormat(n);
  }

  /** A decimal text without superfluous zeros is the text of its value. */
  lemma {:induction false} DigitsText(s: string)
    requires Digits(s).Some? && (s[0] != '0' || |s| == 1)
    ensures Format(Digits(s).value) == s
    ensures |s| > 1 ==> Digits(s).value >= 10
  {
    if |s| > 1 {
      var n := |s| - 1;
      DigitsText(s[..n]);
      var v := Digits(s).value;
      assert v == 10 * Digits(s[..n]).value + Value(s[n]);
      assert v / 10 == Digits(s[..n]).value && v % 10 == Value(s[n]);
      if n == 1 { assert Digits(s[..1]).value == Value(s[0]) && Value(s[0]) > 0; }
      assert Format(v) == s[..n] + [s[n]];
      assert s[..n] + [s[n]] == s;
    } else {
      assert s == [s[0]];
    }
  }

  /** Leading zeros do not count, and digits are all that is accepted. */
  lemma {:induction false} DigitsExactly(s: string)
    ensures Digits(s).Some? <==> s != "" && forall i :: 0 <= i < |s| ==> '0' <= s[i] <= '9'
    ensures Digits(s).Some? ==> Digits("0" + s) == Digits(s)
  {
    if |s| > 1 {
      var n := |s| - 1;
      DigitsExactly(s[..n]);
      assert ("0" + s)[..n + 1] == "0" + s[..n];
      assert forall i :: 0 <= i < n ==> s[..n][i] == s[i];
    } else if |s| == 1 {
      assert ("0" + s)[..1] == "0" && Digits("0") == Some(0);
    }
  }

  /** An optional sign, then at least one digit. */
  lemma AtoiExactly(s: string)
    ensures var digits := if s != "" && (s[0] == '+' || s[0] == '-') then s[1..] else s;
            && (Atoi(s).Some? <==> digits != "" && forall i :: 0 <= i < |digits| ==> '0' <= digits[i] <= '9')
            && (Atoi(s).Some? ==> Digits(digits).Some?
                                  && Atoi(s).value == if s[0] == '-' then 0 - Digits(digits).value
                                                      else Digits(digits).value)
  {
    hide Digits;
    DigitsExactly(s);
    if s != "" {
      DigitsExactly(s[1..]);
      assert Atoi(s).Some? ==> Digits(if s[0] == '+' || s[0] == '-' then s[1..] else s).Some?;
    }
  }

  /** The last digit is the remainder by ten, and the digits before it are those of the quotient. */
  lemma FormatDigits(n: nat)
    ensures Format(n) == (if n < 10 then [] else Format(n / 10)) + ["0123456789"[n % 10]]
  {
    var d := n % 10;
    assert ('0' as int + d) as char == "0123456789"[d];
  }
}
