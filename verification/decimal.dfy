/** The decimal text of a non-negative integer, as Python's `str` gives it:
    the digits, most significant first, with no sign and no leading zero. */
module Decimal {

  /** The character of one decimal digit. */
  function DigitChar(d: nat): (c: char)
    requires d < 10
    ensures '0' <= c <= '9'
    ensures c == '0' <==> d == 0
  {
    (48 + d) as char
  }

  /** The value of one digit character; inverse of DigitChar. */
  function DigitValue(c: char): (d: nat)
    requires '0' <= c <= '9'
    ensures d < 10 && DigitChar(d) == c
  {
    (c as int - 48) as nat
  }

  predicate IsDigits(s: string)
  {
    forall j :: 0 <= j < |s| ==> '0' <= s[j] <= '9'
  }

  /** A digit string as `str` writes it: non-empty, and "0" is the only one starting with '0'. */
  predicate IsCanonical(s: string)
  {
    IsDigits(s) && 1 <= |s| && (s[0] == '0' ==> |s| == 1)
  }

  /** `str(n)` for a non-negative integer `n`. */
  function Show(n: nat): (s: string)
    ensures IsCanonical(s)
    ensures s[0] == '0' ==> n == 0
  {
    if n < 10 then [DigitChar(n)] else Show(n / 10) + [DigitChar(n % 10)]
  }

  /** `int(s)` for a string of digits: the reference reading of a decimal text. */
  function Parse(s: string): nat
    requires IsDigits(s)
  {
    if s == [] then 0 else 10 * Parse(s[..|s| - 1]) + DigitValue(s[|s| - 1])
  }

  /** Reading back the text of `n` gives `n`. */
  lemma {:induction false} ParseShow(n: nat)
    ensures Parse(Show(n)) == n
  {
    var s := Show(n);
    if n < 10 {
      assert s[..|s| - 1] == [];
    } else {
      assert s[..|s| - 1] == Show(n / 10);
      ParseShow(n / 10);
    }
  }

  /** A digit string that starts with a non-zero digit stands for a positive number. */
  lemma {:induction false} ParsePositive(s: string)
    requires IsDigits(s) && 1 <= |s| && s[0] != '0'
    ensures 1 <= Parse(s)
  {
    if |s| > 1 {
      ParsePositive(s[..|s| - 1]);
    } else {
      assert DigitChar(DigitValue(s[0])) == s[0];
    }
  }

  /** Every canonical digit string is the text of the number it stands for. */
  lemma {:induction false} ShowParse(s: string)
    requires IsCanonical(s)
    ensures Show(Parse(s)) == s
  {
    var d := DigitValue(s[|s| - 1]);
    if |s| == 1 {
      assert Parse(s) == 10 * Parse([]) + d;
    } else {
      var init := s[..|s| - 1];
      assert init[0] == s[0];
      ParsePositive(init);
      ShowParse(init);
      var n := Parse(s);
      assert n / 10 == Parse(init) && n % 10 == d;
      assert s == init + [s[|s| - 1]];
    }
  }

  /** `str(n)` has at least three characters exactly when `n` has at least three digits. */
  lemma ShowLength(n: nat)
    ensures 3 <= |Show(n)| <==> 100 <= n
  {
  }

  /** The number formed by the three leading digits of `n`. */
  function Leading3(n: nat): (r: nat)
    requires 100 <= n
    ensures 100 <= r < 1000
  {
    if n < 1000 then n else Leading3(n / 10)
  }

  /** The third character of `str(n)` is the last digit of the three leading digits. */
  lemma {:induction false} ThirdChar(n: nat)
    requires 100 <= n
    ensures 3 <= |Show(n)| && Show(n)[2] == DigitChar(Leading3(n) % 10)
  {
    if n < 1000 {
      assert Show(n / 100) == [DigitChar(n / 100)];
      assert Show(n / 10) == Show(n / 100) + [DigitChar((n / 10) % 10)];
    } else {
      ThirdChar(n / 10);
    }
  }
}
