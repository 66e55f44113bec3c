/** Text: decimal numbers, and fronts of strings. */
module Texts {
  predicate IsNumber(c: char) {
    '0' <= c <= '9'
  }

  function Digit(d: nat): char
    requires d < 10
  {
    ['0', '1', '2', '3', '4', '5', '6', '7', '8', '9'][d]
  }

  function Decimal(n: nat): (s: string)
    ensures s != ""
  {
    (if n < 10 then "" else Decimal(n / 10)) + [Digit(n % 10)]
  }

  function DecimalValue(s: string): int {
    if s == "" then 0 else DecimalValue(s[..|s| - 1]) * 10 + (s[|s| - 1] as int - '0' as int)
  }

  predicate AllNumbers(s: string) {
    forall k | 0 <= k < |s| :: IsNumber(s[k])
  }

  lemma {:induction false} DecimalReads(n: nat)
    ensures AllNumbers(Decimal(n)) && DecimalValue(Decimal(n)) == n
  {
    var s := Decimal(n);
    assert s[|s| - 1] == Digit(n % 10);
    if n < 10 {
      assert s[..|s| - 1] == "";
    } else {
      DecimalReads(n / 10);
      assert s[..|s| - 1] == Decimal(n / 10);
    }
  }

  predicate IsSign(c: char) {
    c == '-' || c == '+'
  }

  function SignLength(s: string): (n: nat)
    ensures n <= 1 && n <= |s|
  {
    if s != "" && IsSign(s[0]) then 1 else 0
  }

  /** The longest front of characters that satisfy a predicate. */
  function Front(s: string, p: char -> bool): (n: nat)
    ensures n <= |s| && (forall k | 0 <= k < n :: p(s[k])) && (n < |s| ==> !p(s[n]))
  {
    if s == "" || !p(s[0]) then 0
    else
      var n := Front(s[1..], p);
      assert forall k | 0 < k < 1 + n :: s[k] == s[1..][k - 1];
      1 + n
  }

  lemma {:induction false} FrontIs(s: string, p: char -> bool, n: nat)
    requires n <= |s| && (forall k | 0 <= k < n :: p(s[k])) && (n < |s| ==> !p(s[n]))
    ensures Front(s, p) == n
  {
  }

  lemma Slices(s: string, a: nat, b: nat)
    requires a + b <= |s|
    ensures s[a..][b..] == s[a + b..] && s[a..][..b] == s[a..a + b]
    ensures b < |s| - a ==> s[a..][b] == s[a + b]
  {
  }
}
