/** Unsigned decimal text: what Rust prints for a u64, and what `str::parse::<u64>` reads back. */
module Decimal {
  import opened Common

  predicate IsDigit(c: char) {
    '0' <= c <= '9'
  }

  predicate AllDigits(s: string) {
    forall i :: 0 <= i < |s| ==> IsDigit(s[i])
  }

  function DigitValue(c: char): (n: nat)
    requires IsDigit(c)
    ensures n < 10
  {
    (c - '0') as nat
  }

  function DigitChar(n: nat): (c: char)
    requires n < 10
    ensures IsDigit(c) && DigitValue(c) == n
  {
    '0' + n as char
  }

  /** Decimal text of a number, without leading zeros. */
  function Print(n: nat): (s: string)
    ensures s != "" && AllDigits(s)
  {
    if n < 10 then [DigitChar(n)] else Print(n / 10) + [DigitChar(n % 10)]
  }

  /** The number a run of digits denotes. */
  function Value(s: string): nat
    requires AllDigits(s)
  {
    if s == "" then 0 else 10 * Value(s[..|s| - 1]) + DigitValue(s[|s| - 1])
  }

  /**
   * `str::parse::<u64>`: an optional plus sign, at least one digit, nothing else, and a value
   * that fits in 64 bits.
   */
  function ParseU64(s: string): (r: Option<nat>)
    ensures r.Some? ==> r.value < TWO_POW_64
  {
    var digits := if s != "" && s[0] == '+' then s[1..] else s;
    if digits == "" || !AllDigits(digits) then None
    else if Value(digits) < TWO_POW_64 then Some(Value(digits))
    else None
  }

  lemma {:induction false} ValueOfPrint(n: nat)
    ensures Value(Print(n)) == n
  {
    if n >= 10 {
      ValueOfPrint(n / 10);
      assert Print(n)[..|Print(n)| - 1] == Print(n / 10);
    }
  }

  /** Printing and parsing a u64 gives it back. */
  lemma ParsePrint(n: nat)
    requires n < TWO_POW_64
    ensures ParseU64(Print(n)) == Some(n)
  {
    ValueOfPrint(n);
    assert IsDigit(Print(n)[0]);
  }

  /** Different numbers print differently. */
  lemma PrintInjective(m: nat, n: nat)
    requires Print(m) == Print(n)
    ensures m == n
  {
    ValueOfPrint(m);
    ValueOfPrint(n);
  }

  /** A plus sign in front is read over. */
  lemma ParsePlus(n: nat)
    requires n < TWO_POW_64
    ensures ParseU64("+" + Print(n)) == Some(n)
  {
    ValueOfPrint(n);
    assert ("+" + Print(n))[1..] == Print(n);
  }

  /** A number of more than 64 bits, a text with another character and no digits at all are errors. */
  lemma ParseFails(n: nat, s: string, k: nat)
    ensures 0x1_0000_0000_0000_0000 <= n ==> ParseU64(Print(n)) == None
    ensures k < |s| && !('0' <= s[k] <= '9') && !(k == 0 && s[0] == '+') ==> ParseU64(s) == None
    ensures ParseU64("") == None && ParseU64("+") == None
  {
    ValueOfPrint(n);
    assert IsDigit(Print(n)[0]);
    if k < |s| && !IsDigit(s[k]) {
      assert k > 0 ==> s[1..][k - 1] == s[k];
    }
  }

  /** The digits of a number of one and of more digits. */
  lemma PrintMeans(n: nat)
    ensures n < 10 ==> Print(n) == [('0' as int + n) as char]
    ensures n >= 10 ==> Print(n) == Print(n / 10) + [('0' as int + n % 10) as char]
  {
  }
}
