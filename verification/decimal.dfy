/** Decimal rendering of unsigned integers, as Rust's `{}` formats a `u16`. */
module Decimal {

  predicate IsDigit(c: char) {
    '0' <= c <= '9'
  }

  predicate AllDigits(s: string) {
    forall i :: 0 <= i < |s| ==> IsDigit(s[i])
  }

  function DigitChar(d: nat): (c: char)
    requires d < 10
    ensures IsDigit(c)
    ensures DigitValue(c) == d
  {
    (('0' as int) + d) as char
  }

  function DigitValue(c: char): (d: nat)
    requires IsDigit(c)
    ensures d < 10
  {
    (c as int) - ('0' as int)
  }

  /** Shortest decimal numeral of `n`: digits only, no leading zero except for `0` itself. */
  function Render(n: nat): (s: string)
    ensures 0 < |s|
    ensures AllDigits(s)
    ensures 1 < |s| ==> s[0] != '0'
    ensures n < 10 <==> |s| == 1
  {
    if n < 10 then [DigitChar(n)] else Render(n / 10) + [DigitChar(n % 10)]
  }

  /** The value of a numeral, most significant digit first. */
  function Parse(s: string): nat
    requires AllDigits(s)
  {
    if |s| == 0 then 0 else Parse(s[..|s| - 1]) * 10 + DigitValue(s[|s| - 1])
  }

  /** Parsing a rendered numeral gives back the number. */
  lemma {:induction false} ParseRender(n: nat)
    ensures Parse(Render(n)) == n
  {
    var s := Render(n);
    if n < 10 {
      assert s[..|s| - 1] == [];
    } else {
      var prefix := Render(n / 10);
      assert s[..|s| - 1] == prefix;
      ParseRender(n / 10);
    }
  }

  /** Distinct numbers render to distinct numerals. */
  lemma RenderInjective(m: nat, n: nat)
    ensures Render(m) == Render(n) ==> m == n
  {
    ParseRender(m);
    ParseRender(n);
  }
}
