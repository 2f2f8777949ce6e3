/** Decimal numerals for natural numbers: the text that Python's `"%s" % n`
    (that is, `str(n)`) produces for a non-negative integer, and the reading of
    such text back into a number. */
module Decimal {

  datatype Option<+T> = None | Some(value: T)

  predicate IsDigit(c: char) {
    '0' <= c <= '9'
  }

  predicate AllDigits(s: string) {
    forall i | 0 <= i < |s| :: IsDigit(s[i])
  }

  /** A canonical numeral: at least one digit, and no leading zero unless the
      numeral is "0" itself. */
  predicate IsCanonical(s: string) {
    |s| > 0 && AllDigits(s) && (s[0] == '0' ==> s == "0")
  }

  function DigitValue(c: char): (d: nat)
    requires IsDigit(c)
    ensures d < 10
  {
    c as int - '0' as int
  }

  function DigitChar(d: nat): (c: char)
    requires d < 10
    ensures IsDigit(c) && DigitValue(c) == d
  {
    ('0' as int + d) as char
  }

  /** The decimal text of `n`, most significant digit first. */
  function Render(n: nat): (s: string)
    ensures IsCanonical(s)
    ensures s == "0" <==> n == 0
  {
    if n < 10 then [DigitChar(n)] else Render(n / 10) + [DigitChar(n % 10)]
  }

  /** The number a string of digits denotes (leading zeros allowed). */
  function ValueOf(s: string): nat
    requires AllDigits(s)
  {
    if s == [] then 0 else ValueOf(s[..|s| - 1]) * 10 + DigitValue(s[|s| - 1])
  }

  /** Reads a non-empty string of digits; anything else is rejected. */
  function Parse(s: string): Option<nat> {
    if |s| > 0 && AllDigits(s) then Some(ValueOf(s)) else None
  }

  lemma ValueOfSnoc(s: string, c: char)
    requires AllDigits(s) && IsDigit(c)
    ensures AllDigits(s + [c])
    ensures ValueOf(s + [c]) == ValueOf(s) * 10 + DigitValue(c)
  {
  }

  /** A numeral without a leading zero denotes a positive number. */
  lemma {:induction false} ValueOfPositive(s: string)
    requires |s| > 0 && AllDigits(s) && s[0] != '0'
    ensures ValueOf(s) > 0
  {
    if |s| > 1 {
      ValueOfPositive(s[..|s| - 1]);
    }
  }

  /** Rendering then reading gives back the number. */
  lemma {:induction false} ParseRender(n: nat)
    ensures Parse(Render(n)) == Some(n)
  {
    if n >= 10 {
      ParseRender(n / 10);
      ValueOfSnoc(Render(n / 10), DigitChar(n % 10));
    } else {
      var s := Render(n);
      assert s == [DigitChar(n)] && s[..0] == [];
      assert ValueOf(s) == ValueOf(s[..0]) * 10 + DigitValue(s[0]);
    }
  }

  /** Reading a canonical numeral then rendering gives back the numeral, so
      `Render` is a bijection between the naturals and the canonical numerals. */
  lemma {:induction false} RenderParse(s: string)
    requires IsCanonical(s)
    ensures Parse(s).Some? && Render(Parse(s).value) == s
  {
    var n := ValueOf(s);
    if |s| > 1 {
      var prefix, last := s[..|s| - 1], s[|s| - 1];
      assert s == prefix + [last];
      assert prefix[0] == s[0];
      ValueOfPositive(prefix);
      RenderParse(prefix);
      var v, d := ValueOf(prefix), DigitValue(last);
      assert n == v * 10 + d;
      assert n / 10 == v && n % 10 == d;
      assert DigitChar(d) == last;
    } else {
      assert |s| == 1 && s[..0] == [];
      assert ValueOf(s) == ValueOf(s[..0]) * 10 + DigitValue(s[0]);
      assert n == DigitValue(s[0]);
      assert s == [DigitChar(n)];
    }
  }

  /** Distinct numbers have distinct numerals. */
  lemma RenderInjective(a: nat, b: nat)
    requires Render(a) == Render(b)
    ensures a == b
  {
    ParseRender(a);
    ParseRender(b);
  }
}
