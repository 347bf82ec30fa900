/**
 * `Number.prototype.toString()` and `String.prototype.padStart` on integers:
 * the decimal text that day indices are stored under and that times are
 * formatted with.
 */
module Decimal {

  predicate IsDigit(c: char) {
    '0' <= c <= '9'
  }

  function DigitChar(d: int): (c: char)
    requires 0 <= d < 10
    ensures IsDigit(c)
  {
    ('0' as int + d) as char
  }

  function DigitValue(c: char): (d: int)
    requires IsDigit(c)
    ensures 0 <= d < 10
  {
    c as int - '0' as int
  }

  /** The decimal digits of a natural number, most significant first, without leading zeros. */
  function Digits(n: nat): (s: string)
    ensures 1 <= |s|
    ensures forall i :: 0 <= i < |s| ==> IsDigit(s[i])
    ensures (n < 10) == (|s| == 1)
    decreases n
  {
    if n < 10 then [DigitChar(n)] else Digits(n / 10) + [DigitChar(n % 10)]
  }

  /** `n.toString()` for an integer `n`. */
  function ToString(n: int): (r: string)
    ensures |r| >= 1 && (r[0] == '-' <==> n < 0)
    ensures forall i :: 0 <= i < |r| ==> IsDigit(r[i]) || (i == 0 && n < 0)
  {
    if n < 0 then "-" + Digits(-n) else Digits(n)
  }

  /** Reads back a string of decimal digits. */
  function ParseDigits(s: string): nat
    requires forall i :: 0 <= i < |s| ==> IsDigit(s[i])
  {
    if s == [] then 0 else ParseDigits(s[..|s| - 1]) * 10 + DigitValue(s[|s| - 1])
  }

  lemma {:induction false} ParseDigitsOfDigits(n: nat)
    ensures ParseDigits(Digits(n)) == n
    decreases n
  {
    if n >= 10 {
      var s := Digits(n);
      assert s[..|s| - 1] == Digits(n / 10);
      ParseDigitsOfDigits(n / 10);
    }
  }

  /** Distinct integers have distinct decimal texts, so distinct days get distinct storage slots. */
  lemma ToStringInjective(a: int, b: int)
    ensures ToString(a) == ToString(b) ==> a == b
  {
    assert ToString(a)[0] == '-' <==> a < 0 by {
      assert IsDigit(Digits(if a < 0 then -a else a)[0]);
    }
    assert ToString(b)[0] == '-' <==> b < 0 by {
      assert IsDigit(Digits(if b < 0 then -b else b)[0]);
    }
    if ToString(a) == ToString(b) {
      if a < 0 && b < 0 {
        assert ToString(a)[1..] == Digits(-a);
        assert ToString(b)[1..] == Digits(-b);
        DigitsInjective(-a, -b);
      } else if a >= 0 && b >= 0 {
        DigitsInjective(a, b);
      }
    }
  }

  lemma DigitsInjective(a: nat, b: nat)
    ensures Digits(a) == Digits(b) ==> a == b
  {
    ParseDigitsOfDigits(a);
    ParseDigitsOfDigits(b);
  }

  /** The text of an integer never starts with a letter, so it cannot be a named slot such as "memories". */
  lemma ToStringStartsWithDigitOrMinus(n: int)
    ensures |ToString(n)| >= 1 && (IsDigit(ToString(n)[0]) || ToString(n)[0] == '-')
  {
  }

  /** `s.padStart(width, fill)` */
  function PadStart(s: string, width: nat, fill: char): (r: string)
    ensures |r| == if |s| >= width then |s| else width
    ensures r[|r| - |s|..] == s
    ensures forall i :: 0 <= i < |r| - |s| ==> r[i] == fill
  {
    if |s| >= width then s else seq(width - |s|, _ => fill) + s
  }

  /** A leading zero does not change the value read back. */
  lemma {:induction false} LeadingZero(s: string)
    requires forall i :: 0 <= i < |s| ==> IsDigit(s[i])
    ensures ParseDigits(['0'] + s) == ParseDigits(s)
    decreases |s|
  {
    if s == [] {
      assert (['0'] + s)[..0] == [];
    } else {
      var init := s[..|s| - 1];
      assert (['0'] + s)[..|s|] == ['0'] + init;
      LeadingZero(init);
    }
  }

  /** `n.toString().padStart(2, "0")` for `n` in 0..99 is two digits that read back as `n`. */
  lemma TwoDigits(n: int)
    requires 0 <= n < 100
    ensures var s := PadStart(ToString(n), 2, '0');
      |s| == 2 && IsDigit(s[0]) && IsDigit(s[1]) && ParseDigits(s) == n
  {
    ParseDigitsOfDigits(n);
    if n < 10 {
      assert PadStart(ToString(n), 2, '0') == ['0'] + Digits(n);
      LeadingZero(Digits(n));
    }
  }
}
