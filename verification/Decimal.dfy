// Decimal texts of integers, as String.format("%d", value) writes them, and reading them back.
module Decimal {
  import opened Common

  function DigitChar(d: nat): char
    requires d < 10
  {
    ('0' as int + d) as char
  }

  predicate IsDigit(c: char) {
    '0' <= c <= '9'
  }

  function Digits(n: nat): string {
    if n < 10 then [DigitChar(n)] else Digits(n / 10) + [DigitChar(n % 10)]
  }

  function Text(v: int): string {
    if v < 0 then "-" + Digits(-v) else Digits(v)
  }

  function ValueOf(s: string): nat
    requires forall i :: 0 <= i < |s| ==> IsDigit(s[i])
  {
    if s == "" then 0
    else
      var last := s[|s| - 1];
      assert IsDigit(last);
      10 * ValueOf(s[..|s| - 1]) + (last as int - '0' as int)
  }

  predicate IsNumeral(s: string) {
    s != "" && forall i :: 0 <= i < |s| ==> IsDigit(s[i])
  }

  function Parse(s: string): Option<int> {
    if IsNumeral(s) then Some(ValueOf(s))
    else if s != "" && s[0] == '-' && IsNumeral(s[1..]) then (var v: int := ValueOf(s[1..]); Some(-v))
    else None
  }

  lemma {:induction false} DigitsRead(n: nat)
    ensures IsNumeral(Digits(n)) && ValueOf(Digits(n)) == n
  {
    if n < 10 {
      assert Digits(n)[..0] == "";
    } else {
      DigitsRead(n / 10);
      var s := Digits(n / 10);
      assert Digits(n)[..|s|] == s && Digits(n)[|s|] == DigitChar(n % 10);
    }
  }

  // Reading back what was written gives the number, for every integer.
  lemma TextRoundTrip(v: int)
    ensures Parse(Text(v)) == Some(v)
  {
    if v < 0 {
      DigitsRead(-v);
      assert Text(v)[1..] == Digits(-v);
    } else {
      DigitsRead(v);
    }
  }

  // Only digits and a minus sign are ever written.
  lemma TextCharacters(v: int)
    ensures Text(v) != "" && forall i :: 0 <= i < |Text(v)| ==> IsDigit(Text(v)[i]) || Text(v)[i] == '-'
  {
    DigitsRead(if v < 0 then -v else v);
  }

  // A numeral without a leading zero is the text of its value.
  lemma {:induction false} NumeralIsText(s: string)
    requires IsNumeral(s) && s[0] != '0'
    ensures ValueOf(s) >= 1 && Text(ValueOf(s)) == s
  {
    var n := |s| - 1;
    assert IsDigit(s[n]);
    if n > 0 {
      NumeralIsText(s[..n]);
      var last := s[n] as int - '0' as int;
      assert ValueOf(s) / 10 == ValueOf(s[..n]) && ValueOf(s) % 10 == last;
      assert s == s[..n] + [s[n]];
    }
  }

  // How many digits a text begins with.
  function DigitRun(s: string): (r: nat)
    ensures r <= |s| && (r < |s| ==> !IsDigit(s[r]))
    ensures forall i :: 0 <= i < r ==> IsDigit(s[i])
  {
    if s == "" || !IsDigit(s[0]) then 0 else 1 + DigitRun(s[1..])
  }

  lemma RunIs(s: string, r: nat)
    requires r <= |s| && (r < |s| ==> !IsDigit(s[r])) && forall i :: 0 <= i < r ==> IsDigit(s[i])
    ensures DigitRun(s) == r
  {
  }

  function Pow10(k: nat): nat {
    if k == 0 then 1 else 10 * Pow10(k - 1)
  }

  // Decimal length: at most k digits exactly below the k-th power of ten.
  lemma {:induction false} DigitsFit(n: nat, k: nat)
    requires k >= 1
    ensures |Digits(n)| <= k <==> n < Pow10(k)
    ensures |Digits(n)| >= 1
  {
    if n < 10 {
      PowGrows(k);
    } else if k == 1 {
      DigitsFit(n / 10, 1);
      assert Pow10(1) == 10 * Pow10(0);
    } else {
      DigitsFit(n / 10, k - 1);
    }
  }

  lemma {:induction false} PowGrows(k: nat)
    requires k >= 1
    ensures Pow10(k) >= 10
  {
    if k == 1 {
      assert Pow10(1) == 10 * Pow10(0);
    } else {
      PowGrows(k - 1);
    }
  }

  lemma LengthIsMonotone(a: nat, b: nat)
    requires a <= b
    ensures |Digits(a)| <= |Digits(b)|
  {
    DigitsFit(b, 1);
    DigitsFit(b, |Digits(b)|);
    DigitsFit(a, |Digits(b)|);
  }

  // The text of v fits into w characters exactly when v lies between these powers of ten.
  lemma TextFits(v: int, w: nat)
    requires w >= 1
    ensures |Text(v)| <= w <==> -(Pow10(w - 1) as int) < v < Pow10(w)
  {
    if v >= 0 {
      DigitsFit(v, w);
    } else {
      PowGrows(w);
      if w == 1 {
        DigitsFit(-v, 1);
      } else {
        DigitsFit(-v, w - 1);
      }
    }
  }

  lemma QuotientIs(n: nat, d: nat, q: nat, r: nat)
    requires r < d && n == q * d + r
    ensures n / d == q
  {
    var e: int := n / d - q;
    var multiple: int := e * d;
    assert n % d == r - multiple;
    assert multiple < d && multiple > 0 - d;
  }

  // Dividing twice is dividing by the product.
  lemma DivideTwice(n: nat, d: nat)
    requires d >= 1
    ensures (n / 10) / d == n / (10 * d)
  {
    var q, b := (n / 10) / d, (n / 10) % d;
    assert n / 10 == q * d + b;
    assert n == q * (10 * d) + (10 * b + n % 10);
    QuotientIs(n, 10 * d, q, 10 * b + n % 10);
  }

  lemma {:induction false} DigitAt(n: nat, i: nat)
    requires i < |Digits(n)|
    ensures Pow10(i) >= 1 && Digits(n)[|Digits(n)| - 1 - i] == DigitChar((n / Pow10(i)) % 10)
  {
    if i == 0 {
      assert n / Pow10(0) == n;
    } else {
      DigitAt(n / 10, i - 1);
      DivideTwice(n, Pow10(i - 1));
    }
  }

  // What a text is: a minus sign for negative numbers, then the decimal digits, the last one that of the units, and
  // no more of them than needed.
  lemma TextIs(v: int)
    ensures var s, a: nat, sign := Text(v), if v < 0 then -v else v, if v < 0 then 1 else 0;
            && |s| > sign && (v < 0 ==> s[0] == '-')
            && (forall i: nat :: i < |s| - sign ==>
                  Pow10(i) >= 1 && s[|s| - 1 - i] == DigitChar((a / Pow10(i)) % 10))
            && (forall k: nat :: 1 <= k ==> (|s| - sign <= k <==> a < Pow10(k)))
  {
    var a: nat := if v < 0 then -v else v;
    forall k: nat | 1 <= k ensures |Digits(a)| <= k <==> a < Pow10(k) {
      DigitsFit(a, k);
    }
    DigitsFit(a, 1);
    forall i: nat | i < |Digits(a)|
      ensures Pow10(i) >= 1 && Digits(a)[|Digits(a)| - 1 - i] == DigitChar((a / Pow10(i)) % 10)
    {
      DigitAt(a, i);
    }
  }
}
