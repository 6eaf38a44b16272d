/**
 * The decimal text `std::cout << v` writes for an `int` v: an optional minus
 * sign followed by the digits of |v|, without leading zeros. Format is that
 * rendering; Parse reads such text back, and the two are mutually inverse.
 */
module IntText {
  import opened Chars
  import opened Wrappers

  predicate AllDigits(s: string) {
    forall i :: 0 <= i < |s| ==> IsDigit(s[i])
  }

  /** Digits without a leading zero, except the single digit "0" */
  predicate Canonical(s: string) {
    |s| > 0 && AllDigits(s) && (s[0] == '0' ==> |s| == 1)
  }

  /** The shape of a formatted `int`: a canonical digit string, or `-` and a nonzero one */
  predicate IsIntText(s: string) {
    Canonical(s) || (|s| > 1 && s[0] == '-' && Canonical(s[1..]) && s[1] != '0')
  }

  function DigitChar(d: nat): (c: char)
    requires d < 10
    ensures IsDigit(c) && DigitValue(c) == d
  {
    ('0' as int + d) as char
  }

  function DigitValue(c: char): (d: nat)
    requires IsDigit(c)
    ensures d < 10
  {
    c as int - '0' as int
  }

  lemma DigitCharOfValue(c: char)
    requires IsDigit(c)
    ensures DigitChar(DigitValue(c)) == c
  {
  }

  /** The decimal digits of `n`, most significant first */
  function Digits(n: nat): (s: string)
    ensures Canonical(s)
    ensures s[0] == '0' <==> n == 0
    decreases n
  {
    if n < 10 then [DigitChar(n)] else Digits(n / 10) + [DigitChar(n % 10)]
  }

  /** The text `std::cout << n` writes */
  function Format(n: int): (s: string)
    ensures IsIntText(s)
    ensures s[0] == '-' <==> n < 0
  {
    if n < 0 then "-" + Digits(-n) else Digits(n)
  }

  /** The number a string of digits denotes */
  function ReadNat(s: string): nat
    requires AllDigits(s)
    decreases |s|
  {
    if |s| == 0 then 0 else 10 * ReadNat(s[..|s| - 1]) + DigitValue(s[|s| - 1])
  }

  /** Reads back a formatted `int`; any other text is rejected */
  function Parse(s: string): (r: Option<int>)
    ensures r.Some? <==> IsIntText(s)
  {
    if Canonical(s) then Some(ReadNat(s))
    else if |s| > 1 && s[0] == '-' && Canonical(s[1..]) && s[1] != '0' then Some(-(ReadNat(s[1..]) as int))
    else None
  }

  lemma {:induction false} ReadDigits(n: nat)
    ensures ReadNat(Digits(n)) == n
    decreases n
  {
    if n >= 10 {
      var s := Digits(n);
      assert s[..|s| - 1] == Digits(n / 10);
      ReadDigits(n / 10);
    }
  }

  lemma {:induction false} ReadNatPositive(s: string)
    requires Canonical(s) && s[0] != '0'
    ensures ReadNat(s) > 0
    decreases |s|
  {
    if |s| > 1 {
      var t := s[..|s| - 1];
      assert t[0] == s[0];
      ReadNatPositive(t);
    }
  }

  lemma {:induction false} DigitsOfRead(s: string)
    requires Canonical(s)
    ensures Digits(ReadNat(s)) == s
    decreases |s|
  {
    var t, c := s[..|s| - 1], s[|s| - 1];
    DigitCharOfValue(c);
    if |s| > 1 {
      assert t[0] == s[0];
      ReadNatPositive(t);
      DigitsOfRead(t);
      var n := ReadNat(s);
      assert n / 10 == ReadNat(t) && n % 10 == DigitValue(c);
      assert s == t + [c];
    }
  }

  /** Parse undoes Format: the text of an `int` denotes that `int` */
  lemma ParseFormat(n: int)
    ensures Parse(Format(n)) == Some(n)
  {
    if n < 0 {
      ReadDigits(-n);
      assert Format(n)[1..] == Digits(-n);
    } else {
      ReadDigits(n);
    }
  }

  /** Format undoes Parse: every text Parse accepts is the text of its value */
  lemma FormatParse(s: string)
    requires Parse(s).Some?
    ensures Format(Parse(s).value) == s
  {
    if Canonical(s) {
      DigitsOfRead(s);
    } else {
      var t := s[1..];
      DigitsOfRead(t);
      ReadNatPositive(t);
      assert s == "-" + t;
    }
  }
}
