/** The two C/C++ library conversions the RTSP and SDP code leans on:
    atoi (text to integer) and std::to_string (integer to decimal text).
    Text is a sequence of characters, one per byte of the C string. */
module CLib {

  type Text = seq<char>

  predicate IsDigit(ch: char) { '0' <= ch <= '9' }

  /** isspace in the C locale. */
  predicate IsSpace(ch: char)
  {
    ch == ' ' || ch == '\t' || ch == '\n' || ch == '\U{b}' || ch == '\U{c}' || ch == '\r'
  }

  function DigitValue(ch: char): (d: nat)
    requires IsDigit(ch)
    ensures d < 10
  {
    (ch as int) - ('0' as int)
  }

  function DigitChar(d: nat): (ch: char)
    requires d < 10
    ensures IsDigit(ch) && DigitValue(ch) == d
  {
    (('0' as int) + d) as char
  }

  /** The leading run of digits of s. */
  function DigitRun(s: Text): (r: Text)
    ensures |r| <= |s| && r == s[..|r|]
    ensures forall i :: 0 <= i < |r| ==> IsDigit(r[i])
    ensures |r| < |s| ==> !IsDigit(s[|r|])
  {
    if s == [] || !IsDigit(s[0]) then [] else [s[0]] + DigitRun(s[1..])
  }

  /** The value of a run of decimal digits, most significant first. */
  function Number(ds: Text): (n: nat)
    requires forall i :: 0 <= i < |ds| ==> IsDigit(ds[i])
  {
    if ds == [] then 0 else Number(ds[..|ds| - 1]) * 10 + DigitValue(ds[|ds| - 1])
  }

  /** s without its leading white space. */
  function SkipSpace(s: Text): (r: Text)
    ensures |r| <= |s| && r == s[|s| - |r|..]
    ensures r == [] || !IsSpace(r[0])
  {
    if s != [] && IsSpace(s[0]) then SkipSpace(s[1..]) else s
  }

  /** atoi: leading white space, an optional sign, then as many digits as
      follow; text that does not start that way reads as 0. The value is
      the mathematical one: atoi itself is undefined outside the range of
      int. */
  function Atoi(s: Text): int
  {
    var t := SkipSpace(s);
    if t != [] && t[0] == '-' then 0 - Number(DigitRun(t[1..]))
    else if t != [] && t[0] == '+' then Number(DigitRun(t[1..]))
    else Number(DigitRun(t))
  }

  /** std::to_string of a non-negative integer: its decimal digits, with
      no leading zero. */
  function Decimal(n: nat): (r: Text)
    ensures r != [] && (forall i :: 0 <= i < |r| ==> IsDigit(r[i]))
    ensures |r| > 1 ==> r[0] != '0'
  {
    if n < 10 then [DigitChar(n)] else Decimal(n / 10) + [DigitChar(n % 10)]
  }

  /** std::to_string of any integer: a minus sign before the digits of a
      negative one. */
  function IntText(n: int): (r: Text)
    ensures r != []
  {
    if n < 0 then "-" + Decimal(-n) else Decimal(n)
  }

  /** Reading back the digits std::to_string writes gives the number. */
  lemma {:induction false} NumberDecimal(n: nat)
    ensures Number(Decimal(n)) == n
  {
    if n >= 10 {
      NumberDecimal(n / 10);
      var d := Decimal(n);
      assert d[..|d| - 1] == Decimal(n / 10);
    }
  }

  /** The digit run of a number followed by a non-digit is the number's own
      digits. */
  lemma {:induction false} DigitRunStops(ds: Text, rest: Text)
    requires forall i :: 0 <= i < |ds| ==> IsDigit(ds[i])
    requires rest == [] || !IsDigit(rest[0])
    ensures DigitRun(ds + rest) == ds
  {
    if ds != [] {
      assert (ds + rest)[1..] == ds[1..] + rest;
      DigitRunStops(ds[1..], rest);
    } else {
      assert ds + rest == rest;
    }
  }

  /** atoi reads back what std::to_string wrote, whatever non-digit text
      follows it. */
  lemma AtoiDecimal(n: nat, rest: Text)
    requires rest == [] || !IsDigit(rest[0])
    ensures Atoi(Decimal(n) + rest) == n
  {
    var d := Decimal(n);
    var x := d + rest;
    assert x[0] == d[0];
    AtoiDigits(x);
    assert DigitRun(x) == d by {
      DigitRunStops(d, rest);
    }
    NumberDecimal(n);
  }

  /** Text that starts with a digit reads as its leading digits. */
  lemma AtoiDigits(x: Text)
    requires x != [] && IsDigit(x[0])
    ensures Atoi(x) == Number(DigitRun(x))
  {
    assert SkipSpace(x) == x;
  }

  /** ... and so does it for a negative integer. */
  lemma AtoiIntText(n: int)
    ensures Atoi(IntText(n)) == n
  {
    if n < 0 {
      var t := IntText(n);
      assert t[1..] == Decimal(-n) + [];
      assert SkipSpace(t) == t;
      DigitRunStops(Decimal(-n), []);
      NumberDecimal(-n);
    } else {
      AtoiDecimal(n, []);
      assert Decimal(n) + [] == Decimal(n);
    }
  }
}
