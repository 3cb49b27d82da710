/** Decimal text and integers: std::to_string, std::atoi and std::stoi as
    the code base uses them. */
module Numbers {
  import opened Wrappers

  /** Range of the 32-bit `int`. */
  const IntMin: int := -0x8000_0000
  const IntMax: int := 0x7fff_ffff

  predicate IsDigit(c: char) {
    '0' <= c <= '9'
  }

  /** isspace in the "C" locale: space, and \t \n \v \f \r. */
  predicate IsSpace(c: char) {
    c == ' ' || '\t' <= c <= '\r'
  }

  predicate AllDigits(s: string) {
    forall i :: 0 <= i < |s| ==> IsDigit(s[i])
  }

  function DigitValue(c: char): nat
    requires IsDigit(c)
  {
    c as int - '0' as int
  }

  function DigitChar(d: nat): (c: char)
    requires d < 10
    ensures IsDigit(c) && DigitValue(c) == d
  {
    ('0' as int + d) as char
  }

  /** The number a run of decimal digits denotes. */
  function DigitsValue(s: string): nat
    requires AllDigits(s)
    decreases |s|
  {
    if |s| == 0 then 0 else DigitsValue(s[..|s| - 1]) * 10 + DigitValue(s[|s| - 1])
  }

  /** The decimal digits of a natural number, most significant first. */
  function Decimal(n: nat): (s: string)
    ensures |s| > 0 && AllDigits(s)
    ensures DigitsValue(s) == n
    decreases n
  {
    if n < 10 then [DigitChar(n)]
    else
      var s := Decimal(n / 10) + [DigitChar(n % 10)];
      assert s[..|s| - 1] == Decimal(n / 10);
      s
  }

  /** std::to_string(int). */
  function IntToString(i: int): (s: string)
    ensures |s| > 0 && (s[0] == '-' || IsDigit(s[0]))
    ensures forall k :: 0 < k < |s| ==> IsDigit(s[k])
  {
    if i < 0 then "-" + Decimal(-i) else Decimal(i)
  }

  /** The text after leading white space. */
  function SkipSpace(s: string): (r: string)
    ensures |r| <= |s| && r == s[|s| - |r|..]
    ensures r == [] || !IsSpace(r[0])
    decreases |s|
  {
    if |s| > 0 && IsSpace(s[0]) then SkipSpace(s[1..]) else s
  }

  /** The longest prefix made of digits. */
  function DigitPrefix(s: string): (r: string)
    ensures |r| <= |s| && r == s[..|r|] && AllDigits(r)
    ensures |r| == |s| || !IsDigit(s[|r|])
    decreases |s|
  {
    if |s| > 0 && IsDigit(s[0]) then [s[0]] + DigitPrefix(s[1..]) else ""
  }

  /** What strtol reads in base 10: leading white space, an optional sign,
      then a non-empty run of digits; whatever follows is ignored. None when
      there is no digit. The value is not bounded here. */
  function LeadingInt(s: string): Option<int>
  {
    SignedDigits(SkipSpace(s))
  }

  /** An optional sign, then a non-empty run of digits. */
  function SignedDigits(t: string): Option<int>
  {
    if |t| > 0 && t[0] == '-' then
      match UnsignedDigits(t[1..])
      case None => None
      case Some(v) => Some(0 - v)
    else if |t| > 0 && t[0] == '+' then UnsignedDigits(t[1..])
    else UnsignedDigits(t)
  }

  /** A non-empty run of digits, whatever follows it. */
  function UnsignedDigits(t: string): Option<int>
  {
    var digits := DigitPrefix(t);
    if |digits| == 0 then None else Some(DigitsValue(digits))
  }

  /** Why std::stoi throws: no digits (invalid_argument) or a value outside
      `int` (out_of_range). */
  datatype StoiError = InvalidArgument | OutOfRange

  /** std::stoi: the leading integer, which must exist and fit in `int`. */
  function Stoi(s: string): (r: Result<int, StoiError>)
    ensures r.Success? ==> IntMin <= r.value <= IntMax && LeadingInt(s) == Some(r.value)
    ensures r == Failure(InvalidArgument) <==> LeadingInt(s).None?
  {
    match LeadingInt(s)
    case None => Failure(InvalidArgument)
    case Some(v) => if IntMin <= v <= IntMax then Success(v) else Failure(OutOfRange)
  }

  /** std::atoi: the leading integer, 0 when there is none. Overflow,
      undefined in the source, is not modelled. */
  function Atoi(s: string): int
  {
    LeadingInt(s).GetOr(0)
  }

  /** A digit run is its own longest digit prefix. */
  lemma {:induction false} DigitPrefixOfDigits(s: string)
    requires AllDigits(s)
    ensures DigitPrefix(s) == s
    decreases |s|
  {
    if |s| > 0 {
      DigitPrefixOfDigits(s[1..]);
    }
  }

  /** A digit run followed by a non-digit is the longest digit prefix. */
  lemma {:induction false} DigitPrefixThen(s: string, rest: string)
    requires AllDigits(s)
    requires rest == [] || !IsDigit(rest[0])
    ensures DigitPrefix(s + rest) == s
    decreases |s|
  {
    if |s| > 0 {
      assert (s + rest)[1..] == s[1..] + rest;
      DigitPrefixThen(s[1..], rest);
    } else {
      assert s + rest == rest;
    }
  }

  /** A run of digits, then text that does not start with a digit. */
  lemma SignedDigitsUnsigned(ds: string, rest: string)
    requires |ds| > 0 && AllDigits(ds)
    requires rest == [] || !IsDigit(rest[0])
    ensures SignedDigits(ds + rest) == Some(DigitsValue(ds))
  {
    DigitPrefixThen(ds, rest);
    var t := ds + rest;
    assert t[0] == ds[0];
  }

  /** A minus sign, a run of digits, then text that does not start with a
      digit. */
  lemma SignedDigitsMinus(t: string, ds: string, rest: string)
    requires |ds| > 0 && AllDigits(ds)
    requires rest == [] || !IsDigit(rest[0])
    requires |t| > 0 && t[0] == '-' && t[1..] == ds + rest
    ensures SignedDigits(t) == Some(0 - DigitsValue(ds))
  {
    UnsignedDigitsThen(ds, rest);
    SignedDigitsNegated(t, DigitsValue(ds));
  }

  /** The digits of a run followed by a non-digit are that run. */
  lemma UnsignedDigitsThen(ds: string, rest: string)
    requires |ds| > 0 && AllDigits(ds)
    requires rest == [] || !IsDigit(rest[0])
    ensures UnsignedDigits(ds + rest) == Some(DigitsValue(ds))
  {
    DigitPrefixThen(ds, rest);
  }

  /** A minus sign negates the digits that follow it. */
  lemma SignedDigitsNegated(t: string, v: int)
    requires |t| > 0 && t[0] == '-' && UnsignedDigits(t[1..]) == Some(v)
    ensures SignedDigits(t) == Some(0 - v)
  {
  }

  /** Reading what to_string wrote, followed by text that does not start
      with a digit, gives the integer and ignores the text. */
  lemma LeadingIntOfToStringThen(i: int, rest: string)
    requires rest == [] || !IsDigit(rest[0])
    ensures LeadingInt(IntToString(i) + rest) == Some(i)
  {
    var s := IntToString(i) + rest;
    assert SkipSpace(s) == s by {
      assert s[0] == IntToString(i)[0];
    }
    if i < 0 {
      assert s[1..] == Decimal(-i) + rest;
      SignedDigitsMinus(s, Decimal(-i), rest);
    } else {
      SignedDigitsUnsigned(Decimal(i), rest);
    }
  }

  /** A leading blank does not change the integer read. */
  lemma LeadingIntSkipsBlank(t: string)
    ensures LeadingInt(" " + t) == LeadingInt(t)
  {
    assert SkipSpace(" " + t) == SkipSpace(t) by {
      assert (" " + t)[1..] == t;
    }
  }

  /** Reading back what to_string wrote gives the same integer. */
  lemma LeadingIntOfToString(i: int)
    ensures LeadingInt(IntToString(i)) == Some(i)
  {
    var s := IntToString(i);
    assert SkipSpace(s) == s;
    var n: nat := if i < 0 then -i else i;
    if i < 0 {
      assert s[1..] == Decimal(n);
    }
    DigitPrefixOfDigits(Decimal(n));
  }

  /** stoi inverts to_string on the range of `int`. */
  lemma StoiOfToString(i: int)
    requires IntMin <= i <= IntMax
    ensures Stoi(IntToString(i)) == Success(i)
  {
    LeadingIntOfToString(i);
  }

  /** atoi inverts to_string. */
  lemma AtoiOfToString(i: int)
    ensures Atoi(IntToString(i)) == i
  {
    LeadingIntOfToString(i);
  }

  /** atoi of a single digit is that digit. */
  lemma AtoiOfDigit(d: nat)
    requires d < 10
    ensures Atoi([DigitChar(d)]) == d
  {
    assert IntToString(d) == [DigitChar(d)];
    AtoiOfToString(d);
  }

  /** Distinct integers have distinct decimal texts. */
  lemma IntToStringInjective(i: int, j: int)
    requires IntToString(i) == IntToString(j)
    ensures i == j
  {
    LeadingIntOfToString(i);
    LeadingIntOfToString(j);
  }
}
