/** Decimal integers as the paginator reads and writes them: 64-bit, wrapping
    on overflow, an optional sign, leading zeros accepted. */
module Decimal {
  import opened Wrappers

  const INT64_MAX: int := 0x7fff_ffff_ffff_ffff
  const INT64_MIN: int := -0x8000_0000_0000_0000

  predicate IsInt64(n: int) { INT64_MIN <= n <= INT64_MAX }

  /** The value of a sum after 64-bit wrap-around. */
  function Wrap(n: int): (r: int)
    ensures IsInt64(r)
    ensures IsInt64(n) ==> r == n
  {
    (n - INT64_MIN) % 0x1_0000_0000_0000_0000 + INT64_MIN
  }

  /** A positive step moves a position forward unless it overflows. */
  lemma WrapMovesForward(n: int, step: int)
    requires IsInt64(n) && 0 < step <= INT64_MAX
    ensures Wrap(n + step) > n <==> n + step <= INT64_MAX
  {
    if n + step > INT64_MAX {
      assert Wrap(n + step) == n + step - 0x1_0000_0000_0000_0000;
    }
  }

  predicate IsDigit(c: char) { '0' <= c <= '9' }

  function DigitChar(d: nat): char
    requires d < 10
  {
    '0' + d as char
  }

  function DigitValue(c: char): nat
    requires IsDigit(c)
  {
    (c - '0') as nat
  }

  function Digits(n: nat): string {
    if n < 10 then [DigitChar(n)] else Digits(n / 10) + [DigitChar(n % 10)]
  }

  function ParseDigits(s: string): Option<nat> {
    if s == "" || !IsDigit(s[|s| - 1]) then None
    else if |s| == 1 then Some(DigitValue(s[0]))
    else
      match ParseDigits(s[..|s| - 1])
      case None => None
      case Some(n) => Some(10 * n + DigitValue(s[|s| - 1]))
  }

  function Itoa(n: int): string {
    if n < 0 then "-" + Digits(-n) else Digits(n)
  }

  function Atoi(s: string): Option<int> {
    var signed := s != "" && (s[0] == '-' || s[0] == '+');
    match ParseDigits(if signed then s[1..] else s)
    case None => None
    case Some(m) =>
      var sign: int := if signed && s[0] == '-' then -1 else 1;
      var n := sign * m;
      if IsInt64(n) then Some(n) else None
  }

  lemma {:induction false} DigitsParseBack(n: nat)
    ensures Digits(n) != "" && IsDigit(Digits(n)[0])
    ensures ParseDigits(Digits(n)) == Some(n)
  {
    if n >= 10 {
      DigitsParseBack(n / 10);
      assert Digits(n)[..|Digits(n)| - 1] == Digits(n / 10);
    }
  }

  /** Digits as a number, read from the left. */
  function NumberOf(s: string, before: int): int {
    if s == "" then before else NumberOf(s[1..], 10 * before + s[0] as int - 48)
  }

  ghost predicate AllDigits(s: string) {
    s != "" && forall i :: 0 <= i < |s| ==> IsDigit(s[i])
  }

  lemma {:induction false} NumberOfLast(s: string, before: int)
    requires s != ""
    ensures NumberOf(s, before) == 10 * NumberOf(s[..|s| - 1], before) + s[|s| - 1] as int - 48
  {
    if |s| > 1 {
      NumberOfLast(s[1..], 10 * before + s[0] as int - 48);
      assert s[1..][..|s| - 2] == s[..|s| - 1][1..];
    }
  }

  lemma {:induction false} ParseDigitsExactly(s: string)
    ensures ParseDigits(s).Some? <==> AllDigits(s)
    ensures AllDigits(s) ==> ParseDigits(s).value == NumberOf(s, 0)
  {
    if |s| > 1 {
      ParseDigitsExactly(s[..|s| - 1]);
      assert AllDigits(s) <==> AllDigits(s[..|s| - 1]) && IsDigit(s[|s| - 1]);
    }
    if s != "" {
      NumberOfLast(s, 0);
    }
  }

  /** Digits after at most one sign. */
  ghost predicate Denotes(s: string, sign: string, digits: string) {
    s == sign + digits && sign in {"", "+", "-"} && AllDigits(digits)
  }

  /** A number is read from digits after at most one sign, if it fits in 64 bits,
      and nothing else is read as one. */
  lemma AtoiExactly(s: string, sign: string, digits: string)
    ensures Denotes(s, sign, digits) ==>
      var n: int := if sign == "-" then -NumberOf(digits, 0) else NumberOf(digits, 0);
      Atoi(s) == if -0x8000_0000_0000_0000 <= n < 0x8000_0000_0000_0000 then Some(n) else None
    ensures Atoi(s).Some? ==> exists g, d :: Denotes(s, g, d)
  {
    hide ParseDigits, NumberOf, AllDigits;
    if Denotes(s, sign, digits) {
      ParseDigitsExactly(digits);
      SignIsNoDigit(digits);
      assert if sign == "" then s == digits else s[1..] == digits;
    }
    var signed := s != "" && (s[0] == '-' || s[0] == '+');
    ParseDigitsExactly(if signed then s[1..] else s);
    if Atoi(s).Some? && signed {
      assert s == [s[0]] + s[1..];
      assert Denotes(s, [s[0]], s[1..]);
    } else if Atoi(s).Some? {
      assert s == "" + s;
      assert Denotes(s, "", s);
    }
  }

  lemma SignIsNoDigit(s: string)
    ensures AllDigits(s) ==> s[0] != '+' && s[0] != '-'
  {
  }

  lemma AtoiReadsItoa(n: int)
    requires IsInt64(n)
    ensures Atoi(Itoa(n)) == Some(n)
  {
    hide Digits, ParseDigits;
    DigitsParseBack(if n < 0 then -n else n);
    if n < 0 {
      assert Itoa(n)[1..] == Digits(-n);
    }
  }

  lemma {:induction false} DigitsBegin(n: nat)
    ensures Digits(n) != "" && (n > 0 ==> Digits(n)[0] != '0') && (n == 0 ==> Digits(n) == "0")
  {
    if n >= 10 {
      DigitsBegin(n / 10);
    }
  }

  /** A number is written without leading zeros or a plus sign. */
  lemma ItoaIsPlain(n: int)
    ensures var s := Itoa(n); var digits := if n < 0 then s[1..] else s;
      && s != "" && (s[0] == '-' <==> n < 0)
      && digits != "" && IsDigit(digits[0]) && (digits[0] == '0' ==> n == 0 && s == "0")
  {
    hide Digits, ParseDigits;
    var m := if n < 0 then -n else n;
    DigitsBegin(m);
    DigitsParseBack(m);
    if n < 0 {
      assert Itoa(n)[1..] == Digits(m);
    }
  }

  lemma ItoaNotEmpty(n: int)
    ensures Itoa(n) != ""
  {
    hide Digits, ParseDigits;
    DigitsParseBack(if n < 0 then -n else n);
  }
}
