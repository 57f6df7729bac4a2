/** Decimal numerals on both sides of the per-year citation text: Python's
    `str(int)`, which writes them, and C++'s `std::stoi`, which reads them. */
module Numerals {
  import opened Wrappers
  import opened DbUtils

  /** The range of a 32-bit `int`, the result type of `std::stoi`. */
  const IntMin: int := -0x8000_0000
  const IntMax: int := 0x7FFF_FFFF

  predicate IsDigit(c: char) {
    '0' <= c <= '9'
  }

  predicate AllDigits(s: string) {
    forall i :: 0 <= i < |s| ==> IsDigit(s[i])
  }

  function DigitChar(v: nat): (c: char)
    requires v < 10
    ensures IsDigit(c) && c as int - '0' as int == v
  {
    ('0' as int + v) as char
  }

  /** The value of a string of decimal digits. */
  function DigitsValue(s: string): nat
    requires AllDigits(s)
  {
    if s == [] then 0
    else DigitsValue(s[..|s| - 1]) * 10 + (s[|s| - 1] as int - '0' as int)
  }

  /** Length of the longest prefix of `s` made of digits. */
  function DigitRun(s: string): (n: nat)
    ensures n <= |s| && AllDigits(s[..n])
    ensures n < |s| ==> !IsDigit(s[n])
  {
    if s != [] && IsDigit(s[0]) then 1 + DigitRun(s[1..]) else 0
  }

  /** Why `std::stoi` throws: `std::invalid_argument` when no digits follow
      the optional whitespace and sign, `std::out_of_range` when the value
      does not fit an `int`. */
  datatype StoiError = InvalidArgument | OutOfRange

  /** Splits an optional leading `-` or `+` off a text. */
  function SplitSign(t: string): (r: (bool, string))
    ensures r.0 ==> t != [] && t[0] == '-'
    ensures r.1 == t || (t != [] && r.1 == t[1..] && (t[0] == '-' || t[0] == '+'))
  {
    if t != [] && (t[0] == '-' || t[0] == '+') then (t[0] == '-', t[1..]) else (false, t)
  }

  /** The value of the digit run at the start of `body`, with its sign. */
  function ReadDigits(negative: bool, body: string): (r: Result<int, StoiError>)
    ensures r.Success? ==> IntMin <= r.value <= IntMax
    ensures r == Failure(InvalidArgument) <==> body == [] || !IsDigit(body[0])
  {
    var n := DigitRun(body);
    if n == 0 then Failure(InvalidArgument)
    else
      var magnitude: int := DigitsValue(body[..n]);
      var v := if negative then -magnitude else magnitude;
      if IntMin <= v <= IntMax then Success(v) else Failure(OutOfRange)
  }

  /** `std::stoi(s)` in base 10: skips leading whitespace, reads an optional
      sign and the longest run of digits, and ignores whatever follows. */
  function Stoi(s: string): (r: Result<int, StoiError>)
    ensures r.Success? ==> IntMin <= r.value <= IntMax
    ensures r == Failure(InvalidArgument) <==>
      var body := SplitSign(RemoveLeading(s)).1;
      body == [] || !IsDigit(body[0])
  {
    var signed := SplitSign(RemoveLeading(s));
    ReadDigits(signed.0, signed.1)
  }

  /** Python's `str(n)` for a non-negative integer. */
  function NatToString(n: nat): (s: string)
    ensures s != [] && AllDigits(s)
  {
    if n < 10 then [DigitChar(n)] else NatToString(n / 10) + [DigitChar(n % 10)]
  }

  /** Python's `str(n)`, which is also what an f-string writes for `{n}`. */
  function IntToString(n: int): (s: string)
    ensures s != []
  {
    if n < 0 then "-" + NatToString(-n) else NatToString(n)
  }

  lemma {:induction false} NatToStringValue(n: nat)
    ensures DigitsValue(NatToString(n)) == n
    decreases n
  {
    if n >= 10 {
      NatToStringValue(n / 10);
      var s := NatToString(n);
      assert s[..|s| - 1] == NatToString(n / 10);
    }
  }

  lemma {:induction false} DigitRunAll(s: string)
    requires AllDigits(s)
    ensures DigitRun(s) == |s|
    decreases |s|
  {
    if s != [] {
      DigitRunAll(s[1..]);
    }
  }

  /** Whitespace in front of a text not starting with whitespace is exactly
      what `removeLeading` strips. */
  lemma {:induction false} RemoveLeadingPrefix(ws: string, t: string)
    requires forall i :: 0 <= i < |ws| ==> IsSpace(ws[i])
    requires t == [] || !IsSpace(t[0])
    ensures RemoveLeading(ws + t) == t
    decreases |ws|
  {
    if ws != [] {
      assert (ws + t)[1..] == ws[1..] + t;
      RemoveLeadingPrefix(ws[1..], t);
    }
  }

  lemma ReadDigitsOfNatString(negative: bool, m: nat)
    requires IntMin <= (if negative then -(m as int) else m as int) <= IntMax
    ensures ReadDigits(negative, NatToString(m)) == Success(if negative then -(m as int) else m as int)
  {
    var digits := NatToString(m);
    DigitRunAll(digits);
    assert digits[..|digits|] == digits;
    NatToStringValue(m);
  }

  /** `std::stoi` reads back what `str` wrote, after any whitespace, for
      every value that fits an `int`. */
  lemma StoiReadsIntToString(ws: string, n: int)
    requires forall i :: 0 <= i < |ws| ==> IsSpace(ws[i])
    requires IntMin <= n <= IntMax
    ensures Stoi(ws + IntToString(n)) == Success(n)
  {
    var text := IntToString(n);
    RemoveLeadingPrefix(ws, text);
    if n < 0 {
      var digits := NatToString(-n);
      assert text == "-" + digits;
      assert text[1..] == digits;
      assert SplitSign(text) == (true, digits);
      ReadDigitsOfNatString(true, -n);
    } else {
      var digits := NatToString(n);
      assert text == digits;
      assert SplitSign(text) == (false, digits);
      ReadDigitsOfNatString(false, n);
    }
  }

  /** Lower-casing never changes whitespace, signs or digits, so it commutes
      with `removeLeading`. */
  lemma {:induction false} RemoveLeadingToLower(s: string)
    ensures RemoveLeading(ToLower(s)) == ToLower(RemoveLeading(s))
    decreases |s|
  {
    if s != [] {
      assert ToLower(s)[1..] == ToLower(s[1..]);
      RemoveLeadingToLower(s[1..]);
    }
  }

  lemma {:induction false} DigitRunToLower(s: string)
    ensures DigitRun(ToLower(s)) == DigitRun(s)
    ensures ToLower(s)[..DigitRun(s)] == s[..DigitRun(s)]
    decreases |s|
  {
    if s != [] {
      assert ToLower(s)[1..] == ToLower(s[1..]);
      DigitRunToLower(s[1..]);
    }
  }

  lemma SplitSignToLower(t: string)
    ensures SplitSign(ToLower(t)) == (SplitSign(t).0, ToLower(SplitSign(t).1))
  {
    if t != [] {
      assert ToLower(t)[1..] == ToLower(t[1..]);
    }
  }

  lemma ReadDigitsToLower(negative: bool, body: string)
    ensures ReadDigits(negative, ToLower(body)) == ReadDigits(negative, body)
  {
    DigitRunToLower(body);
  }

  /** `std::stoi` gives the same answer on a lower-cased text. */
  lemma StoiIgnoresCase(s: string)
    ensures Stoi(ToLower(s)) == Stoi(s)
  {
    RemoveLeadingToLower(s);
    var t := RemoveLeading(s);
    SplitSignToLower(t);
    ReadDigitsToLower(SplitSign(t).0, SplitSign(t).1);
  }
}
