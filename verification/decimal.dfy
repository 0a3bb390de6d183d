/**
  Resource versions: signed 64-bit integers kept as decimal strings.
  `FormatInt` is what the program prints with, `ParseInt` what it reads with.
 */
module Decimal {
  import opened Wrappers

  const MAX64: int := 0x7fff_ffff_ffff_ffff
  const MIN64: int := -0x8000_0000_0000_0000
  const MODULUS: int := 0x1_0000_0000_0000_0000

  predicate InRange(v: int) {
    MIN64 <= v <= MAX64
  }

  /** The two's-complement reading of `v` in 64 bits. */
  function Wrap64(v: int): (r: int)
    ensures InRange(r)
    ensures InRange(v) ==> r == v
  {
    (v - MIN64) % MODULUS + MIN64
  }

  const DIGITS: string := "0123456789"

  function FormatNat(n: nat): string {
    if n < 10 then [DIGITS[n]] else FormatNat(n / 10) + [DIGITS[n % 10]]
  }

  function FormatInt(v: int): string {
    if v < 0 then "-" + FormatNat(-v) else FormatNat(v)
  }

  predicate IsDigit(c: char) {
    '0' <= c <= '9'
  }

  /** The value of a non-empty string of digits; anything else is a syntax error. */
  function ParseNat(s: string): Option<nat> {
    if |s| == 0 || !IsDigit(s[|s| - 1]) then None
    else
      var d := s[|s| - 1] as int - '0' as int;
      if |s| == 1 then Some(d)
      else
        match ParseNat(s[..|s| - 1])
        case None => None
        case Some(h) => Some(10 * h + d)
  }

  /** An optional sign, digits, and a value that fits; otherwise a syntax or range error. */
  function ParseInt(s: string): Option<int> {
    if |s| == 0 then None
    else
      var signed := s[0] == '+' || s[0] == '-';
      match ParseNat(if signed then s[1..] else s)
      case None => None
      case Some(n) =>
        var v: int := if s[0] == '-' then 0 - n else n;
        if InRange(v) then Some(v) else None
  }

  lemma {:induction false} ParseFormatNat(n: nat)
    ensures ParseNat(FormatNat(n)) == Some(n)
    ensures |FormatNat(n)| > 0 && IsDigit(FormatNat(n)[0])
  {
    assert forall d :: 0 <= d < 10 ==> IsDigit(DIGITS[d]) && DIGITS[d] as int - '0' as int == d;
    var s := FormatNat(n);
    if n >= 10 {
      ParseFormatNat(n / 10);
      assert s[..|s| - 1] == FormatNat(n / 10);
    }
  }

  /** Printing then parsing is the identity on all 64-bit integers, the minimum included. */
  lemma ParseFormatInt(v: int)
    ensures ParseInt(FormatInt(v)) == if InRange(v) then Some(v) else None
    ensures |FormatInt(v)| > 0
  {
    var n: nat := if v < 0 then -v else v;
    ParseFormatNat(n);
    assert v < 0 ==> FormatInt(v)[1..] == FormatNat(n);
  }

  /** The version that follows `v`: the sum wraps as a 64-bit addition does. */
  function Successor(v: int): int {
    Wrap64(v + 1)
  }

  lemma WrapIs(v: int, q: int)
    requires InRange(v - MODULUS * q)
    ensures Wrap64(v) == v - MODULUS * q
  {
    var r := v - MODULUS * q - MIN64;
    assert v - MIN64 == MODULUS * q + r && 0 <= r < MODULUS;
  }

  /** Counting up through wrapped values is counting up and wrapping once. */
  lemma SuccessorOfWrapped(n: int)
    ensures Successor(Wrap64(n)) == Wrap64(n + 1)
    ensures Wrap64(n) == MAX64 ==> Wrap64(n + 1) == MIN64
  {
    var q := (n - MIN64) / MODULUS;
    WrapIs(n, q);
    if n - MODULUS * q == MAX64 {
      WrapIs(n + 1, q + 1);
      WrapIs(MAX64 + 1, 1);
    } else {
      WrapIs(n + 1, q);
      WrapIs(n - MODULUS * q + 1, 0);
    }
  }

  /** The text of the `n`-th version. */
  function VersionText(n: nat): string {
    FormatInt(Wrap64(n))
  }

  /** The text that an update writes over `text`; a text that does not parse has none. */
  function Follow(text: string): string {
    match ParseInt(text)
    case None => ""
    case Some(v) => FormatInt(Successor(v))
  }

  /** Reading the text of a version and printing its successor gives the text of the next. */
  lemma VersionTextFollows(n: nat)
    ensures ParseInt(VersionText(n)) == Some(Wrap64(n)) && Follow(VersionText(n)) == VersionText(n + 1)
  {
    ParseFormatInt(Wrap64(n));
    SuccessorOfWrapped(n);
  }

  lemma FirstVersion()
    ensures VersionText(1) == FormatInt(1) == "1"
  {
  }

  /** A version text reads as its number exactly until the count leaves 64 bits. */
  lemma VersionTextReads(n: nat)
    ensures ParseInt(VersionText(n)) == Some(n) <==> n <= MAX64
  {
    ParseFormatInt(Wrap64(n));
  }

  // ----- The same in plain numbers -----

  /** The number that a string of digits stands for. */
  function Reading(s: string): int {
    if |s| == 0 then 0 else 10 * Reading(s[..|s| - 1]) + (s[|s| - 1] as int - 48)
  }

  predicate AllDigits(s: string) {
    forall i :: 0 <= i < |s| ==> s[i] in "0123456789"
  }

  lemma DigitCodes(c: char)
    ensures c in "0123456789" <==> 48 <= c as int <= 57
    ensures IsDigit(c) <==> c in "0123456789"
  {
    var all := "0123456789";
    assert all[0] == '0' && all[1] == '1' && all[2] == '2' && all[3] == '3' && all[4] == '4';
    assert all[5] == '5' && all[6] == '6' && all[7] == '7' && all[8] == '8' && all[9] == '9';
  }

  lemma {:induction false} ParsesDigits(s: string)
    ensures ParseNat(s) == if |s| > 0 && AllDigits(s) then Some(Reading(s)) else None
    ensures AllDigits(s) ==> Reading(s) >= 0
  {
    if |s| > 0 {
      var n := |s| - 1;
      DigitCodes(s[n]);
      ParsesDigits(s[..n]);
      assert AllDigits(s) <==> AllDigits(s[..n]) && s[n] in "0123456789";
      if n == 0 {
        assert s[..n] == "";
      }
    }
  }

  lemma {:induction false} FormatsDigits(n: nat)
    ensures var s := FormatNat(n);
            && |s| > 0 && AllDigits(s) && Reading(s) == n
            && (s[0] == '0' <==> n == 0) && (n == 0 ==> s == "0")
  {
    var s := FormatNat(n);
    if n >= 10 {
      FormatsDigits(n / 10);
      assert s[..|s| - 1] == FormatNat(n / 10);
    } else {
      assert DIGITS[n] as int == 48 + n;
      assert s[..0] == "";
      assert Reading(s) == 10 * Reading(s[..0]) + (s[0] as int - 48);
    }
  }

  /** A printed version is the plain decimal numeral: digits without leading zeros, after a minus if it is negative. */
  lemma FormatIsNumeral(v: int)
    ensures var s := FormatInt(v);
            if v < 0 then |s| > 1 && s[0] == '-' && AllDigits(s[1..]) && Reading(s[1..]) == -v && s[1] != '0'
            else |s| > 0 && AllDigits(s) && Reading(s) == v && (s[0] == '0' ==> s == "0")
  {
    FormatsDigits(if v < 0 then -v else v);
    if v < 0 {
      assert FormatInt(v)[1..] == FormatNat(-v);
    }
  }

  predicate Signed(s: string) {
    |s| > 0 && (s[0] == '+' || s[0] == '-')
  }

  function Unsigned(s: string): string {
    if Signed(s) then s[1..] else s
  }

  lemma ParsesUnsigned(s: string)
    ensures ParseInt(s) ==
            match ParseNat(Unsigned(s))
            case None => None
            case Some(n) =>
              var v: int := if Signed(s) && s[0] == '-' then 0 - n else n;
              if -9223372036854775808 <= v <= 9223372036854775807 then Some(v) else None
  {
  }

  /** A text parses exactly if it is digits, possibly after a sign, and stands for a number that fits in 64 bits. */
  lemma ParseIsReading(s: string)
    ensures var digits := Unsigned(s);
            var v := if Signed(s) && s[0] == '-' then -Reading(digits) else Reading(digits);
            ParseInt(s) == if |digits| > 0 && AllDigits(digits) && -9223372036854775808 <= v <= 9223372036854775807
                           then Some(v) else None
  {
    ParsesUnsigned(s);
    ParsesDigits(Unsigned(s));
  }

  /** The version after a 64-bit one: one more, or from the largest back to the smallest. */
  lemma SuccessorInWords(v: int)
    requires InRange(v)
    ensures Successor(v) == if v == 9223372036854775807 then -9223372036854775808 else v + 1
  {
    WrapIs(MAX64 + 1, 1);
  }
}
