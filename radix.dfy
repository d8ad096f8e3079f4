/** Decoding of a digit string in radix 2..36 into an unbounded integer,
    as `Main.decodeBaseToBigInteger` does it: right to left, with a running
    place value, rejecting only digits whose value is at least the base. */
module Radix {
  import opened Wrappers

  /** Character.MIN_RADIX and Character.MAX_RADIX. */
  const MinRadix := 2
  const MaxRadix := 36

  datatype DecodeError = InvalidBase(base: int) | InvalidDigit(c: char)

  predicate IsAlnum(c: char) {
    '0' <= c <= '9' || 'A' <= c <= 'Z' || 'a' <= c <= 'z'
  }

  /** Character.toUpperCase on ASCII characters. */
  function ToUpper(c: char): (u: char)
    ensures 'a' <= c <= 'z' ==> 'A' <= u <= 'Z' && u as int - 'A' as int == c as int - 'a' as int
    ensures !('a' <= c <= 'z') ==> u == c
  {
    if 'a' <= c <= 'z' then (c as int - 'a' as int + 'A' as int) as char else c
  }

  /** The upper-case character of digit value d: '0'..'9', then 'A'..'Z'. */
  function DigitChar(d: nat): (c: char)
    requires d < MaxRadix
    ensures IsAlnum(c) && !('a' <= c <= 'z')
  {
    if d < 10 then ('0' as int + d) as char else ('A' as int + d - 10) as char
  }

  /** The digit value the decoder assigns to a character: `c - '0'` for a
      decimal digit, otherwise `toUpperCase(c) - 'A' + 10`. Characters
      outside the alphabet are not rejected here: '@' gets 9 and '-' gets -10. */
  function Digit(c: char): (d: int)
    ensures IsAlnum(c) ==> 0 <= d < MaxRadix && DigitChar(d) == ToUpper(c)
  {
    if '0' <= c <= '9' then c as int - '0' as int
    else ToUpper(c) as int - 'A' as int + 10
  }

  /** Every character of s is accepted for base: its digit value is below it. */
  predicate ValidDigits(s: string, base: int) {
    forall i :: 0 <= i < |s| ==> Digit(s[i]) < base
  }

  function Pow(b: int, e: nat): int {
    if e == 0 then 1 else b * Pow(b, e - 1)
  }

  /** The positional value  sum_i Digit(s[i]) * base^(|s|-1-i). */
  function Positional(s: string, base: int): int {
    if s == [] then 0 else Digit(s[0]) * Pow(base, |s| - 1) + Positional(s[1..], base)
  }

  /** What decoding produces: InvalidBase outside [2, 36]; otherwise the
      rightmost rejected character, or the value of the string. */
  function Decode(s: string, base: int): Result<int, DecodeError> {
    if base < MinRadix || base > MaxRadix then Failure(InvalidBase(base))
    else DecodeDigits(s, base)
  }

  /** The last character is looked at first, as in the right-to-left loop. */
  function DecodeDigits(s: string, base: int): Result<int, DecodeError> {
    if s == [] then Success(0)
    else
      var c := s[|s| - 1];
      if Digit(c) >= base then Failure(InvalidDigit(c))
      else match DecodeDigits(s[..|s| - 1], base)
        case Failure(e) => Failure(e)
        case Success(v) => Success(v * base + Digit(c))
  }

  /** Appending a digit on the right shifts the value by one place. */
  lemma {:induction false} PositionalSnoc(s: string, c: char, base: int)
    ensures Positional(s + [c], base) == Positional(s, base) * base + Digit(c)
    decreases |s|
  {
    if s == [] {
      assert [c][1..] == [];
    } else {
      assert (s + [c])[1..] == s[1..] + [c];
      PositionalSnoc(s[1..], c, base);
      var d, p, rest := Digit(s[0]), Pow(base, |s| - 1), Positional(s[1..], base);
      assert Pow(base, |s|) == base * p;
      ShiftPlace(d, p, rest, base);
    }
  }

  lemma ShiftPlace(d: int, p: int, rest: int, base: int)
    ensures d * (base * p) + rest * base == (d * p + rest) * base
  {
  }

  /** A string all of whose digits are accepted decodes to its positional value. */
  lemma {:induction false} DecodeDigitsValid(s: string, base: int)
    requires ValidDigits(s, base)
    ensures DecodeDigits(s, base) == Success(Positional(s, base))
    decreases |s|
  {
    if s != [] {
      var init, c := s[..|s| - 1], s[|s| - 1];
      assert s == init + [c];
      DecodeDigitsValid(init, base);
      PositionalSnoc(init, c, base);
    }
  }

  /** The rightmost rejected character is the one reported. */
  lemma {:induction false} DecodeDigitsRejects(s: string, base: int, j: nat)
    requires j < |s| && Digit(s[j]) >= base
    requires forall k :: j < k < |s| ==> Digit(s[k]) < base
    ensures DecodeDigits(s, base) == Failure(InvalidDigit(s[j]))
    decreases |s|
  {
    if j < |s| - 1 {
      var init := s[..|s| - 1];
      assert init[j] == s[j];
      DecodeDigitsRejects(init, base, j);
    }
  }

  /** Decoding succeeds exactly when the base is in [2, 36] and every digit
      is below the base, with the positional value as result; a bad base is
      reported before any digit, and otherwise the rightmost bad digit. */
  lemma DecodeMeaning(s: string, base: int)
    ensures !(MinRadix <= base <= MaxRadix) ==> Decode(s, base) == Failure(InvalidBase(base))
    ensures MinRadix <= base <= MaxRadix && ValidDigits(s, base) ==>
              Decode(s, base) == Success(Positional(s, base))
    ensures MinRadix <= base <= MaxRadix && !ValidDigits(s, base) ==>
              exists j :: 0 <= j < |s| && Digit(s[j]) >= base &&
                (forall k :: j < k < |s| ==> Digit(s[k]) < base) &&
                Decode(s, base) == Failure(InvalidDigit(s[j]))
    ensures Decode(s, base).Success? <==> MinRadix <= base <= MaxRadix && ValidDigits(s, base)
  {
    if MinRadix <= base <= MaxRadix {
      if ValidDigits(s, base) {
        DecodeDigitsValid(s, base);
      } else {
        var j := RightmostRejected(s, base);
        DecodeDigitsRejects(s, base, j);
      }
    }
  }

  /** The index of the rightmost character whose digit is not below base. */
  function RightmostRejected(s: string, base: int): (j: nat)
    requires !ValidDigits(s, base)
    ensures j < |s| && Digit(s[j]) >= base
    ensures forall k :: j < k < |s| ==> Digit(s[k]) < base
  {
    if Digit(s[|s| - 1]) >= base then |s| - 1
    else
      assert !ValidDigits(s[..|s| - 1], base) by {
        var i :| 0 <= i < |s| && Digit(s[i]) >= base;
        assert s[..|s| - 1][i] == s[i];
      }
      RightmostRejected(s[..|s| - 1], base)
  }

  lemma {:induction false} PowPositive(b: int, e: nat)
    requires b >= 1
    ensures Pow(b, e) >= 1
  {
    if e > 0 {
      PowPositive(b, e - 1);
    }
  }

  lemma TopDigitBound(d: int, p: int, rest: int, base: int)
    requires 0 <= d < base && p >= 1 && 0 <= rest < p
    ensures 0 <= d * p + rest < base * p
  {
    assert d * p <= (base - 1) * p;
  }

  /** With every digit in [0, base), the value lies in [0, base^|s|). */
  lemma {:induction false} PositionalBounds(s: string, base: int)
    requires base >= 1
    requires forall i :: 0 <= i < |s| ==> 0 <= Digit(s[i]) < base
    ensures 0 <= Positional(s, base) < Pow(base, |s|)
    decreases |s|
  {
    if s != [] {
      PositionalBounds(s[1..], base);
      PowPositive(base, |s| - 1);
      var d, p := Digit(s[0]), Pow(base, |s| - 1);
      assert Pow(base, |s|) == base * p;
      TopDigitBound(d, p, Positional(s[1..], base), base);
    }
  }

  /** A reference encoder: the canonical upper-case digits of n in base b. */
  function Encode(n: nat, base: int): (s: string)
    requires MinRadix <= base <= MaxRadix
    ensures |s| >= 1
    decreases n
  {
    if n < base then [DigitChar(n)]
    else
      DivShrinks(n, base);
      Encode(n / base, base) + [DigitChar(n % base)]
  }

  lemma DivShrinks(n: nat, base: int)
    requires 2 <= base <= n
    ensures 0 <= n / base < n && 0 <= n % base < base
    ensures n / base * base + n % base == n
  {
  }

  lemma DigitOfDigitChar(d: nat)
    requires d < MaxRadix
    ensures Digit(DigitChar(d)) == d
  {
  }

  /** Decoding a string extended on the right by an accepted digit. */
  lemma DecodeDigitsSnoc(prefix: string, c: char, base: int, v: int)
    requires DecodeDigits(prefix, base) == Success(v) && Digit(c) < base
    ensures DecodeDigits(prefix + [c], base) == Success(v * base + Digit(c))
  {
    var s := prefix + [c];
    assert s[..|s| - 1] == prefix && s[|s| - 1] == c;
  }

  lemma EncodeStep(n: nat, base: int)
    requires MinRadix <= base <= MaxRadix && base <= n
    requires Decode(Encode(n / base, base), base) == Success(n / base)
    ensures Decode(Encode(n, base), base) == Success(n)
  {
    DivShrinks(n, base);
    var q, m := n / base, n % base;
    DigitOfDigitChar(m);
    DecodeDigitsSnoc(Encode(q, base), DigitChar(m), base, q);
  }

  /** Decoding inverts encoding for every non-negative integer and base. */
  lemma {:induction false} DecodeEncode(n: nat, base: int)
    requires MinRadix <= base <= MaxRadix
    ensures Decode(Encode(n, base), base) == Success(n)
    decreases n
  {
    if n < base {
      DigitOfDigitChar(n);
      DecodeDigitsSnoc([], DigitChar(n), base, 0);
      assert [] + [DigitChar(n)] == Encode(n, base);
    } else {
      DivShrinks(n, base);
      DecodeEncode(n / base, base);
      EncodeStep(n, base);
    }
  }

  /** Letters are read case-insensitively: 'a' and 'A' both mean 10. */
  lemma CaseInsensitive(c: char)
    requires 'a' <= c <= 'z'
    ensures Digit(c) == Digit(ToUpper(c)) && 10 <= Digit(c) <= 35
  {
  }

  /** Concrete behaviours of the decoder, including its leniency. */
  lemma DecodeExamples()
    ensures Decode("7", 1) == Failure(InvalidBase(1))
    ensures Decode("7", 37) == Failure(InvalidBase(37))
    ensures Decode("Z", 10) == Failure(InvalidDigit('Z'))
    ensures Decode("", 10) == Success(0)
    ensures Decode("111", 2) == Success(7)
    ensures Decode("a", 16) == Decode("A", 16) == Success(10)
    ensures Decode("@", 10) == Success(9)
    ensures Decode("-5", 10) == Success(-95)
    ensures Decode("1Z2", 10) == Failure(InvalidDigit('Z'))
  {
    assert "111"[..2] == "11" && "11"[..1] == "1" && "1"[..0] == "";
    assert "-5"[..1] == "-";
    assert "1Z2"[..2] == "1Z";
  }

  /** One iteration of the loop: the digit at i - 1 takes the current place. */
  lemma DecodeStep(s: string, base: int, i: nat, place: int, result: int)
    requires 0 < i <= |s|
    requires place == Pow(base, |s| - i) && result == Positional(s[i..], base)
    ensures result + place * Digit(s[i - 1]) == Positional(s[i - 1..], base)
    ensures place * base == Pow(base, |s| - (i - 1))
  {
    assert s[i - 1..][1..] == s[i..];
    assert Positional(s[i - 1..], base) == Digit(s[i - 1]) * place + result;
  }

  /** The loop of the source: from the rightmost character leftwards,
      `result += place * digit; place *= base`. */
  method DecodeBaseToBigInteger(s: string, base: int) returns (r: Result<int, DecodeError>)
    ensures r == Decode(s, base)
  {
    if base < MinRadix || base > MaxRadix {
      return Failure(InvalidBase(base));
    }
    var result := 0;
    var place := 1;
    var i := |s|;
    while i > 0
      invariant 0 <= i <= |s|
      invariant place == Pow(base, |s| - i)
      invariant result == Positional(s[i..], base)
      invariant forall k :: i <= k < |s| ==> Digit(s[k]) < base
    {
      var c := s[i - 1];
      var digit := Digit(c);
      if digit >= base {
        DecodeDigitsRejects(s, base, i - 1);
        return Failure(InvalidDigit(c));
      }
      DecodeStep(s, base, i, place, result);
      result := result + place * digit;
      place := place * base;
      i := i - 1;
    }
    assert s[0..] == s;
    DecodeDigitsValid(s, base);
    return Success(result);
  }
}
