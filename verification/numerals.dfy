/**
  Decimal numerals as the runner uses them: Rust's `u8::from_str` (which turns a
  registered day name's suffix into a day number) and the `{}` and `{:02}`
  formatting of integers in output labels and input file names.
 */
module Numerals {
  import opened Wrappers

  /** Rust's `u8`. */
  type uint8 = x: int | 0 <= x < 0x100

  predicate IsDigit(c: char) {
    '0' <= c <= '9'
  }

  predicate AllDigits(s: string) {
    forall i :: 0 <= i < |s| ==> IsDigit(s[i])
  }

  function DigitValue(c: char): (d: nat)
    requires IsDigit(c)
    ensures d < 10
  {
    c as int - '0' as int
  }

  function DigitChar(d: nat): (c: char)
    requires d < 10
    ensures IsDigit(c) && DigitValue(c) == d
  {
    ('0' as int + d) as char
  }

  /** The value of a digit string, most significant digit first; "" has value 0. */
  function Value(s: string): nat
    requires AllDigits(s)
  {
    if |s| == 0 then 0 else Value(s[..|s| - 1]) * 10 + DigitValue(s[|s| - 1])
  }

  /** `k` copies of the digit `0`. */
  function Zeros(k: nat): (z: string)
    ensures |z| == k
    ensures forall i :: 0 <= i < k ==> z[i] == '0'
  {
    seq(k, i => '0')
  }

  /** `format!("{}", n)`: the shortest decimal spelling of `n`. */
  function Decimal(n: nat): (s: string)
    ensures 0 < |s| && AllDigits(s)
    ensures Value(s) == n
    ensures s[0] == '0' ==> n == 0
    ensures |s| == 1 <==> n < 10
  {
    if n < 10 then [DigitChar(n)]
    else
      var s := Decimal(n / 10) + [DigitChar(n % 10)];
      assert s[..|s| - 1] == Decimal(n / 10);
      s
  }

  /**
    `format!("{:02}", n)`: `n` in decimal, filled with `0` on the left up to a
    width of two characters.
   */
  function Pad2(n: nat): (s: string)
    ensures n < 10 ==> s == "0" + Decimal(n)
    ensures 10 <= n ==> s == Decimal(n)
    ensures 2 <= |s| && AllDigits(s) && Value(s) == n
    ensures |s| == 2 <==> n < 100
  {
    var d := Decimal(n);
    if |d| < 2 then ValueLeadingZeros(2 - |d|, d); Zeros(2 - |d|) + d else d
  }

  /**
    `u8::from_str`: an optional leading `+` (an unsigned type takes no `-`),
    then one or more ASCII digits whose value is at most 255. Leading zeros are
    accepted. Every other string, "" and a lone "+" included, is an error,
    which `.ok()` turns into `None`.
   */
  function ParseU8(s: string): (r: Option<uint8>)
    ensures r.Some? ==> 0 < |s| && (IsDigit(s[0]) || s[0] == '+')
  {
    if |s| == 0 then None
    else
      var digits := if s[0] == '+' then s[1..] else s;
      if |digits| == 0 || !AllDigits(digits) || Value(digits) > 255 then None
      else Some(Value(digits))
  }

  /**
    The loop of Rust's `from_str_radix` for `u8` in radix 10: it strips the
    sign, then folds the digits left to right with `checked_mul` and
    `checked_add`, giving up on the first digit that is not one or on the first
    overflow. It agrees with `ParseU8` on every string.
   */
  method FromStrRadix10(s: string) returns (r: Option<uint8>)
    ensures r == ParseU8(s)
  {
    if |s| == 0 {
      return None;                            // IntErrorKind::Empty
    }
    if (s[0] == '+' || s[0] == '-') && |s| == 1 {
      return None;                            // a lone sign: InvalidDigit
    }
    var digits := if s[0] == '+' then s[1..] else s;
    var result: uint8 := 0;
    var i := 0;
    while i < |digits|
      invariant 0 <= i <= |digits|
      invariant AllDigits(digits[..i])
      invariant result == Value(digits[..i])
    {
      var mulOverflows := result * 10 > 255;  // result.checked_mul(10) is None
      if !IsDigit(digits[i]) {
        return None;                          // InvalidDigit
      }
      assert digits[..i + 1][..i] == digits[..i];
      if mulOverflows {
        if AllDigits(digits) {
          PrefixBoundsValue(digits, i + 1);
        }
        return None;                          // PosOverflow
      }
      var sum := result * 10 + DigitValue(digits[i]);
      if sum > 255 {
        if AllDigits(digits) {
          PrefixBoundsValue(digits, i + 1);
        }
        return None;                          // PosOverflow
      }
      result := sum;
      i := i + 1;
    }
    assert digits[..i] == digits;
    return Some(result);
  }

  /** A digit string is spelled `+`? then zeros then the shortest spelling of its value. */
  function Spelling(plus: bool, zeros: nat, n: nat): string {
    (if plus then "+" else "") + (Zeros(zeros) + Decimal(n))
  }

  /** A prefix of a digit string never has a larger value than the whole string. */
  lemma {:induction false} PrefixBoundsValue(d: string, j: nat)
    requires AllDigits(d) && j <= |d|
    ensures AllDigits(d[..j]) && Value(d[..j]) <= Value(d)
  {
    if j < |d| {
      var d' := d[..|d| - 1];
      assert d'[..j] == d[..j];
      PrefixBoundsValue(d', j);
    } else {
      assert d[..j] == d;
    }
  }

  lemma {:induction false} ValueOfZeros(k: nat)
    ensures AllDigits(Zeros(k)) && Value(Zeros(k)) == 0
  {
    if k > 0 {
      assert Zeros(k)[..k - 1] == Zeros(k - 1);
      ValueOfZeros(k - 1);
    }
  }

  /** Leading zeros do not change the value of a digit string. */
  lemma {:induction false} ValueLeadingZeros(k: nat, d: string)
    requires AllDigits(d)
    ensures AllDigits(Zeros(k) + d) && Value(Zeros(k) + d) == Value(d)
  {
    var z := Zeros(k) + d;
    if |d| == 0 {
      assert z == Zeros(k);
      ValueOfZeros(k);
    } else {
      assert z[..|z| - 1] == Zeros(k) + d[..|d| - 1];
      ValueLeadingZeros(k, d[..|d| - 1]);
    }
  }

  /** A digit string of value zero is all zeros. */
  lemma {:induction false} ZeroValueIsZeros(d: string)
    requires AllDigits(d) && Value(d) == 0
    ensures d == Zeros(|d|)
  {
    if |d| > 0 {
      var d' := d[..|d| - 1];
      ZeroValueIsZeros(d');
      assert d == d' + [d[|d| - 1]];
    }
  }

  /** Every non-empty digit string is zeros followed by the shortest spelling of its value. */
  lemma {:induction false} CanonicalSplit(d: string)
    requires AllDigits(d) && 0 < |d|
    ensures |Decimal(Value(d))| <= |d|
    ensures d == Zeros(|d| - |Decimal(Value(d))|) + Decimal(Value(d))
  {
    var d' := d[..|d| - 1];
    var c := d[|d| - 1];
    assert d == d' + [c];
    var v := Value(d);
    assert v == Value(d') * 10 + DigitValue(c);
    if Value(d') == 0 {
      ZeroValueIsZeros(d');
      assert DigitChar(DigitValue(c)) == c;
      assert Decimal(v) == [c];
    } else {
      CanonicalSplit(d');
      assert v / 10 == Value(d') && v % 10 == DigitValue(c);
      assert DigitChar(DigitValue(c)) == c;
      assert Decimal(v) == Decimal(Value(d')) + [c];
    }
  }

  /** What `ParseU8` accepts is an optional `+` followed by the digits of the value it returns. */
  lemma ParsedDigits(s: string, n: uint8)
    requires ParseU8(s) == Some(n)
    ensures var digits := if s[0] == '+' then s[1..] else s;
            && 0 < |digits| && AllDigits(digits) && Value(digits) == n
            && s == (if s[0] == '+' then "+" else "") + digits
  {
    if s[0] == '+' {
      assert s == [s[0]] + s[1..];
    }
  }

  /** Whatever `ParseU8` accepts is a spelling of the value it returns. */
  lemma ParsedIsSpelling(s: string, n: uint8)
    requires ParseU8(s) == Some(n)
    ensures exists plus, zeros :: s == Spelling(plus, zeros, n)
  {
    ParsedDigits(s, n);
    var plus := s[0] == '+';
    var digits := if plus then s[1..] else s;
    CanonicalSplit(digits);
    var zeros := |digits| - |Decimal(n)|;
    assert s == Spelling(plus, zeros, n);
  }

  /** Every spelling of a `u8` value is accepted by `ParseU8` with that value. */
  lemma SpellingIsParsed(plus: bool, zeros: nat, n: uint8)
    ensures ParseU8(Spelling(plus, zeros, n)) == Some(n)
  {
    var s := Spelling(plus, zeros, n);
    var digits := Zeros(zeros) + Decimal(n);
    ValueLeadingZeros(zeros, Decimal(n));
    if plus {
      assert s == "+" + digits && s[1..] == digits;
    } else {
      assert s == digits;
    }
  }

  /**
    `ParseU8` accepts exactly the spellings of a `u8` value: an optional `+`,
    any number of leading zeros, and the value's shortest decimal spelling.
   */
  lemma ParseU8Exact(s: string, n: uint8)
    ensures ParseU8(s) == Some(n) <==> exists plus, zeros :: s == Spelling(plus, zeros, n)
  {
    if ParseU8(s) == Some(n) {
      ParsedIsSpelling(s, n);
    }
    forall plus, zeros | s == Spelling(plus, zeros, n)
      ensures ParseU8(s) == Some(n)
    {
      SpellingIsParsed(plus, zeros, n);
    }
  }

  /** The `{}` spelling of every `u8` parses back to it. */
  lemma DecimalRoundTrip(n: uint8)
    ensures ParseU8(Decimal(n)) == Some(n)
  {
  }

  /** The `{:02}` spelling of every `u8` parses back to it. */
  lemma Pad2RoundTrip(n: uint8)
    ensures ParseU8(Pad2(n)) == Some(n)
  {
  }
}
