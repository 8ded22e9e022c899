/** `int_to_string` and `atoi` of std/stdlib.c, in 32-bit wrap-around arithmetic.
    Characters are C chars, that is, small signed codes. */
module IntText {

  const MIN: int := -0x8000_0000
  const MAX: int := 0x7FFF_FFFF
  const ZERO: int := 48
  const MINUS: int := 45

  type Int32 = n: int | -0x8000_0000 <= n <= 0x7FFF_FFFF
  type Char = c: int | -128 <= c < 128

  function Wrap(n: int): Int32 { (n + 0x8000_0000) % 0x1_0000_0000 - 0x8000_0000 }

  /** C's remainder and quotient by ten truncate toward zero. */
  function Rem10(n: int): int { if n >= 0 then n % 10 else -(-n % 10) }
  function Div10(n: int): int { if n >= 0 then n / 10 else -(-n / 10) }

  // ---- Text -------------------------------------------------------------

  /** Decimal digits, most significant first. */
  function Digits(n: nat): (s: seq<Char>)
    ensures s != []
  {
    if n < 10 then [ZERO + n] else Digits(n / 10) + [ZERO + n % 10]
  }

  function Reverse(s: seq<Char>): (r: seq<Char>)
    ensures |r| == |s| && forall i :: 0 <= i < |s| ==> r[i] == s[|s| - 1 - i]
  {
    if s == [] then [] else Reverse(s[1..]) + [s[0]]
  }

  /** What is printed. The negation of the minimum wraps to itself, so its one
      "digit" is -8 and comes out as '('. */
  function Text(n: Int32): seq<Char> {
    if n == MIN then [MINUS, ZERO - 8] else if n < 0 then [MINUS] + Digits(-n) else Digits(n)
  }

  function Pow10(k: nat): nat { if k == 0 then 1 else 10 * Pow10(k - 1) }

  lemma {:induction false} DigitCount(n: nat, k: nat)
    requires k > 0 && n < Pow10(k)
    ensures |Digits(n)| <= k
  {
    if n >= 10 {
      DigitCount(n / 10, k - 1);
    }
  }

  /** The text and its terminator fit in twelve characters. */
  lemma TextFits(n: Int32)
    ensures |Text(n)| + 1 <= 12
  {
    assert Pow10(5) == 100000;
    assert Pow10(10) == 100000 * Pow10(5);
    DigitCount(if n == MIN then 0 else if n < 0 then -n else n, 10);
  }

  lemma {:induction false} ReverseAppend(s: seq<Char>, c: Char)
    ensures Reverse(s + [c]) == [c] + Reverse(s)
  {
    if s != [] {
      ReverseAppend(s[1..], c);
      assert (s + [c])[1..] == s[1..] + [c];
    }
  }

  lemma ReverseTwice(s: seq<Char>)
    ensures Reverse(Reverse(s)) == s
  {
  }

  // ---- Decimal numerals -------------------------------------------------

  /** The value of a text read in base ten, without any bound. */
  function Value(s: seq<Char>, result: int): int {
    if s == [] then result else Value(s[1..], result * 10 + s[0] - ZERO)
  }

  lemma {:induction false} ValueAppend(s: seq<Char>, c: Char, result: int)
    ensures Value(s + [c], result) == Value(s, result) * 10 + c - ZERO
  {
    if s == [] {
      assert [c][1..] == [];
    } else {
      ValueAppend(s[1..], c, result * 10 + s[0] - ZERO);
      assert (s + [c])[1..] == s[1..] + [c];
    }
  }

  /** The characters '0' to '9', and no leading '0' but in "0" itself. */
  ghost predicate Numeral(s: seq<Char>) {
    s != [] && (forall k :: 0 <= k < |s| ==> 48 <= s[k] <= 57) && (|s| > 1 ==> s[0] != 48)
  }

  /** s is how n is written in decimal, with a '-' for a negative number. */
  ghost predicate Decimal(s: seq<Char>, n: int) {
    if n < 0 then s != [] && s[0] == 45 && Numeral(s[1..]) && Value(s[1..], 0) == -n
    else Numeral(s) && Value(s, 0) == n
  }

  /** The digits of n are a numeral of value n. */
  lemma {:induction false} DigitsNumeral(n: nat)
    ensures Numeral(Digits(n)) && Value(Digits(n), 0) == n && (n > 0 ==> Digits(n)[0] != 48)
  {
    if n < 10 {
      assert Digits(n)[1..] == [];
    } else {
      DigitsNumeral(n / 10);
      ValueAppend(Digits(n / 10), ZERO + n % 10, 0);
    }
  }

  /** A numeral is its digits' last one after the numeral of a tenth of its value,
      so its value gives it back. */
  lemma {:induction false} NumeralIsDigits(s: seq<Char>)
    requires Numeral(s)
    ensures Value(s, 0) >= 0 && s == Digits(Value(s, 0)) && (s[0] != 48 ==> Value(s, 0) > 0)
  {
    var init, last := s[..|s| - 1], s[|s| - 1];
    assert s == init + [last];
    ValueAppend(init, last, 0);
    if |s| > 1 {
      assert init[0] == s[0];
      NumeralIsDigits(init);
    }
  }

  /** There is one way to write a number in decimal. */
  lemma DecimalUnique(s: seq<Char>, t: seq<Char>, n: int)
    requires Decimal(s, n) && Decimal(t, n)
    ensures s == t
  {
    if n < 0 {
      NumeralIsDigits(s[1..]);
      NumeralIsDigits(t[1..]);
      assert s == [s[0]] + s[1..] && t == [t[0]] + t[1..];
    } else {
      NumeralIsDigits(s);
      NumeralIsDigits(t);
    }
  }

  /** What is printed is the number in decimal, except for the minimum, whose
      text is no number at all. */
  lemma TextIsDecimal(n: Int32)
    ensures Decimal(Text(n), n) <==> n != MIN
    ensures Text(MIN) == [45, 40]
  {
    if n == MIN {
      assert Text(n)[1..] == [40];
    } else if n < 0 {
      DigitsNumeral(-n);
      assert Text(n)[1..] == Digits(-n);
    } else {
      DigitsNumeral(n);
    }
  }

  // ---- Printing ---------------------------------------------------------

  /** What the digit loop writes: the last digit first, and at least one. */
  function Raw(n: Int32): (s: seq<Char>)
    decreases if n > 0 then n else 0
  {
    [ZERO + Rem10(n)] + if Div10(n) > 0 then Raw(Div10(n)) else []
  }

  lemma {:induction false} RawIsDigits(n: Int32)
    requires n >= 0
    ensures Raw(n) == Reverse(Digits(n))
    decreases n
  {
    if n >= 10 {
      RawIsDigits(n / 10);
      ReverseAppend(Digits(n / 10), ZERO + n % 10);
    } else {
      assert Digits(n)[1..] == [];
    }
  }

  lemma RawLength(n: Int32)
    requires n >= 0 || n == MIN
    ensures |Raw(n)| <= 10
  {
    if n >= 0 {
      RawIsDigits(n);
      assert Pow10(5) == 100000;
      assert Pow10(10) == 100000 * Pow10(5);
      DigitCount(n, 10);
    }
  }

  /** The do-while loop over the digits. */
  method FillDigits(num: Int32, str: array<Char>) returns (i: nat)
    requires str.Length >= 12 && (num >= 0 || num == MIN)
    modifies str
    ensures i == |Raw(num)| <= 10 && str[..i] == Raw(num)
    ensures forall k :: i <= k < str.Length ==> str[k] == old(str[k])
  {
    RawLength(num);
    var n: Int32, more := num, true;
    i := 0;
    while more
      invariant i <= |Raw(num)| && forall k :: i <= k < str.Length ==> str[k] == old(str[k])
      invariant more ==> str[..i] + Raw(n) == Raw(num)
      invariant !more ==> str[..i] == Raw(num)
      invariant more ==> n > 0 || i == 0
      decreases more, if n > 0 then n else 0
    {
      ghost var before := str[..i];
      OneDigit(before, n, Raw(num));
      str[i] := Rem10(n) + ZERO;
      i := i + 1;
      assert str[..i] == before + [ZERO + Rem10(n)];
      n := Div10(n);
      more := n > 0;
    }
  }

  /** One turn of the loop moves one digit from what is left to what is done. */
  lemma OneDigit(before: seq<Char>, n: Int32, all: seq<Char>)
    requires before + Raw(n) == all
    ensures |before| < |all|
    ensures var done := before + [ZERO + Rem10(n)];
            if Div10(n) > 0 then done + Raw(Div10(n)) == all else done == all
  {
  }

  /** The in-place reversal of the first n characters. */
  method ReverseInPlace(str: array<Char>, n: nat)
    requires n <= str.Length
    modifies str
    ensures str[..n] == Reverse(old(str[..n]))
    ensures forall k :: n <= k < str.Length ==> str[k] == old(str[k])
  {
    for j := 0 to n / 2
      invariant forall k :: 0 <= k < j ==> str[k] == old(str[n - 1 - k]) && str[n - 1 - k] == old(str[k])
      invariant forall k :: j <= k < n - j ==> str[k] == old(str[k])
      invariant forall k :: n <= k < str.Length ==> str[k] == old(str[k])
    {
      var temp := str[j];
      str[j] := str[n - j - 1];
      str[n - j - 1] := temp;
    }
  }

  /** `int_to_string`. */
  method IntToString(num: Int32, str: array<Char>)
    requires str.Length >= 12
    modifies str
    ensures |Text(num)| < 12 && str[..|Text(num)|] == Text(num) && str[|Text(num)|] == 0
    ensures if num == MIN then Text(num) == [45, 40] else Decimal(Text(num), num)
    ensures forall k :: |Text(num)| < k < str.Length ==> str[k] == old(str[k])
  {
    var n: Int32, negative := num, false;
    if num < 0 {
      negative := true;
      n := Wrap(-(num as int));
    }
    Negated(num);
    TextIsDecimal(num);
    var i := FillSigned(n, negative, str);
    PrintedText(num, n, negative);
    ReverseInPlace(str, i);
  }

  /** The digits, the sign after them, and the terminator. */
  method FillSigned(n: Int32, negative: bool, str: array<Char>) returns (i: nat)
    requires str.Length >= 12 && (n >= 0 || n == MIN)
    modifies str
    ensures i < 12 && str[..i] == Raw(n) + (if negative then [MINUS] else []) && str[i] == 0
    ensures forall k :: i < k < str.Length ==> str[k] == old(str[k])
  {
    i := FillDigits(n, str);
    if negative {
      str[i] := MINUS;
      i := i + 1;
    }
    assert str[..i] == Raw(n) + if negative then [MINUS] else [];
    str[i] := 0;
    assert str[..i] == Raw(n) + if negative then [MINUS] else [];
  }

  /** Reversed, the loop's output and the sign are the text. */
  lemma PrintedText(num: Int32, n: Int32, negative: bool)
    requires n == (if num < 0 then Wrap(-(num as int)) else num) && negative == (num < 0)
    ensures Reverse(Raw(n) + if negative then [MINUS] else []) == Text(num)
    ensures |Text(num)| == |Raw(n)| + if negative then 1 else 0
  {
    Negated(num);
    UnsignedText(n);
    var raw, text := Raw(n), Text(num);
    if negative {
      ReverseAppend(raw, MINUS);
      assert text == [MINUS] + Reverse(raw);
    } else {
      assert raw + [] == raw;
    }
  }

  /** Negation is exact except on the minimum, which it leaves as it is. */
  lemma Negated(num: Int32)
    ensures Wrap(-(num as int)) == if num == MIN then MIN else -num
  {
  }

  lemma UnsignedText(n: Int32)
    requires n >= 0 || n == MIN
    ensures Reverse(Raw(n)) == if n == MIN then [ZERO - 8] else Digits(n)
  {
    if n != MIN {
      RawIsDigits(n);
      ReverseTwice(Digits(n));
    } else {
      assert Raw(MIN) == [ZERO - 8];
    }
  }

  // ---- Parsing ----------------------------------------------------------

  /** result * 10 + c - '0', each operation wrapping. */
  function Digit(result: Int32, c: Char): Int32 { Wrap(Wrap(Wrap(result * 10) + c) - ZERO) }

  function Accumulate(s: seq<Char>, result: Int32): Int32 {
    if s == [] then result else Accumulate(s[1..], Digit(result, s[0]))
  }

  /** The value `atoi` gives to a text. */
  function Parse(s: seq<Char>): Int32 {
    if s != [] && s[0] == MINUS then Wrap(-(Accumulate(s[1..], 0) as int)) else Accumulate(s, 0)
  }

  /** Wrapping at every step is wrapping the value once. */
  lemma {:induction false} AccumulateWraps(s: seq<Char>, x: int)
    ensures Accumulate(s, Wrap(x)) == Wrap(Value(s, x))
  {
    if s != [] {
      WrapDigit(x, s[0]);
      AccumulateWraps(s[1..], x * 10 + s[0] - ZERO);
    }
  }

  /** Multiples of 2^32 are lost in wrapping. */
  lemma WrapShift(x: int, y: int, k: int)
    requires x - y == k * 0x1_0000_0000
    ensures Wrap(x) == Wrap(y)
  {
  }

  /** A wrapped number differs by such a multiple. */
  lemma WrapOffset(x: int) returns (k: int)
    ensures Wrap(x) - x == k * 0x1_0000_0000
  {
    k := -((x + 0x8000_0000) / 0x1_0000_0000);
  }

  lemma WrapPlus(x: int, d: int)
    ensures Wrap(Wrap(x) + d) == Wrap(x + d)
  {
    var k := WrapOffset(x);
    WrapShift(Wrap(x) + d, x + d, k);
  }

  lemma WrapTimes(x: int)
    ensures Wrap(Wrap(x) * 10) == Wrap(x * 10)
  {
    var k := WrapOffset(x);
    WrapShift(Wrap(x) * 10, x * 10, 10 * k);
  }

  lemma WrapDigit(x: int, c: Char)
    ensures Digit(Wrap(x), c) == Wrap(x * 10 + c - ZERO)
  {
    WrapTimes(x);
    WrapPlus(x * 10, c);
    WrapPlus(x * 10 + c, -ZERO);
  }

  /** Any text, digits or not, parses to its value in base ten modulo 2^32, negated
      behind a '-'. */
  lemma ParseIsValue(s: seq<Char>)
    ensures Parse(s) == Wrap(if s != [] && s[0] == 45 then -Value(s[1..], 0) else Value(s, 0))
  {
    assert Wrap(0) == 0;
    if s != [] && s[0] == 45 {
      AccumulateWraps(s[1..], 0);
      WrapNegated(Value(s[1..], 0));
    } else {
      AccumulateWraps(s, 0);
    }
  }

  lemma WrapNegated(x: int)
    ensures Wrap(-(Wrap(x) as int)) == Wrap(-x)
  {
  }

  /** `atoi` on a terminated string. */
  method Atoi(str: array<Char>, ghost n: nat) returns (value: Int32)
    requires n < str.Length && str[n] == 0 && forall k :: 0 <= k < n ==> str[k] != 0
    ensures value == Parse(str[..n])
    ensures value == Wrap(if str[0] == 45 then -Value(str[1..n], 0) else Value(str[..n], 0))
  {
    ParseIsValue(str[..n]);
    var result: Int32, i, negative := 0, 0, false;
    if str[0] == MINUS {
      negative := true;
      i := i + 1;
    }
    ghost var first := i;
    assert str[first..n] == str[..n][first..];
    while str[i] != 0
      invariant first <= i <= n && Accumulate(str[i..n], result) == Accumulate(str[first..n], 0)
      decreases n - i
    {
      assert str[i..n][1..] == str[i + 1..n];
      result := Wrap(Wrap(Wrap(result * 10) + str[i]) - ZERO);
      i := i + 1;
    }
    value := if negative then Wrap(-(result as int)) else result;
  }

  // ---- Round trip -------------------------------------------------------

  /** `atoi` undoes `int_to_string` for every int except the minimum, which
      prints as "-(" and reads back as 8. */
  lemma RoundTrip(n: Int32)
    ensures Parse(Text(n)) == n <==> n != MIN
    ensures n == MIN ==> Parse(Text(n)) == 8
  {
    ParseIsValue(Text(n));
    if n == MIN {
      assert Text(n)[1..] == [40] && [40][1..] == [];
    } else {
      TextIsDecimal(n);
      WrapSmall(n);
    }
  }

  lemma WrapSmall(n: Int32)
    ensures Wrap(n) == n
  {
  }

  /** The text holds no terminator of its own. */
  lemma TextUnterminated(n: Int32)
    ensures forall k :: 0 <= k < |Text(n)| ==> Text(n)[k] != 0
  {
    if n != MIN {
      DigitsNumeral(if n < 0 then -n else n);
    }
  }

  /** Printing into a buffer and reading the buffer back. */
  method PrintThenParse(num: Int32, str: array<Char>) returns (value: Int32)
    requires str.Length >= 12
    modifies str
    ensures value == if num == MIN then 8 else num
  {
    IntToString(num, str);
    TextUnterminated(num);
    RoundTrip(num);
    ghost var text := Text(num);
    assert forall k :: 0 <= k < |text| ==> str[k] == text[k];
    value := Atoi(str, |text|);
  }

  /** Every intermediate value of the accumulation fits 32 signed bits. */
  predicate NoOverflow(s: seq<Char>, result: int) {
    s == [] || (MIN <= result * 10 <= MAX && MIN <= result * 10 + s[0] <= MAX && MIN <= result * 10 + s[0] - ZERO <= MAX
                && NoOverflow(s[1..], result * 10 + s[0] - ZERO))
  }

  lemma {:induction false} OverflowAppend(s: seq<Char>, c: Char, result: int)
    ensures NoOverflow(s + [c], result) <==> NoOverflow(s, result) && NoOverflow([c], Value(s, result))
  {
    if s == [] {
      assert [c][1..] == [];
    } else {
      OverflowAppend(s[1..], c, result * 10 + s[0] - ZERO);
      assert (s + [c])[1..] == s[1..] + [c];
    }
  }

  lemma {:induction false} DigitsOverflow(n: nat)
    requires n <= MAX
    ensures NoOverflow(Digits(n), 0) <==> n <= 2147483599
  {
    if n < 10 {
      assert Digits(n)[1..] == [];
    } else {
      DigitsOverflow(n / 10);
      DigitsNumeral(n / 10);
      OverflowAppend(Digits(n / 10), ZERO + n % 10, 0);
      assert [(ZERO + n % 10) as Char][1..] == [];
    }
  }

  /** All intermediates of `atoi` on a printed number stay in range exactly when
      its magnitude is at most 2147483599 or it is the minimum, whose text has but
      one "digit". */
  lemma ParseOverflow(n: Int32)
    ensures NoOverflow(if n < 0 then Text(n)[1..] else Text(n), 0) <==> n == MIN || -2147483599 <= n <= 2147483599
  {
    if n == MIN {
      assert Text(n)[1..] == [ZERO - 8] && [ZERO - 8][1..] == [];
    } else {
      if n < 0 {
        assert Text(n)[1..] == Digits(-n);
      }
      DigitsOverflow(if n < 0 then -n else n);
    }
  }
}
