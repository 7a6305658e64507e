/** Printing integers in decimal and hexadecimal, and reading decimal text back. */
module Text {

  const MIN32: int := -0x8000_0000
  const MAX32: int := 0x7FFF_FFFF
  const NUL: char := 0 as char

  type Int32 = x: int | MIN32 <= x <= MAX32

  /** Two's complement wrap-around to 32 bits. */
  function Wrap32(x: int): Int32 {
    (x - MIN32) % 0x1_0000_0000 + MIN32
  }

  function Negated(x: int): Int32 {
    Wrap32(-x)
  }

  function Magnitude(x: int): nat {
    if x < 0 then -x else x
  }

  // ----- positional notation -----

  function DigitChar(d: nat): char
    requires d < 16
  {
    if d < 10 then '0' + d as char else 'A' + (d - 10) as char
  }

  predicate IsDigit(c: char, base: nat) {
    '0' <= c <= '9' || (base == 16 && 'A' <= c <= 'F')
  }

  function DigitValue(c: char): nat
    requires IsDigit(c, 16)
  {
    if c <= '9' then (c as int) - 48 else (c as int) - 55
  }

  predicate AllDigits(s: string, base: nat) {
    forall i :: 0 <= i < |s| ==> IsDigit(s[i], base)
  }

  /** The digits of n, most significant first; none for zero. */
  function Digits(n: nat, base: nat): string
    requires 2 <= base <= 16
  {
    if n == 0 then "" else Digits(n / base, base) + [DigitChar(n % base)]
  }

  /** The number a digit string denotes. */
  function Value(s: string, base: nat): nat
    requires AllDigits(s, 16)
  {
    if |s| == 0 then 0 else Value(s[..|s| - 1], base) * base + DigitValue(s[|s| - 1])
  }

  function Power(base: nat, k: nat): nat {
    if k == 0 then 1 else base * Power(base, k - 1)
  }

  /** The digit characters, in the order of their values. */
  lemma DigitIs(d: nat)
    requires d < 16
    ensures DigitChar(d) == "0123456789ABCDEF"[d]
    ensures DigitValue("0123456789ABCDEF"[d]) == d
  {}

  lemma DigitRoundTrip(d: nat, base: nat)
    requires d < base && (base == 10 || base == 16)
    ensures IsDigit(DigitChar(d), base) && DigitValue(DigitChar(d)) == d
    ensures DigitChar(d) == '0' <==> d == 0
  {}

  /** The digits of n denote n, in digits of that base only, without a leading zero. */
  lemma {:induction false} DigitsDenote(n: nat, base: nat)
    requires base == 10 || base == 16
    ensures AllDigits(Digits(n, base), base) && Value(Digits(n, base), base) == n
    ensures n > 0 ==> |Digits(n, base)| > 0 && Digits(n, base)[0] != '0'
    decreases n, 1
  {
    if n > 0 {
      DigitsStep(n, base);
      LastDigit(n, n / base, n % base, base);
    }
  }

  lemma {:induction false} DigitsStep(n: nat, base: nat)
    requires n > 0 && (base == 10 || base == 16)
    ensures n / base < n && n / base * base + n % base == n && n % base < base
    ensures Digits(n, base) == Digits(n / base, base) + [DigitChar(n % base)]
  {
    Recompose(n, base);
  }

  lemma {:induction false} LastDigit(n: nat, q: nat, d: nat, base: nat)
    requires n > 0 && (base == 10 || base == 16) && q < n && d < base && q * base + d == n
    requires Digits(n, base) == Digits(q, base) + [DigitChar(d)]
    ensures AllDigits(Digits(n, base), base) && Value(Digits(n, base), base) == n
    ensures |Digits(n, base)| > 0 && Digits(n, base)[0] != '0'
    decreases n, 0
  {
    hide *;
    DigitsDenote(q, base);
    DigitRoundTrip(d, base);
    NoDigits(base);
    assert q == 0 ==> d == n;
    ValueSnoc(Digits(q, base), DigitChar(d), base);
  }

  lemma NoDigits(base: nat)
    requires base == 10 || base == 16
    ensures Digits(0, base) == ""
  {}

  lemma ValueSnoc(s: string, c: char, base: nat)
    requires AllDigits(s, base) && IsDigit(c, base) && (base == 10 || base == 16)
    ensures AllDigits(s + [c], base) && AllDigits(s + [c], 16) && AllDigits(s, 16) && IsDigit(c, 16)
    ensures Value(s + [c], base) == Value(s, base) * base + DigitValue(c)
  {
    var t := s + [c];
    assert t[..|t| - 1] == s;
  }

  lemma Recompose(n: nat, base: nat)
    requires base == 10 || base == 16
    ensures n / base * base + n % base == n && n % base < base
  {}

  lemma {:induction false} DigitCount(n: nat, base: nat, k: nat)
    requires (base == 10 || base == 16) && n < Power(base, k)
    ensures |Digits(n, base)| <= k
  {
    if n > 0 {
      assert k > 0;
      DividedBound(n, base, Power(base, k - 1));
      DigitCount(n / base, base, k - 1);
    }
  }

  lemma DividedBound(n: nat, base: nat, p: nat)
    requires (base == 10 || base == 16) && n < base * p
    ensures n / base < p
  {}

  /** Digit strings without a leading zero are exactly the printed ones. */
  lemma {:induction false} PrintedForm(s: string, base: nat)
    requires (base == 10 || base == 16) && AllDigits(s, base) && (|s| > 0 ==> s[0] != '0')
    ensures AllDigits(s, 16) && Digits(Value(s, base), base) == s
  {
    if |s| > 0 {
      var init, last := s[..|s| - 1], s[|s| - 1];
      PrintedForm(init, base);
      var d := DigitValue(last);
      assert |init| > 0 ==> Value(init, base) > 0;
      assert |init| == 0 ==> last != '0';
      DigitOf(last, base);
      SplitLast(Value(init, base), d, base);
      assert s == init + [last];
    }
  }

  lemma DigitOf(c: char, base: nat)
    requires IsDigit(c, base) && (base == 10 || base == 16)
    ensures DigitValue(c) < base && DigitChar(DigitValue(c)) == c
    ensures c != '0' ==> DigitValue(c) > 0
  {}

  lemma SplitLast(q: nat, d: nat, base: nat)
    requires d < base && (base == 10 || base == 16)
    ensures (q * base + d) / base == q && (q * base + d) % base == d
  {}

  // ----- decimal text -----

  function Decimal(n: nat): string {
    if n == 0 then "0" else Digits(n, 10)
  }

  /** What `to_str` prints; negating the minimum wraps to itself and prints no digit. */
  function ToText(v: Int32): string {
    if v == MIN32 then "-" else if v < 0 then "-" + Decimal(-v) else Decimal(v)
  }

  /** The digit loop of `str_to_int` from accumulator acc. */
  function Parse(s: string, acc: Int32): Int32 {
    if |s| == 0 || !('0' <= s[0] <= '9') then acc
    else Parse(s[1..], Wrap32(acc * 10 + (s[0] as int - 48)))
  }

  function ToInt(s: string): Int32 {
    if |s| > 0 && s[0] == '-' then Negated(Parse(s[1..], 0)) else Parse(s, 0)
  }

  /** While the number fits 32 bits the loop reads a run of digits exactly. */
  lemma {:induction false} ParseAppend(s: string, t: string, acc: Int32)
    requires AllDigits(s, 10)
    ensures Parse(s + t, acc) == Parse(t, Parse(s, acc))
  {
    if |s| == 0 {
      assert s + t == t;
    } else {
      assert (s + t)[1..] == s[1..] + t;
      ParseAppend(s[1..], t, Wrap32(acc * 10 + (s[0] as int - 48)));
    }
  }

  lemma {:induction false} ParseValue(s: string)
    requires AllDigits(s, 10)
    ensures AllDigits(s, 16)
    ensures Value(s, 10) <= MAX32 ==> Parse(s, 0) == Value(s, 10)
  {
    if |s| > 0 {
      var init, last := s[..|s| - 1], s[|s| - 1..];
      ParseValue(init);
      assert s == init + last;
      ParseAppend(init, last, 0);
      OneDigit(last, Parse(init, 0));
    }
  }

  lemma OneDigit(s: string, acc: Int32)
    requires |s| == 1 && AllDigits(s, 10)
    ensures var x := acc * 10 + DigitValue(s[0]);
      0 <= x <= MAX32 ==> Parse(s, acc) == x
  {
    assert Parse(s[1..], Wrap32(acc * 10 + DigitValue(s[0]))) == Wrap32(acc * 10 + DigitValue(s[0]));
  }

  /** Reading a digit run that fits, followed by anything that is not a digit. */
  lemma ParsePrefix(s: string, rest: string)
    requires AllDigits(s, 10) && AllDigits(s, 16) && Value(s, 10) <= MAX32
    requires |rest| > 0 ==> !('0' <= rest[0] <= '9')
    ensures Parse(s + rest, 0) == Value(s, 10)
  {
    ParseAppend(s, rest, 0);
    ParseValue(s);
  }

  lemma DecimalDenotes(n: nat)
    ensures AllDigits(Decimal(n), 10) && AllDigits(Decimal(n), 16) && Value(Decimal(n), 10) == n
    ensures |Decimal(n)| > 0
    ensures n > 0 ==> Decimal(n)[0] != '0'
    ensures n < 10000000000 ==> |Decimal(n)| <= 10
  {
    DigitsDenote(n, 10);
    if n == 0 {
      assert Value("", 10) == 0;
      assert "0"[..0] == "";
    } else if n < 10000000000 {
      TenDigits();
      DigitCount(n, 10, 10);
    }
  }

  lemma TenDigits()
    ensures Power(10, 10) == 10000000000
  {
    assert Power(10, 5) == 100000 by {
      assert Power(10, 3) == 1000;
    }
    assert Power(10, 8) == 100000000;
  }

  lemma NegatedIs(x: Int32)
    ensures Negated(x) == if x == MIN32 then MIN32 else -(x as int)
  {}

  lemma ParseStops(s: string)
    requires |s| > 0 && s[0] == NUL
    ensures Negated(Parse(s, 0)) == 0
  {}

  /** Printing then reading gives the value back exactly when it is not the minimum. */
  lemma RoundTripIff(v: Int32, rest: string)
    ensures ToInt(ToText(v) + [NUL] + rest) == v <==> v != MIN32
  {
    var tail := [NUL] + rest;
    var n := Magnitude(v);
    DecimalDenotes(n);
    hide Decimal, Parse;
    var t := ToText(v) + [NUL] + rest;
    if v == MIN32 {
      ParseStops(tail);
      assert t[1..] == tail;
    } else if v < 0 {
      assert t[1..] == Decimal(n) + tail;
      NegatedIs(n);
      ParsePrefix(Decimal(n), tail);
    } else {
      assert t == Decimal(n) + tail;
      ParsePrefix(Decimal(n), tail);
    }
  }

  /** The printed digits denote the value, after a minus sign when it is negative. */
  lemma TextDenotes(v: Int32)
    requires v != MIN32
    ensures var s := ToText(v); var digits := if v < 0 then s[1..] else s;
      && (v < 0 ==> s[0] == '-')
      && AllDigits(digits, 10) && AllDigits(digits, 16) && |digits| > 0
      && (digits[0] == '0' ==> v == 0)
      && Value(digits, 10) == if v < 0 then -v else v
  {
    DecimalDenotes(Magnitude(v));
    assert v < 0 ==> ToText(v)[1..] == Decimal(-v);
  }

  lemma WrapIs(x: int)
    ensures Wrap32(x) % 0x1_0000_0000 == x % 0x1_0000_0000
    ensures MIN32 <= x <= MAX32 ==> Wrap32(x) == x
  {}

  lemma WrapStep(v: int, x: int, d: int)
    requires v % 0x1_0000_0000 == x % 0x1_0000_0000
    ensures Wrap32(v * 10 + d) == Wrap32(x * 10 + d)
  {
    var k := v / 0x1_0000_0000 - x / 0x1_0000_0000;
    assert v == x + 0x1_0000_0000 * k;
    WrapSame(x * 10 + d, 10 * k);
  }

  lemma WrapSame(x: int, k: int)
    ensures Wrap32(x + 0x1_0000_0000 * k) == Wrap32(x)
  {
    assert (x - MIN32 + 0x1_0000_0000 * k) % 0x1_0000_0000 == (x - MIN32) % 0x1_0000_0000;
  }

  /** A digit run of any length is read as its value modulo 2^32. */
  lemma {:induction false} ParseWraps(s: string)
    requires AllDigits(s, 10)
    ensures AllDigits(s, 16) && Parse(s, 0) == Wrap32(Value(s, 10))
  {
    if |s| > 0 {
      var init, last := s[..|s| - 1], s[|s| - 1..];
      ParseWraps(init);
      assert s == init + last;
      ParseAppend(init, last, 0);
      var v, d := Value(init, 10), DigitValue(s[|s| - 1]);
      assert Parse(last, Parse(init, 0)) == Parse(last[1..], Wrap32(Parse(init, 0) * 10 + d));
      hide Wrap32;
      WrapIs(v);
      WrapStep(Parse(init, 0), v, d);
    }
  }

  /** So signed text, whatever follows its digits, is read as its signed value modulo 2^32. */
  lemma SignedWraps(s: string, rest: string, negative: bool)
    requires AllDigits(s, 10) && AllDigits(s, 16) && (|s| > 0 || negative)
    requires |rest| > 0 ==> !('0' <= rest[0] <= '9')
    ensures ToInt(Sign(negative) + s + rest) == Wrap32(Signed(Value(s, 10), negative))
  {
    DigitsThenRest(s, rest);
    NoSign(s, rest);
    Regroup(Sign(negative), s, rest);
    hide *;
    SignedCase(s + rest, Value(s, 10), negative);
  }

  lemma Regroup(a: string, b: string, c: string)
    ensures a + b + c == a + (b + c)
  {}

  lemma SignedCase(t: string, n: nat, negative: bool)
    requires Parse(t, 0) == Wrap32(n)
    requires negative || (|t| > 0 && t[0] != '-')
    ensures ToInt(Sign(negative) + t) == Wrap32(Signed(n, negative))
  {
    NegatedWraps(n);
    ReadSign(t, negative);
    hide Parse, Wrap32, Negated, ToInt, Sign;
  }

  lemma NoSign(s: string, rest: string)
    requires AllDigits(s, 10)
    ensures |s| > 0 ==> (s + rest)[0] != '-'
  {
    if |s| > 0 {
      assert IsDigit(s[0], 10) && (s + rest)[0] == s[0];
    }
  }

  lemma ReadSign(t: string, negative: bool)
    requires negative || (|t| > 0 && t[0] != '-')
    ensures ToInt(Sign(negative) + t) == if negative then Negated(Parse(t, 0)) else Parse(t, 0)
  {
    hide Parse, Negated;
    var u := Sign(negative) + t;
    assert if negative then u[1..] == t else u == t;
  }

  lemma DigitsThenRest(s: string, rest: string)
    requires AllDigits(s, 10) && AllDigits(s, 16)
    requires |rest| > 0 ==> !('0' <= rest[0] <= '9')
    ensures Parse(s + rest, 0) == Wrap32(Value(s, 10))
  {
    ParseWraps(s);
    ParseAppend(s, rest, 0);
    hide Value, Wrap32;
  }

  lemma NegatedWraps(n: int)
    ensures Negated(Wrap32(n)) == Wrap32(-n)
  {
    var k := (n - Wrap32(n)) / 0x1_0000_0000;
    WrapIs(n);
    assert n == Wrap32(n) + 0x1_0000_0000 * k;
    WrapSame(-n, k);
  }

  /** At most eleven characters before the terminator. */
  lemma TextFits(v: Int32)
    ensures 1 <= |ToText(v)| <= 11
    ensures v != MIN32 ==> forall i :: 0 <= i < |ToText(v)| ==> ToText(v)[i] != NUL
  {
    DecimalDenotes(Magnitude(v));
  }

  /** Reading then printing gives the text back when it is a decimal number in printed form. */
  lemma ReadThenPrint(s: string, negative: bool)
    requires AllDigits(s, 10) && AllDigits(s, 16) && |s| > 0 && s[0] != '0' && Value(s, 10) <= MAX32
    ensures ToText(ToInt(Sign(negative) + s)) == Sign(negative) + s
  {
    PrintedForm(s, 10);
    Positive(s);
    ReadSigned(s, negative);
    hide *;
    PrintSigned(Value(s, 10), negative);
  }

  function Signed(n: nat, negative: bool): int {
    if negative then -(n as int) else n
  }

  function Sign(negative: bool): string {
    if negative then "-" else ""
  }

  lemma ReadSigned(s: string, negative: bool)
    requires AllDigits(s, 10) && AllDigits(s, 16) && |s| > 0 && Value(s, 10) <= MAX32
    ensures ToInt(Sign(negative) + s) == Signed(Value(s, 10), negative)
  {
    ParseValue(s);
    NegatedIs(Value(s, 10));
    assert s[0] != '-' by { assert IsDigit(s[0], 10); }
    hide Parse, Value, Negated, AllDigits;
    var t := Sign(negative) + s;
    assert negative ==> t[1..] == s;
    assert !negative ==> t == s;
  }

  lemma PrintSigned(n: nat, negative: bool)
    requires 0 < n <= MAX32
    ensures ToText(Signed(n, negative)) == Sign(negative) + Digits(n, 10)
  {
    hide Digits;
  }

  lemma Positive(s: string)
    requires AllDigits(s, 10) && AllDigits(s, 16) && |s| > 0 && s[0] != '0'
    ensures Value(s, 10) > 0
  {
    PrintedForm(s, 10);
  }

  // ----- the loops -----

  /** The digits of n, least significant first. */
  function Reversed(s: string): string {
    seq(|s|, i requires 0 <= i < |s| => s[|s| - 1 - i])
  }

  /** What the digit loop writes; nothing for a negative number. */
  function Low(v: int): string {
    if v <= 0 then "" else [DigitChar(v % 10)] + Low(v / 10)
  }

  lemma {:induction false} LowIsReversed(n: nat)
    ensures Low(n) == Reversed(Digits(n, 10))
  {
    if n > 0 {
      LowIsReversed(n / 10);
    }
  }

  /** The characters before the reversal. */
  function Backwards(v: Int32): string {
    var value := if v < 0 then Negated(v) else v;
    (if value == 0 then "0" else Low(value)) + (if v < 0 then "-" else "")
  }

  lemma BackwardsIs(v: Int32)
    ensures Reversed(Backwards(v)) == ToText(v) && |Backwards(v)| == |ToText(v)| <= 11
    ensures |Low(if v < 0 then Negated(v) else v)| <= 10
  {
    var n := Magnitude(v);
    DecimalDenotes(n);
    LowIsReversed(n);
    NegatedIs(v);
    LowOf(MIN32);
    LowOf(0);
    hide Digits, Low, Negated;
    if n == 0 {
      assert Backwards(v) == "0";
    } else {
      assert v == MIN32 ==> Backwards(v) == "-";
    }
  }

  lemma LowOf(v: int)
    ensures v <= 0 ==> Low(v) == ""
    ensures v > 0 ==> Low(v) == ['0' + (v % 10) as char] + Low(v / 10)
  {}

  /** `to_str` for a 32-bit integer: digits backwards, sign, reversal in place, terminator. */
  method ToStr(buffer: array<char>, v: Int32)
    requires buffer.Length >= 12
    modifies buffer
    ensures |ToText(v)| <= 11
    ensures buffer[..] == ToText(v) + [NUL] + old(buffer[|ToText(v)| + 1..])
  {
    BackwardsIs(v);
    hide ToText, Low, Reversed, Negated;
    ghost var was := buffer[..];
    var value: Int32 := v;
    var negative := false;
    if value < 0 {
      value := Negated(value);
      negative := true;
    }
    var i := WriteDigits(buffer, value);
    if negative {
      Put(buffer, i, '-', was);
      i := i + 1;
    }
    assert buffer[..i] == Backwards(v);
    ReverseInPlace(buffer, i);
    Put(buffer, i, NUL, was);
    assert buffer[..] == buffer[..i + 1] + buffer[i + 1..];
  }

  /** Store the character after the first i; the rest stays as it was. */
  method Put(buffer: array<char>, i: nat, c: char, ghost was: string)
    requires i < buffer.Length == |was| && buffer[i..] == was[i..]
    modifies buffer
    ensures buffer[..i + 1] == old(buffer[..i]) + [c] && buffer[i + 1..] == was[i + 1..]
  {
    ghost var rest := buffer[i..][1..];
    assert rest == was[i..][1..] == was[i + 1..];
    assert rest == buffer[i + 1..];
    buffer[i] := c;
  }

  /** The zero case and the digit loop. */
  method WriteDigits(buffer: array<char>, v: Int32) returns (i: nat)
    requires buffer.Length >= 12 && |Low(v)| <= 10
    modifies buffer
    ensures i <= 10 && buffer[..i] == if v == 0 then "0" else Low(v)
    ensures buffer[i..] == old(buffer[i..])
  {
    hide *;
    LowOf(v);
    i := 0;
    ghost var was := buffer[..];
    if v == 0 {
      Put(buffer, 0, '0', was);
      return 1;
    }
    var value: int := v;
    while 0 < value
      invariant i + |Low(value)| == |Low(v)|
      invariant Low(v) == buffer[..i] + Low(value)
      invariant buffer[i..] == was[i..]
    {
      var digit := value % 10;
      LowOf(value);
      Put(buffer, i, '0' + digit as char, was);
      i := i + 1;
      value := value / 10;
    }
    LowOf(value);
  }

  method ReverseInPlace(a: array<char>, n: nat)
    requires n <= a.Length
    modifies a
    ensures a[..n] == Reversed(old(a[..n])) && a[n..] == old(a[n..])
  {
    var j := 0;
    while j < n / 2
      invariant j <= n / 2
      invariant forall k :: 0 <= k < j ==> a[k] == old(a[n - 1 - k]) && a[n - 1 - k] == old(a[k])
      invariant forall k :: j <= k < n - j ==> a[k] == old(a[k])
      invariant forall k :: n <= k < a.Length ==> a[k] == old(a[k])
    {
      var tmp := a[j];
      a[j] := a[n - j - 1];
      a[n - j - 1] := tmp;
      j := j + 1;
    }
  }

  /** `str_to_int` on terminated text. */
  method StrToInt(str: array<char>) returns (r: Int32)
    requires exists k :: 0 <= k < str.Length && str[k] == NUL
    ensures r == ToInt(str[..])
  {
    var k :| 0 <= k < str.Length && str[k] == NUL;
    var result: Int32 := 0;
    var negative := false;
    var i := 0;
    if str[0] == '-' {
      negative := true;
      i := 1;
    }
    ghost var from := i;
    while str[i] != NUL
      invariant from <= i <= k
      invariant Parse(str[i..], result) == Parse(str[from..], 0)
      decreases k - i
    {
      var c := str[i];
      if c < '0' || c > '9' {
        break;
      }
      assert str[i..][1..] == str[i + 1..];
      result := Wrap32(result * 10 + (c as int - 48));
      i := i + 1;
    }
    assert from == 1 ==> str[..][1..] == str[1..];
    assert from == 0 ==> str[0..] == str[..];
    r := if negative then Negated(result) else result;
  }

  // ----- hexadecimal -----

  /** Right shift by j nibbles. */
  function Shift(v: nat, j: nat): nat {
    if j == 0 then v else Shift(v, j - 1) / 16
  }

  lemma {:induction false} ShiftedOut(v: nat, k: nat, j: nat)
    requires j <= k && v < Power(16, k)
    ensures Shift(v, j) < Power(16, k - j)
  {
    if j > 0 {
      ShiftedOut(v, k, j - 1);
      DividedBound(Shift(v, j - 1), 16, Power(16, k - j));
    }
  }

  function ToHex(v: nat): string {
    "0x" + if v == 0 then "0" else Digits(v, 16)
  }

  /** `to_hex_str` for an unsigned type of n nibbles. */
  method ToHexStr(buffer: array<char>, v: nat, n: nat)
    requires v < Power(16, n) && buffer.Length >= n + 3 && n >= 1
    modifies buffer
    ensures |ToHex(v)| <= n + 2
    ensures buffer[..] == ToHex(v) + [NUL] + old(buffer[|ToHex(v)| + 1..])
  {
    ghost var was := buffer[..];
    buffer[0] := '0';
    buffer[1] := 'x';
    var ptr := 2;
    var started := false;
    ShiftedOut(v, n, n);
    DigitCount(v, 16, n);
    var j := n;
    while j > 0
      invariant 0 <= j <= n && 2 <= ptr <= n - j + 2
      invariant started <==> Shift(v, j) != 0
      invariant buffer[..ptr] == "0x" + Digits(Shift(v, j), 16)
      invariant buffer[ptr..] == was[ptr..]
    {
      j := j - 1;
      var nibble := Shift(v, j) % 16;
      assert Shift(v, j + 1) == Shift(v, j) / 16;
      if !started {
        if nibble == 0 {
          continue;
        }
        started := true;
      }
      Put(buffer, ptr, DigitChar(nibble), was);
      ptr := ptr + 1;
    }
    if !started {
      Put(buffer, ptr, '0', was);
      ptr := ptr + 1;
    }
    assert buffer[..ptr] == ToHex(v);
    Put(buffer, ptr, NUL, was);
    assert buffer[..] == buffer[..ptr + 1] + buffer[ptr + 1..];
  }

  /** The printed hexadecimal digits denote the value, without a leading zero. */
  lemma HexDenotes(v: nat)
    ensures var s := ToHex(v);
      && s[..2] == "0x" && |s| > 2 && AllDigits(s[2..], 16) && Value(s[2..], 16) == v
      && (v > 0 ==> s[2] != '0')
  {
    var s := ToHex(v);
    assert s[2..] == if v == 0 then "0" else Digits(v, 16);
    DigitsDenote(v, 16);
    if v == 0 {
      assert s[2..] == "0" && "0"[..0] == "";
    }
  }
}
