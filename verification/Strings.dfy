/**
 C strings, decimal printing and parsing. A C string is a sequence without NUL; reading at its
 length gives the terminator.
 */
module Strings {
  import opened Words

  const INT_MAX: int := 0x7FFF_FFFF
  const NUL: char := '\0'

  type CString = s: string | NUL !in s

  function CharAt(s: CString, i: nat): char
    requires i <= |s|
  {
    if i < |s| then s[i] else NUL
  }

  /** strcmp: 0 exactly for equal strings, otherwise the difference at the first place they differ. */
  method Strcmp(a: CString, b: CString) returns (r: int)
    ensures r == 0 <==> a == b
    ensures r != 0 ==> exists i ::
              && 0 <= i <= |a| && i <= |b| && a[..i] == b[..i]
              && r == CharAt(a, i) as int - CharAt(b, i) as int
  {
    var i: nat := 0;
    while CharAt(a, i) != NUL && CharAt(a, i) == CharAt(b, i)
      invariant i <= |a| && i <= |b| && a[..i] == b[..i]
      decreases |a| - i
    {
      i := i + 1;
    }
    r := CharAt(a, i) as int - CharAt(b, i) as int;
    if r == 0 {
      assert i == |a| && i == |b|;
      assert a[..i] == a && b[..i] == b;
    }
  }

  // ---------------------------------------------------------------- numerals

  function Digit(d: nat): char
    requires d < 10
  {
    ('0' as int + d) as char
  }

  predicate IsDigit(c: char) {
    '0' <= c <= '9'
  }

  function DigitValue(c: char): nat
    requires IsDigit(c)
  {
    c as int - '0' as int
  }

  /** The numeral of `v`, most significant digit first. */
  function Numeral(v: nat, base: nat): (s: string)
    requires 2 <= base <= 10
    ensures |s| >= 1 && NUL !in s
  {
    if v < base then [Digit(v)] else Numeral(v / base, base) + [Digit(v % base)]
  }

  /** The number a run of digits stands for. */
  function ValueOf(s: string, base: nat): nat
    requires forall i :: 0 <= i < |s| ==> IsDigit(s[i])
  {
    if s == [] then 0 else ValueOf(s[..|s| - 1], base) * base + DigitValue(s[|s| - 1])
  }

  /** A numeral is made of digits, starts with 0 only for zero, and stands for its number. */
  lemma {:induction false} NumeralValue(v: nat, base: nat)
    requires 2 <= base <= 10
    ensures var s := Numeral(v, base);
            && (forall i :: 0 <= i < |s| ==> IsDigit(s[i]))
            && ValueOf(s, base) == v
            && (v > 0 ==> s[0] != '0')
    decreases v
  {
    var s := Numeral(v, base);
    if v < base {
      assert s[..0] == [];
    } else {
      Shrinks(v, base);
      NumeralValue(v / base, base);
      assert s[..|s| - 1] == Numeral(v / base, base);
    }
  }

  lemma Shrinks(v: nat, base: nat)
    requires 2 <= base <= 10 && v >= base
    ensures 0 < v / base < v && v == v / base * base + v % base
  {
  }

  function Power(base: nat, n: nat): nat {
    if n == 0 then 1 else base * Power(base, n - 1)
  }

  /** A numeral fits `n` digits exactly when the number is below base^n. */
  lemma {:induction false} NumeralFits(v: nat, base: nat, n: nat)
    requires 2 <= base <= 10 && n >= 1
    ensures |Numeral(v, base)| <= n <==> v < Power(base, n)
    decreases n
  {
    if n == 1 {
      assert Power(base, 1) == base * Power(base, 0) == base;
    } else if v >= base {
      NumeralFits(v / base, base, n - 1);
      Bracket(v, base, Power(base, n - 1));
      assert |Numeral(v, base)| == |Numeral(v / base, base)| + 1;
    } else {
      PowerGrows(base, n);
    }
  }

  lemma Bracket(v: nat, base: nat, p: nat)
    requires base >= 2
    ensures v / base < p <==> v < base * p
  {
    var q := v / base;
    assert q * base <= v < (q + 1) * base;
    if q < p {
      Monotone(q + 1, p, base);
    } else {
      Monotone(p, q, base);
    }
  }

  lemma {:induction false} PowerGrows(base: nat, n: nat)
    requires base >= 2 && n >= 1
    ensures Power(base, n) >= base
  {
    if n > 1 {
      PowerGrows(base, n - 1);
      Monotone(1, Power(base, n - 1), base);
    }
  }

  /** 64-bit numbers: 20 decimal digits, and the 32 bytes of scratch space suffice from base 4 on. */
  lemma ScratchSuffices(v: Word, base: nat)
    requires 4 <= base <= 10
    ensures |Numeral(v, base)| <= 32
    ensures base == 10 ==> |Numeral(v, base)| <= 20
  {
    FourPower();
    PowerMono(4, base, 32);
    NumeralFits(v, base, 32);
    if base == 10 {
      assert Power(10, 5) == 100000;
      PowerAdd(10, 5, 5);
      PowerAdd(10, 10, 10);
      NumeralFits(v, 10, 20);
    }
  }

  lemma FourPower()
    ensures Power(4, 32) == TWO64
  {
    assert Power(4, 4) == 256;
    PowerAdd(4, 4, 4);
    PowerAdd(4, 8, 8);
    PowerAdd(4, 16, 16);
  }

  lemma {:induction false} PowerAdd(base: nat, m: nat, n: nat)
    ensures Power(base, m + n) == Power(base, m) * Power(base, n)
    decreases m
  {
    if m > 0 {
      PowerAdd(base, m - 1, n);
      Associate(base, Power(base, m - 1), Power(base, n));
    }
  }

  lemma Associate(a: nat, b: nat, c: nat)
    ensures a * (b * c) == (a * b) * c
  {
  }

  lemma {:induction false} PowerMono(a: nat, b: nat, n: nat)
    requires a <= b
    ensures Power(a, n) <= Power(b, n)
    decreases n
  {
    if n > 0 {
      PowerMono(a, b, n - 1);
      Monotone(Power(a, n - 1), Power(b, n - 1), a);
      Monotone(a, b, Power(b, n - 1));
    }
  }

  /** Base 3 is too small: a 64-bit number can need 41 digits, nine more than there is room for. */
  lemma BaseThreeOverflows()
    ensures |Numeral(TWO64 - 1, 3)| == 41
  {
    assert Power(3, 5) == 243;
    PowerAdd(3, 5, 5);
    PowerAdd(3, 10, 10);
    PowerAdd(3, 20, 20);
    assert Power(3, 41) == 3 * Power(3, 40);
    NumeralFits(TWO64 - 1, 3, 40);
    NumeralFits(TWO64 - 1, 3, 41);
  }

  lemma LastDigit(v: nat, base: nat)
    requires 2 <= base <= 10 && v > 0
    ensures var s := Numeral(v, base);
            && s[|s| - 1] == Digit(v % base) && v / base < v
            && (if v / base == 0 then |s| == 1 else s[..|s| - 1] == Numeral(v / base, base))
  {
    if v < base {
      QuotRem(v, 0, v, base);
    } else {
      Shrinks(v, base);
      NumeralStep(v, base);
    }
  }

  lemma NumeralStep(v: nat, base: nat)
    requires 2 <= base <= 10 && v >= base
    ensures var s := Numeral(v, base);
            s[..|s| - 1] == Numeral(v / base, base) && s[|s| - 1] == Digit(v % base)
  {
  }

  /** What the first `n` digits of `s` are for once their last one is taken off. */
  lemma PeelDigit(v: nat, base: nat, s: string, n: nat)
    requires 2 <= base <= 10 && v > 0 && n <= |s| && s[..n] == Numeral(v, base)
    ensures n > 0 && s[n - 1] == Digit(v % base) && v / base < v
    ensures s[..n - 1] == if v / base > 0 then Numeral(v / base, base) else []
  {
    hide Numeral, Digit;
    LastDigit(v, base);
    assert s[..n][..n - 1] == s[..n - 1];
  }

  /** The digit loop of itoa: least significant digit first into the scratch array. */
  method DigitsBackwards(value: Word, base: nat) returns (temp: array<char>, length: nat)
    requires 0 < value && 2 <= base <= 10 && |Numeral(value, base)| <= 32
    ensures fresh(temp) && temp.Length == 32 && length == |Numeral(value, base)|
    ensures forall i :: 0 <= i < length ==> temp[i] == Numeral(value, base)[length - 1 - i]
  {
    hide Numeral, Digit;
    temp := new char[32](_ => NUL);
    ghost var s := Numeral(value, base);
    ghost var rest := s;
    length := 0;
    var v: nat := value;
    while v > 0
      invariant rest == if v > 0 then Numeral(v, base) else []
      invariant |rest| + length == |s| && rest == s[..|rest|]
      invariant forall i :: 0 <= i < length ==> temp[i] == s[|s| - 1 - i]
      decreases v
    {
      PeelDigit(v, base, s, |rest|);
      temp[length] := Digit(v % base);
      length := length + 1;
      rest := rest[..|rest| - 1];
      v := v / base;
    }
  }

  /** itoa: the numeral and a terminator at the start of the buffer, nothing else touched. */
  method Itoa(value: Word, buffer: array<char>, base: nat)
    requires 2 <= base <= 10 && |Numeral(value, base)| <= 32 && |Numeral(value, base)| < buffer.Length
    modifies buffer
    ensures var s := Numeral(value, base);
            buffer[..] == s + [NUL] + old(buffer[..])[|s| + 1..]
  {
    if value == 0 {
      buffer[0] := '0';
      buffer[1] := NUL;
      return;
    }
    var temp, length := DigitsBackwards(value, base);
    ghost var s := Numeral(value, base);
    for i := 0 to length
      invariant forall j :: 0 <= j < i ==> buffer[j] == s[j]
      invariant forall j :: i <= j < buffer.Length ==> buffer[j] == old(buffer[j])
      invariant forall j :: 0 <= j < length ==> temp[j] == s[length - 1 - j]
    {
      buffer[i] := temp[length - 1 - i];
    }
    buffer[length] := NUL;
  }

  // ---------------------------------------------------------------- parsing

  predicate IsSpace(c: char) {
    c == ' ' || c == '\t' || c == '\n' || c == '\r'
  }

  function SkipSpaces(s: string): string {
    if s != [] && IsSpace(s[0]) then SkipSpaces(s[1..]) else s
  }

  function LeadingDigits(s: string): (d: string)
    ensures forall i :: 0 <= i < |d| ==> IsDigit(d[i])
  {
    if s != [] && IsDigit(s[0]) then [s[0]] + LeadingDigits(s[1..]) else []
  }

  /** What follows the spaces and one optional sign. */
  function AfterSign(s: string): string {
    var t := SkipSpaces(s);
    if t != [] && (t[0] == '-' || t[0] == '+') then t[1..] else t
  }

  predicate Negative(s: string) {
    var t := SkipSpaces(s);
    t != [] && t[0] == '-'
  }

  function ParsedDigits(s: string): string {
    LeadingDigits(AfterSign(s))
  }

  function Parsed(s: string): int {
    var n: int := ValueOf(ParsedDigits(s), 10);
    if Negative(s) then -n else n
  }

  /** What the accumulator holds after the digits `ds`, starting from `acc`. */
  function Accumulated(acc: nat, ds: string): nat
    requires forall i :: 0 <= i < |ds| ==> IsDigit(ds[i])
    decreases |ds|
  {
    if ds == [] then acc else Accumulated(acc * 10 + DigitValue(ds[0]), ds[1..])
  }

  lemma {:induction false} AccumulatedGrows(acc: nat, ds: string)
    requires forall i :: 0 <= i < |ds| ==> IsDigit(ds[i])
    ensures acc <= Accumulated(acc, ds)
    decreases |ds|
  {
    if ds != [] {
      AccumulatedGrows(acc * 10 + DigitValue(ds[0]), ds[1..]);
    }
  }

  lemma {:induction false} AccumulatedLast(acc: nat, ds: string)
    requires ds != [] && forall i :: 0 <= i < |ds| ==> IsDigit(ds[i])
    ensures var n := |ds| - 1; Accumulated(acc, ds) == Accumulated(acc, ds[..n]) * 10 + DigitValue(ds[n])
    decreases |ds|
  {
    var n := |ds| - 1;
    if n == 0 {
      assert ds[..n] == [] && ds[1..] == [];
    } else {
      AccumulatedLast(acc * 10 + DigitValue(ds[0]), ds[1..]);
      assert ds[1..][..n - 1] == ds[..n][1..];
    }
  }

  lemma {:induction false} AccumulatedIsValue(ds: string)
    requires forall i :: 0 <= i < |ds| ==> IsDigit(ds[i])
    ensures Accumulated(0, ds) == ValueOf(ds, 10)
    decreases |ds|
  {
    if ds != [] {
      AccumulatedLast(0, ds);
      AccumulatedIsValue(ds[..|ds| - 1]);
    }
  }

  method SkipTo(s: CString) returns (i: nat)
    ensures i <= |s| && s[i..] == SkipSpaces(s)
  {
    i := 0;
    while IsSpace(CharAt(s, i))
      invariant i <= |s| && SkipSpaces(s[i..]) == SkipSpaces(s)
      decreases |s| - i
    {
      i := i + 1;
    }
  }

  /** The digit loop; its accumulator never leaves the range of an int on the way. */
  method Accumulate(s: CString, first: nat) returns (num: int)
    requires first <= |s| && ValueOf(LeadingDigits(s[first..]), 10) <= INT_MAX
    ensures num == ValueOf(LeadingDigits(s[first..]), 10)
  {
    ghost var total := ValueOf(LeadingDigits(s[first..]), 10);
    AccumulatedIsValue(LeadingDigits(s[first..]));
    var i := first;
    num := 0;
    while '0' <= CharAt(s, i) <= '9'
      invariant first <= i <= |s|
      invariant 0 <= num <= INT_MAX && Accumulated(num, LeadingDigits(s[i..])) == total
      decreases |s| - i
    {
      assert s[i..][1..] == s[i + 1..];
      num := num * 10 + DigitValue(CharAt(s, i));
      i := i + 1;
      AccumulatedGrows(num, LeadingDigits(s[i..]));
    }
  }

  /** atoi on a string whose number fits an int. */
  method Atoi(s: CString) returns (r: int)
    requires ValueOf(ParsedDigits(s), 10) <= INT_MAX
    ensures r == Parsed(s)
  {
    var i := SkipTo(s);
    var sign := 1;
    if CharAt(s, i) == '-' {
      sign := -1;
      i := i + 1;
    } else if CharAt(s, i) == '+' {
      i := i + 1;
    }
    assert AfterSign(s) == s[i..];
    var num := Accumulate(s, i);
    r := num * sign;
  }

  lemma {:induction false} AllDigits(s: string)
    requires forall i :: 0 <= i < |s| ==> IsDigit(s[i])
    ensures LeadingDigits(s) == s
  {
    if s != [] {
      AllDigits(s[1..]);
    }
  }

  /** Printing in decimal and parsing again gives the number back, and parsing it stays inside an int. */
  lemma DecimalRoundTrip(v: nat)
    ensures ParsedDigits(Numeral(v, 10)) == Numeral(v, 10)
    ensures Parsed(Numeral(v, 10)) == v
    ensures v <= INT_MAX ==> ValueOf(ParsedDigits(Numeral(v, 10)), 10) <= INT_MAX
  {
    var s := Numeral(v, 10);
    NumeralValue(v, 10);
    assert IsDigit(s[0]);
    AllDigits(s);
  }

  lemma {:induction false} SpacesSkipped(ws: string, s: string)
    requires (forall i :: 0 <= i < |ws| ==> IsSpace(ws[i])) && s != "" && !IsSpace(s[0])
    ensures SkipSpaces(ws + s) == s
  {
    if ws == "" {
      assert ws + s == s;
    } else {
      assert (ws + s)[1..] == ws[1..] + s;
      SpacesSkipped(ws[1..], s);
    }
  }

  lemma {:induction false} DigitsThenOther(ds: string, rest: string)
    requires (forall i :: 0 <= i < |ds| ==> IsDigit(ds[i])) && (rest == "" || !IsDigit(rest[0]))
    ensures LeadingDigits(ds + rest) == ds
  {
    if ds == "" {
      assert ds + rest == rest;
    } else {
      assert (ds + rest)[1..] == ds[1..] + rest;
      DigitsThenOther(ds[1..], rest);
    }
  }

  lemma SignSkipped(ws: string, sign: string, number: string)
    requires (forall i :: 0 <= i < |ws| ==> IsSpace(ws[i])) && sign in {"", "+", "-"}
    requires number != "" && IsDigit(number[0])
    ensures AfterSign(ws + (sign + number)) == number && (Negative(ws + (sign + number)) <==> sign == "-")
  {
    SpacesSkipped(ws, sign + number);
    if sign == "" {
      assert sign + number == number;
    } else {
      assert (sign + number)[1..] == number;
    }
  }

  /** White space, a sign and whatever follows the digits: atoi reads the signed number. */
  lemma SignedRoundTrip(ws: string, sign: string, v: nat, rest: string)
    requires (forall i :: 0 <= i < |ws| ==> IsSpace(ws[i])) && sign in {"", "+", "-"}
    requires rest == "" || !IsDigit(rest[0])
    ensures Parsed(ws + (sign + (Numeral(v, 10) + rest))) == (if sign == "-" then -1 else 1) * v
  {
    hide Numeral, AfterSign, Negative, LeadingDigits, ValueOf;
    NumeralValue(v, 10);
    SignSkipped(ws, sign, Numeral(v, 10) + rest);
    DigitsThenOther(Numeral(v, 10), rest);
  }

  /** White space is blank, tab, line feed and carriage return; without a digit behind it and the sign the value is 0. */
  lemma NoNumber(ws: string, sign: string, rest: string)
    requires (forall i :: 0 <= i < |ws| ==> ws[i] in {' ', '\t', '\n', '\r'}) && sign in {"+", "-"}
    requires rest == "" || !('0' <= rest[0] <= '9')
    ensures Parsed(ws + (sign + rest)) == 0
    ensures rest != "" && rest[0] !in {' ', '\t', '\n', '\r', '-', '+'} ==> Parsed(ws + rest) == 0
  {
    SpacesSkipped(ws, sign + rest);
    assert (sign + rest)[1..] == rest;
    if rest != "" && !IsSpace(rest[0]) { SpacesSkipped(ws, rest); }
  }
}
