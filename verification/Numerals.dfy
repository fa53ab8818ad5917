/** `hex2str` and `dec2str` of sys/kernel/core/printk.c:36-123. */
module Numerals {
  import opened Bits

  const DIGITS: string := "0123456789ABCDEF"

  predicate IsBase(base: nat)
  {
    base == 10 || base == 16
  }

  /** Positional notation, most significant digit first, without leading zeros. */
  function Numeral(n: nat, base: nat): (s: string)
    requires IsBase(base)
    ensures |s| >= 1
  {
    if n < base then [DIGITS[n]] else Numeral(n / base, base) + [DIGITS[n % base]]
  }

  /** What `%x` prints: at least two digits. */
  function HexString(n: nat): string
  {
    "0x" + (if n < 0x10 then "0" else "") + Numeral(n, 16)
  }

  /** What `%d` prints; the argument is unsigned, so there is no sign. */
  function DecString(n: nat): string
  {
    Numeral(n, 10)
  }

  // ----- reading numerals back -----

  predicate IsDigit(c: char, base: nat)
  {
    exists d :: 0 <= d < base && d < 16 && DIGITS[d] == c
  }

  function DigitOf(c: char): nat
  {
    if '0' <= c <= '9' then c as nat - '0' as nat
    else if 'A' <= c <= 'F' then c as nat - 'A' as nat + 10
    else 0
  }

  function Parse(s: string, base: nat): nat
  {
    if s == [] then 0 else base * Parse(s[..|s| - 1], base) + DigitOf(s[|s| - 1])
  }

  /** A numeral: digits only, and no leading zero unless it is the only digit. */
  ghost predicate IsNumeral(s: string, base: nat)
  {
    && |s| >= 1
    && (forall k :: 0 <= k < |s| ==> IsDigit(s[k], base))
    && (|s| > 1 ==> s[0] != '0')
  }

  lemma DigitRoundTrip(d: nat)
    requires d < 16
    ensures DigitOf(DIGITS[d]) == d && (DIGITS[d] == '0' <==> d == 0)
  {}

  lemma IsDigitOf(c: char, base: nat)
    requires IsBase(base) && IsDigit(c, base)
    ensures DigitOf(c) < base && DIGITS[DigitOf(c)] == c
  {
    var d :| 0 <= d < base && d < 16 && DIGITS[d] == c;
    DigitRoundTrip(d);
  }

  lemma DivMod(p: nat, d: nat, base: nat)
    requires IsBase(base) && d < base
    ensures (base * p + d) / base == p && (base * p + d) % base == d
  {
    if base == 10 { assert (10 * p + d) / 10 == p; } else { assert (16 * p + d) / 16 == p; }
  }

  lemma DivBack(n: nat, base: nat)
    requires IsBase(base)
    ensures base * (n / base) + n % base == n && n % base < base && (n < base ==> n % base == n)
    ensures n >= base ==> 0 < n / base < n
  {
    if base == 10 {} else {}
  }

  lemma ParseLast(s: string, c: char, base: nat)
    ensures Parse(s + [c], base) == base * Parse(s, base) + DigitOf(c)
  {
    assert (s + [c])[..|s|] == s;
  }

  /** Printing and reading back gives the number, and what is printed is a numeral. */
  lemma {:induction false} ParseNumeral(n: nat, base: nat)
    requires IsBase(base)
    ensures Parse(Numeral(n, base), base) == n && IsNumeral(Numeral(n, base), base)
    ensures Numeral(n, base)[0] == '0' <==> n == 0
  {
    hide Parse, DigitOf;
    DivBack(n, base);
    var c := DIGITS[n % base];
    DigitRoundTrip(n % base);
    assert IsDigit(c, base);
    if n < base {
      ParseLast([], c, base);
      assert [] + [c] == [c];
      ParseEmpty(base);
    } else {
      ParseNumeral(n / base, base);
      ParseLast(Numeral(n / base, base), c, base);
    }
  }

  lemma ParseEmpty(base: nat)
    ensures base * Parse([], base) == 0
  {}

  /** Reading and printing again gives the numeral: there is only one for each number. */
  lemma {:induction false} NumeralParse(s: string, base: nat)
    requires IsBase(base) && IsNumeral(s, base)
    ensures Numeral(Parse(s, base), base) == s
    ensures Parse(s, base) == 0 ==> s == "0"
  {
    hide Parse, Numeral;
    var (rest, c) := (s[..|s| - 1], s[|s| - 1]);
    assert s == rest + [c];
    IsDigitOf(c, base);
    hide DigitOf;
    ParseLast(rest, c, base);
    if rest == [] {
      ParseEmpty(base);
      OneDigit(DigitOf(c), base);
    } else {
      assert forall k :: 0 <= k < |rest| ==> rest[k] == s[k];
      NumeralParse(rest, base);
      PositiveLead(rest, base);
      NumeralStep(Parse(rest, base), DigitOf(c), base);
    }
  }

  lemma OneDigit(d: nat, base: nat)
    requires IsBase(base) && d < base
    ensures Numeral(d, base) == [DIGITS[d]] && (d == 0 ==> DIGITS[d] == '0')
  {}

  lemma PositiveLead(rest: string, base: nat)
    requires Parse(rest, base) == 0 ==> rest == "0"
    requires |rest| >= 1 && rest[0] != '0'
    ensures Parse(rest, base) > 0
  {}

  lemma NumeralStep(p: nat, d: nat, base: nat)
    requires IsBase(base) && d < base && p > 0
    ensures base * p + d >= base
    ensures Numeral(base * p + d, base) == Numeral(p, base) + [DIGITS[d]]
  {
    DivMod(p, d, base);
    assert base * p >= base;
  }

  lemma {:induction false} NumeralLength(n: nat, base: nat, k: nat)
    requires IsBase(base) && k >= 1 && n < Power(base, k)
    ensures |Numeral(n, base)| <= k
  {
    if n < base {
    } else {
      DivBack(n, base);
      assert n / base < Power(base, k - 1);
      NumeralLength(n / base, base, k - 1);
    }
  }

  function Power(base: nat, k: nat): nat
  {
    if k == 0 then 1 else base * Power(base, k - 1)
  }

  /** 64-bit numbers have at most 16 hexadecimal and 20 decimal digits. */
  lemma WordLength(n: u64)
    ensures |Numeral(n, 16)| <= 16 && |Numeral(n, 10)| <= 20
    ensures 4 <= |HexString(n)| <= 18 && 1 <= |DecString(n)| <= 20
  {
    assert Power(16, 4) == 0x1_0000;
    assert Power(16, 8) == 0x1_0000_0000;
    assert Power(16, 12) == 0x1_0000_0000_0000;
    assert Power(16, 16) == TWO64;
    NumeralLength(n, 16, 16);
    assert Power(10, 5) == 100_000;
    assert Power(10, 10) == 10_000_000_000;
    assert Power(10, 15) == 1_000_000_000_000_000;
    assert Power(10, 20) == 100_000_000_000_000_000_000;
    NumeralLength(n, 10, 20);
    if n >= 0x10 { assert |Numeral(n, 16)| >= 2; }
  }

  /** The shape of what `%x` prints: the prefix, then at least two digits, with a leading zero only
      when there are exactly two. */
  ghost predicate IsHex(s: string)
  {
    && |s| >= 4 && s[..2] == "0x"
    && (forall k :: 2 <= k < |s| ==> IsDigit(s[k], 16))
    && (|s| > 4 ==> s[2] != '0')
  }

  lemma HexRoundTrip(n: nat)
    ensures IsHex(HexString(n)) && Parse(HexString(n)[2..], 16) == n
  {
    ParseNumeral(n, 16);
    var s := HexString(n);
    if n < 0x10 {
      assert Numeral(n, 16) == [DIGITS[n]] && s[2..] == "0" + [DIGITS[n]];
      TwoDigits('0', DIGITS[n]);
      DigitRoundTrip(n);
      assert DIGITS[0] == '0';
    } else {
      assert s[2..] == Numeral(n, 16) && |Numeral(n, 16)| >= 2;
    }
  }

  lemma TwoDigits(a: char, b: char)
    ensures Parse([a] + [b], 16) == 16 * DigitOf(a) + DigitOf(b)
  {
    hide DigitOf;
    ParseLast([a], b, 16);
    ParseLast([], a, 16);
    assert [] + [a] == [a];
    ParseEmpty(16);
  }

  lemma LongNumeral(n: nat, base: nat)
    requires IsBase(base) && |Numeral(n, base)| > 1
    ensures n >= base
  {}

  /** There is only one such string for each number. */
  lemma HexIsUnique(s: string)
    requires IsHex(s)
    ensures HexString(Parse(s[2..], 16)) == s
  {
    hide Parse, Numeral, DigitOf;
    var t := s[2..];
    assert s == "0x" + t;
    assert forall k :: 0 <= k < |t| ==> t[k] == s[k + 2];
    if t[0] != '0' {
      NumeralParse(t, 16);
      LongNumeral(Parse(t, 16), 16);
    } else {
      assert t == [t[0]] + [t[1]];
      TwoDigits(t[0], t[1]);
      IsDigitOf(t[1], 16);
      DigitRoundTrip(0);
      OneDigit(DigitOf(t[1]), 16);
    }
  }

  // ----- the buffer -----

  function Reverse(s: string): (r: string)
    ensures |r| == |s|
    ensures forall k :: 0 <= k < |s| ==> r[k] == s[|s| - 1 - k]
  {
    if s == [] then [] else [s[|s| - 1]] + Reverse(s[..|s| - 1])
  }

  /** The swapping loop at the end of both printers. */
  method ReverseInPlace(buf: array<char>, len: nat)
    requires 1 <= len <= buf.Length
    modifies buf
    ensures buf[..] == Reverse(old(buf[..len])) + old(buf[len..])
  {
    var (i, j) := (len - 1, 0);
    while j < i
      invariant 0 <= j <= len && i == len - 1 - j
      invariant forall k :: 0 <= k < buf.Length ==>
        buf[k] == if k < len && (k < j || k > i) then old(buf[len - 1 - k]) else old(buf[k])
      decreases i - j
    {
      buf[j], buf[i] := buf[i], buf[j];
      j, i := j + 1, i - 1;
    }
  }

  lemma ReverseConcat(a: string, b: string)
    ensures Reverse(a + b) == Reverse(b) + Reverse(a)
  {}

  /** The digits still to come. */
  function Leading(n: nat, base: nat): (s: string)
    requires IsBase(base)
    ensures n > 0 ==> |s| >= 1
  {
    if n == 0 then "" else Numeral(n, base)
  }

  lemma DigitStep(n: nat, base: nat, was: string)
    requires IsBase(base) && n > 0
    ensures n % base < 16 && n / base < n
    ensures Leading(n / base, base) + Reverse(was + [DIGITS[n % base]]) == Leading(n, base) + Reverse(was)
  {
    DivBack(n, base);
    var c := [DIGITS[n % base]];
    LeadingStep(n, base);
    ReverseOne(was, DIGITS[n % base]);
    hide Leading, Reverse;
    assert Leading(n / base, base) + (c + Reverse(was)) == (Leading(n / base, base) + c) + Reverse(was);
  }

  lemma ReverseOne(was: string, c: char)
    ensures Reverse(was + [c]) == [c] + Reverse(was)
  {
    assert (was + [c])[..|was|] == was;
  }

  lemma LeadingStep(n: nat, base: nat)
    requires IsBase(base) && n > 0
    ensures n % base < 16 && Leading(n, base) == Leading(n / base, base) + [DIGITS[n % base]]
  {
    DivBack(n, base);
    if n < base { SmallQuotient(n, base); }
  }

  lemma SmallQuotient(n: nat, base: nat)
    requires IsBase(base) && n < base
    ensures n / base == 0
  {}

  /** The digit loop of both printers: least significant digit first. */
  method WriteDigits(buf: array<char>, n: u64, base: nat) returns (i: nat)
    requires IsBase(base) && n > 0 && buf.Length == 80
    modifies buf
    ensures i == |Numeral(n, base)| <= 20
    ensures Reverse(buf[..i]) == Numeral(n, base)
    ensures buf[i..] == old(buf[i..])
  {
    WordLength(n);
    hide Numeral, Reverse;
    var number: nat := n;
    i := 0;
    assert Leading(n, base) + Reverse(buf[..0]) == Numeral(n, base) by { assert Reverse([]) == []; }
    while number > 0
      invariant 0 <= i <= |Numeral(n, base)| <= 20
      invariant Leading(number, base) + Reverse(buf[..i]) == Numeral(n, base)
      invariant buf[i..] == old(buf[i..])
    {
      DigitStep(number, base, buf[..i]);
      ghost var was := buf[..i];
      assert buf[i + 1..] == buf[i..][1..];
      buf[i] := DIGITS[number % base];
      assert buf[..i + 1] == was + [DIGITS[number % base]];
      number := number / base;
      i := i + 1;
    }
  }

  method Hex2Str(buf: array<char>, n: u64) returns (len: nat)
    requires buf.Length == 80
    modifies buf
    ensures len == |HexString(n)| <= 18
    ensures buf[..len] == HexString(n) && buf[len] == '\0'
    ensures buf[len + 1..] == old(buf[len + 1..])
  {
    WordLength(n);
    hide Numeral, Reverse;
    var i := HexDigits(buf, n);
    ghost var digits := buf[..i];
    len := AppendPrefix(buf, i, n);
    HexReversed(digits, n);
    FinishString(buf, len);
  }

  /** The digits of `n`, last one first; for 0 a terminator follows that is overwritten later. */
  method HexDigits(buf: array<char>, n: u64) returns (i: nat)
    requires buf.Length == 80
    modifies buf
    ensures i == |Numeral(n, 16)| <= 16 && Reverse(buf[..i]) == Numeral(n, 16)
    ensures buf[i + 1..] == old(buf[i + 1..])
  {
    WordLength(n);
    hide Numeral, Reverse;
    if n == 0 {
      buf[0], buf[1] := '0', '\0';
      assert buf[..1] == "0";
      ZeroNumeral();
      return 1;
    }
    i := WriteDigits(buf, n, 16);
    assert buf[i + 1..] == buf[i..][1..];
  }

  /** The padding, the prefix and the terminator. */
  method AppendPrefix(buf: array<char>, i: nat, n: u64) returns (len: nat)
    requires i <= 16 && buf.Length == 80
    modifies buf
    ensures len == i + (if n < 0x10 then 3 else 2)
    ensures buf[..len] == HexRaw(old(buf[..i]), n) && buf[len] == '\0'
    ensures buf[len + 1..] == old(buf[len + 1..])
  {
    len := i;
    if n < 0x10 {
      buf[len] := '0';
      len := len + 1;
    }
    buf[len], buf[len + 1], buf[len + 2] := 'x', '0', '\0';
    len := len + 2;
  }

  /** The digits, the padding and the prefix, last character first. */
  function HexRaw(digits: string, n: nat): string
  {
    digits + (if n < 0x10 then "0x0" else "x0")
  }

  lemma HexReversed(digits: string, n: nat)
    requires Reverse(digits) == Numeral(n, 16)
    ensures Reverse(HexRaw(digits, n)) == HexString(n)
  {
    ReverseConcat(digits, if n < 0x10 then "0x0" else "x0");
    assert Reverse("0x0") == "0x0" && Reverse("x0") == "0x";
  }

  method FinishString(buf: array<char>, len: nat)
    requires 1 <= len < buf.Length
    modifies buf
    ensures buf[..len] == Reverse(old(buf[..len])) && buf[len..] == old(buf[len..])
    ensures buf[len] == old(buf[len]) && buf[len + 1..] == old(buf[len + 1..])
  {
    ghost var rest := buf[len..];
    assert rest[1..] == buf[len + 1..];
    ReverseInPlace(buf, len);
    assert buf[len..] == rest;
    assert buf[len + 1..] == rest[1..];
  }

  lemma ZeroNumeral()
    ensures Numeral(0, 16) == "0" && Numeral(0, 10) == "0" && Reverse("0") == "0"
  {}

  method Dec2Str(buf: array<char>, n: u64) returns (len: nat)
    requires buf.Length == 80
    modifies buf
    ensures len == |DecString(n)| <= 20
    ensures buf[..len] == DecString(n) && buf[len] == '\0'
    ensures buf[len + 1..] == old(buf[len + 1..])
  {
    var i: nat := 1;
    if n == 0 {
      buf[0] := '0';
    } else {
      i := WriteDigits(buf, n, 10);
    }
    ghost var digits := buf[..i];
    buf[i] := '\0';
    assert buf[..i] == digits;
    FinishString(buf, i);
    len := i;
  }
}
