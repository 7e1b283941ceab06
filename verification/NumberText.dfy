/**
 Numbers as text, both ways: `printNumber` of lib-mock/KFCBaseLibrary/src/Print.cpp and the constexpr `strtoll` of
 lib/KFCBaseLibrary/include/constexpr_tools.h. Strings end where the NUL character is in memory.
 */
module NumberText {
  import opened Util

  type uint8 = x: nat | x < 0x100
  type uint32 = x: nat | x < 0x1_0000_0000
  type int32 = x: int | -0x8000_0000 <= x < 0x8000_0000

  const NUL: char := 0 as char

  // ---------------------------------------------------------------- writing

  /** A digit as a character; digits are below 128, where `char` has no sign to lose. */
  function DigitChar(d: nat): char
    requires d < 0x80
  {
    if d < 10 then (d + 48) as char else (d + 55) as char
  }

  /** The positional notation. */
  function Digits(n: nat, base: nat): (text: string)
    requires 2 <= base <= 0x80
    ensures |text| > 0
  {
    if n < base then [DigitChar(n)] else Digits(Quotient(n, base), base) + [DigitChar(Remainder(n, base))]
  }

  function Quotient(n: nat, base: nat): (q: nat)
    requires 2 <= base
    ensures n > 0 ==> q < n
    ensures n < base ==> q == 0
    ensures 2 * q <= n
  {
    QuotientBound(n, base);
    n / base
  }

  function Remainder(n: nat, base: nat): (r: nat)
    requires 2 <= base
    ensures r < base && n == base * Quotient(n, base) + r
  {
    n - base * (n / base)
  }

  lemma QuotientBound(n: nat, base: nat)
    requires 2 <= base
    ensures 2 * (n / base) <= n
    ensures n < base ==> n / base == 0
  {
    var q := n / base;
    assert n == base * q + n % base && base * q == 2 * q + (base - 2) * q;
    assert (base - 2) * q >= 0;
  }

  function Pow2(k: nat): (p: nat)
    ensures p > 0
  {
    if k == 0 then 1 else 2 * Pow2(k - 1)
  }

  lemma Pow2Of32()
    ensures Pow2(32) == 0x1_0000_0000
  {
    assert Pow2(8) == 0x100;
    assert Pow2(16) == 0x1_0000;
    assert Pow2(24) == 0x100_0000;
  }

  /** Fills the buffer from its end; returns the string written. */
  method PrintNumber(number: uint32, base: uint8) returns (text: string)
    requires base <= 0x80
    ensures text == Digits(number, if base < 2 then 10 else base) && |text| <= 32
  {
    var buf := new char[8 * 4 + 1];
    var str := buf.Length - 1;
    buf[str] := NUL;
    var b: nat := if base < 2 then 10 else base;
    Pow2Of32();
    var n: nat := number;
    var more := true;
    while more
      invariant 0 <= str <= 32 && n < Pow2(str) && (more ==> str > 0)
      invariant !more <==> str < 32 && n == 0
      invariant Digits(number, b) == if more then Digits(n, b) + buf[str..32] else buf[str..32]
      decreases str
    {
      var m := n;
      n := Quotient(n, b);
      var c := m - b * n;
      RemainderOf(m, b, c);
      DigitsNext(m, b, buf[str..32]);
      str := str - 1;
      buf[str] := DigitChar(c);
      assert buf[str..32] == [DigitChar(c)] + buf[str + 1..32];
      more := n != 0;
    }
    text := buf[str..32];
  }

  lemma RemainderOf(m: nat, base: nat, c: int)
    requires 2 <= base && c == m - base * Quotient(m, base)
    ensures c == Remainder(m, base)
  {
  }

  lemma DigitsNext(m: nat, base: nat, behind: string)
    requires 2 <= base <= 0x80
    ensures Digits(m, base) + behind ==
            if Quotient(m, base) == 0 then [DigitChar(Remainder(m, base))] + behind
            else Digits(Quotient(m, base), base) + ([DigitChar(Remainder(m, base))] + behind)
  {
    if m >= base {
      QuotientPositive(m, base);
      Assoc(Digits(Quotient(m, base), base), [DigitChar(Remainder(m, base))], behind);
    }
  }

  lemma QuotientPositive(m: nat, base: nat)
    requires 2 <= base <= m
    ensures Quotient(m, base) > 0
  {
  }

  /** `print(long)` in base 10. */
  method PrintLong(n: int32) returns (text: string)
    ensures text == if n < 0 then "-" + Digits(-(n as int), 10) else Digits(n, 10)
  {
    if n < 0 {
      var digits := PrintNumber(-(n as int), 10);
      text := "-" + digits;
    } else {
      text := PrintNumber(n, 10);
    }
  }

  // ---------------------------------------------------------------- reading

  function CharAt(s: string, i: nat): char { if i < |s| then s[i] else NUL }

  function ConvertDigit(ch: char): int {
    if '0' <= ch <= '9' then ch as int - 48
    else if 'a' <= ch <= 'f' then ch as int - 'a' as int + 10
    else if 'A' <= ch <= 'F' then ch as int - 'A' as int + 10
    else 255
  }

  function IsDigitBase(ch: char, base: int): int {
    if ConvertDigit(ch) < base then ConvertDigit(ch) else 255
  }

  /** 0x, 0b or 0 in front of a number tell its base. */
  function StrtollBase(s: string): int {
    if CharAt(s, 0) == '0' then if CharAt(s, 1) == 'x' then 16 else if CharAt(s, 1) == 'b' then 2 else 8 else 10
  }

  function StrtollStart(s: string): string {
    if CharAt(s, 0) == '0' && (CharAt(s, 1) == 'x' || CharAt(s, 1) == 'b') && |s| >= 2 then s[2..] else s
  }

  /** NUL is a digit in no base. Values are not cut to 64 bits. */
  function Strtoll(s: string, value: int, base: int, pos: nat, invalidValue: int): int
    decreases base == 0, |s|
  {
    if base == 0 then Strtoll(StrtollStart(s), value, StrtollBase(s), 0, invalidValue)
    else if pos == 0 && CharAt(s, 0) == '-' then -Strtoll(s[1..], value, base, 0, invalidValue)
    else if IsDigitBase(CharAt(s, 0), base) != 255
    then Strtoll(s[1..], value * base + IsDigitBase(CharAt(s, 0), base), base, pos + 1, invalidValue)
    else if pos == 0 then invalidValue
    else value
  }

  // ---------------------------------------------------------------- round trip

  lemma DigitRoundTrip(d: nat, base: nat)
    requires d < base <= 16
    ensures DigitChar(d) != '-' && IsDigitBase(DigitChar(d), base) == d
  {
  }

  lemma StrtollDigit(d: nat, behind: string, value: int, base: nat, pos: nat, invalidValue: int)
    requires 0 < base <= 16 && d < base
    ensures Strtoll([DigitChar(d)] + behind, value, base, pos, invalidValue)
            == Strtoll(behind, value * base + d, base, pos + 1, invalidValue)
  {
    DigitRoundTrip(d, base);
    assert ([DigitChar(d)] + behind)[1..] == behind;
  }

  /** Reading the digits of a number takes them all and leaves the number and what is behind. */
  lemma {:induction false} StrtollDigits(n: nat, base: nat, behind: string, pos: nat, invalidValue: int)
    requires 2 <= base <= 16
    ensures Strtoll(Digits(n, base) + behind, 0, base, pos, invalidValue)
            == Strtoll(behind, n, base, pos + |Digits(n, base)|, invalidValue)
    decreases n
  {
    if n < base {
      StrtollDigit(n, behind, 0, base, pos, invalidValue);
    } else {
      var q, r := Quotient(n, base), Remainder(n, base);
      Assoc(Digits(q, base), [DigitChar(r)], behind);
      StrtollDigits(q, base, [DigitChar(r)] + behind, pos, invalidValue);
      StrtollDigit(r, behind, q, base, pos + |Digits(q, base)|, invalidValue);
      assert q * base + r == n;
    }
  }

  /** Behind a number there is no digit of the base; a minus sign there is not read either. */
  lemma NumberRoundTrip(n: nat, base: nat, behind: string, invalidValue: int)
    requires 2 <= base <= 16 && IsDigitBase(CharAt(behind, 0), base) == 255
    ensures Strtoll(Digits(n, base) + behind, 0, base, 0, invalidValue) == n
    ensures Strtoll("-" + (Digits(n, base) + behind), 0, base, 0, invalidValue) == -(n as int)
  {
    StrtollDigits(n, base, behind, 0, invalidValue);
    assert ("-" + (Digits(n, base) + behind))[1..] == Digits(n, base) + behind;
  }

  predicate ReadsBack(n: nat, base: nat)
    requires 2 <= base <= 0x80
  {
    Strtoll(Digits(n, base), 0, base, 0, -1) == n
  }

  /** Every number reads back exactly for the bases up to 16. */
  lemma ReadsBackExactlyUpTo16(base: nat)
    requires 2 <= base <= 0x80
    ensures base <= 16 <==> forall n: uint32 :: ReadsBack(n, base)
  {
    if base <= 16 {
      forall n: uint32 ensures ReadsBack(n, base) {
        NumberRoundTrip(n, base, "", -1);
        NothingAdded(Digits(n, base));
      }
    } else {
      assert Digits(16, base) == [DigitChar(16)];
      assert IsDigitBase(DigitChar(16), base) == 255;
      assert !ReadsBack(16, base);
    }
  }

  lemma DigitCharsDiffer(c: nat, d: nat)
    requires c < 0x80 && d < 0x80 && DigitChar(c) == DigitChar(d)
    ensures c == d
  {
    assert DigitChar(c) as int == DigitChar(d) as int;
  }

  lemma LastDigit(n: nat, base: nat) returns (init: string, quotient: nat, last: nat)
    requires 2 <= base <= 0x80
    ensures last == Remainder(n, base) < base && Digits(n, base) == init + [DigitChar(last)]
    ensures quotient == Quotient(n, base) && init == if n < base then "" else Digits(quotient, base)
    ensures n < base ==> quotient == 0 && last == n
  {
    quotient, last := Quotient(n, base), Remainder(n, base);
    init := if n < base then "" else Digits(quotient, base);
  }

  lemma Recombine(m: nat, n: nat, base: nat)
    requires 2 <= base && Quotient(m, base) == Quotient(n, base) && Remainder(m, base) == Remainder(n, base)
    ensures m == n
  {
  }

  /** Different numbers are written differently, also in bases whose digits cannot be read back. */
  lemma {:induction false} DigitsDiffer(m: nat, n: nat, base: nat)
    requires 2 <= base <= 0x80 && Digits(m, base) == Digits(n, base)
    ensures m == n
    decreases m
  {
    var a, p, c := LastDigit(m, base);
    var b, q, d := LastDigit(n, base);
    assert a == (a + [DigitChar(c)])[..|a|] == (b + [DigitChar(d)])[..|b|] == b;
    DigitCharsDiffer(c, d);
    if m >= base {
      DigitsDiffer(p, q, base);
    }
    Recombine(m, n, base);
  }

  /** Text without a number is told by the value given for that, with its sign changed behind a minus sign. */
  lemma InvalidIsTold(s: string, base: int, invalidValue: int)
    requires base != 0 && IsDigitBase(CharAt(s, 0), base) == 255 && CharAt(s, 0) != '-'
    ensures Strtoll(s, 0, base, 0, invalidValue) == invalidValue
    ensures Strtoll("-" + s, 0, base, 0, invalidValue) == -invalidValue
  {
    assert ("-" + s)[1..] == s;
  }

  /** What is a digit at all. */
  lemma DigitsExactly(ch: char)
    ensures ConvertDigit(ch) != 255 <==> ch in "0123456789abcdefABCDEF"
    ensures ConvertDigit(ch) != 255 ==> 0 <= ConvertDigit(ch) < 16
  {
    if ConvertDigit(ch) != 255 {
      var i := if ch <= '9' then ch as int - '0' as int
               else if ch >= 'a' then ch as int - 'a' as int + 10 else ch as int - 'A' as int + 16;
      assert "0123456789abcdefABCDEF"[i] == ch;
    }
  }

  /** Reading stops at the digits that a larger base has. */
  lemma LargerDigitStops(n: nat, base: nat, d: nat, rest: string, invalidValue: int)
    requires 2 <= base <= d < 16
    ensures Strtoll(Digits(n, base) + ([DigitChar(d)] + rest), 0, base, 0, invalidValue) == n
  {
    NumberRoundTrip(n, base, [DigitChar(d)] + rest, invalidValue);
  }

  function Capital(c: char): char {
    if 'a' <= c <= 'f' then (c as int - 'a' as int + 'A' as int) as char else c
  }

  function Capitals(s: string): (capitals: string)
    ensures |capitals| == |s|
  {
    if |s| == 0 then "" else [Capital(s[0])] + Capitals(s[1..])
  }

  /** With the base given, small letters are the digits that the capital ones are. */
  lemma {:induction false} LettersDoNotMatter(s: string, value: int, base: int, pos: nat, invalidValue: int)
    requires base != 0
    ensures Strtoll(Capitals(s), value, base, pos, invalidValue) == Strtoll(s, value, base, pos, invalidValue)
    decreases |s|
  {
    if |s| > 0 {
      assert ConvertDigit(Capital(s[0])) == ConvertDigit(s[0]) && (Capital(s[0]) == '-' <==> s[0] == '-');
      assert Capitals(s)[1..] == Capitals(s[1..]);
      LettersDoNotMatter(s[1..], value, base, 0, invalidValue);
      LettersDoNotMatter(s[1..], value * base + IsDigitBase(s[0], base), base, pos + 1, invalidValue);
    }
  }

  // ---------------------------------------------------------------- bases found by the prefix

  lemma {:induction false} FirstDigitNotZero(n: nat, base: nat)
    requires 2 <= base <= 16 && n > 0
    ensures Digits(n, base)[0] != '0'
  {
    if n >= base {
      QuotientPositive(n, base);
      FirstDigitNotZero(Quotient(n, base), base);
    }
  }

  /** A decimal number is found to be one, zero included. */
  lemma DecimalIsDetected(n: nat)
    ensures Strtoll(Digits(n, 10), 0, 0, 0, -1) == n
  {
    NothingAdded(Digits(n, 10));
    if n == 0 {
      assert Digits(0, 10) == Digits(0, 8) == "0";
      NumberRoundTrip(0, 8, "", -1);
    } else {
      FirstDigitNotZero(n, 10);
      NumberRoundTrip(n, 10, "", -1);
    }
  }

  lemma HexPrefix(n: nat)
    ensures Strtoll("0x" + Digits(n, 16), 0, 0, 0, -1) == n
  {
    assert ("0x" + Digits(n, 16))[2..] == Digits(n, 16);
    NothingAdded(Digits(n, 16));
    NumberRoundTrip(n, 16, "", -1);
  }

  lemma BinaryPrefix(n: nat)
    ensures Strtoll("0b" + Digits(n, 2), 0, 0, 0, -1) == n
  {
    assert ("0b" + Digits(n, 2))[2..] == Digits(n, 2);
    NothingAdded(Digits(n, 2));
    NumberRoundTrip(n, 2, "", -1);
  }

  lemma OctalPrefix(n: nat)
    ensures Strtoll("0" + Digits(n, 8), 0, 0, 0, -1) == n
  {
    NothingAdded(Digits(n, 8));
    FirstDigitOctal(n);
    StrtollDigit(0, Digits(n, 8), 0, 8, 0, -1);
    StrtollDigits(n, 8, "", 1, -1);
  }

  /** A prefix without a number behind it is none. */
  lemma PrefixAloneIsInvalid(invalidValue: int)
    ensures Strtoll("0x", 0, 0, 0, invalidValue) == invalidValue
    ensures Strtoll("0b", 0, 0, 0, invalidValue) == invalidValue
  {
    assert "0x"[2..] == "" && "0b"[2..] == "";
  }

  lemma PrefixIsDetected(n: nat)
    ensures Strtoll("0x" + Digits(n, 16), 0, 0, 0, -1) == n
    ensures Strtoll("0b" + Digits(n, 2), 0, 0, 0, -1) == n
    ensures Strtoll("0" + Digits(n, 8), 0, 0, 0, -1) == n
  {
    HexPrefix(n);
    BinaryPrefix(n);
    OctalPrefix(n);
  }

  lemma {:induction false} FirstDigitOctal(n: nat)
    ensures '0' <= Digits(n, 8)[0] <= '7'
  {
    if n >= 8 {
      FirstDigitOctal(Quotient(n, 8));
    }
  }
}
