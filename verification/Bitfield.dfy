// bpftool/src/btf_dumper.c, little-endian: bitfields from 128-bit shifts over two 64-bit words.
module Bitfield {
  import opened Words

  type Byte = x: int | 0 <= x < 256

  /** The value of a little-endian byte string. */
  function Le(data: seq<Byte>): nat {
    if data == [] then 0 else data[0] + 256 * Le(data[1..])
  }

  /** The value of an upper and a lower word. */
  function Wide(upper: nat, lower: nat): nat { upper * TWO64 + lower }

  ghost predicate IsWord(w: nat) { w < TWO64 }

  // ----- shifting -----

  /** C defines the shifts btf_int128_shift makes for these arguments: every count lies between 0 and 63. */
  predicate ShiftsDefined(left: int, right: int) {
    && left >= 0 && right >= 0
    && (if left >= 64 then left - 64 < 64 else 64 - left < 64)
    && (if right >= 64 then right - 64 < 64 else 64 - right < 64)
  }

  function LeftUpper(upper: nat, lower: nat, left: nat): nat {
    if left >= 64 then ShiftLeft(lower, left - 64)
    else Or(ShiftLeft(upper, left), ShiftRight(lower, 64 - left))
  }

  function LeftLower(lower: nat, left: nat): nat { if left >= 64 then 0 else ShiftLeft(lower, left) }

  function RightLower(upper: nat, lower: nat, right: nat): nat {
    if right >= 64 then ShiftRight(upper, right - 64)
    else Or(ShiftRight(lower, right), ShiftLeft(upper, 64 - right))
  }

  function RightUpper(upper: nat, right: nat): nat { if right >= 64 then 0 else ShiftRight(upper, right) }

  /** The left shift of the two words is the 128-bit left shift. */
  lemma LeftShifts(upper: nat, lower: nat, left: nat)
    requires IsWord(upper) && IsWord(lower) && 0 < left < 128
    ensures var u, l := LeftUpper(upper, lower, left), LeftLower(lower, left);
      IsWord(u) && IsWord(l) && Wide(u, l) == (Wide(upper, lower) * Pow2(left)) % (TWO64 * TWO64)
  {
    if left < 64 {
      LeftShiftsLow(upper, lower, left);
    } else {
      LeftShiftsHigh(upper, lower, left);
    }
  }

  lemma WideTimes(upper: nat, lower: nat, a: nat)
    ensures Wide(upper, lower) * a == (upper * a) * TWO64 + lower * a
  {
    Distribute(upper * TWO64, lower, a);
    TimesSwap(upper, TWO64, a);
  }

  /** The part of the lower word shifted out joins the upper word. */
  lemma CarryOver(x: nat, y: nat, q: nat, r: nat, carry: nat, rest: nat)
    requires x == q * TWO64 + r && y == carry * TWO64 + rest
    ensures x * TWO64 + y == q * (TWO64 * TWO64) + Wide(r + carry, rest)
  {
  }

  lemma LeftShiftsLow(upper: nat, lower: nat, left: nat)
    requires IsWord(upper) && IsWord(lower) && 0 < left < 64
    ensures var u, l := LeftUpper(upper, lower, left), LeftLower(lower, left);
      IsWord(u) && IsWord(l) && Wide(u, l) == (Wide(upper, lower) * Pow2(left)) % (TWO64 * TWO64)
  {
    var a, b := Pow2(left), Pow2(64 - left);
    PowWord(left, 64 - left);
    ShiftLeftIs(upper, left, 64 - left);
    ShiftLeftIs(lower, left, 64 - left);
    LeftLow(upper, lower, a, b);
    OrSum(upper % b, left, ShiftRight(lower, 64 - left));
  }

  lemma LeftLow(upper: nat, lower: nat, a: nat, b: nat)
    requires IsWord(upper) && IsWord(lower) && a > 0 && b > 0 && a * b == TWO64
    ensures lower / b < a
    ensures var u, l := (upper % b) * a + lower / b, (lower % b) * a;
      IsWord(u) && IsWord(l) && Wide(u, l) == (Wide(upper, lower) * a) % (TWO64 * TWO64)
  {
    var u, l := (upper % b) * a + lower / b, (lower % b) * a;
    PushOut(upper, a, b);
    PushOut(lower, a, b);
    QuotientBelow(lower, b, a);
    WideTimes(upper, lower, a);
    CarryOver(upper * a, lower * a, upper / b, (upper % b) * a, lower / b, l);
    WordsBelow(u, l);
    DivModUnique(Wide(upper, lower) * a, TWO64 * TWO64, upper / b, Wide(u, l));
  }

  lemma LeftShiftsHigh(upper: nat, lower: nat, left: nat)
    requires IsWord(upper) && IsWord(lower) && 64 <= left < 128
    ensures var u, l := LeftUpper(upper, lower, left), LeftLower(lower, left);
      IsWord(u) && IsWord(l) && Wide(u, l) == (Wide(upper, lower) * Pow2(left)) % (TWO64 * TWO64)
  {
    var n := left - 64;
    PowWord(n, 64 - n);
    ShiftLeftIs(lower, n, 64 - n);
    Pow64();
    Pow2Add(n, 64);
    LeftHigh(upper, lower, Pow2(n), Pow2(64 - n));
  }

  lemma LeftHigh(upper: nat, lower: nat, a: nat, b: nat)
    requires IsWord(upper) && IsWord(lower) && a > 0 && b > 0 && a * b == TWO64
    ensures var u := (lower % b) * a;
      IsWord(u) && Wide(u, 0) == (Wide(upper, lower) * (a * TWO64)) % (TWO64 * TWO64)
  {
    var u := (lower % b) * a;
    var q := upper * a + lower / b;
    PushOut(lower, a, b);
    WideTimes(upper, lower, a);
    assert Wide(upper, lower) * a == q * TWO64 + u;
    TimesAssoc(Wide(upper, lower), a, TWO64);
    WordsBelow(u, 0);
    DivModUnique(Wide(upper, lower) * (a * TWO64), TWO64 * TWO64, q, Wide(u, 0));
  }

  lemma TimesSwap(x: int, y: int, z: int)
    ensures x * y * z == x * z * y
  {
  }

  lemma TimesAssoc(x: int, y: int, z: int)
    ensures x * (y * z) == x * y * z
  {
  }

  lemma WordsBelow(upper: nat, lower: nat)
    requires IsWord(upper) && IsWord(lower)
    ensures Wide(upper, lower) < TWO64 * TWO64
  {
  }

  /** The right shift of the two words is the 128-bit right shift. */
  lemma RightShifts(upper: nat, lower: nat, right: nat)
    requires IsWord(upper) && IsWord(lower) && 0 < right < 128
    ensures var u, l := RightUpper(upper, right), RightLower(upper, lower, right);
      IsWord(u) && IsWord(l) && Wide(u, l) == Wide(upper, lower) / Pow2(right)
  {
    if right < 64 {
      RightShiftsLow(upper, lower, right);
    } else {
      RightShiftsHigh(upper, lower, right);
    }
  }

  lemma DivBelow(x: nat, d: nat)
    requires d > 0
    ensures 0 <= x / d <= x
  {
    MulUp(1, d, x / d);
  }

  lemma WideSplit(upper: nat, lower: nat, a: nat, b: nat)
    requires a > 0 && a * b == TWO64
    ensures Wide(upper, lower) == (upper * b + lower / a) * a + lower % a
  {
    Distribute(upper * b, lower / a, a);
    TimesSwap(upper, b, a);
    TimesAssoc(upper, a, b);
  }

  lemma RightShiftsLow(upper: nat, lower: nat, right: nat)
    requires IsWord(upper) && IsWord(lower) && 0 < right < 64
    ensures var u, l := RightUpper(upper, right), RightLower(upper, lower, right);
      IsWord(u) && IsWord(l) && Wide(u, l) == Wide(upper, lower) / Pow2(right)
  {
    var a, b := Pow2(right), Pow2(64 - right);
    PowWord(right, 64 - right);
    ShiftLeftIs(upper, 64 - right, right);
    RightLow(upper, lower, a, b);
    OrSum(upper % a, 64 - right, ShiftRight(lower, right));
  }

  lemma RightLow(upper: nat, lower: nat, a: nat, b: nat)
    requires IsWord(upper) && IsWord(lower) && a > 0 && b > 0 && a * b == TWO64
    ensures lower / a < b && IsWord(upper / a)
    ensures var l := (upper % a) * b + lower / a;
      IsWord(l) && Wide(upper / a, l) == Wide(upper, lower) / a
  {
    var u, l := upper / a, (upper % a) * b + lower / a;
    assert b * a == a * b;
    QuotientBelow(lower, a, b);
    DivBelow(upper, a);
    PushOut(upper, b, a);
    WideSplit(upper, lower, a, b);
    assert Wide(u, l) == upper * b + lower / a;
    DivModUnique(Wide(upper, lower), a, Wide(u, l), lower % a);
  }

  lemma RightShiftsHigh(upper: nat, lower: nat, right: nat)
    requires IsWord(upper) && IsWord(lower) && 64 <= right < 128
    ensures var u, l := RightUpper(upper, right), RightLower(upper, lower, right);
      IsWord(u) && IsWord(l) && Wide(u, l) == Wide(upper, lower) / Pow2(right)
  {
    var a := Pow2(right - 64);
    Pow64();
    Pow2Add(64, right - 64);
    DivModUnique(Wide(upper, lower), TWO64, upper, lower);
    DivDiv(Wide(upper, lower), TWO64, a);
    DivBelow(upper, a);
  }

  /** btf_int128_shift; word 0 is the lower one. */
  method BtfInt128Shift(printNum: array<nat>, left: nat, right: nat)
    requires printNum.Length == 2 && IsWord(printNum[0]) && IsWord(printNum[1])
    requires ShiftsDefined(left, right)
    modifies printNum
    ensures IsWord(printNum[0]) && IsWord(printNum[1])
    ensures Wide(printNum[1], printNum[0]) ==
      (old(Wide(printNum[1], printNum[0])) * Pow2(left)) % (TWO64 * TWO64) / Pow2(right)
  {
    var upper, lower := printNum[1], printNum[0];
    LeftShifts(upper, lower, left);
    if left >= 64 {
      upper := ShiftLeft(lower, left - 64);
      lower := 0;
    } else {
      upper := Or(ShiftLeft(upper, left), ShiftRight(lower, 64 - left));
      lower := ShiftLeft(lower, left);
    }
    RightShifts(upper, lower, right);
    if right >= 64 {
      lower := ShiftRight(upper, right - 64);
      upper := 0;
    } else {
      lower := Or(ShiftRight(lower, right), ShiftLeft(upper, 64 - right));
      upper := ShiftRight(upper, right);
    }
    printNum[0] := lower;
    printNum[1] := upper;
  }

  // ----- extraction -----

  /** Shifting left and then right keeps nrBits bits from bit `offset` on. */
  lemma ShiftsExtract(d: nat, offset: nat, nrBits: nat)
    requires 0 < nrBits && offset + nrBits < 128
    ensures (d * Pow2(128 - (offset + nrBits))) % (TWO64 * TWO64) / Pow2(128 - nrBits) ==
      d / Pow2(offset) % Pow2(nrBits)
  {
    var s := offset + nrBits;
    var a, b := Pow2(128 - s), Pow2(s);
    Pow64();
    Pow2Add(64, 64);
    Pow2Add(128 - s, s);
    PushOut(d, a, b);
    Pow2Add(128 - s, offset);
    DivModUnique((d % b) * a, a, d % b, 0);
    DivDiv((d % b) * a, a, Pow2(offset));
    Pow2Add(offset, nrBits);
    ModDiv(d, Pow2(offset), Pow2(nrBits));
  }

  /** BITS_ROUNDUP_BYTES. */
  function RoundUpBytes(bits: nat): nat { bits / 8 + if bits % 8 != 0 then 1 else 0 }

  lemma RoundUpSplit(total: nat, bits: nat)
    ensures RoundUpBytes(total + bits) == total / 8 + RoundUpBytes(total % 8 + bits)
  {
  }

  lemma {:induction false} LeSplit(a: seq<Byte>, b: seq<Byte>)
    ensures Le(a + b) == Le(a) + Pow2(8 * |a|) * Le(b)
  {
    if a == [] {
      assert a + b == b;
    } else {
      assert (a + b)[1..] == a[1..] + b;
      LeSplit(a[1..], b);
      PowBytes(|a| - 1);
      AddByte(a[0], Le(a[1..]), Pow2(8 * (|a| - 1)), Le(b));
    }
  }

  lemma AddByte(c: nat, x: nat, p: nat, y: nat)
    ensures c + 256 * (x + p * y) == (c + 256 * x) + (256 * p) * y
  {
    TimesAssoc(256, p, y);
  }

  lemma PowBytes(n: nat)
    ensures Pow2(8 * (n + 1)) == 256 * Pow2(8 * n)
  {
    Pow2Add(4, 4);
    Pow2Add(8, 8 * n);
  }

  lemma {:induction false} LeBound(a: seq<Byte>)
    ensures Le(a) < Pow2(8 * |a|)
  {
    if a != [] {
      LeBound(a[1..]);
      PowBytes(|a| - 1);
    }
  }

  lemma {:induction false} LeZeros(n: nat)
    ensures Le(seq(n, _ => 0)) == 0
  {
    if n > 0 {
      assert seq(n, _ => 0)[1..] == seq(n - 1, _ => 0);
      LeZeros(n - 1);
    }
  }

  /** Only the bytes that hold the wanted bits matter. */
  lemma EnoughBytes(data: seq<Byte>, n: nat, offset: nat, nrBits: nat)
    requires n <= |data| && offset + nrBits <= 8 * n
    ensures Le(data[..n]) / Pow2(offset) % Pow2(nrBits) == Le(data) / Pow2(offset) % Pow2(nrBits)
  {
    LeSplit(data[..n], data[n..]);
    assert data[..n] + data[n..] == data;
    var more := 8 * n - (offset + nrBits);
    PowThree(offset, nrBits, more);
    LowEnough(Le(data), Le(data[..n]), Le(data[n..]), Pow2(offset), Pow2(nrBits), Pow2(more), Pow2(8 * n));
  }

  lemma PowThree(a: nat, b: nat, c: nat)
    ensures Pow2(a + b + c) == (Pow2(a) * Pow2(b)) * Pow2(c)
  {
    Pow2Add(a, b);
    Pow2Add(a + b, c);
  }

  lemma LowEnough(x: nat, low: nat, high: nat, a: nat, b: nat, c: nat, p: nat)
    requires a > 0 && b > 0 && x == low + p * high && p == (a * b) * c
    ensures low / a % b == x / a % b
  {
    var k := c * high;
    assert a * b > 0 by { MulUp(1, a, b); }
    TimesAssoc(a * b, c, high);
    LowSame(x, low, a * b, k);
    DigitSame(low, x, a, b);
  }

  lemma LowSame(x: nat, low: nat, m: nat, k: nat)
    requires m > 0 && x == low + m * k
    ensures x % m == low % m
  {
    var q := low / m;
    assert low == q * m + low % m;
    Distribute(q, k, m);
    DivModUnique(x, m, q + k, low % m);
  }

  lemma DigitSame(x: nat, y: nat, a: nat, b: nat)
    requires a > 0 && b > 0 && a * b > 0 && x % (a * b) == y % (a * b)
    ensures x / a % b == y / a % b
  {
    ModDiv(x, a, b);
    ModDiv(y, a, b);
  }

  /** Dropping whole bytes and then bits drops the bits of both. */
  lemma SkipBytes(data: seq<Byte>, n: nat, offset: nat)
    requires n <= |data|
    ensures Le(data[n..]) / Pow2(offset) == Le(data) / Pow2(8 * n + offset)
  {
    LeSplit(data[..n], data[n..]);
    assert data[..n] + data[n..] == data;
    LeBound(data[..n]);
    Pow2Add(8 * n, offset);
    HighDigits(Le(data), Le(data[..n]), Le(data[n..]), Pow2(8 * n), Pow2(offset));
  }

  lemma SkipBits(data: seq<Byte>, total: nat)
    requires total / 8 <= |data|
    ensures Le(data[total / 8..]) / Pow2(total % 8) == Le(data) / Pow2(total)
  {
    SkipBytes(data, total / 8, total % 8);
    assert total == 8 * (total / 8) + total % 8;
  }

  lemma HighDigits(x: nat, low: nat, high: nat, p: nat, q: nat)
    requires low < p && q > 0 && x == low + p * high
    ensures p * q > 0 && high / q == x / (p * q)
  {
    assert p * high == high * p;
    DivModUnique(x, p, high, low);
    DivDiv(x, p, q);
  }

  /** The shifts of a bitfield are defined exactly when it has a bit and ends below bit 127;
      the counts reach btf_int128_shift as 16-bit values. */
  lemma BitfieldDefinedIff(nrBits: nat, offset: nat)
    requires offset < 8 && nrBits < 0x8000
    ensures ShiftsDefined((128 - (offset + nrBits)) % 0x1_0000, (128 - nrBits) % 0x1_0000) <==>
      0 < nrBits && offset + nrBits <= 127
  {
  }

  /** The data is little-endian: byte k holds the bits from 8 * k on. */
  lemma LeByte(data: seq<Byte>, k: nat)
    requires k < |data|
    ensures Le(data) / Pow2(8 * k) % 256 == data[k]
  {
    SkipBytes(data, k, 0);
    assert data[k..][0] == data[k];
    assert Pow2(0) == 1;
    LowByte(data[k], Le(data[k..][1..]));
  }

  lemma LowByte(c: nat, x: nat)
    requires c < 256
    ensures (c + 256 * x) % 256 == c
  {
  }

  /** As many bytes as hold the bits, and no more. */
  lemma RoundUpBytesIs(bits: nat)
    ensures bits <= 8 * RoundUpBytes(bits) < bits + 8
  {
  }

  /** Two inputs outside the range: 121 bits behind seven others, and all 128 bits. */
  lemma UndefinedFields()
    ensures !ShiftsDefined((128 - (7 + 121)) % 0x1_0000, (128 - 121) % 0x1_0000)
    ensures !ShiftsDefined((128 - (0 + 128)) % 0x1_0000, (128 - 128) % 0x1_0000)
  {
    BitfieldDefinedIff(121, 7);
    BitfieldDefinedIff(128, 0);
  }

  // ----- printing -----

  function HexDigit(d: nat): char
    requires d < 16
  {
    ['0', '1', '2', '3', '4', '5', '6', '7', '8', '9', 'a', 'b', 'c', 'd', 'e', 'f'][d]
  }

  /** "%llx", for any width. */
  function Hex(n: nat): string { if n < 16 then [HexDigit(n)] else Hex(n / 16) + [HexDigit(n % 16)] }

  /** The last k hex digits, with leading zeros: "%016llx" for k = 16 and a 64-bit value. */
  function HexPadded(n: nat, k: nat): string {
    if k == 0 then [] else HexPadded(n / 16, k - 1) + [HexDigit(n % 16)]
  }

  function HexDigitValue(c: char): nat {
    if '0' <= c <= '9' then (c as int) - ('0' as int)
    else if 'a' <= c <= 'f' then (c as int) - ('a' as int) + 10
    else 0
  }

  function HexValue(s: string): nat {
    if s == [] then 0 else HexValue(s[..|s| - 1]) * 16 + HexDigitValue(s[|s| - 1])
  }

  lemma AppendDigit(s: string, d: nat)
    requires d < 16
    ensures HexValue(s + [HexDigit(d)]) == HexValue(s) * 16 + d
  {
    assert (s + [HexDigit(d)])[..|s|] == s;
    HexDigitIs(d);
  }

  lemma HexDigitIs(d: nat)
    requires d < 16
    ensures HexDigitValue(HexDigit(d)) == d
  {
  }

  /** The digits denote the number. */
  lemma {:induction false} HexDenotes(n: nat)
    ensures HexValue(Hex(n)) == n
  {
    if n < 16 {
      AppendDigit([], n);
      assert [] + [HexDigit(n)] == [HexDigit(n)];
    } else {
      HexDenotes(n / 16);
      AppendDigit(Hex(n / 16), n % 16);
    }
  }

  function Pow16(k: nat): (p: nat)
    ensures p > 0
  {
    if k == 0 then 1 else 16 * Pow16(k - 1)
  }

  /** The upper number's digits followed by the padded lower number's are the digits of the whole. */
  lemma {:induction false} HexJoined(upper: nat, lower: nat, k: nat)
    requires upper > 0 && lower < Pow16(k)
    ensures Hex(upper) + HexPadded(lower, k) == Hex(upper * Pow16(k) + lower)
  {
    if k == 0 {
      assert Hex(upper) + [] == Hex(upper);
    } else {
      var p := Pow16(k - 1);
      var n := upper * Pow16(k) + lower;
      TimesAssoc(upper, 16, p);
      TimesSwap(upper, 16, p);
      DivModUnique(n, 16, upper * p + lower / 16, lower % 16);
      MulUp(1, upper, p);
      HexJoined(upper, lower / 16, k - 1);
      assert Hex(upper) + HexPadded(lower, k) == (Hex(upper) + HexPadded(lower / 16, k - 1)) + [HexDigit(lower % 16)];
    }
  }

  lemma {:induction false} Pow16Is(k: nat)
    ensures Pow16(k) == Pow2(4 * k)
  {
    if k > 0 {
      Pow16Is(k - 1);
      Pow2Add(4, 4 * (k - 1));
    }
  }

  function Quote(s: string, isPlainText: bool): string { if isPlainText then s else "\"" + s + "\"" }

  /** A number as it appears: 0x and its digits, between quotation marks unless the output is plain text. */
  function Printed(n: nat, isPlainText: bool): string {
    if isPlainText then "0x" + Hex(n) else ['"', '0', 'x'] + Hex(n) + ['"']
  }

  lemma QuoteIs(n: nat, isPlainText: bool)
    ensures Quote("0x" + Hex(n), isPlainText) == Printed(n, isPlainText)
  {
    assert "\"" + ("0x" + Hex(n)) + "\"" == ['"', '0', 'x'] + Hex(n) + ['"'];
  }

  /** btf_int128_print: the hex digits of the 128-bit number. */
  method BtfInt128Print(printNum: array<nat>, isPlainText: bool) returns (text: string)
    requires printNum.Length == 2 && IsWord(printNum[0]) && IsWord(printNum[1])
    ensures text == Printed(Wide(printNum[1], printNum[0]), isPlainText)
  {
    var upper, lower := printNum[1], printNum[0];
    WideDigits(upper, lower);
    QuoteIs(Wide(upper, lower), isPlainText);
    if upper == 0 {
      text := Quote("0x" + Hex(lower), isPlainText);
    } else {
      text := Quote("0x" + Hex(upper) + HexPadded(lower, 16), isPlainText);
    }
  }

  /** What is printed are the digits of both words as one number. */
  lemma WideDigits(upper: nat, lower: nat)
    requires IsWord(lower)
    ensures upper == 0 ==> Wide(upper, lower) == lower
    ensures upper > 0 ==> "0x" + Hex(upper) + HexPadded(lower, 16) == "0x" + Hex(Wide(upper, lower))
  {
    Pow16Is(16);
    Pow64();
    if upper > 0 {
      HexJoined(upper, lower, 16);
      assert "0x" + Hex(upper) + HexPadded(lower, 16) == "0x" + (Hex(upper) + HexPadded(lower, 16));
    }
  }

  // ----- the dumpers -----

  /** memcpy of n bytes over two zero words. */
  method CopyWords(data: seq<Byte>, n: nat) returns (printNum: array<nat>)
    requires n <= |data| && n <= 16
    ensures fresh(printNum) && printNum.Length == 2 && IsWord(printNum[0]) && IsWord(printNum[1])
    ensures Wide(printNum[1], printNum[0]) == Le(data[..n])
  {
    var zeros: seq<Byte> := seq(16 - n, _ => 0);
    var bytes := data[..n] + zeros;
    printNum := new nat[2];
    printNum[0] := Le(bytes[..8]);
    printNum[1] := Le(bytes[8..]);
    Pow64();
    LeBound(bytes[..8]);
    LeBound(bytes[8..]);
    LeSplit(bytes[..8], bytes[8..]);
    assert bytes[..8] + bytes[8..] == bytes;
    LeSplit(data[..n], zeros);
    LeZeros(16 - n);
  }

  /** Prints the nrBits bits from bit `bitOffset` of the data, reading no more bytes than hold them. */
  method BtfDumperBitfield(nrBits: nat, bitOffset: nat, data: seq<Byte>, isPlainText: bool) returns (text: string)
    requires 0 < nrBits && bitOffset + nrBits <= 127 && bitOffset < 8
    requires bitOffset + nrBits <= 8 * |data|
    ensures text == Printed(Le(data) / Pow2(bitOffset) % Pow2(nrBits), isPlainText)
  {
    var bitsToCopy := bitOffset + nrBits;
    var bytesToCopy := RoundUpBytes(bitsToCopy);
    var printNum := CopyWords(data, bytesToCopy);
    BtfInt128Shift(printNum, 128 - bitsToCopy, 128 - nrBits);
    ShiftsExtract(Le(data[..bytesToCopy]), bitOffset, nrBits);
    EnoughBytes(data, bytesToCopy, bitOffset, nrBits);
    text := BtfInt128Print(printNum, isPlainText);
  }

  /** BTF_INT_BITS and BTF_INT_OFFSET of an integer type word. */
  function BtfIntBits(intType: nat): nat { intType % 0x100 }

  function BtfIntOffset(intType: nat): nat { intType / 0x1_0000 % 0x100 }

  /** The member's offset and the type's own offset add up. */
  method BtfDumperIntBits(intType: nat, bitOffset: nat, data: seq<Byte>, isPlainText: bool) returns (text: string)
    requires 0 < intType % 256 && (bitOffset + intType / 65536 % 256) % 8 + intType % 256 <= 127
    requires bitOffset + intType / 65536 % 256 + intType % 256 <= 8 * |data|
    ensures var bits, offset := intType % 256, bitOffset + intType / 65536 % 256;
      text == Printed(Le(data) / Pow2(offset) % Pow2(bits), isPlainText)
  {
    var total := bitOffset + BtfIntOffset(intType);
    SkipBits(data, total);
    RoundUpSplit(total, BtfIntBits(intType));
    var rest := data[total / 8..];
    text := BtfDumperBitfield(BtfIntBits(intType), total % 8, rest, isPlainText);
  }
}
