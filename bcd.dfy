/**
 * Packed binary-coded decimal as the scale protocol uses it: two decimal digits
 * per byte, the tens digit in the high nibble, pairs of digits stored least
 * significant pair first. The packers of the C# code (`ConvertWeightToBCD` in
 * SerialPortService and `GetCounterBCD` in CounterModel) go through the text
 * of `ToString("D<w>")`; the text is modelled here, and the arithmetic reading
 * (`EncodeBcd`/`DecodeBcd`) is the reference it is proved against.
 */
module Bcd {
  import opened Bytes

  function Pow10(k: nat): (p: nat)
    ensures 1 <= p
  {
    if k == 0 then 1 else 10 * Pow10(k - 1)
  }

  lemma {:induction false} Pow10Monotone(a: nat, b: nat)
    requires a <= b
    ensures Pow10(a) <= Pow10(b)
    decreases b
  {
    if a < b {
      Pow10Monotone(a, b - 1);
    }
  }

  // ---------------------------------------------------------------------------
  // Decimal text

  predicate IsDigit(c: char)
  {
    '0' <= c <= '9'
  }

  predicate AllDigits(s: seq<char>)
  {
    forall i :: 0 <= i < |s| ==> IsDigit(s[i])
  }

  function DigitChar(d: nat): (c: char)
    requires d < 10
    ensures IsDigit(c)
  {
    ('0' as int + d) as char
  }

  /** `c - '0'` for a digit character. */
  function DigitValue(c: char): (d: nat)
    requires IsDigit(c)
    ensures d < 10
    ensures DigitChar(d) == c
  {
    c as int - '0' as int
  }

  lemma DigitValueOfChar(d: nat)
    requires d < 10
    ensures DigitValue(DigitChar(d)) == d
  {
  }

  /** Digit `j` of `n`, counted from the least significant end. */
  function DigitAt(n: nat, j: nat): (d: nat)
    ensures d < 10
  {
    if j == 0 then n % 10 else DigitAt(n / 10, j - 1)
  }

  /** `n` with its `k` least significant digits removed, i.e. `n / 10^k`. */
  function DropDigits(n: nat, k: nat): nat
  {
    if k == 0 then n else DropDigits(n / 10, k - 1)
  }

  /** `n.ToString()` for `n >= 0`: its decimal digits, most significant first, without leading zeros. */
  function Decimal(n: nat): (s: seq<char>)
    ensures 1 <= |s|
    ensures AllDigits(s)
  {
    if n < 10 then [DigitChar(n)] else Decimal(n / 10) + [DigitChar(n % 10)]
  }

  /** `n.ToString("D" + w)`: the decimal digits of `n`, padded with '0' on the left to at least `w` characters. */
  function FormatD(n: nat, w: nat): (s: seq<char>)
    ensures w <= |s| && |Decimal(n)| <= |s|
    ensures AllDigits(s)
  {
    var d := Decimal(n);
    if |d| < w then seq(w - |d|, _ => '0') + d else d
  }

  /** The text of `n` fits in `w` characters exactly when `n < 10^w`. */
  lemma {:induction false} DecimalLength(n: nat, w: nat)
    requires 1 <= w
    ensures |Decimal(n)| <= w <==> n < Pow10(w)
    decreases n
  {
    if n < 10 {
      Pow10Monotone(1, w);
    } else if w == 1 {
    } else {
      DecimalLength(n / 10, w - 1);
    }
  }

  /** Every digit of `n` at or above position `j` is 0 when `n < 10^j`. */
  lemma {:induction false} DigitAtSmall(n: nat, j: nat)
    requires n < Pow10(j)
    ensures DigitAt(n, j) == 0
    decreases j
  {
    if j > 0 {
      DigitAtSmall(n / 10, j - 1);
    }
  }

  /** Reading the text of `n` from the right gives its digits, least significant first. */
  lemma {:induction false} DecimalDigit(n: nat, j: nat)
    requires j < |Decimal(n)|
    ensures Decimal(n)[|Decimal(n)| - 1 - j] == DigitChar(DigitAt(n, j))
    decreases n
  {
    if n >= 10 && j > 0 {
      DecimalDigit(n / 10, j - 1);
    }
  }

  /** The same holds for the zero-padded text, the padding standing for digits that are 0. */
  lemma FormatDigit(n: nat, w: nat, j: nat)
    requires j < |FormatD(n, w)|
    ensures FormatD(n, w)[|FormatD(n, w)| - 1 - j] == DigitChar(DigitAt(n, j))
  {
    var d := Decimal(n);
    if j < |d| {
      DecimalDigit(n, j);
    } else {
      DecimalLength(n, j);
      DigitAtSmall(n, j);
    }
  }

  /** The leading `m` characters of the text of `n` are the text of `n` without its other digits. */
  lemma {:induction false} DecimalPrefix(n: nat, m: nat)
    requires 1 <= m <= |Decimal(n)|
    ensures Decimal(n)[..m] == Decimal(DropDigits(n, |Decimal(n)| - m))
    decreases n
  {
    if m < |Decimal(n)| {
      DecimalPrefix(n / 10, m);
    }
  }

  // ---------------------------------------------------------------------------
  // Packed pairs

  /** `(byte)((hi << 4) | lo)`. */
  function Nibbles(hi: nat, lo: nat): byte
    requires hi < 16 && lo < 16
  {
    ((hi as byte) << 4) | (lo as byte)
  }

  function HighNibble(b: byte): nat
  {
    (b >> 4) as nat
  }

  function LowNibble(b: byte): nat
  {
    (b & 0x0F) as nat
  }

  lemma NibblesRoundTrip(hi: nat, lo: nat)
    requires hi < 16 && lo < 16
    ensures HighNibble(Nibbles(hi, lo)) == hi && LowNibble(Nibbles(hi, lo)) == lo
  {
  }

  lemma NibblesOf(b: byte)
    ensures HighNibble(b) < 16 && LowNibble(b) < 16
    ensures Nibbles(HighNibble(b), LowNibble(b)) == b
  {
  }

  /** `(byte)(((hi - '0') << 4) | (lo - '0'))`: two digit characters in one byte. */
  function PackDigits(hi: char, lo: char): byte
    requires IsDigit(hi) && IsDigit(lo)
  {
    Nibbles(DigitValue(hi), DigitValue(lo))
  }

  /** A byte both of whose nibbles are decimal digits. */
  predicate IsBcdByte(b: byte)
  {
    HighNibble(b) <= 9 && LowNibble(b) <= 9
  }

  predicate AllBcd(bs: seq<byte>)
  {
    forall i :: 0 <= i < |bs| ==> IsBcdByte(bs[i])
  }

  /** The number 0..99 a BCD byte stands for. */
  function PairValue(b: byte): nat
  {
    HighNibble(b) * 10 + LowNibble(b)
  }

  /** The BCD byte of a number 0..99. */
  function PairByte(p: nat): byte
    requires p < 100
  {
    Nibbles(p / 10, p % 10)
  }

  lemma PairRoundTrip(p: nat)
    requires p < 100
    ensures IsBcdByte(PairByte(p)) && PairValue(PairByte(p)) == p
  {
    NibblesRoundTrip(p / 10, p % 10);
  }

  lemma PairValueRoundTrip(b: byte)
    requires IsBcdByte(b)
    ensures PairValue(b) < 100 && PairByte(PairValue(b)) == b
  {
    NibblesOf(b);
  }

  /** Reference decoding: `sum of (hi * 10 + lo) * 100^i`, byte `i` holding the `i`-th pair from the right. */
  function DecodeBcd(bs: seq<byte>): nat
  {
    if bs == [] then 0 else PairValue(bs[0]) + 100 * DecodeBcd(bs[1..])
  }

  /** Reference encoding: the `k` least significant pairs of digits of `v`, least significant first. */
  function EncodeBcd(v: nat, k: nat): (bs: seq<byte>)
    ensures |bs| == k
  {
    if k == 0 then [] else [PairByte(v % 100)] + EncodeBcd(v / 100, k - 1)
  }

  /** Encoding a number of at most `2k` digits in `k` bytes gives BCD bytes that decode to it. */
  lemma {:induction false} DecodeEncode(v: nat, k: nat)
    requires v < Pow10(2 * k)
    ensures AllBcd(EncodeBcd(v, k))
    ensures DecodeBcd(EncodeBcd(v, k)) == v
    decreases k
  {
    if k > 0 {
      assert Pow10(2 * k) == 100 * Pow10(2 * (k - 1));
      DecodeEncode(v / 100, k - 1);
      PairRoundTrip(v % 100);
      var bs := EncodeBcd(v, k);
      assert bs[1..] == EncodeBcd(v / 100, k - 1);
    }
  }

  /** Conversely every sequence of BCD bytes is the encoding of the number it decodes to. */
  lemma {:induction false} EncodeDecode(bs: seq<byte>)
    requires AllBcd(bs)
    ensures DecodeBcd(bs) < Pow10(2 * |bs|)
    ensures EncodeBcd(DecodeBcd(bs), |bs|) == bs
    decreases |bs|
  {
    if bs != [] {
      EncodeDecode(bs[1..]);
      PairValueRoundTrip(bs[0]);
      var v := DecodeBcd(bs);
      assert v % 100 == PairValue(bs[0]) && v / 100 == DecodeBcd(bs[1..]);
      assert Pow10(2 * |bs|) == 100 * Pow10(2 * (|bs| - 1));
    }
  }

  /** Byte `i` of the encoding holds digits `2i + 1` (high nibble) and `2i` (low nibble). */
  lemma {:induction false} EncodeDigits(v: nat, k: nat, i: nat)
    requires i < k
    ensures EncodeBcd(v, k)[i] == Nibbles(DigitAt(v, 2 * i + 1), DigitAt(v, 2 * i))
    decreases i
  {
    if i == 0 {
      assert (v % 100) / 10 == (v / 10) % 10;
    } else {
      EncodeDigits(v / 100, k - 1, i - 1);
      assert v / 10 / 10 == v / 100;
    }
  }

  /**
   * The packing loop of `GetCounterBCD` and `ConvertWeightToBCD`: byte `i` takes the characters at `(k-1-i)*2`
   * and `(k-1-i)*2 + 1`, so the last pair of characters lands in byte 0.
   */
  function PackPairs(s: seq<char>, k: nat): (bs: seq<byte>)
    requires 2 * k <= |s| && AllDigits(s)
    ensures |bs| == k
  {
    seq(k, i requires 0 <= i < k => PackDigits(s[(k - 1 - i) * 2], s[(k - 1 - i) * 2 + 1]))
  }

  /** Packing the `2k`-character text of `v` is the arithmetic encoding of `v`. */
  lemma PackPairsEncode(v: nat, k: nat)
    requires 1 <= k && v < Pow10(2 * k)
    ensures |FormatD(v, 2 * k)| == 2 * k
    ensures PackPairs(FormatD(v, 2 * k), k) == EncodeBcd(v, k)
  {
    var s := FormatD(v, 2 * k);
    DecimalLength(v, 2 * k);
    forall i | 0 <= i < k
      ensures PackPairs(s, k)[i] == EncodeBcd(v, k)[i]
    {
      var hi, lo := DigitAt(v, 2 * i + 1), DigitAt(v, 2 * i);
      FormatDigit(v, 2 * k, 2 * i + 1);
      FormatDigit(v, 2 * k, 2 * i);
      assert s[(k - 1 - i) * 2] == DigitChar(hi) && s[(k - 1 - i) * 2 + 1] == DigitChar(lo) by {
        assert |s| - 1 - (2 * i + 1) == (k - 1 - i) * 2;
      }
      DigitValueOfChar(hi);
      DigitValueOfChar(lo);
      assert PackPairs(s, k)[i] == PackDigits(s[(k - 1 - i) * 2], s[(k - 1 - i) * 2 + 1]);
      assert PackDigits(DigitChar(hi), DigitChar(lo)) == Nibbles(hi, lo);
      EncodeDigits(v, k, i);
    }
  }

  // ---------------------------------------------------------------------------
  // Weight

  /**
   * `ConvertWeightToBCD` from the integer number of tenths: the first six
   * characters of `ToString("D6")`, packed pair by pair from the right.
   */
  function WeightBcd(tenths: nat): (bs: seq<byte>)
    ensures |bs| == 3
  {
    PackPairs(FormatD(tenths, 6), 3)
  }

  /** Up to 999999 tenths the three bytes are the BCD encoding of the value. */
  lemma WeightBcdEncodes(tenths: nat)
    requires tenths < Pow10(6)
    ensures WeightBcd(tenths) == EncodeBcd(tenths, 3)
    ensures AllBcd(WeightBcd(tenths)) && DecodeBcd(WeightBcd(tenths)) == tenths
    ensures WeightBcd(tenths) == [PairByte(tenths % 100), PairByte(tenths / 100 % 100), PairByte(tenths / 10000)]
  {
    PackPairsEncode(tenths, 3);
    DecodeEncode(tenths, 3);
    EncodeThree(tenths);
  }

  lemma EncodeThree(v: nat)
    requires v < Pow10(6)
    ensures EncodeBcd(v, 3) == [PairByte(v % 100), PairByte(v / 100 % 100), PairByte(v / 10000)]
  {
    var r := v / 100;
    var q := r / 100;
    assert Pow10(6) == 1000000;
    assert q == v / 10000 && q < 100;
    assert q % 100 == q;
    assert EncodeBcd(q, 1) == [PairByte(q % 100)] + EncodeBcd(q / 100, 0);
    assert EncodeBcd(r, 2) == [PairByte(r % 100)] + EncodeBcd(q, 1);
    assert EncodeBcd(v, 3) == [PairByte(v % 100)] + EncodeBcd(r, 2);
  }

  /** 12.3 kg, 123 tenths, is sent as 23 01 00. */
  lemma WeightBcdExample(tenths: nat)
    requires tenths == 123
    ensures WeightBcd(tenths) == [0x23, 0x01, 0x00]
  {
    assert Pow10(6) == 1000000;
    WeightBcdEncodes(tenths);
    EncodeOneTwentyThree();
  }

  lemma EncodeOneTwentyThree()
    ensures EncodeBcd(123, 3) == [0x23, 0x01, 0x00]
  {
    assert PairByte(0) == 0x00 && PairByte(1) == 0x01 && PairByte(23) == 0x23;
    assert EncodeBcd(1, 2) == [0x01, 0x00];
  }

  /**
   * From 1000000 tenths on, the text is longer than six characters and its
   * leading six are packed: the value loses its low digits, not its high ones.
   */
  lemma WeightBcdTruncates(tenths: nat)
    requires Pow10(6) <= tenths
    ensures 6 < |Decimal(tenths)|
    ensures var kept := DropDigits(tenths, |Decimal(tenths)| - 6);
      Pow10(5) <= kept < Pow10(6) && WeightBcd(tenths) == EncodeBcd(kept, 3)
  {
    var d := Decimal(tenths);
    DecimalLength(tenths, 6);
    var kept := DropDigits(tenths, |d| - 6);
    DecimalPrefix(tenths, 6);
    DecimalLength(kept, 6);
    DecimalLength(kept, 5);
    assert FormatD(kept, 6) == d[..6];
    assert WeightBcd(tenths) == PackPairs(d[..6], 3);
    PackPairsEncode(kept, 3);
  }

  /** `ConvertWeightToBCD`, from the integer number of tenths. */
  method ConvertWeightToBcd(tenths: nat) returns (result: array<byte>)
    ensures fresh(result)
    ensures result[..] == WeightBcd(tenths)
  {
    var s := FormatD(tenths, 6);
    result := new byte[3];
    result[0] := PackDigits(s[4], s[5]);
    result[1] := PackDigits(s[2], s[3]);
    result[2] := PackDigits(s[0], s[1]);
  }
}
