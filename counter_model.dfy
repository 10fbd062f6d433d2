/**
 * `CounterModel` of the scale emulator: the counters the C8 command asks for.
 * Only counters 4 and 8 exist, each with a fixed value; `GetCounterBCD` packs
 * the value's ten-digit text into five BCD bytes, least significant pair first.
 */
module Counters {
  import opened Bytes
  import opened Bcd

  /** The value of a counter: 51200 for counter 4, 75 for counter 8, none for any other index. */
  function CounterValue(counterIndex: int): (v: Option<nat>)
    ensures v.Some? <==> counterIndex == 4 || counterIndex == 8
    ensures v.Some? ==> v.value < Pow10(10)
  {
    assert Pow10(10) == 10000000000;
    if counterIndex == 4 then Some(51200)
    else if counterIndex == 8 then Some(75)
    else None
  }

  /** `value.ToString("D10")` packed by the loop of `GetCounterBCD`: five bytes, byte `i` from characters `(4-i)*2` and `(4-i)*2+1`. */
  function Pack10(v: nat): (bs: seq<byte>)
    requires v < Pow10(10)
    ensures |bs| == 5
  {
    PackPairs(FormatD(v, 10), 5)
  }

  /** `Pack10` is the five-byte BCD encoding of its argument, so decoding it gives the argument back. */
  lemma Pack10Encodes(v: nat)
    requires v < Pow10(10)
    ensures Pack10(v) == EncodeBcd(v, 5)
    ensures AllBcd(Pack10(v)) && DecodeBcd(Pack10(v)) == v
  {
    PackPairsEncode(v, 5);
    DecodeEncode(v, 5);
  }

  /** Two values with the same packing are the same value. */
  lemma Pack10Injective(v: nat, w: nat)
    requires v < Pow10(10) && w < Pow10(10)
    requires Pack10(v) == Pack10(w)
    ensures v == w
  {
    Pack10Encodes(v);
    Pack10Encodes(w);
  }

  /** What `GetCounterBCD(counterIndex)` returns. */
  function CounterBcd(counterIndex: int): seq<byte>
  {
    match CounterValue(counterIndex)
    case Some(v) => Pack10(v)
    case None => []
  }

  /** Counters 4 and 8 give five BCD bytes that decode to their value; every other index gives nothing. */
  lemma CounterBcdShape(counterIndex: int)
    ensures |CounterBcd(counterIndex)| == 5 <==> counterIndex == 4 || counterIndex == 8
    ensures CounterBcd(counterIndex) == [] <==> counterIndex != 4 && counterIndex != 8
    ensures CounterValue(counterIndex).Some? ==>
      var v := CounterValue(counterIndex).value;
      CounterBcd(counterIndex) == EncodeBcd(v, 5) && AllBcd(CounterBcd(counterIndex)) && DecodeBcd(CounterBcd(counterIndex)) == v
  {
    if CounterValue(counterIndex).Some? {
      Pack10Encodes(CounterValue(counterIndex).value);
    }
  }


  lemma EncodeFive()
    ensures EncodeBcd(5, 3) == [0x05, 0x00, 0x00]
  {
    assert PairByte(0) == 0x00 && PairByte(5) == 0x05;
    assert EncodeBcd(0, 2) == [0x00, 0x00];
  }

  lemma EncodeFiveTwelve()
    ensures EncodeBcd(512, 4) == [0x12, 0x05, 0x00, 0x00]
  {
    EncodeFive();
    assert PairByte(12) == 0x12;
  }

  lemma EncodeSeventyFive()
    ensures EncodeBcd(75, 5) == [0x75, 0x00, 0x00, 0x00, 0x00]
  {
    assert PairByte(0) == 0x00 && PairByte(75) == 0x75;
    assert EncodeBcd(0, 4) == [0x00, 0x00, 0x00, 0x00];
  }

  /** Counter 4 packs 0000051200 as 00 12 05 00 00. */
  lemma CounterFourBcd(counterIndex: int)
    requires counterIndex == 4
    ensures CounterBcd(counterIndex) == [0x00, 0x12, 0x05, 0x00, 0x00]
  {
    CounterBcdShape(counterIndex);
    EncodeFiveTwelve();
    assert PairByte(0) == 0x00;
  }

  /** Counter 8 packs 0000000075 as 75 00 00 00 00. */
  lemma CounterEightBcd(counterIndex: int)
    requires counterIndex == 8
    ensures CounterBcd(counterIndex) == [0x75, 0x00, 0x00, 0x00, 0x00]
  {
    CounterBcdShape(counterIndex);
    EncodeSeventyFive();
  }

  /** The packing loop of `GetCounterBCD` on the text of `value`. */
  method PackCounter(value: nat) returns (result: array<byte>)
    requires value < Pow10(10)
    ensures fresh(result)
    ensures result[..] == Pack10(value)
  {
    var s := FormatD(value, 10);
    result := new byte[5];
    for i := 0 to 5
      invariant forall j :: 0 <= j < i ==> result[j] == PackDigits(s[(4 - j) * 2], s[(4 - j) * 2 + 1])
    {
      var highIndex := (4 - i) * 2;
      var lowIndex := highIndex + 1;
      result[i] := PackDigits(s[highIndex], s[lowIndex]);
    }
    assert result[..] == PackPairs(s, 5);
  }

  class CounterModel {
    /** `TotalWeight`: kept by the model, read by nothing in it. */
    var totalWeight: real

    /** The implicit constructor: `TotalWeight` starts at 0. */
    constructor()
      ensures totalWeight == 0.0
    {
      totalWeight := 0.0;
    }

    /** `GetCounterBCD`: a fresh array every call, independent of `totalWeight`. */
    method GetCounterBcd(counterIndex: int) returns (result: array<byte>)
      ensures fresh(result)
      ensures result[..] == CounterBcd(counterIndex)
    {
      if counterIndex == 4 {
        var value := 51200;
        result := PackCounter(value);
      } else if counterIndex == 8 {
        var value := 75;
        result := PackCounter(value);
      } else {
        result := new byte[0];
      }
    }
  }
}
