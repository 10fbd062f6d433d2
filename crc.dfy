/**
 * The one-byte checksum of the scale protocol (`CRCMaker` and `CalcCRC` of
 * SerialPortService). Each input byte is rotated left eight times; the bit that
 * leaves its top is shifted into the bottom of the accumulator, and whenever the
 * accumulator's own top bit falls out, the accumulator is XORed with 0x69.
 */
module Crc {
  import opened Bytes

  /** `((x & 0x80) != 0) ? 1 : 0`: the bit that a left shift of `x` pushes out. */
  function Carry(x: byte): byte
  {
    x >> 7
  }

  /** The mask XORed into the accumulator after a shift: 0x69 when its top bit fell out. */
  function Feedback(crc: byte): byte
  {
    if Carry(crc) == 1 then 0x69 else 0
  }

  /** One step of the accumulator: shift left, take `bit` in at the bottom, reduce by 0x69. */
  function Shift(crc: byte, bit: byte): byte
  {
    ((crc << 1) | bit) ^ Feedback(crc)
  }

  /** One step of the working copy of the input byte: rotate left by one. */
  function Rotate(x: byte): byte
  {
    (x << 1) | Carry(x)
  }

  /** The working copy of the input byte after `k` passes of the loop in `CRCMaker`. */
  function Working(b: byte, k: nat): byte
  {
    if k == 0 then b else Rotate(Working(b, k - 1))
  }

  /** The accumulator after `k` passes of the loop in `CRCMaker`, started from `crc`. */
  function Acc(b: byte, crc: byte, k: nat): byte
  {
    if k == 0 then crc else Shift(Acc(b, crc, k - 1), Carry(Working(b, k - 1)))
  }

  /** `CRCMaker(b, crc)`: the accumulator after all eight passes. */
  function CrcByte(b: byte, crc: byte): byte
  {
    Acc(b, crc, 8)
  }

  /** The accumulator step spelled out as the statements of the loop body. */
  lemma ShiftUnfolded(c: byte, bit: byte)
    ensures Shift(c, bit) == if Carry(c) == 1 then ((c << 1) | bit) ^ 0x69 else (c << 1) | bit
  {
  }

  /** `CRCMaker`, written with its loop. */
  method CrcMaker(bInput: byte, bCrc: byte) returns (r: byte)
    ensures r == CrcByte(bInput, bCrc)
  {
    var b, c := bInput, bCrc;
    for i := 0 to 8
      invariant b == Working(bInput, i)
      invariant c == Acc(bInput, bCrc, i)
    {
      ShiftUnfolded(c, Carry(b));
      var cfInput := Carry(b);
      b := (b << 1) | cfInput;
      var cfCrc := Carry(c);
      c := (c << 1) | cfInput;
      if cfCrc == 1 {
        c := c ^ 0x69;
      }
    }
    r := c;
  }

  /** The left fold of `CrcByte` over `data`, starting from accumulator `acc`. */
  function Fold(acc: byte, data: seq<byte>): byte
    decreases |data|
  {
    if data == [] then acc else Fold(CrcByte(data[0], acc), data[1..])
  }

  /** `CalcCRC(data)`: the fold started from 0. */
  function Checksum(data: seq<byte>): byte
  {
    Fold(0, data)
  }

  /** Appending a byte adds one more `CRCMaker` step to the fold. */
  lemma {:induction false} FoldAppend(acc: byte, xs: seq<byte>, b: byte)
    ensures Fold(acc, xs + [b]) == CrcByte(b, Fold(acc, xs))
    decreases |xs|
  {
    if xs != [] {
      assert (xs + [b])[1..] == xs[1..] + [b];
      FoldAppend(CrcByte(xs[0], acc), xs[1..], b);
    }
  }

  /** The checksum of the empty sequence and of a sequence extended by one byte. */
  lemma ChecksumFold(xs: seq<byte>, b: byte)
    ensures Checksum([]) == 0
    ensures Checksum(xs + [b]) == CrcByte(b, Checksum(xs))
  {
    FoldAppend(0, xs, b);
  }

  /** `CalcCRC`, written with its `foreach` loop over the array. */
  method CalcCrc(data: array<byte>) returns (crc: byte)
    ensures crc == Checksum(data[..])
  {
    crc := 0;
    for i := 0 to data.Length
      invariant crc == Checksum(data[..i])
    {
      assert data[..i + 1] == data[..i] + [data[i]];
      FoldAppend(0, data[..i], data[i]);
      crc := CrcMaker(data[i], crc);
    }
    assert data[..] == data[..data.Length];
  }

  /** `CRCMaker(0, 0) == 0`: a zero byte leaves a zero accumulator at zero. */
  lemma CrcByteOfZero()
    ensures CrcByte(0, 0) == 0
  {
    assert Acc(0, 0, 4) == 0;
  }

  /** Folding any all-zero message from a zero accumulator keeps it zero. */
  lemma {:induction false} ChecksumOfZeros(z: seq<byte>)
    requires forall i :: 0 <= i < |z| ==> z[i] == 0
    ensures Checksum(z) == 0
    decreases |z|
  {
    if z != [] {
      CrcByteOfZero();
      ChecksumOfZeros(z[1..]);
    }
  }

  // ---------------------------------------------------------------------------
  // Reference reading: the accumulator is a shift register that takes in the
  // message bit by bit, most significant bit of each byte first, and reduces
  // by 0x69 whenever its top bit leaves. The bit that enters is the bit of the
  // message, not the bit that left the accumulator; seen this way the checksum
  // is the remainder of the message, read as a polynomial over GF(2), modulo
  // x^8 + x^6 + x^5 + x^3 + 1 (0x169).

  /** Bit `i` of `b` counted from the most significant end, as 0 or 1. */
  function MsbBit(b: byte, i: nat): byte
    requires i < 8
  {
    (b >> (7 - i)) & 1
  }

  /** The eight bits of `b`, most significant first. */
  function MsbBits(b: byte): (bits: seq<byte>)
    ensures |bits| == 8
  {
    seq(8, i requires 0 <= i < 8 => MsbBit(b, i))
  }

  /** The bits of a message: each byte's bits, most significant first, bytes in order. */
  function MessageBits(data: seq<byte>): seq<byte>
  {
    if data == [] then [] else MsbBits(data[0]) + MessageBits(data[1..])
  }

  /** The shift register after taking in `bits` one after another. */
  function FeedBits(crc: byte, bits: seq<byte>): byte
    decreases |bits|
  {
    if bits == [] then crc else FeedBits(Shift(crc, bits[0]), bits[1..])
  }

  lemma {:induction false} FeedBitsConcat(crc: byte, xs: seq<byte>, ys: seq<byte>)
    ensures FeedBits(crc, xs + ys) == FeedBits(FeedBits(crc, xs), ys)
    decreases |xs|
  {
    if xs == [] {
      assert xs + ys == ys;
    } else {
      assert (xs + ys)[1..] == xs[1..] + ys;
      FeedBitsConcat(Shift(crc, xs[0]), xs[1..], ys);
    }
  }

  lemma FeedBitsAppend(crc: byte, xs: seq<byte>, x: byte)
    ensures FeedBits(crc, xs + [x]) == Shift(FeedBits(crc, xs), x)
  {
    FeedBitsConcat(crc, xs, [x]);
    assert [x][1..] == [];
  }

  /** After `k` passes the working copy is the input byte rotated left `k` places. */
  lemma {:induction false} WorkingIsRotation(b: byte, k: nat)
    requires k <= 8
    ensures Working(b, k) == b.RotateLeft(k)
  {
    if k > 0 {
      WorkingIsRotation(b, k - 1);
      if k == 1 {} else if k == 2 {} else if k == 3 {} else if k == 4 {}
      else if k == 5 {} else if k == 6 {} else if k == 7 {} else {}
    }
  }

  /** So the bit taken in on pass `k + 1` is bit `k` of the input counted from the top. */
  lemma WorkingTop(b: byte, k: nat)
    requires k < 8
    ensures Carry(Working(b, k)) == MsbBit(b, k)
  {
    WorkingIsRotation(b, k);
    if k == 0 {} else if k == 1 {} else if k == 2 {} else if k == 3 {}
    else if k == 4 {} else if k == 5 {} else if k == 6 {} else {}
  }

  /** After `k` passes the accumulator has taken in the top `k` bits of the input byte. */
  lemma {:induction false} AccAsBits(b: byte, crc: byte, k: nat)
    requires k <= 8
    ensures Acc(b, crc, k) == FeedBits(crc, MsbBits(b)[..k])
  {
    if k > 0 {
      AccAsBits(b, crc, k - 1);
      var bits := MsbBits(b);
      WorkingTop(b, k - 1);
      assert bits[..k] == bits[..k - 1] + [bits[k - 1]];
      FeedBitsAppend(crc, bits[..k - 1], bits[k - 1]);
    }
  }

  /** `CRCMaker(b, crc)` shifts the eight bits of `b`, most significant first, into the register. */
  lemma CrcByteAsBits(b: byte, crc: byte)
    ensures CrcByte(b, crc) == FeedBits(crc, MsbBits(b))
  {
    AccAsBits(b, crc, 8);
    assert MsbBits(b)[..8] == MsbBits(b);
  }

  lemma {:induction false} FoldAsBits(acc: byte, data: seq<byte>)
    ensures Fold(acc, data) == FeedBits(acc, MessageBits(data))
    decreases |data|
  {
    if data != [] {
      CrcByteAsBits(data[0], acc);
      FoldAsBits(CrcByte(data[0], acc), data[1..]);
      FeedBitsConcat(acc, MsbBits(data[0]), MessageBits(data[1..]));
    }
  }

  /** `CalcCRC(data)` is the shift register after taking in the whole message bit by bit from zero. */
  lemma ChecksumAsBits(data: seq<byte>)
    ensures Checksum(data) == FeedBits(0, MessageBits(data))
  {
    FoldAsBits(0, data);
  }
}
