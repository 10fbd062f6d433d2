/**
 * Framing of the scale protocol: a frame starts with one 0xFF byte and ends
 * with two. Requests are recognised by that shape alone; replies are built by
 * `CreateResponse`, which overwrites the payload's last byte (a placeholder)
 * with the checksum.
 */
module Frame {
  import opened Bytes

  /** The test in `ReadSerial`: at least six bytes, 0xFF first and 0xFF 0xFF last. */
  predicate IsRequestFrame(buf: seq<byte>)
  {
    |buf| >= 6 && buf[0] == 0xFF && buf[|buf| - 2] == 0xFF && buf[|buf| - 1] == 0xFF
  }

  /**
   * What `CreateResponse(data, crc)` returns: a zeroed array three bytes longer
   * than `data`, 0xFF at 0, `data` copied in at 1, `crc` written at index
   * `|data|`, and 0xFF written at the last two indices, in that order.
   */
  function Framed(data: seq<byte>, crc: byte): seq<byte>
  {
    var copied := [0xFF] + data + [0x00, 0x00];
    copied[|data| := crc][|data| + 1 := 0xFF][|data| + 2 := 0xFF]
  }

  /** `CreateResponse` leaves out the payload's last byte: it is replaced by the checksum. */
  lemma FramedShape(data: seq<byte>, crc: byte)
    ensures |Framed(data, crc)| == |data| + 3
    ensures |data| >= 1 ==> Framed(data, crc) == [0xFF] + data[..|data| - 1] + [crc, 0xFF, 0xFF]
    ensures |data| == 0 ==> Framed(data, crc) == [crc, 0xFF, 0xFF]
  {
    var r := Framed(data, crc);
    if |data| >= 1 {
      var e := [0xFF] + data[..|data| - 1] + [crc, 0xFF, 0xFF];
      assert forall i :: 0 <= i < |r| ==> r[i] == e[i];
    }
  }

  /** A payload ending in the placeholder byte is framed as its head, the checksum and 0xFF 0xFF. */
  lemma FramedPlaceholder(head: seq<byte>, crc: byte)
    ensures Framed(head + [0x00], crc) == [0xFF] + head + [crc, 0xFF, 0xFF]
  {
    FramedShape(head + [0x00], crc);
    assert (head + [0x00])[..|head|] == head;
  }

  /** The reply recovers its payload (all but the placeholder) and the checksum. */
  lemma FramedPayload(data: seq<byte>, crc: byte)
    requires |data| >= 1
    ensures var r := Framed(data, crc);
      r[1..|r| - 3] == data[..|data| - 1] && r[|r| - 3] == crc
  {
    FramedShape(data, crc);
  }

  /** A reply has the shape of a request frame exactly when the payload has at least three bytes. */
  lemma FramedIsFrame(data: seq<byte>, crc: byte)
    ensures IsRequestFrame(Framed(data, crc)) <==> |data| >= 3
  {
    FramedShape(data, crc);
  }

  /**
   * The framing done inline by the C8 branch: the checksum written over the
   * payload's last byte, then 0xFF in front and 0xFF 0xFF behind.
   */
  function Enclosed(responseData: seq<byte>): seq<byte>
  {
    [0xFF] + responseData + [0xFF, 0xFF]
  }

  /** Both ways of framing build the same bytes. */
  lemma EnclosedIsFramed(data: seq<byte>, crc: byte)
    requires |data| >= 1
    ensures Enclosed(data[|data| - 1 := crc]) == Framed(data, crc)
  {
    FramedShape(data, crc);
    assert data[|data| - 1 := crc] == data[..|data| - 1] + [crc];
  }

  /** `Array.Copy(src, 0, dst, at, src.Length)`. */
  method ArrayCopy(src: array<byte>, dst: array<byte>, at: nat)
    requires src != dst && at + src.Length <= dst.Length
    modifies dst
    ensures dst[..] == old(dst[..at]) + src[..] + old(dst[at + src.Length..])
  {
    for i := 0 to src.Length
      invariant forall j :: 0 <= j < at ==> dst[j] == old(dst[j])
      invariant forall j :: 0 <= j < i ==> dst[at + j] == src[j]
      invariant forall j :: at + i <= j < dst.Length ==> dst[j] == old(dst[j])
    {
      dst[at + i] := src[i];
    }
    assert dst[..] == old(dst[..at]) + src[..] + old(dst[at + src.Length..]);
  }

  /** `CreateResponse`. */
  method CreateResponse(data: array<byte>, crc: byte) returns (response: array<byte>)
    ensures fresh(response)
    ensures response[..] == Framed(data[..], crc)
  {
    response := new byte[data.Length + 3](_ => 0x00);
    response[0] := 0xFF;
    ArrayCopy(data, response, 1);
    assert response[..] == [0xFF] + data[..] + [0x00, 0x00];
    response[data.Length] := crc;
    response[response.Length - 2] := 0xFF;
    response[response.Length - 1] := 0xFF;
  }
}
