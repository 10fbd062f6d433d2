/**
 * The replies of the scale emulator (`ProcessBuffer` of SerialPortService) as
 * pure functions of the request and of the state the service reads. Every
 * reply is a payload `adr cop ... 00` whose last byte is a placeholder that
 * `CreateResponse` overwrites with the checksum of the whole payload.
 */
module Protocol {
  import opened Bytes
  import opened Crc
  import opened Bcd
  import opened Counters
  import opened Frame

  /** A weight as a reply sees it: `Math.Round(Math.Abs(w) * 10)` tenths, and whether `w < 0`. */
  datatype Weight = Weight(tenths: nat, negative: bool)

  /** A weight with the two flags reported beside it in the CON byte. */
  datatype Reading = Reading(weight: Weight, settling: bool, overload: bool)

  /** The eight flags of the BF reply, from bit 7 down to bit 0. */
  datatype Status = Status(
    reweighing: bool, error: bool, stop: bool, cycleComplete: bool,
    paused: bool, loading: bool, unloading: bool, onPass: bool)

  /**
   * What `ProcessBuffer` reads: the fixed address, the reading captured by
   * `Start` (used by C2), the live reading (used by C3) and the status flags.
   */
  datatype Device = Device(address: byte, snapshot: Reading, live: Reading, status: Status)

  /** `if (b) x |= mask;` */
  function Flag(b: bool, mask: byte): byte
  {
    if b then mask else 0x00
  }

  /**
   * The CON byte: 0x80 for a negative weight, 0x20 for a net weight (C2),
   * 0x10 when settled, 0x08 on overload, and 0x01 always.
   */
  function ConByte(r: Reading, net: bool): (con: byte)
    ensures (con & 0x80 != 0) == r.weight.negative
    ensures (con & 0x20 != 0) == net
    ensures (con & 0x10 != 0) == r.settling
    ensures (con & 0x08 != 0) == r.overload
    ensures con & 0x01 != 0
    ensures con & 0x46 == 0
  {
    Flag(r.weight.negative, 0x80) | Flag(net, 0x20) | Flag(r.settling, 0x10) | Flag(r.overload, 0x08) | 0x01
  }

  /** The STATUS byte of BF: one flag per bit, `reweighing` in bit 7 down to `onPass` in bit 0. */
  function StatusByte(s: Status): (b: byte)
    ensures (b & 0x80 != 0) == s.reweighing
    ensures (b & 0x40 != 0) == s.error
    ensures (b & 0x20 != 0) == s.stop
    ensures (b & 0x10 != 0) == s.cycleComplete
    ensures (b & 0x08 != 0) == s.paused
    ensures (b & 0x04 != 0) == s.loading
    ensures (b & 0x02 != 0) == s.unloading
    ensures (b & 0x01 != 0) == s.onPass
  {
    Flag(s.reweighing, 0x80) | Flag(s.error, 0x40) | Flag(s.stop, 0x20) | Flag(s.cycleComplete, 0x10)
    | Flag(s.paused, 0x08) | Flag(s.loading, 0x04) | Flag(s.unloading, 0x02) | Flag(s.onPass, 0x01)
  }

  /** How a receiver reads a STATUS byte back into its flags. */
  function StatusOf(b: byte): Status
  {
    Status(b & 0x80 != 0, b & 0x40 != 0, b & 0x20 != 0, b & 0x10 != 0,
           b & 0x08 != 0, b & 0x04 != 0, b & 0x02 != 0, b & 0x01 != 0)
  }

  /** The STATUS packing loses nothing: every byte is the packing of exactly one set of flags. */
  lemma StatusRoundTrip(s: Status, b: byte)
    ensures StatusOf(StatusByte(s)) == s
    ensures StatusByte(StatusOf(b)) == b
  {
  }

  /** The payload of the reply to `request`, placeholder included, or nothing for an unknown command. */
  function Payload(d: Device, request: seq<byte>): Option<seq<byte>>
    requires |request| >= 3
  {
    var cop := request[2];
    var adr := d.address;
    if cop == 0xA1 then
      Some([adr, cop, 0x12, 0x34, 0x56, 0x00])
    else if cop == 0xC2 then
      var w := WeightBcd(d.snapshot.weight.tenths);
      Some([adr, cop, w[0], w[1], w[2], ConByte(d.snapshot, true), 0x00])
    else if cop == 0xC3 then
      var w := WeightBcd(d.live.weight.tenths);
      Some([adr, cop, w[0], w[1], w[2], ConByte(d.live, false), 0x00])
    else if cop == 0xBF then
      Some([adr, cop, StatusByte(d.status), 0x00])
    else if cop == 0xC8 && |request| >= 7 then
      Some([adr, cop, request[3]] + CounterBcd(request[3] as int) + [0x00])
    else
      None
  }

  /** What `ProcessBuffer(request)` writes: the payload framed with its checksum, or nothing. */
  function Reply(d: Device, request: seq<byte>): Option<seq<byte>>
    requires |request| >= 3
  {
    match Payload(d, request)
    case Some(p) => Some(Framed(p, Checksum(p)))
    case None => None
  }

  /** A reply is written for A1, C2, C3 and BF, and for C8 when the request has at least seven bytes; for nothing else. */
  lemma ReplyWhen(d: Device, request: seq<byte>)
    requires |request| >= 3
    ensures Reply(d, request).Some? <==>
      request[2] in {0xA1, 0xC2, 0xC3, 0xBF} || (request[2] == 0xC8 && |request| >= 7)
  {
  }

  /** Every payload starts with the service's address and the request's command and ends with the placeholder. */
  lemma PayloadShape(d: Device, request: seq<byte>)
    requires |request| >= 3
    ensures Payload(d, request).Some? ==>
      var p := Payload(d, request).value;
      4 <= |p| && p[0] == d.address && p[1] == request[2] && p[|p| - 1] == 0x00
  {
  }

  /** The frame around a payload: the checksum of the payload sits just before the closing 0xFF 0xFF. */
  lemma FramedReply(p: seq<byte>)
    requires 4 <= |p| && p[|p| - 1] == 0x00
    ensures var r := Framed(p, Checksum(p));
      |r| == |p| + 3 && IsRequestFrame(r) && r[1] == p[0] && r[2] == p[1]
      && r[|r| - 3] == Checksum(r[1..|r| - 3] + [0x00])
  {
    var c := Checksum(p);
    FramedShape(p, c);
    FramedIsFrame(p, c);
    FramedPayload(p, c);
    assert p == p[..|p| - 1] + [0x00];
  }

  /**
   * Every reply is a frame carrying the service's own address at index 1,
   * the request's command at index 2, and at index `|r| - 3` the checksum of
   * the bytes between them followed by the 0x00 placeholder.
   */
  lemma ReplyFraming(d: Device, request: seq<byte>)
    requires |request| >= 3
    ensures Reply(d, request).Some? ==>
      var r := Reply(d, request).value;
      7 <= |r| && IsRequestFrame(r) && r[1] == d.address && r[2] == request[2]
      && r[|r| - 3] == Checksum(r[1..|r| - 3] + [0x00])
  {
    PayloadShape(d, request);
    if Payload(d, request).Some? {
      FramedReply(Payload(d, request).value);
    }
  }

  /** A1: `FF adr A1 12 34 56 crc FF FF`. */
  lemma ReplySerial(d: Device, request: seq<byte>)
    requires |request| >= 3 && request[2] == 0xA1
    ensures Reply(d, request) == Some(
      [0xFF, d.address, 0xA1, 0x12, 0x34, 0x56, Checksum([d.address, 0xA1, 0x12, 0x34, 0x56, 0x00]), 0xFF, 0xFF])
  {
    var p := [d.address, 0xA1, 0x12, 0x34, 0x56, 0x00];
    assert Payload(d, request) == Some(p);
    var c := Checksum(p);
    FramedShape(p, c);
    assert p[..5] == [d.address, 0xA1, 0x12, 0x34, 0x56];
    assert Framed(p, c) == [0xFF, d.address, 0xA1, 0x12, 0x34, 0x56, c, 0xFF, 0xFF];
    assert Reply(d, request) == Some(Framed(p, c));
  }

  /** With address 0x14 the A1 reply is `FF 14 A1 12 34 56 11 FF FF`. */
  lemma ReplySerialExample(d: Device, request: seq<byte>)
    requires |request| >= 3 && request[2] == 0xA1 && d.address == 0x14
    ensures Reply(d, request) == Some([0xFF, 0x14, 0xA1, 0x12, 0x34, 0x56, 0x11, 0xFF, 0xFF])
  {
    ReplySerial(d, request);
    var p := [0x14, 0xA1, 0x12, 0x34, 0x56, 0x00];
    assert Checksum(p) == 0x11 by {
      CrcTrace1400();
      CrcTraceA114();
      CrcTrace12E3();
      CrcTrace3485();
      CrcTrace5625();
      CrcTrace0085();
    }
  }

  /** `CRCMaker(0x14, 0x00)` pass by pass. */
  lemma CrcTrace1400()
    ensures CrcByte(0x14, 0x00) == 0x14
  {
    assert Working(0x14, 1) == 0x28 && Acc(0x14, 0x00, 1) == 0x00;
    assert Working(0x14, 2) == 0x50 && Acc(0x14, 0x00, 2) == 0x00;
    assert Working(0x14, 3) == 0xA0 && Acc(0x14, 0x00, 3) == 0x00;
    assert Working(0x14, 4) == 0x41 && Acc(0x14, 0x00, 4) == 0x01;
    assert Working(0x14, 5) == 0x82 && Acc(0x14, 0x00, 5) == 0x02;
    assert Working(0x14, 6) == 0x05 && Acc(0x14, 0x00, 6) == 0x05;
    assert Working(0x14, 7) == 0x0A && Acc(0x14, 0x00, 7) == 0x0A;
  }

  /** `CRCMaker(0xA1, 0x14)` pass by pass. */
  lemma CrcTraceA114()
    ensures CrcByte(0xA1, 0x14) == 0xE3
  {
    assert Working(0xA1, 1) == 0x43 && Acc(0xA1, 0x14, 1) == 0x29;
    assert Working(0xA1, 2) == 0x86 && Acc(0xA1, 0x14, 2) == 0x52;
    assert Working(0xA1, 3) == 0x0D && Acc(0xA1, 0x14, 3) == 0xA5;
    assert Working(0xA1, 4) == 0x1A && Acc(0xA1, 0x14, 4) == 0x23;
    assert Working(0xA1, 5) == 0x34 && Acc(0xA1, 0x14, 5) == 0x46;
    assert Working(0xA1, 6) == 0x68 && Acc(0xA1, 0x14, 6) == 0x8C;
    assert Working(0xA1, 7) == 0xD0 && Acc(0xA1, 0x14, 7) == 0x71;
  }

  /** `CRCMaker(0x12, 0xE3)` pass by pass. */
  lemma CrcTrace12E3()
    ensures CrcByte(0x12, 0xE3) == 0x85
  {
    assert Working(0x12, 1) == 0x24 && Acc(0x12, 0xE3, 1) == 0xAF;
    assert Working(0x12, 2) == 0x48 && Acc(0x12, 0xE3, 2) == 0x37;
    assert Working(0x12, 3) == 0x90 && Acc(0x12, 0xE3, 3) == 0x6E;
    assert Working(0x12, 4) == 0x21 && Acc(0x12, 0xE3, 4) == 0xDD;
    assert Working(0x12, 5) == 0x42 && Acc(0x12, 0xE3, 5) == 0xD3;
    assert Working(0x12, 6) == 0x84 && Acc(0x12, 0xE3, 6) == 0xCF;
    assert Working(0x12, 7) == 0x09 && Acc(0x12, 0xE3, 7) == 0xF6;
  }

  /** `CRCMaker(0x34, 0x85)` pass by pass. */
  lemma CrcTrace3485()
    ensures CrcByte(0x34, 0x85) == 0x25
  {
    assert Working(0x34, 1) == 0x68 && Acc(0x34, 0x85, 1) == 0x63;
    assert Working(0x34, 2) == 0xD0 && Acc(0x34, 0x85, 2) == 0xC6;
    assert Working(0x34, 3) == 0xA1 && Acc(0x34, 0x85, 3) == 0xE4;
    assert Working(0x34, 4) == 0x43 && Acc(0x34, 0x85, 4) == 0xA0;
    assert Working(0x34, 5) == 0x86 && Acc(0x34, 0x85, 5) == 0x29;
    assert Working(0x34, 6) == 0x0D && Acc(0x34, 0x85, 6) == 0x53;
    assert Working(0x34, 7) == 0x1A && Acc(0x34, 0x85, 7) == 0xA6;
  }

  /** `CRCMaker(0x56, 0x25)` pass by pass. */
  lemma CrcTrace5625()
    ensures CrcByte(0x56, 0x25) == 0x85
  {
    assert Working(0x56, 1) == 0xAC && Acc(0x56, 0x25, 1) == 0x4A;
    assert Working(0x56, 2) == 0x59 && Acc(0x56, 0x25, 2) == 0x95;
    assert Working(0x56, 3) == 0xB2 && Acc(0x56, 0x25, 3) == 0x43;
    assert Working(0x56, 4) == 0x65 && Acc(0x56, 0x25, 4) == 0x87;
    assert Working(0x56, 5) == 0xCA && Acc(0x56, 0x25, 5) == 0x67;
    assert Working(0x56, 6) == 0x95 && Acc(0x56, 0x25, 6) == 0xCF;
    assert Working(0x56, 7) == 0x2B && Acc(0x56, 0x25, 7) == 0xF6;
  }

  /** `CRCMaker(0x00, 0x85)` pass by pass. */
  lemma CrcTrace0085()
    ensures CrcByte(0x00, 0x85) == 0x11
  {
    assert Working(0x00, 1) == 0x00 && Acc(0x00, 0x85, 1) == 0x63;
    assert Working(0x00, 2) == 0x00 && Acc(0x00, 0x85, 2) == 0xC6;
    assert Working(0x00, 3) == 0x00 && Acc(0x00, 0x85, 3) == 0xE5;
    assert Working(0x00, 4) == 0x00 && Acc(0x00, 0x85, 4) == 0xA3;
    assert Working(0x00, 5) == 0x00 && Acc(0x00, 0x85, 5) == 0x2F;
    assert Working(0x00, 6) == 0x00 && Acc(0x00, 0x85, 6) == 0x5E;
    assert Working(0x00, 7) == 0x00 && Acc(0x00, 0x85, 7) == 0xBC;
  }

  /** C2: `FF adr C2 w0 w1 w2 CON crc FF FF`, the weight and flags captured by `Start`, CON with 0x20 set. */
  lemma ReplyNet(d: Device, request: seq<byte>)
    requires |request| >= 3 && request[2] == 0xC2
    ensures var p := [d.address, 0xC2] + WeightBcd(d.snapshot.weight.tenths) + [ConByte(d.snapshot, true), 0x00];
      Reply(d, request) == Some([0xFF] + p[..6] + [Checksum(p), 0xFF, 0xFF])
  {
    var w := WeightBcd(d.snapshot.weight.tenths);
    var con := ConByte(d.snapshot, true);
    var p := [d.address, 0xC2] + w + [con, 0x00];
    assert p == [d.address, 0xC2, w[0], w[1], w[2], con, 0x00];
    assert Payload(d, request) == Some(p);
    var c := Checksum(p);
    FramedShape(p, c);
    assert Reply(d, request) == Some(Framed(p, c));
  }

  /** C3: `FF adr C3 w0 w1 w2 CON crc FF FF`, the live weight and flags, CON with 0x20 clear. */
  lemma ReplyGross(d: Device, request: seq<byte>)
    requires |request| >= 3 && request[2] == 0xC3
    ensures var p := [d.address, 0xC3] + WeightBcd(d.live.weight.tenths) + [ConByte(d.live, false), 0x00];
      Reply(d, request) == Some([0xFF] + p[..6] + [Checksum(p), 0xFF, 0xFF])
  {
    var w := WeightBcd(d.live.weight.tenths);
    var con := ConByte(d.live, false);
    var p := [d.address, 0xC3] + w + [con, 0x00];
    assert p == [d.address, 0xC3, w[0], w[1], w[2], con, 0x00];
    assert Payload(d, request) == Some(p);
    var c := Checksum(p);
    FramedShape(p, c);
    assert Reply(d, request) == Some(Framed(p, c));
  }

  /** BF: `FF adr BF STATUS crc FF FF`. */
  lemma ReplyStatus(d: Device, request: seq<byte>)
    requires |request| >= 3 && request[2] == 0xBF
    ensures Reply(d, request) == Some(
      [0xFF, d.address, 0xBF, StatusByte(d.status), Checksum([d.address, 0xBF, StatusByte(d.status), 0x00]), 0xFF, 0xFF])
  {
    var p := [d.address, 0xBF, StatusByte(d.status), 0x00];
    assert Payload(d, request) == Some(p);
    var c := Checksum(p);
    FramedShape(p, c);
    assert p[..3] == [d.address, 0xBF, StatusByte(d.status)];
    assert Framed(p, c) == [0xFF, d.address, 0xBF, StatusByte(d.status), c, 0xFF, 0xFF];
    assert Reply(d, request) == Some(Framed(p, c));
  }

  /**
   * C8: `FF adr C8 nw crc FF FF` for a counter that does not exist, and a
   * twelve-byte reply with the counter's five BCD bytes at indices 4..8 for
   * counters 4 and 8.
   */
  lemma ReplyCounter(d: Device, request: seq<byte>)
    requires |request| >= 7 && request[2] == 0xC8
    ensures var nw := request[3];
      var p := [d.address, 0xC8, nw] + CounterBcd(nw as int) + [0x00];
      Reply(d, request) == Some([0xFF, d.address, 0xC8, nw] + CounterBcd(nw as int) + [Checksum(p), 0xFF, 0xFF])
  {
    var nw := request[3];
    var counter := CounterBcd(nw as int);
    var head := [d.address, 0xC8, nw] + counter;
    var p := head + [0x00];
    assert Payload(d, request) == Some(p);
    var c := Checksum(p);
    FramedPlaceholder(head, c);
    assert Reply(d, request) == Some(Framed(p, c));
    assert [0xFF] + head + [c, 0xFF, 0xFF] == [0xFF, d.address, 0xC8, nw] + counter + [c, 0xFF, 0xFF];
  }

  /** The C8 reply is seven bytes for a counter that does not exist and twelve, with the counter's BCD bytes at 4..8, for counters 4 and 8. */
  lemma ReplyCounterLength(d: Device, request: seq<byte>)
    requires |request| >= 7 && request[2] == 0xC8
    ensures Reply(d, request).Some?
    ensures var r := Reply(d, request).value;
      var nw := request[3];
      (nw != 4 && nw != 8 ==> |r| == 7)
      && (nw == 4 || nw == 8 ==> |r| == 12 && r[4..9] == CounterBcd(nw as int))
  {
    var nw := request[3];
    var counter := CounterBcd(nw as int);
    var p := [d.address, 0xC8, nw] + counter + [0x00];
    ReplyCounter(d, request);
    CounterFrameLayout(d.address, nw, counter, Checksum(p));
    CounterBcdShape(nw as int);
  }

  lemma CounterFrameLayout(address: byte, nw: byte, counter: seq<byte>, c: byte)
    ensures var r := [0xFF, address, 0xC8, nw] + counter + [c, 0xFF, 0xFF];
      |r| == |counter| + 7 && r[4..4 + |counter|] == counter
  {
    var r := [0xFF, address, 0xC8, nw] + counter + [c, 0xFF, 0xFF];
    assert r[4..4 + |counter|] == counter;
  }

  /** The address byte of the request, and anything past the bytes a command reads, have no effect on the reply. */
  lemma ReplyIgnoresRequestAddress(d: Device, request: seq<byte>, other: seq<byte>)
    requires |request| >= 3 && |other| >= 3 && request[2] == other[2]
    requires request[2] == 0xC8 ==> (|request| >= 7 <==> |other| >= 7)
    requires request[2] == 0xC8 && |request| >= 7 ==> request[3] == other[3]
    ensures Reply(d, request) == Reply(d, other)
  {
  }

  /** C2 reads only the address and the snapshot of `Start`; C3 only the address and the live reading; BF only the address and the flags. */
  lemma ReplyReads(d: Device, e: Device, request: seq<byte>)
    requires |request| >= 3 && d.address == e.address
    ensures request[2] == 0xC2 && d.snapshot == e.snapshot ==> Reply(d, request) == Reply(e, request)
    ensures request[2] == 0xC3 && d.live == e.live ==> Reply(d, request) == Reply(e, request)
    ensures request[2] == 0xBF && d.status == e.status ==> Reply(d, request) == Reply(e, request)
    ensures request[2] in {0xA1, 0xC8} ==> Reply(d, request) == Reply(e, request)
  {
  }

  /** What a receive step writes: the reply to a buffer shaped like a request frame, nothing for any other buffer. */
  function Respond(d: Device, buffer: seq<byte>): Option<seq<byte>>
  {
    if IsRequestFrame(buffer) then Reply(d, buffer) else None
  }

  /** Something is written exactly for a request frame carrying a known command (C8 needing seven bytes). */
  lemma RespondWhen(d: Device, buffer: seq<byte>)
    ensures Respond(d, buffer).Some? <==>
      IsRequestFrame(buffer) && (buffer[2] in {0xA1, 0xC2, 0xC3, 0xBF} || (buffer[2] == 0xC8 && |buffer| >= 7))
  {
    if IsRequestFrame(buffer) {
      ReplyWhen(d, buffer);
    }
  }

  /**
   * The handshake events raised while receiving `buffers` one after another,
   * starting with the flag `done`: an event for a frame that arrives while
   * the flag is clear, after which the flag is set.
   */
  function HandshakeEvents(done: bool, buffers: seq<seq<byte>>): (raised: seq<bool>)
    ensures |raised| == |buffers|
    decreases |buffers|
  {
    if buffers == [] then []
    else [!done && IsRequestFrame(buffers[0])] + HandshakeEvents(done || IsRequestFrame(buffers[0]), buffers[1..])
  }

  /** The handshake flag after receiving `buffers`: set if it was set, or if any of them was a frame. */
  predicate HandshakeDone(done: bool, buffers: seq<seq<byte>>)
  {
    done || exists j :: 0 <= j < |buffers| && IsRequestFrame(buffers[j])
  }

  /** An event is raised for buffer `i` exactly when the flag was clear, buffer `i` is a frame and no earlier buffer was. */
  lemma {:induction false} HandshakeOnce(done: bool, buffers: seq<seq<byte>>, i: nat)
    requires i < |buffers|
    ensures HandshakeEvents(done, buffers)[i] <==>
      !done && IsRequestFrame(buffers[i]) && forall j :: 0 <= j < i ==> !IsRequestFrame(buffers[j])
    decreases i
  {
    if i > 0 {
      var rest := buffers[1..];
      HandshakeOnce(done || IsRequestFrame(buffers[0]), rest, i - 1);
      assert forall j :: 0 <= j < i - 1 ==> rest[j] == buffers[j + 1];
      if !done && !IsRequestFrame(buffers[0]) && IsRequestFrame(buffers[i])
        && (forall j :: 0 <= j < i - 1 ==> !IsRequestFrame(rest[j])) {
        forall j | 0 <= j < i
          ensures !IsRequestFrame(buffers[j])
        {
          if j > 0 {
            assert buffers[j] == rest[j - 1];
          }
        }
      }
    }
  }

  /** So at most one event is ever raised between two starts of the service. */
  lemma HandshakeAtMostOnce(done: bool, buffers: seq<seq<byte>>, i: nat, k: nat)
    requires i < |buffers| && k < |buffers|
    requires HandshakeEvents(done, buffers)[i] && HandshakeEvents(done, buffers)[k]
    ensures i == k
  {
    HandshakeOnce(done, buffers, i);
    HandshakeOnce(done, buffers, k);
  }

  /** One more buffer adds one more event and one more chance to set the flag. */
  lemma {:induction false} HandshakeStep(done: bool, buffers: seq<seq<byte>>, i: nat)
    requires i < |buffers|
    ensures HandshakeEvents(done, buffers[i..]) ==
      [!done && IsRequestFrame(buffers[i])] + HandshakeEvents(done || IsRequestFrame(buffers[i]), buffers[i + 1..])
  {
    assert buffers[i..][1..] == buffers[i + 1..];
  }
}
