/**
 * `SerialPortService` of the scale emulator: the session state and the steps
 * that change it. The serial port is abstracted away: a receive step is given
 * the buffer already read and returns the bytes it would write.
 */
module Service {
  import opened Bytes
  import opened Crc
  import opened Bcd
  import opened Counters
  import opened Frame
  import opened Protocol

  /** A reading before `Start` or any property assignment: zero weight, no flag set. */
  function IdleReading(): Reading
  {
    Reading(Weight(0, false), false, false)
  }

  function IdleStatus(): Status
  {
    Status(false, false, false, false, false, false, false, false)
  }

  class SerialPortService {
    /** `_keepReading`: the read loop runs while it is set. */
    var keepReading: bool
    /** `_handshakeCompleted`: set by the first request frame after `Start`. */
    var handshakeCompleted: bool
    /** `_fixedAddress`: the address every reply carries. */
    var fixedAddress: byte
    /** `_currentWeight`, `_isUspokoenie`, `_isPereg`: captured by `Start`, read by C2. */
    var snapshot: Reading
    /** `CurrentWeight`, `IsUspokoenie`, `IsPereg`: the public properties, read by C3. */
    var live: Reading
    /** `IsReweighing` ... `IsOnPass`: the public properties read by BF. */
    var status: Status
    /** `_counterModel`. */
    const counterModel: CounterModel

    /** The part of the state a reply depends on. */
    function View(): Device
      reads this
    {
      Device(fixedAddress, snapshot, live, status)
    }

    constructor()
      ensures !keepReading && !handshakeCompleted
      ensures View() == Device(0x00, IdleReading(), IdleReading(), IdleStatus())
      ensures fresh(counterModel)
    {
      keepReading := false;
      handshakeCompleted := false;
      fixedAddress := 0x00;
      snapshot := IdleReading();
      live := IdleReading();
      status := IdleStatus();
      counterModel := new CounterModel();
    }

    /**
     * `Start`: records the address and the C2 reading, clears the handshake
     * flag and lets the read loop run. The live properties are left alone.
     */
    method Start(fixedAddress: byte, weight: Weight, uspokoenie: bool, pereg: bool)
      modifies this
      ensures this.fixedAddress == fixedAddress
      ensures snapshot == Reading(weight, uspokoenie, pereg)
      ensures keepReading && !handshakeCompleted
      ensures live == old(live) && status == old(status)
    {
      this.fixedAddress := fixedAddress;
      snapshot := Reading(weight, uspokoenie, pereg);
      keepReading := true;
      handshakeCompleted := false;
    }

    /** `Stop`: the read loop ends; nothing else changes. */
    method Stop()
      modifies this
      ensures !keepReading
      ensures handshakeCompleted == old(handshakeCompleted) && View() == old(View())
    {
      keepReading := false;
    }

    /** `ProcessBuffer`: builds the reply to `buffer`, if any, from the current state. */
    method ProcessBuffer(buffer: seq<byte>) returns (written: Option<seq<byte>>)
      requires |buffer| >= 3
      ensures written == Reply(View(), buffer)
    {
      var cop := buffer[2];
      var adr := fixedAddress;
      if cop == 0xA1 {
        var response := SerialReply(adr);
        written := Some(response);
      } else if cop == 0xC2 {
        var response := WeightReply(adr, cop, snapshot, true);
        written := Some(response);
      } else if cop == 0xC3 {
        var response := WeightReply(adr, cop, live, false);
        written := Some(response);
      } else if cop == 0xBF {
        var response := StatusReply(adr);
        written := Some(response);
      } else if cop == 0xC8 {
        if |buffer| >= 7 {
          var response := CounterReply(buffer[3]);
          written := Some(response);
        } else {
          written := None;
        }
      } else {
        written := None;
      }
    }

    /** The A1 branch: address, command and the serial number 12 34 56. */
    static method SerialReply(adr: byte) returns (response: seq<byte>)
      ensures var payload := [adr, 0xA1, 0x12, 0x34, 0x56, 0x00];
        response == Framed(payload, Checksum(payload))
    {
      var sn2, sn1, sn0: byte := 0x12, 0x34, 0x56;
      var responseData := new byte[6] [adr, 0xA1, sn2, sn1, sn0, 0x00];
      assert responseData[..] == [adr, 0xA1, 0x12, 0x34, 0x56, 0x00];
      response := SendFramed(responseData);
    }

    /** The C2 (`net`, the snapshot) and C3 (the live reading) branches. */
    static method WeightReply(adr: byte, cop: byte, reading: Reading, net: bool) returns (response: seq<byte>)
      ensures var w := WeightBcd(reading.weight.tenths);
        var payload := [adr, cop, w[0], w[1], w[2], ConByte(reading, net), 0x00];
        response == Framed(payload, Checksum(payload))
    {
      var bcdWeight := ConvertWeightToBcd(reading.weight.tenths);
      var con := ConBits(reading, net);
      var responseData := new byte[7] [adr, cop, bcdWeight[0], bcdWeight[1], bcdWeight[2], con, 0x00];
      assert responseData[..] == [adr, cop, bcdWeight[0], bcdWeight[1], bcdWeight[2], con, 0x00];
      response := SendFramed(responseData);
    }

    /** The BF branch: address, command and the STATUS byte. */
    method StatusReply(adr: byte) returns (response: seq<byte>)
      ensures var payload := [adr, 0xBF, StatusByte(status), 0x00];
        response == Framed(payload, Checksum(payload))
    {
      var st := StatusBits();
      var responseData := new byte[4] [adr, 0xBF, st, 0x00];
      assert responseData[..] == [adr, 0xBF, st, 0x00];
      response := SendFramed(responseData);
    }

    /** The CON byte as the C2 (`net`) and C3 branches build it, flag by flag. */
    static method ConBits(r: Reading, net: bool) returns (con: byte)
      ensures con == ConByte(r, net)
    {
      con := 0x00;
      if r.weight.negative { con := con | 0x80; }
      if net { con := con | 0x20; }
      if r.settling { con := con | 0x10; }
      if r.overload { con := con | 0x08; }
      con := con | 0x01;
    }

    /** The STATUS byte as the BF branch builds it, flag by flag. */
    method StatusBits() returns (st: byte)
      ensures st == StatusByte(status)
    {
      st := 0x00;
      if status.reweighing { st := st | 0x80; }
      if status.error { st := st | 0x40; }
      if status.stop { st := st | 0x20; }
      if status.cycleComplete { st := st | 0x10; }
      if status.paused { st := st | 0x08; }
      if status.loading { st := st | 0x04; }
      if status.unloading { st := st | 0x02; }
      if status.onPass { st := st | 0x01; }
    }

    /** `CalcCRC` then `CreateResponse`, as the A1, C2, C3 and BF branches do. */
    static method SendFramed(responseData: array<byte>) returns (response: seq<byte>)
      ensures response == Framed(responseData[..], Checksum(responseData[..]))
    {
      var crc := CalcCrc(responseData);
      var framed := CreateResponse(responseData, crc);
      response := framed[..];
    }

    /** The C8 branch of `ProcessBuffer` for a request of at least seven bytes. */
    method CounterReply(nw: byte) returns (response: seq<byte>)
      ensures var payload := [fixedAddress, 0xC8, nw] + CounterBcd(nw as int) + [0x00];
        response == Framed(payload, Checksum(payload))
    {
      var counterData: array<byte>;
      if nw == 0x04 {
        counterData := counterModel.GetCounterBcd(4);
      } else if nw == 0x08 {
        counterData := counterModel.GetCounterBcd(8);
      } else {
        counterData := new byte[0];
        CounterBcdShape(nw as int);
      }
      var responseData := CounterPayload(fixedAddress, nw, counterData);
      response := SendInline(responseData);
    }

    /** The C8 payload: address, command, counter number, the counter's bytes and the 0x00 placeholder. */
    static method CounterPayload(adr: byte, nw: byte, counterData: array<byte>) returns (responseData: array<byte>)
      ensures fresh(responseData)
      ensures responseData[..] == [adr, 0xC8, nw] + counterData[..] + [0x00]
    {
      var len := 3 + counterData.Length + 1;
      responseData := new byte[len](_ => 0x00);
      responseData[0] := adr;
      responseData[1] := 0xC8;
      responseData[2] := nw;
      assert responseData[..3] == [adr, 0xC8, nw];
      ArrayCopy(counterData, responseData, 3);
      assert responseData[3 + counterData.Length..] == [0x00];
    }

    /** The inline framing of the C8 branch: checksum over the payload written into its last byte, then 0xFF in front and 0xFF 0xFF behind. */
    static method SendInline(responseData: array<byte>) returns (response: seq<byte>)
      requires responseData.Length >= 1
      modifies responseData
      ensures response == Framed(old(responseData[..]), Checksum(old(responseData[..])))
    {
      var crc := CalcCrc(responseData);
      responseData[responseData.Length - 1] := crc;
      assert responseData[..] == old(responseData[..])[responseData.Length - 1 := crc];

      var framed := Enclose(responseData);
      EnclosedIsFramed(old(responseData[..]), crc);
      response := framed[..];
    }

    /** The new array of the C8 branch: 0xFF, the payload with its checksum, 0xFF 0xFF. */
    static method Enclose(responseData: array<byte>) returns (framed: array<byte>)
      ensures fresh(framed)
      ensures framed[..] == Enclosed(responseData[..])
    {
      framed := new byte[responseData.Length + 3](_ => 0x00);
      framed[0] := 0xFF;
      ArrayCopy(responseData, framed, 1);
      framed[framed.Length - 2] := 0xFF;
      framed[framed.Length - 1] := 0xFF;
    }

    /**
     * One pass of the read loop that found `buffer` waiting: a buffer shaped
     * like a request frame sets the handshake flag (raising the event if the
     * flag was clear) and is answered; any other buffer is ignored.
     */
    method ReceiveStep(buffer: seq<byte>) returns (written: Option<seq<byte>>, raised: bool)
      modifies this
      ensures written == Respond(old(View()), buffer)
      ensures raised == (!old(handshakeCompleted) && IsRequestFrame(buffer))
      ensures handshakeCompleted == (old(handshakeCompleted) || IsRequestFrame(buffer))
      ensures keepReading == old(keepReading) && View() == old(View())
    {
      written, raised := None, false;
      if |buffer| >= 6 && buffer[0] == 0xFF && buffer[|buffer| - 2] == 0xFF && buffer[|buffer| - 1] == 0xFF {
        if !handshakeCompleted {
          handshakeCompleted := true;
          raised := true;
        }
        written := ProcessBuffer(buffer);
      }
    }

    /**
     * `ReadSerial` over the buffers it reads one after another, while the
     * loop runs (it is started by `Start`, which sets `keepReading`).
     */
    method ReadSerial(buffers: seq<seq<byte>>) returns (writes: seq<Option<seq<byte>>>, raised: seq<bool>)
      requires keepReading
      modifies this
      ensures |writes| == |buffers|
      ensures forall i :: 0 <= i < |buffers| ==> writes[i] == Respond(old(View()), buffers[i])
      ensures raised == HandshakeEvents(old(handshakeCompleted), buffers)
      ensures handshakeCompleted == HandshakeDone(old(handshakeCompleted), buffers)
      ensures keepReading && View() == old(View())
    {
      writes, raised := [], [];
      ghost var device, done := View(), handshakeCompleted;
      var i := 0;
      while i < |buffers|
        invariant 0 <= i <= |buffers|
        invariant |writes| == i
        invariant writes == Responses(device, buffers[..i])
        invariant raised + HandshakeEvents(handshakeCompleted, buffers[i..]) == HandshakeEvents(done, buffers)
        invariant handshakeCompleted == HandshakeDone(done, buffers[..i])
        invariant keepReading && View() == device
      {
        ghost var before := handshakeCompleted;
        var w, r := ReceiveStep(buffers[i]);
        ReadStep(device, done, buffers, i, writes, raised, before, w, r, handshakeCompleted);
        writes := writes + [w];
        raised := raised + [r];
        i := i + 1;
      }
      assert buffers[..i] == buffers;
      assert buffers[i..] == [];
      ResponsesAt(device, buffers);
    }
  }

  /** What one pass of the read loop adds to the writes, the events and the flag of the passes before it. */
  lemma ReadStep(device: Device, done: bool, buffers: seq<seq<byte>>, i: nat,
                 writes: seq<Option<seq<byte>>>, raised: seq<bool>, before: bool,
                 w: Option<seq<byte>>, r: bool, after: bool)
    requires i < |buffers|
    requires writes == Responses(device, buffers[..i])
    requires raised + HandshakeEvents(before, buffers[i..]) == HandshakeEvents(done, buffers)
    requires before == HandshakeDone(done, buffers[..i])
    requires w == Respond(device, buffers[i])
    requires r == (!before && IsRequestFrame(buffers[i])) && after == (before || IsRequestFrame(buffers[i]))
    ensures writes + [w] == Responses(device, buffers[..i + 1])
    ensures (raised + [r]) + HandshakeEvents(after, buffers[i + 1..]) == HandshakeEvents(done, buffers)
    ensures after == HandshakeDone(done, buffers[..i + 1])
  {
    HandshakeStep(before, buffers, i);
    HandshakeDoneStep(done, buffers, i);
    ResponsesStep(device, buffers, i);
    assert (raised + [r]) + HandshakeEvents(after, buffers[i + 1..])
      == raised + HandshakeEvents(before, buffers[i..]);
  }

  /** The writes of the read loop over `buffers`, one per buffer. */
  function Responses(d: Device, buffers: seq<seq<byte>>): (writes: seq<Option<seq<byte>>>)
    ensures |writes| == |buffers|
    decreases |buffers|
  {
    if buffers == [] then [] else Responses(d, buffers[..|buffers| - 1]) + [Respond(d, buffers[|buffers| - 1])]
  }

  lemma ResponsesStep(d: Device, buffers: seq<seq<byte>>, i: nat)
    requires i < |buffers|
    ensures Responses(d, buffers[..i + 1]) == Responses(d, buffers[..i]) + [Respond(d, buffers[i])]
  {
    assert buffers[..i + 1][..i] == buffers[..i];
  }

  lemma {:induction false} ResponsesAt(d: Device, buffers: seq<seq<byte>>)
    ensures forall i :: 0 <= i < |buffers| ==> Responses(d, buffers)[i] == Respond(d, buffers[i])
    decreases |buffers|
  {
    if buffers != [] {
      var init := buffers[..|buffers| - 1];
      ResponsesAt(d, init);
      forall i | 0 <= i < |buffers|
        ensures Responses(d, buffers)[i] == Respond(d, buffers[i])
      {
        if i < |init| {
          assert init[i] == buffers[i];
        }
      }
    }
  }

  /** Receiving one more buffer sets the handshake flag if that buffer is a frame. */
  lemma HandshakeDoneStep(done: bool, buffers: seq<seq<byte>>, i: nat)
    requires i < |buffers|
    ensures HandshakeDone(done, buffers[..i + 1]) == (HandshakeDone(done, buffers[..i]) || IsRequestFrame(buffers[i]))
  {
    var before, after := buffers[..i], buffers[..i + 1];
    assert after[i] == buffers[i];
    assert forall j :: 0 <= j < i ==> after[j] == before[j];
  }
}
