# Scale-protocol responder of LibraEmulation, in Dafny

LibraEmulation is a serial-line scale emulator. Its `SerialPortService` reads
request frames from a serial port and answers five commands of the scale
protocol:

- A1: serial number;
- C2: net weight, captured at `Start`;
- C3: gross weight, the live value;
- BF: status flags;
- C8: counter values, supplied by `CounterModel`.

Every reply has the form `FF adr cop ... crc FF FF`. `adr` is the address the
service was started with. `crc` is a one-byte shift/XOR checksum of the
payload. A trailing 0x00 placeholder is included when the checksum is
computed, and the checksum is then written over it. Weights are sent as three
BCD bytes holding six decimal digits of tenths, least significant pair first.
Counters are sent as five BCD bytes holding ten digits.

The model has seven modules:

- `Bytes` (bytes.dfy): the byte type and `Option`.
- `Crc` (crc.dfy): `CRCMaker` as a loop, proved against a pure function of the eight passes, and `CalcCRC` as a loop over an array, proved against a left fold. It also gives an independent reference: feeding the message's bits, most significant first, into a shift register with feedback 0x69.
- `Bcd` (bcd.dfy): `ToString("D6")`/`ToString("D10")` text, nibble packing, a reference BCD codec (`EncodeBcd`/`DecodeBcd`), and `ConvertWeightToBCD` as a method filling an array.
- `Counters` (counter_model.dfy): `CounterModel` as a class. `GetCounterBCD` and its packing loop are proved against `Pack10`.
- `Frame` (frame.dfy): the request-frame test, `CreateResponse` over arrays with `Array.Copy`, and the inline framing of the C8 branch.
- `Protocol` (protocol.dfy): the reply to each command as a pure function of the request and of the state it reads. It also covers the CON and STATUS bit packings and the handshake events over a run of received buffers.
- `Service` (serial_port_service.dfy): `SerialPortService` as a class whose methods `Start`, `Stop` and the read loop update its fields. `ProcessBuffer` and each of its branches are methods proved against `Protocol.Reply`. `ReadSerial` runs over a finite sequence of received buffers.

Some behaviours of the code are easy to misread:

- The A1 reply is nine bytes (`FF adr A1 12 34 56 crc FF FF`), because `CreateResponse` writes the checksum over the placeholder.
- A weight of 12.3 (123 tenths) is sent as `23 01 00`.
- A weight of 1000000 tenths or more is not rejected. Its decimal text is longer than six characters and `ConvertWeightToBCD` packs the first six, that is, the leading digits (`Bcd.WeightBcdTruncates`).
- A request is recognised only when the whole received buffer has the frame shape. No frame is searched for inside a longer buffer.

## Model

| member | source | states |
|---|---|---|
| Crc.CrcMaker | LibraEmulation/Model/SerialPortService.cs:249-261 | the loop returns the accumulator after eight passes, each rotating the input byte and shifting its top bit into the accumulator with 0x69 feedback |
| Crc.ShiftUnfolded | LibraEmulation/Model/SerialPortService.cs:255-258 | one accumulator step equals the shift, or-in and conditional XOR with 0x69 written as statements |
| Crc.CalcCrc | LibraEmulation/Model/SerialPortService.cs:263-269 | the checksum of an array is the left fold of `CRCMaker` over its bytes, starting from 0 |
| Crc.ChecksumFold | LibraEmulation/Model/SerialPortService.cs:263-269 | the checksum of the empty sequence is 0, and appending a byte applies `CRCMaker` once more |
| Crc.FoldAppend | LibraEmulation/Model/SerialPortService.cs:265-267 | folding over `xs + [b]` is one more step after folding over `xs` |
| Crc.CrcByteOfZero | LibraEmulation/Model/SerialPortService.cs:249-261 | `CRCMaker(0, 0) == 0` |
| Crc.ChecksumOfZeros | LibraEmulation/Model/SerialPortService.cs:263-269 | every all-zero sequence has checksum 0 |
| Crc.WorkingIsRotation | LibraEmulation/Model/SerialPortService.cs:253-254 | after k passes the working copy of the input byte is the byte rotated left by k |
| Crc.WorkingTop | LibraEmulation/Model/SerialPortService.cs:253-254 | the carry taken in pass k is the k-th bit of the input, counted from the most significant |
| Crc.AccAsBits | LibraEmulation/Model/SerialPortService.cs:251-259 | after k passes the accumulator has been fed the top k bits of the input byte through the 0x69 shift register |
| Crc.CrcByteAsBits | LibraEmulation/Model/SerialPortService.cs:249-261 | `CRCMaker(b, crc)` feeds the eight bits of `b`, most significant first, into the register holding `crc` |
| Crc.FoldAsBits | LibraEmulation/Model/SerialPortService.cs:265-267 | folding `CRCMaker` over bytes equals feeding the bytes' concatenated bit stream |
| Crc.ChecksumAsBits | LibraEmulation/Model/SerialPortService.cs:263-269 | the checksum equals the register, started at 0, after the whole message's bits, most significant bit of each byte first |
| Bcd.DigitValue | LibraEmulation/Model/SerialPortService.cs:276-278 | `c - '0'` of a digit character is below 10 and is the value whose character is `c` |
| Bcd.FormatD | LibraEmulation/Model/SerialPortService.cs:274 | the zero-padded text is all digits, at least `w` long, and no shorter than the plain text |
| Bcd.DecimalLength | LibraEmulation/Model/SerialPortService.cs:274 | the decimal text of n fits in w characters exactly when n < 10^w |
| Bcd.FormatDigit | LibraEmulation/Model/SerialPortService.cs:274 | the character j places from the right of the padded text is the digit j of n |
| Bcd.DecimalPrefix | LibraEmulation/Model/SerialPortService.cs:274 | the first m characters of the text of n are the text of n with its low digits dropped |
| Bcd.NibblesRoundTrip | LibraEmulation/Model/SerialPortService.cs:276-278 | `(hi << 4) \| lo` for digits below 16 gives back `hi` as high and `lo` as low nibble |
| Bcd.NibblesOf | LibraEmulation/Model/SerialPortService.cs:276-278 | every byte is the packing of its two nibbles |
| Bcd.PairRoundTrip | LibraEmulation/Model/SerialPortService.cs:276-278 | a two-digit value packed as a BCD byte is a BCD byte that reads back as the value |
| Bcd.PairValueRoundTrip | LibraEmulation/Model/SerialPortService.cs:276-278 | every BCD byte is the packing of the value it reads as |
| Bcd.DecodeEncode | LibraEmulation/Model/SerialPortService.cs:276-278 | a value below 100^k encodes into k BCD bytes that decode, by the sum of (hi*10+lo)*100^i, back to the value |
| Bcd.EncodeDecode | LibraEmulation/Model/SerialPortService.cs:276-278 | k BCD bytes decode to a value below 100^k that encodes back into the same bytes |
| Bcd.EncodeDigits | LibraEmulation/Model/SerialPortService.cs:276-278 | byte i of the encoding holds digit 2i+1 in its high and digit 2i in its low nibble |
| Bcd.PackPairsEncode | LibraEmulation/Model/SerialPortService.cs:274-278 | packing the 2k-character padded text pair by pair from the right is the BCD encoding of the value |
| Bcd.WeightBcdEncodes | LibraEmulation/Model/SerialPortService.cs:271-280 | below 10^6 tenths the three bytes are BCD, decode to the value, and hold `n mod 100`, `n/100 mod 100` and `n/10000` |
| Bcd.WeightBcdExample | LibraEmulation/Model/SerialPortService.cs:271-280 | 123 tenths are sent as `23 01 00` |
| Bcd.WeightBcdTruncates | LibraEmulation/Model/SerialPortService.cs:274-278 | from 10^6 tenths on, the bytes encode the leading six digits of the value, a number from 10^5 to below 10^6 |
| Bcd.ConvertWeightToBcd | LibraEmulation/Model/SerialPortService.cs:271-280 | a fresh three-byte array that is the packing of characters 4-5, 2-3 and 0-1 of the six-digit text |
| Counters.CounterValue | LibraEmulation/Model/CounterModel.cs:19-53 | only counters 4 and 8 have a value, and it has at most ten digits |
| Counters.Pack10Encodes | LibraEmulation/Model/CounterModel.cs:22-31 | the ten-digit packing of v is its five-byte BCD encoding, all nibbles digits, decoding back to v |
| Counters.Pack10Injective | LibraEmulation/Model/CounterModel.cs:22-31 | different values below 10^10 pack into different bytes |
| Counters.CounterBcdShape | LibraEmulation/Model/CounterModel.cs:15-54 | five bytes exactly for indices 4 and 8, empty exactly for every other index; the five bytes are BCD and decode to the counter's value |
| Counters.CounterFourBcd | LibraEmulation/Model/CounterModel.cs:19-33 | counter 4 gives `00 12 05 00 00` |
| Counters.CounterEightBcd | LibraEmulation/Model/CounterModel.cs:35-49 | counter 8 gives `75 00 00 00 00` |
| Counters.PackCounter | LibraEmulation/Model/CounterModel.cs:22-32 | the loop fills a fresh five-byte array, byte i from characters (4-i)*2 and (4-i)*2+1 of the ten-digit text |
| Counters.CounterModel.constructor | LibraEmulation/Model/CounterModel.cs:12 | `TotalWeight` starts at 0 |
| Counters.CounterModel.GetCounterBcd | LibraEmulation/Model/CounterModel.cs:15-54 | a fresh array every call, holding the counter's packing, changing nothing and independent of `TotalWeight` |
| Frame.FramedShape | LibraEmulation/Model/SerialPortService.cs:237-247 | the reply is three bytes longer than the payload and is `FF`, the payload without its last byte, the checksum, `FF FF` |
| Frame.FramedPlaceholder | LibraEmulation/Model/SerialPortService.cs:242-245 | a payload `head + [00]` is framed as `FF head crc FF FF` |
| Frame.FramedPayload | LibraEmulation/Model/SerialPortService.cs:239-245 | the reply keeps the payload bytes before the placeholder and holds the checksum at index `|r| - 3` |
| Frame.FramedIsFrame | LibraEmulation/Model/SerialPortService.cs:101-104 | a reply has the request frame shape exactly when the payload has at least three bytes |
| Frame.EnclosedIsFramed | LibraEmulation/Model/SerialPortService.cs:220-228 | the inline framing of C8 builds the same bytes as `CreateResponse` of the placeholder payload |
| Frame.ArrayCopy | LibraEmulation/Model/SerialPortService.cs:241 | `Array.Copy` writes the source at the offset and leaves the bytes before and after it unchanged |
| Frame.CreateResponse | LibraEmulation/Model/SerialPortService.cs:237-247 | a fresh array holding the framed payload |
| Protocol.ConByte | LibraEmulation/Model/SerialPortService.cs:145-151 | bit 7 iff negative, bit 5 iff net (C2), bit 4 iff settled, bit 3 iff overload, bit 0 always, bits 6, 2 and 1 never |
| Protocol.StatusByte | LibraEmulation/Model/SerialPortService.cs:178-186 | bits 7 to 0 are reweighing, error, stop, cycle complete, paused, loading, unloading, on pass |
| Protocol.StatusRoundTrip | LibraEmulation/Model/SerialPortService.cs:178-186 | reading a STATUS byte back gives the flags, and every byte is the packing of its flags |
| Protocol.ReplyWhen | LibraEmulation/Model/SerialPortService.cs:132-233 | a reply exists exactly for A1, C2, C3, BF, and for C8 with at least seven request bytes |
| Protocol.PayloadShape | LibraEmulation/Model/SerialPortService.cs:127-129 | every payload starts with the fixed address and the request's command and ends with the 0x00 placeholder |
| Protocol.FramedReply | LibraEmulation/Model/SerialPortService.cs:237-247 | a framed payload is a frame carrying the payload's first two bytes at 1 and 2 and the payload's checksum before the closing `FF FF` |
| Protocol.ReplyFraming | LibraEmulation/Model/SerialPortService.cs:123-234 | every reply is a frame of at least seven bytes with the fixed address at 1, the command at 2, and the checksum of the bytes in between plus 0x00 at `|r| - 3` |
| Protocol.ReplySerial | LibraEmulation/Model/SerialPortService.cs:132-140 | A1 answers the nine bytes `FF adr A1 12 34 56 crc FF FF` |
| Protocol.ReplySerialExample | LibraEmulation/Model/SerialPortService.cs:132-140 | with address 0x14 the A1 reply is `FF 14 A1 12 34 56 11 FF FF` |
| Protocol.ReplyNet | LibraEmulation/Model/SerialPortService.cs:142-157 | C2 answers the weight bytes and CON of the reading captured by `Start`, with the net bit set |
| Protocol.ReplyGross | LibraEmulation/Model/SerialPortService.cs:159-174 | C3 answers the weight bytes and CON of the live reading, with the net bit clear |
| Protocol.ReplyStatus | LibraEmulation/Model/SerialPortService.cs:176-193 | BF answers `FF adr BF STATUS crc FF FF` |
| Protocol.ReplyCounter | LibraEmulation/Model/SerialPortService.cs:194-233 | C8 answers `FF adr C8 nw`, the counter's bytes, the checksum and `FF FF` |
| Protocol.ReplyCounterLength | LibraEmulation/Model/SerialPortService.cs:196-228 | the C8 reply is seven bytes for a counter other than 4 and 8, and twelve bytes with the counter at indices 4 to 8 otherwise |
| Protocol.ReplyIgnoresRequestAddress | LibraEmulation/Model/SerialPortService.cs:127-129 | the request's address byte and any bytes past those the command reads do not change the reply |
| Protocol.ReplyReads | LibraEmulation/Model/SerialPortService.cs:142-193 | C2 depends only on the captured reading, C3 only on the live one, BF only on the flags, each besides the address |
| Protocol.RespondWhen | LibraEmulation/Model/SerialPortService.cs:101-112 | something is written exactly for a buffer of the frame shape carrying a known command (C8 needing seven bytes) |
| Protocol.HandshakeOnce | LibraEmulation/Model/SerialPortService.cs:106-110 | the event is raised for buffer i exactly when the flag was clear, buffer i is a frame and no earlier buffer was |
| Protocol.HandshakeAtMostOnce | LibraEmulation/Model/SerialPortService.cs:106-110 | at most one event is raised over any run of buffers |
| Protocol.HandshakeStep | LibraEmulation/Model/SerialPortService.cs:106-110 | each buffer contributes one event, raised iff the flag is clear and the buffer is a frame, after which the flag is set if it was a frame |
| Service.SerialPortService.constructor | LibraEmulation/Model/SerialPortService.cs:11-49 | the loop is not running, the handshake flag is clear, the address is 0 and every reading and flag is zero or clear |
| Service.SerialPortService.Start | LibraEmulation/Model/SerialPortService.cs:63-77 | records the address and the C2 reading, clears the handshake flag, lets the loop run, and leaves the live properties alone |
| Service.SerialPortService.Stop | LibraEmulation/Model/SerialPortService.cs:79-85 | the loop stops and nothing else changes |
| Service.SerialPortService.ProcessBuffer | LibraEmulation/Model/SerialPortService.cs:123-234 | writes exactly the protocol reply to the buffer for the current state, or nothing |
| Service.SerialPortService.SerialReply | LibraEmulation/Model/SerialPortService.cs:132-140 | the A1 branch frames `adr A1 12 34 56 00` with its checksum |
| Service.SerialPortService.WeightReply | LibraEmulation/Model/SerialPortService.cs:142-174 | the C2 and C3 branches frame address, command, the three weight bytes, CON and the placeholder |
| Service.SerialPortService.StatusReply | LibraEmulation/Model/SerialPortService.cs:176-193 | the BF branch frames address, command, STATUS and the placeholder |
| Service.SerialPortService.ConBits | LibraEmulation/Model/SerialPortService.cs:145-151 | the flag-by-flag `\|=` statements build the CON byte |
| Service.SerialPortService.StatusBits | LibraEmulation/Model/SerialPortService.cs:178-186 | the flag-by-flag `\|=` statements build the STATUS byte |
| Service.SerialPortService.SendFramed | LibraEmulation/Model/SerialPortService.cs:136-137 | `CalcCRC` then `CreateResponse` frame the array with its checksum |
| Service.SerialPortService.CounterReply | LibraEmulation/Model/SerialPortService.cs:196-228 | the C8 branch frames address, command, counter number, the counter's bytes and the placeholder |
| Service.SerialPortService.CounterPayload | LibraEmulation/Model/SerialPortService.cs:214-220 | a fresh array holding address, command, counter number, the counter's bytes and 0x00 |
| Service.SerialPortService.SendInline | LibraEmulation/Model/SerialPortService.cs:221-228 | writing the checksum into the last byte and enclosing the array is the framing of the placeholder payload |
| Service.SerialPortService.Enclose | LibraEmulation/Model/SerialPortService.cs:224-228 | a fresh array holding `FF`, the payload and `FF FF` |
| Service.SerialPortService.ReceiveStep | LibraEmulation/Model/SerialPortService.cs:101-111 | a frame-shaped buffer is answered, sets the handshake flag and raises the event iff the flag was clear; any other buffer writes nothing and changes nothing |
| Service.SerialPortService.ReadSerial | LibraEmulation/Model/SerialPortService.cs:87-121 | over a run of buffers each write is the response to its buffer, the events are those of the handshake, the flag ends set iff it was set or some buffer was a frame, and the reply state is unchanged |

## Left out

- Serial I/O: constructing, opening and closing the `SerialPort`, `BytesToRead`, `Read` and `Write`. A receive step is given the bytes read and returns the bytes it would write.
- The background thread, the `_keepReading` polling loop and `Thread.Sleep(100)`. `ReadSerial` runs over a finite sequence of received buffers and requires the loop to be running. A `Stop` issued from another thread while the loop runs is not modelled, nor is the unsynchronised sharing of the weight and flag properties between threads.
- The `DispatcherTimer`, `DateTime.Now` and `TimeoutTimer_Tick`, which stop the timer and log a message if no handshake happened.
- Floating point. `Math.Round(Math.Abs(weight) * 10)` and the `(int)` cast are taken as given: a weight is its non-negative integer number of tenths plus a sign flag. Banker's rounding and overflow of the cast are not modelled.
- The `LogMessage`/`ErrorMessage` events, `BitConverter.ToString` and the exception handler. The `HandshakeCompleted` event is the `raised` result of a receive step.
- `_lastDataReceived`, the `Start` parameters `portName`, `baudRate` and `parity`, which only configure the port (SerialPortService.cs:69), and the unused `initialWeight`.
- `Start`: a failing `Open` is not modelled; in the code it leaves the address and the snapshot updated and both flags unchanged, and the exception reaches the caller.
- How the public weight, flag and status properties are assigned. The live reading and the status are fields the model reads and nothing in it writes.
- `TotalWeight` of `CounterModel`: the `double` is a `real`, and nothing in the model reads or writes it after construction.
- LibraEmulation/MainWindow.xaml.cs is not part of this model; its checksum and weight code are copies of the service's. LibraEmulation/ViewModel/MainViewModel.cs is not part of this model either.
