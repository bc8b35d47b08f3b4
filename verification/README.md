# Verification of gomodbus

A Dafny model of the hard parts of the gomodbus master library, with proofs. The byte-level definitions
(frames, checksums, PDUs) are shared, so the later modules are statements about the very bytes the earlier ones define.

Check everything with `dafny verify dfyconfig.toml`. Proofs hide the definitions they do not need, which keeps each small.

## What is modelled

| file | program part |
|---|---|
| `Bytes`, `Words` | bytes, big-endian words, coil bit packing, results and errors |
| `ShiftRegister`, `Crc`, `CrcErrors` | the table-driven and the bitwise CRC of section 6.2.2 of MODBUS over Serial Line V1.02, and what it detects |
| `Rtu`, `Ascii`, `Tcp` | frame builders, parsers and verifiers, LRC, transaction ids |
| `Device`, `Requests` | a conforming device (section 6 of MODBUS Application Protocol V1.1b3), and the requests the client issues |
| `Line`, `Transports`, `Client` | a byte stream delivered in arbitrary non-empty chunks, the `Send` read loops, and the request methods end to end |
| `Streams`, `Handler` | the second API: stream receivers, and coil and register methods |
| `Identification` | the object list of a Read Device Identification reply |
| `Grouping`, `GroupReads`, `GroupValues`, `Batch` | register batching and sequential reading, and what each register ends up with |
| `TcpCall`, `GroupCalls`, `Concurrent`, `ConcurrentRuns`, `ConcurrentIds` | `ReadGroupedDataConcurrently` as a step system |
| `Manager` | `RegisterManager` as a step system |

Objects that the source updates in place are classes (`Crc.Calculator`, the packagers, `Line.Port`, `Client.Client`,
`Handler.ModbusHandler`, `Manager.RegisterManager`), with methods specified by functions; buffers are arrays. The line
is a class whose `Read` returns a nondeterministic non-empty part of what is pending, so every statement about a read
loop is about every fragmentation. `sort.Slice` is any sorted permutation and the map traversal is any order. In the
step systems every goroutine may take the next step at any time.

Index panics of the source are the result `Err(RuntimePanic)`; they are not excluded by preconditions.

## Findings

Where the code does not do what its documentation suggests, the model follows the code and the exact condition is proved.

- RTU `Decode` trusts the byte count of functions below 5 (rtuclient.go:106-119), so a corruption can pass for a shorter
  frame (`Rtu.FunctionByteCorruptionPasses`). A corrupted frame is accepted exactly when its count ends early and the
  bytes up to there are sealed (`Rtu.BurstAcceptedIff` and its companions); all corruptions received with function w are
  rejected exactly when w is at least 5 (`Rtu.AlwaysRejectedIff`).
- `RTUPackager.Unpack` reads the checksum bytes in the other order than `Pack` writes them
  (`Rtu.UnpackInvertsPackIff`, `Rtu.UnpackRefusesPacked`).
- The object loop of the device identification slices up to the capacity of the transporter's array, so a reply whose
  last value is cut off is accepted with other bytes of that array as its value (`Identification.TruncatedObjectRead`);
  where the received bytes put the end of the last object decides between panic, received and foreign bytes
  (`Identification.TrueLayoutIff`).
- A batch differs from reading alone on registers of quantity zero (`GroupValues.BatchRefinesSingle`), is refused as
  a whole above 125 registers (`GroupValues.GroupReadIff`), uses the first register's function for all
  (`GroupValues.MixedGroupRightIff`) and never succeeds for coils and discrete inputs (`GroupValues.BitGroupNeverReads`).
- A run past the address space can make the uint16 total wrap, and the read then succeeds with wrong values
  (`GroupValues.WrappedTotalReads`): a successful read gives every register its own cells exactly when the true total
  is at most 125 (`GroupValues.OwnIff`, and `GroupValues.SizesIff` for any functions). Over all devices a register is
  right exactly when it is empty, or has the first function and no quantity up to it is 0x8000 or more
  (`GroupValues.MixedGroupRightIff`).
- `WriteMultipleCoils` of the handler truncates the list length to uint16: 65536 + n coils report success with n written
  (`Handler.LongCoilListLost`); a success is complete exactly for at most 1968 coils (`Handler.CoilWriteCompleteIff`).
- The handler's transaction id is always 0 (enhancement_handler.go:627) and the one received is dropped
  (enhancement_handler.go:650), so an old reply of the same slave is returned as the answer, and every later call is as
  late (`Handler.AnswersThisRequestIff`); reads are answered right on all devices exactly when none is held
  (`Handler.AlwaysItsReplyIff`).
- The handler's RTU `Receive` gives up on an exception after two bytes (enhancement-rtu_transporter.go:78), so code and
  CRC stay (`Handler.ErrorLeftIff`) and the next call to a slave whose id is not the code fails (`Handler.NextCallFails`).
- After an exception reply on an RTU line the last byte is left unread when the first read returns four bytes
  (rtuclient.go:186, 195, 211; `Client.LeftByteIff`). Statements about several requests in a row on RTU hold up to the
  first exception (`Batch.ReadGroupedDataSequential`), which readable groups never meet (`Batch.ReadableLeavesClean`).
- Reading groups of several slaves concurrently can send a request to the wrong slave, because the client's slave id
  is shared and set before the request is encoded (`ConcurrentRuns.SequentialIff`).
- `ReadGroupedData` keeps the mutex while it fills the queue and the consumer needs the mutex to deliver, so it
  blocks exactly when there are more groups than room (`Manager.ReturnsIffRoom`, `Manager.ReturnsIffRoomOnceStarted`);
  its exit branch cannot help, since `Stop` needs the same mutex (`Manager.RunsAreSafe`, `Manager.ReadingMovesUnlessBlocked`).

## Model

| member | source | states |
|---|---|---|
| Crc.FoldConcat | crc.go:59-68 | pushBytes on a concatenation is pushBytes on the first part and then on the second, for any start state |
| Crc.CRC16 | enhancement-utils.go:39-53 | the bitwise CRC equals the reference register fold with its two bytes swapped, for every message |
| Crc.ShiftByte | enhancement-utils.go:43-50 | the inner loop is eight steps of the register with polynomial 0xA001 |
| Crc.TableEntry | crc.go:8-45 | every one of the 256 entries of the two tables is what eight shift steps make of its index |
| Crc.TableStep | crc.go:62-66 | one table-driven update of (high, low) is one byte fed to the bitwise register |
| Crc.Calculator.Reset | crc.go:53-57 | the state becomes 0xFFFF |
| Crc.Calculator.PushBytes | crc.go:59-68 | the table-driven loop computes the same fold as the bitwise one, from any state |
| Crc.Calculator.Value | crc.go:70-72 | high and low byte joined are the fold's state |
| Crc.SwapInvolutive | enhancement-utils.go:52 | swapping the two bytes twice gives the checksum back, so the two CRC implementations determine each other |
| Crc.TailMatches | rtuclient.go:124-125 | comparing the assembled 16-bit checksum is the same as comparing the two trailer bytes, in either byte order |
| ShiftRegister.Unshift8Inverts | enhancement-utils.go:43-50 | eight register steps are a bijection on the 65536 states |
| CrcErrors.FeedBijective | crc.go:62-66 | pushing one byte is a bijection on states, with the inverse given |
| CrcErrors.FoldInjective | crc.go:62-66 | pushing the same bytes never merges two different states |
| CrcErrors.FeedPair | crc.go:62-66 | pushing two bytes is injective in the pair, from any state |
| CrcErrors.SealedIffResidueZero | rtuclient.go:77-84 | a frame carries its own checksum if and only if pushing the whole frame, trailer included, leaves state 0 |
| CrcErrors.FoldIsBits | enhancement-utils.go:41-51 | the byte-wise CRC is a bit-serial register over the message's bits |
| CrcErrors.UndetectedIff | rtuclient.go:121-128 | a corruption of a valid frame goes undetected if and only if its error pattern alone leaves the register at 0 |
| CrcErrors.BurstDetected | rtuclient.go:121-128 | every corruption confined to 16 consecutive bits, anywhere in a frame of any length, breaks the checksum |
| CrcErrors.AdjacentBytesDetected | rtuclient.go:121-128 | every corruption of one byte or two adjacent bytes, trailer included, breaks the checksum |
| CrcErrors.ChecksumParity | enhancement-utils.go:39-53 | the checksum of a message has the bit parity of the message |
| CrcErrors.SealedHasEvenParity | rtuclient.go:77-84 | every frame with a correct checksum has an even number of one bits |
| CrcErrors.OddFlipsDetected | rtuclient.go:121-128 | every odd number of flipped bits breaks the checksum |
| Rtu.Packager.EncodePdu | rtuclient.go:65-85 | refuses more than 252 data bytes, otherwise fills the buffer with address, function, data and checksum low byte first |
| Rtu.Packager.DecodeAdu | rtuclient.go:104-134 | the in-place decoder is the specified one, with its error and index-panic cases |
| Rtu.PackPdu | enhancement-rtu_packager.go:17-25 | the second builder, through the bitwise CRC with swapped bytes, yields address, PDU and checksum low byte first |
| Rtu.PackIsFrame | enhancement-rtu_packager.go:17-25 | the two frame builders agree on every PDU |
| Rtu.UnpackAcceptsIff | enhancement-rtu_packager.go:28-50 | Unpack accepts exactly the frames whose two checksum bytes are exchanged, and returns their address and PDU |
| Rtu.UnpackInvertsPackIff | enhancement-rtu_packager.go:17-50 | Unpack inverts Pack exactly on messages whose checksum has two equal bytes, otherwise it reports a checksum error |
| Rtu.UnpackRefusesPacked | enhancement-rtu_packager.go:17-50 | concrete input: the packed request 01 07 is refused by Unpack |
| Rtu.VerifyIff | rtuclient.go:88-101 | a frame passes Verify if and only if it names the slave of the request; the frame of any other slave is refused |
| Rtu.DecodeIff | rtuclient.go:104-134 | Decode accepts exactly the frames whose first real-length bytes are sealed, and what it returns re-encodes to those bytes |
| Rtu.RoundTripIff | rtuclient.go:65-134 | Decode(Encode(p)) is p if and only if the function is at least 5 or the first data byte counts the rest |
| Rtu.TrailingBytesIgnored | rtuclient.go:106-119 | with a function below 5 and a correct count, anything after the frame is ignored |
| Rtu.UnsealedAcceptedIff | rtuclient.go:104-134 | a frame that is not sealed as a whole is accepted if and only if its byte count ends early and the bytes up to there are a valid frame of their own |
| Rtu.BurstAcceptedIff | rtuclient.go:104-134 | every encoded frame corrupted within 16 consecutive bits is accepted under exactly that condition, and rejected otherwise |
| Rtu.AdjacentBytesAcceptedIff | rtuclient.go:104-134 | the same for any change of one byte or two adjacent bytes |
| Rtu.OddFlipsAcceptedIff | rtuclient.go:104-134 | the same for any odd number of flipped bits |
| Rtu.AlwaysRejectedIff | rtuclient.go:106-119 | for every function byte w: all corruptions of the three kinds received with function w are rejected if and only if w is at least 5 |
| Rtu.FrameHasEvenParity | rtuclient.go:65-85 | every encoded frame has an even number of one bits |
| Rtu.FunctionByteCorruptionPasses | rtuclient.go:106-119 | for every function below 5 and payload there is a frame of another function that passes Decode after its function byte alone is overwritten |
| Ascii.LrcCalculator.PushBytes | lrc.go:22-28 | the running sum modulo 256 |
| Ascii.LrcCalculator.Value | lrc.go:30-33 | the result is the one byte that brings the running sum to 0 modulo 256 |
| Ascii.LrcCompletes | lrc.go:30-33 | a byte is the checksum of a body if and only if body and byte sum to 0 |
| Ascii.WriteHex | asciiclient.go:248-259 | the loop appends two upper-case hex digits per byte |
| Ascii.HexDecodeOfHex | asciiclient.go:246-269 | decoding what writeHex wrote gives the bytes back |
| Ascii.HexOfHexDecode | asciiclient.go:246-269 | writing what was decoded gives the text back with its digits upper-cased |
| Ascii.Packager.EncodePdu | asciiclient.go:70-94 | the buffer built piece by piece is colon, hex of address, function, data and LRC, CR LF |
| Ascii.DecodeInvertsEncode | asciiclient.go:70-170 | for every slave, function and data, Verify and Decode accept the encoded frame and return the PDU |
| Ascii.EncodeInvertsDecode | asciiclient.go:97-170 | any frame Verify and Decode accept re-encodes to itself with its digits upper-cased; after Verify, Decode never indexes out of range |
| Ascii.VerifyIff | asciiclient.go:97-135 | a frame passes Verify if and only if it names the slave of the request; the frame of any other slave is refused |
| Ascii.DigitIff | asciiclient.go:261-269 | the digits are 0 to 9, A to F and a to f |
| Ascii.HexDecodeIff | asciiclient.go:261-269 | a text decodes to some bytes if and only if it is their writing but for the case of its digits |
| Ascii.KnownFrame | asciiclient.go:70-94 | the frame that reads the exception status of slave 1, character by character |
| Ascii.OneByteDetected | lrc.go:17-33 | changing one byte of a body that sums to 0 leaves a sum other than 0 |
| Ascii.ChangedDigitAcceptedIff | asciiclient.go:138-170 | an encoded frame with one character between colon and CR LF replaced is decoded if and only if the character is the same or the lower case of the same letter, and then to the same PDU |
| Ascii.OnlyTheEndLooksLikeTheEnd | asciiclient.go:235-239 | no proper prefix of an encoded frame longer than 3 characters ends in CR LF |
| Ascii.LongestFrame | asciiclient.go:224-233 | frames have at most 513 characters exactly when the data has at most 252 bytes |
| Tcp.PackPdu | enhancement-tcp_packager.go:19-30 | the buffer holds the MBAP header, with a wrapping length field, and the PDU |
| Tcp.UnpackInvertsPack | enhancement-tcp_packager.go:19-56 | Unpack returns exactly what Pack was given, for PDUs of every length |
| Tcp.PackInvertsUnpack | enhancement-tcp_packager.go:19-56 | packing what Unpack accepted gives the frame back |
| Tcp.Packager.EncodePdu | tcpclient.go:78-96 | increments the counter modulo 2^32 and fills the frame with its low 16 bits |
| Tcp.RoundTripIff | tcpclient.go:78-141 | Decode(Encode(p)) is p if and only if the data has fewer than 65535 bytes |
| Tcp.EncodeInvertsDecode | tcpclient.go:128-141 | re-encoding an accepted Modbus frame gives it back |
| Tcp.VerifyAcceptsEcho | tcpclient.go:99-120 | a reply with the request's id and unit is accepted, whatever it carries |
| Tcp.VerifyIff | tcpclient.go:99-120 | between frames either side built, Verify accepts if and only if the ids and the units are equal; different ids are a transaction error |
| Tcp.VerifyComparesHeader | tcpclient.go:99-125 | on any two byte strings Verify accepts exactly those of at least seven bytes that agree in id, protocol and unit |
| Tcp.CounterAfterIs | tcpclient.go:82 | the counter after n encodings, across the uint32 wrap |
| Tcp.IdsCollideIff | tcpclient.go:82-83 | two encodings of one run share an id if and only if they are a multiple of 65536 apart, from any counter value |
| Tcp.RepliesAcceptedIff | tcpclient.go:78-120 | in every run, request k accepts a reply to request j if and only if it is from the same unit and j is a multiple of 65536 earlier; replies to the previous 65535 requests are rejected by id |
| Words.BytesToWordsAt | enhancement_handler.go:236-238 | word i is the big-endian pair at offset 2 i |
| Words.BytesToWordsInverts | enhancement_handler.go:233-238 | parsing big-endian words inverts writing them |
| Words.WordBytesSlice | enhancement-group.go:131-152 | the bytes of a range of words are the doubled range of the bytes |
| Words.PackBitsAt | enhancement_handler.go:367-375 | bit j of the packed coils is coil j, LSB first, and padding bits are zero |
| Words.UnpackOfPack | enhancement_handler.go:167-187 | unpacking the packed coils gives the list back, for every length |
| Words.PayloadBitsDetermine | enhancement_handler.go:367-375 | two payloads of the same length with the same bits are equal |
| Client.BuildDataBlock | client.go:592-598 | the loop writes every word big-endian |
| Client.BuildDataBlockSuffix | client.go:601-610 | the words, the suffix length truncated to a byte, the suffix |
| Client.BuildRequest | client.go:92-475 | the PDU each request method builds: function code, address and quantity words, counted payload |
| Requests.RequestMeaning | client.go:92-475 | round trip through PDUs for codes 1-6, 15, 16, 22, 23: the device serves an admitted request exactly when its cells exist, takes the request's effect and its reply is accepted as the request's answer; otherwise it is untouched and replies with an exception |
| Requests.MaskWordBits | client.go:394-412 | a mask write takes each bit from the register where the AND mask has it and from the OR mask elsewhere |
| Requests.RefusedByEveryDevice | client.go:92-475 | for all ten requests: what the client refuses to send, every device would refuse with exception 3, and nothing would change |
| Requests.AdmitsIffServable | client.go:92-475 | a request with a payload of the right size is admitted if and only if some device serves it |
| Requests.AcceptIff | client.go:92-475 | a read reply is accepted exactly when its first byte counts the rest, the reply to a write exactly when it repeats the request's words; what is returned is stated for both |
| Line.RequestHeard | client.go:562-571 | in every framing the device recovers exactly the request's address and PDU from the request's frame |
| Line.RequestAnswered | client.go:562-571 | the frame changes the addressed device's memory and nothing else, and the reply's frame arrives |
| Line.Port.ReadAtLeast | rtuclient.go:195 | whatever non-empty chunks the line delivers, the read succeeds if and only if enough is pending, with a prefix of it; otherwise everything is used up |
| Line.Port.ReadFull | rtuclient.go:206 | whatever the chunks, exactly the next n bytes are read, or all of them are used up and the read fails |
| Transports.CalculateResponseLength | rtuclient.go:242-269 | the computed length is the specified one, with the index panic on short requests |
| Transports.ResponseLengthIsReplyLength | rtuclient.go:242-269 | for every request a device serves, the predicted length is the reply frame's length, at most 256 |
| Transports.RtuReceive | rtuclient.go:185-221 | whatever bytes are pending and however they are split, the result and what stays on the line are what some size of the first read determines |
| Transports.RtuSend | rtuclient.go:169-225 | the request reaches the devices and the reply is read so |
| Transports.WholeReplyRead | rtuclient.go:200-210 | a reply of the requested function and the predicted length is returned exactly and nothing stays |
| Transports.ExceptionRead | rtuclient.go:186-217 | of a five-byte exception to a function below 0x80, either four bytes are returned and the last one stays, or all five are returned; both can happen and nothing else |
| Transports.SameFunctionRead | rtuclient.go:195-211 | a reply of the request's function is waited for up to the predicted length if that is 5 to 256, and otherwise returned as the first read found it |
| Transports.OtherFunctionRead | rtuclient.go:195-218 | any other reply is returned as the first read found it, but for the function that is the request's top bit alone, for which five bytes are waited for |
| Transports.AsciiSend | asciiclient.go:205-244 | for any fragmentation, the read loop stops exactly at the end of an encoded frame of at most 252 data bytes; on any bytes it returns what ends in CR LF or fills the buffer, or a timeout with nothing left |
| Transports.TcpReceive | tcpclient.go:207-231 | for any fragmentation, what is read and what is left are determined by the pending bytes: header, length check, body or timeout; after a bad length the header and at most one buffer of what follows are gone |
| Transports.TcpSend | tcpclient.go:183-232 | the request reaches the devices and the result is determined by the bytes that arrive, however they are split |
| Transports.ReadReplyIff | tcpclient.go:207-243 | what is returned is exactly a frame at the head of the connection that its header announces and that fits the 260 bytes |
| Transports.EndSeenOnlyAtEnd | asciiclient.go:229-239 | of all prefixes of a frame, the loop's end test holds for the whole frame only |
| Client.ExceptionNeverAccepted | client.go:579-582 | whatever part of an exception reply was read, decoding never yields the requested function |
| Client.Exchange | client.go:562-589 | one request over the line: what the device becomes, what arrives, and that a reply of the expected form is verified and decoded |
| Client.ServedIsExpected | client.go:92-475 | every served request has a reply of the form the transporters deliver whole |
| Client.ConcludedIff | client.go:562-591 | what send makes of any reply frame, in every framing: another slave's frame is refused, a PDU [f, c] of another function is the exception with function f and code c, an empty reply is refused, and only a reply to the function with data is returned |
| Client.OtherTransactionRefused | tcpclient.go:99-109 | over TCP the reply to another request is refused whatever slave it comes from |
| Client.Client.EncodePdu | client.go:563-566 | the framing's frame, or the size error of RTU; over TCP the counter advances by one modulo 2^32 and its low half is the id |
| Client.Client.SetSlaveId | client.go:53-55 | the packager in use gets the slave id |
| Client.Client.DecodeReply | client.go:574-577 | the packager in use decodes the reply |
| Client.Client.Conclude | client.go:571-588 | verify, decode, compare the function code and require data, in that order |
| Client.Client.Transmit | client.go:567 | each framing's Send returns a whole reply exactly; over RTU the result and the rest are those of its read logic |
| Client.TransmittedIsSent | client.go:562-589 | whatever the transporter made of a conforming device's reply, the result of send and the state of the line are as promised |
| Client.Client.Send | client.go:562-589 | on an idle line a reply of the expected form is returned exactly, an exception or silence is an error, only the addressed device acts, and only an RTU exception can leave anything, namely its last byte; exceptions and silence give the errors stated |
| Client.Client.Perform | client.go:92-475 | end to end, for codes 1-6, 15, 16, 22, 23 over RTU, ASCII and TCP and any fragmentation: a refused request changes nothing, a served one returns the device's data and has its effect, any other is an error without effect; the line is idle again unless an RTU device answered with an exception, which leaves at most one byte; a device's refusal is its exception with function and code (over RTU, if four bytes were read first, a checksum error or a code of 0), and silence is a timeout |
| Client.LeftByteIff | rtuclient.go:186-217 | an admitted request can leave something on an idle RTU line if and only if its slave is there and refuses it; what can stay is exactly the last byte of the exception |
| Streams.ReceiveRtuFrom | enhancement-rtu_transporter.go:36-95 | for any fragmentation, one Receive consumes and returns what the stream function says |
| Streams.ReceiveRtuIff | enhancement-rtu_transporter.go:36-95 | Receive returns (slave, pdu) and leaves rest if and only if the PDU is a reply of codes 1-7, 15, 16 and the stream is its packed frame followed by rest |
| Streams.RtuStreamRestored | enhancement-rtu_transporter.go:36-95 | iterating Receive over any list of packed reply frames returns that list and consumes exactly its bytes |
| Streams.CorruptedSkipped | enhancement-rtu_transporter.go:82-100 | a frame of a known function with a wrong checksum is skipped whole and what follows is kept |
| Streams.ReceiveTcpFrom | enhancement-tcp_transporter.go:43-82 | for any fragmentation, one Receive consumes and returns what the stream function says |
| Streams.ReceiveTcpIff | enhancement-tcp_transporter.go:43-82 | Receive returns a message and leaves rest if and only if its PDU has at most 259 bytes and the stream is its packed frame followed by rest |
| Streams.ReceiveAgreesWithUnpack | enhancement-tcp_packager.go:33-56 | on the bytes it consumed, Receive and Unpack return the same |
| Streams.TcpStreamRestored | enhancement-tcp_transporter.go:43-82 | iterating Receive over any list of packed frames returns that list and consumes exactly its bytes |
| Streams.BadHeaderSkipped | enhancement-tcp_transporter.go:40-70 | a header of another protocol or with a length of 0 or more than 260 is dropped and what follows is kept |
| Handler.BuildRequestPdu | enhancement-utils.go:5-10 | the function code followed by the data |
| Handler.HandlerMeaning | enhancement_handler.go:71-157 | for every request the handler sends, valid or not, the device's reply is the served answer or an exception, and a normal reply is one Receive knows |
| Handler.ModbusHandler.ExchangeRtu | enhancement-rtu_transporter.go:27-34 | Send packs the PDU, the device answers, Receive reads the reply |
| Handler.ModbusHandler.ExchangeTcp | enhancement_handler.go:627 | the same over TCP, always with transaction id 0 |
| Handler.ModbusHandler.SendAndReceive | enhancement_handler.go:599-702 | for every content of the line: one Receive on what was pending and what arrived, judged by slave id and exception bit only |
| Handler.IdleExchanged | enhancement_handler.go:599-702 | on an idle line a normal reply PDU is returned whole; an exception or silence is an error, which leaves nothing over TCP and the exception without its first two bytes over RTU |
| Handler.ErrorLeftIff | enhancement-rtu_transporter.go:37-80 | a call that fails leaves three bytes, code and CRC of the exception, if and only if it was sent over RTU to a device that is there; otherwise nothing |
| Handler.NextCallFails | enhancement-rtu_transporter.go:37-80 | the next call on that line takes the exception code for a slave id: to any other slave it fails, whatever is answered, and if the low CRC byte is no known function all of the answer stays on the line |
| Handler.AnswersThisRequestIff | enhancement_handler.go:621-651 | on a line that holds old replies, the PDU returned answers this request if and only if there are none or the oldest is the same message, whatever its transaction id; the line then holds as many old replies as before |
| Handler.AlwaysItsReplyIff | enhancement_handler.go:621-651 | over all devices that serve a read: the call always returns this device's reply to this request if and only if the line holds no old reply |
| Handler.ModbusHandler.ReadModbusData | enhancement_handler.go:71-122 | the payload of a served read is the device's data; otherwise an error without effect; and what stays on the line; on any line the result is the payload of the reply read |
| Handler.ModbusHandler.WriteModbusData | enhancement_handler.go:128-157 | a served write has its effect and its five-byte reply is returned; otherwise an error without effect; and what stays on the line; on any line the result is the echo in the reply read |
| Handler.PayloadIff | enhancement_handler.go:93-121 | a payload is returned exactly from a PDU of the requested function that counts it |
| Handler.EchoIff | enhancement_handler.go:139-156 | the reply to a write is returned exactly from a PDU of the requested function and the expected length |
| Handler.ExceptionJudged | enhancement_handler.go:672-697 | a message of another slave is refused, and a PDU [f, c, ...] with f from 0x80 on is the exception f with code c |
| Handler.ModbusHandler.ReadCoils | enhancement_handler.go:160-190 | returns exactly the addressed coils when they exist and 1 to 2000 are asked for, otherwise an error; on any line the result is what the payload of the reply read makes it |
| Handler.ModbusHandler.ReadDiscreteInputs | enhancement_handler.go:193-218 | the same for discrete inputs |
| Handler.ModbusHandler.ReadHoldingRegisters | enhancement_handler.go:221-241 | the same for up to 125 holding registers; on any line the result is what the payload of the reply read makes it |
| Handler.ModbusHandler.WriteMultipleCoils | enhancement_handler.go:357-396 | the list, its length truncated to uint16, is stored at the address if 1 to 1968 coils remain and the cells exist; otherwise an error without effect; on any line success means that the message read is this slave's acknowledgement of this address and quantity |
| Handler.ModbusHandler.WriteMultipleRegisters | enhancement_handler.go:399-433 | lists of 1 to 123 words are stored at the address; every other list is an error without effect; on any line success means that the message read is this slave's acknowledgement of this address and quantity |
| Handler.ParseBits | enhancement_handler.go:168-187 | coil i is bit i of the payload, false past its end |
| Handler.SetCoils | enhancement_handler.go:368-375 | setting bits one by one in a zeroed buffer leaves bit j set exactly for true coil j, or panics exactly when a true coil lies past the buffer |
| Handler.BuildCoilData | enhancement_handler.go:358-375 | the data is address, quantity, byte count and the packed list; from 65529 coils on the byte count wraps to 0 and any true coil panics |
| Handler.BuildRegisterData | enhancement_handler.go:400-412 | address, quantity, byte count and the words big-endian for up to 32765 words, the index panic for every longer list, since the buffer size is uint16 |
| Handler.CoilsWrittenAreRead | enhancement_handler.go:160-190 | 1 to 1968 coils written are read back as the same list; every other coil, table and device is unchanged |
| Handler.CoilWriteCompleteIff | enhancement_handler.go:358 | a write that reports success stored the first len modulo 65536 coils, which is the whole list if and only if it has at most 1968 |
| Handler.LongCoilListLost | enhancement_handler.go:358 | concrete inputs: every list of 65536 + n coils with 1 to 1968 for n and n existing cells is reported written with its first n coils stored only |
| Identification.StoredIsLast | client.go:736-743 | each id maps to the value of its last object |
| Identification.StoredOnlyIds | client.go:736-743 | no other id is in the map |
| Identification.ParseIsLayout | client.go:734-743 | what the loop read, in the array behind the data, is the layout of the objects it found, all but the last value within the length |
| Identification.LayoutIsParsed | client.go:734-743 | every layout whose last length byte was received is parsed back, whatever follows it in the array |
| Identification.ReadObject | client.go:737-739 | one object: indexing bounded by the length, slicing by the capacity |
| Identification.ReadObjectList | client.go:734-743 | the loop returns the map and the index, or the panic, that the parse determines |
| Identification.ReadObjects | client.go:722-745 | conformity check, continuation id and objects as specified, with the panics on short replies |
| Identification.ConformityIff | client.go:722-733 | a reply is refused for its conformity level exactly for all but 1, 2, 3, 0x81, 0x82 and 0x83; what else it needs, and the id to continue with |
| Identification.BackingSize | tcpclient.go:208 | the array behind the reply data has 254 bytes over RTU, 252 over TCP and as many as the data over ASCII |
| Identification.ConformingReplyRead | client.go:722-745 | a reply of up to 255 objects with values up to 255 bytes is read back, in range and used up exactly, whatever lies behind it in the array |
| Identification.AcceptedIff | client.go:722-745 | a reply is accepted if and only if the array behind it carries a list of as many objects as its count says, with the last length byte received; that list is what is returned |
| Identification.TrueLayoutIff | client.go:739 | with the end of the last object walked over the received bytes alone: it panics if and only if a head is cut off or the end is beyond the array, the objects were received if and only if the end is within the length, and the last value is foreign bytes if and only if the end is between the two |
| Identification.ExactCapacityIsTrue | asciiclient.go:152-155 | over ASCII, where the array ends with the data, every accepted list was received |
| Identification.TruncatedObjectRead | client.go:739 | concrete input: a reply that announces five bytes and carries none yields buffer bytes over TCP and RTU and a panic over ASCII |
| Grouping.SplitConserves | enhancement-group.go:39-68 | joining the groups of a list gives the list back, in order |
| Grouping.SplitIsMaximal | enhancement-group.go:39-68 | every group is a run of joinable neighbours and consecutive groups cannot be joined |
| Grouping.SplitSize | enhancement-group.go:39-68 | the number of groups is one more than the number of neighbours that cannot be joined |
| Grouping.SplitIsOptimal | enhancement-group.go:39-68 | no division of the list into consecutive runs of joinable neighbours has fewer groups |
| Grouping.JoinedWithoutWrap | enhancement-group.go:54 | on a sorted list the uint16 continuity test is continuity of true integers |
| Grouping.WrapWouldJoin | enhancement-group.go:40-60 | without the order, the uint16 test would join across the end of the address space |
| Grouping.SortByReadAddress | enhancement-group.go:83-87 | some sorted permutation of the input, with ties in any order |
| Grouping.Advance | enhancement-group.go:43-62 | one turn of the loop extends the current group or closes it and starts the next |
| Grouping.SplitRuns | enhancement-group.go:39-68 | the loop with its current group computes the split |
| Grouping.BySlave | enhancement-group.go:19-24 | one list per slave that occurs, with that slave's registers in input order |
| Grouping.GroupDeviceRegisters | enhancement-group.go:12-72 | the result is the split of one sorted list per slave, the slaves in any order, and holds every input register exactly once |
| Grouping.GroupsPartition | enhancement-group.go:12-72 | the groups conserve the input multiset; each has one slave, is sorted and continuous in true integers, with quantity zero only last; consecutive groups of one slave cannot be joined |
| GroupReads.SumQuantities | enhancement-group.go:97-100 | the uint16 sum is the integer sum modulo 65536 |
| GroupReads.SliceReply | enhancement-group.go:131-154 | the in-place loop leaves each register its slice until one does not fit, which is marked and ends it |
| GroupReads.Invalidate | enhancement-group.go:122-128 | after a failed read every register of the group has the value it had and is invalid with the error of the read |
| GroupReads.GroupRequestIs | enhancement-group.go:96-120 | the group is asked for with the first register's function and address and the wrapped total |
| GroupReads.ReadGroup | enhancement-group.go:90-155 | the group's array ends as one client read over conforming devices allows, the devices are unchanged, the returned list is the group or nil, and the line is idle again unless an RTU device answered with an exception; over TCP list and error are exactly the sequential result |
| GroupValues.RunTiles | enhancement-group.go:96-100 | the ranges of a continuous run tile one interval from its first address |
| GroupValues.NeededIsTwice | enhancement-group.go:131-139 | whatever wraps in uint16, the slices need twice the requested quantity modulo 65536 |
| GroupValues.GroupReadSucceedsIff | enhancement-group.go:90-155 | for every group read as words and every device: the read succeeds if and only if the total as uint16 wraps it is 1 to 125, the slave and that many cells exist, and the slices need no more bytes |
| GroupValues.SliceAt | enhancement-group.go:131-154 | register by register: a slice that fits lies behind the slices before it, the first that does not leaves its register invalid with the value it had, and the later ones are untouched |
| GroupValues.FailedCallInvalidates | enhancement-group.go:121-128 | for every group and device: if the call fails, every register keeps its value and is invalid with the call's error |
| GroupValues.ServedCallFills | enhancement-group.go:131-154 | for every group and device: if the call is served, which registers are filled with which bytes, which one is out of bounds and which stay as they were, and the error |
| GroupValues.RunReadIff | enhancement-group.go:90-155 | for every run and every device: if the slave is there, the total is 1 to 125 and the cells exist, the read succeeds and fills every register from the first function's table; if the total does not wrap it succeeds only then and otherwise leaves every register with its value, invalid with the error |
| GroupValues.WrappedTotalReads | enhancement-group.go:97-100 | concrete input: a run past the address space whose total wraps to 1 succeeds and marks a register of 32768 units valid with no bytes |
| GroupValues.SizesIff | enhancement-group.go:97-139 | for every run, total and device: after a successful read every value has two bytes per unit if and only if the total is at most 125 |
| GroupValues.OwnIff | enhancement-group.go:90-155 | with one word function, for every total and device: after a successful read all registers have existing cells and hold exactly those if and only if the total is at most 125 |
| GroupValues.GroupReadIff | enhancement-group.go:90-155 | with one word function, for every total and device: what makes the read succeed, and that the values of a success are every register's own cells if and only if the total is at most 125 |
| GroupValues.AloneReadIff | enhancement-group.go:90-155 | one register alone is read if and only if it has 1 to 125 units that exist |
| GroupValues.BatchRefinesSingle | enhancement-group.go:90-155 | a register of a successful batch equals the register read alone only if it has 1 to 125 units, and unless the total wrapped exactly if its quantity is not zero |
| GroupValues.BatchRefinesAllIff | enhancement-group.go:90-155 | after a successful read all registers of positive quantity equal what reading them alone gives if and only if the total is at most 125 |
| GroupValues.FirstFunctionServesAll | enhancement-group.go:111-139 | for every run, total and device: a successful read fills register i from the table of the first register's function, at its own address or 0x8000 below if a register before it has 0x8000 units or more; such a register gets 0x10000 bytes too few |
| GroupValues.MixedGroupRightIff | enhancement-group.go:97-139 | for every run and total, over all devices: every successful read fills a register of functions 1 to 4 with its own cells if and only if its quantity is zero, or its function is the first one's and no register up to it has 0x8000 units or more, or no device lets the read succeed |
| GroupValues.BitGroupNeverReads | enhancement-group.go:131-139 | a group of coils or discrete inputs never reads successfully, whatever its quantities and the device |
| Batch.ReadGroupedDataSequential | enhancement-group.go:200-211 | every group is read in place, the list has each group or nil, the errors are exactly the failures in order, and each result is that of conforming devices as long as no earlier group met an exception on RTU; over TCP every list and error is exactly the sequential result |
| Batch.ErrorsInOrder | enhancement-group.go:200-211 | there is one error for each failure, in the order of the groups |
| Batch.ReadableLeavesClean | enhancement-group.go:200-211 | in every framing, groups that are readable in one request never meet an exception, so the groups after them are read on a clean line |
| Batch.GroupRefinesIndividualReads | enhancement-group.go:90-155 | one readable group, whatever happens to others: its read succeeds and gives, register by register, what reading each alone gives, but for quantity zero; it is the same if and only if there is none |
| Batch.ReadableGroupOfAny | enhancement-group.go:12-211 | the same for any readable group that the grouping of any list produces, with other groups failing or not |
| Batch.BatchRefinesIndividualReads | enhancement-group.go:12-211 | for every register list and every order the grouping may produce, when each group is readable in one request the batch has no errors and holds, as a multiset, what reading the registers one by one yields, but for registers of quantity zero; it is the same if and only if there are none |
| TcpCall.CallIgnoresTransaction | tcpclient.go:99-120 | a read over an idle connection empties it, leaves the devices and has a result that does not depend on the transaction id |
| TcpCall.CallIsOutcome | client.go:92-220 | the call as a function gives what the request method promises |
| GroupReads.SequentialIsGroupRead | enhancement-group.go:90-155 | the sequential result of a group is one that reading the group gives |
| GroupCalls.CallIsSequential | enhancement-group.go:90-155 | the pieces of a group read, run to the end on the group's own slave, give the sequential result |
| GroupCalls.CallIsOfSlave | enhancement-group.go:95 | run with another slave id they give that slave's result |
| Concurrent.StepKeepsInv | enhancement-group.go:158-197 | every step of every goroutine, of the closer and of the collector keeps the invariant on slave id, mutex, connection, results and errors |
| Concurrent.OthersKept | tcpclient.go:183-185 | a goroutine's step changes nothing another goroutine relies on |
| Concurrent.ExecutionKeepsInv | enhancement-group.go:158-197 | every reachable state satisfies the invariant |
| Concurrent.SendNeverBlocks | enhancement-group.go:168-180 | a goroutine with an error to send always finds room in the channel, which is still open |
| Concurrent.ErrorsFifo | enhancement-group.go:158-197 | no step reorders or drops an error: it adds at most the failure of its own goroutine behind the others |
| ConcurrentIds.TransactionsDistinct | tcpclient.go:80-83 | for at most 65536 groups, any slaves, any start of the counter and any interleaving, no two goroutines between Encode and Verify go by the same transaction id |
| ConcurrentRuns.ConcurrentIsSequential | enhancement-group.go:158-211 | with groups of one slave, every run that returns, under any interleaving, returns the sequential results and exactly the sequential errors, one per failed group |
| ConcurrentRuns.ConcurrentBatchRefinesIndividualReads | enhancement-group.go:158-197 | grouping a register list of one slave and reading the groups concurrently ends without errors in what reading the registers one by one yields, with the same exact exception for quantity zero |
| ConcurrentRuns.NoDeadlock | enhancement-group.go:158-197 | until the call has returned some step is always possible |
| ConcurrentRuns.StepShrinks | enhancement-group.go:158-197 | every step lowers a bound on the steps still to come |
| ConcurrentRuns.RunsAreShort | enhancement-group.go:158-197 | no run has more than 18 n + 2 steps for n groups |
| ConcurrentRuns.RunCanReturn | enhancement-group.go:158-197 | from every reachable state the call can be run to its return |
| ConcurrentRuns.TwoSlavesRace | enhancement-group.go:95 | with groups of two slaves there are devices and an interleaving that store a result the sequential reader never gives |
| ConcurrentRuns.SequentialIff | enhancement-group.go:158-211 | all devices and all interleavings store only sequential results if and only if, when some group gets as far as a request, all groups select one slave |
| Manager.RegisterManager.LoadRegisters | enhancement-register-manager.go:78-92 | a duplicate tag is refused without effect; otherwise the groups become the grouping of the registers |
| Manager.LoadReplaces | enhancement-register-manager.go:75-90 | loading replaces the groups by the new registers, each once, and touches nothing else; a duplicate tag changes nothing |
| Manager.RegisterManager.Stop | enhancement-register-manager.go:95-104 | a closed manager is left alone; an open one gets its flag and both channels closed, or a panic exactly when one of them is closed already |
| Manager.OnlyTheHolderMoves | enhancement-register-manager.go:57-137 | while someone holds the mutex only the holder's own next step and steps that need no mutex are possible, and those leave the section alone |
| Manager.StepKeepsInv | enhancement-register-manager.go:57-137 | every step of callers and consumer keeps the invariant on flags, mutex, queue and history |
| Manager.RunsAreSafe | enhancement-register-manager.go:57-137 | in every run with one Start there is no send or close on a closed channel; enqueued groups are, in order, those delivered, the one in hand and those queued; the exit branch of ReadGroupedData is never open |
| Manager.DeliveredInOrder | enhancement-register-manager.go:57-137 | over every run, what was delivered, what is in the consumer's hand, what is queued and what a read has still to send are, in this order, exactly the results of all reads one after another |
| Manager.ReadSendsItsResult | enhancement-register-manager.go:112-137 | a call whose loop ends, under any schedule, has sent exactly the groups it read, in their order; on a closed manager it does nothing |
| Manager.ExitIsFinal | enhancement-register-manager.go:60-66 | after the consumer has returned nothing is delivered or enqueued any more |
| Manager.ReadingKeepsExcess | enhancement-register-manager.go:126-135 | while ReadGroupedData holds the mutex, the groups left and the room for them shrink together; only a Start makes room |
| Manager.FreeSlotsNeverWait | enhancement-register-manager.go:126-135 | with at most as many groups as free slots at entry, every send of the loop finds a free slot |
| Manager.EnoughRoomNeverBlocks | enhancement-register-manager.go:126-135 | with at most as many groups as free slots, plus one for a consumer in its select, no schedule blocks the loop and no Start is needed |
| Manager.TooLittleRoomNeverReturns | enhancement-register-manager.go:126-135 | with more groups than that, counting one for a Start in the schedule, no schedule reaches the end of the loop |
| Manager.ReturnsIffRoom | enhancement-register-manager.go:112-137 | every schedule without a Start, run as far as it goes, ends the loop if and only if there was room for all groups at the start; otherwise it blocks, and if the consumer was started before, nothing can move any more |
| Manager.ReturnsIffRoomOnceStarted | enhancement-register-manager.go:56-75 | the same for schedules in which the consumer is started meanwhile, with room for one more group; a block is then the deadlock of producer and consumer |
| Manager.ReadBeforeStartBlocks | enhancement-register-manager.go:112-137 | concrete input: with an unbuffered queue, one group and no consumer yet, a Start is the only step possible |
| Manager.ReadingMovesUnlessBlocked | enhancement-register-manager.go:63-71 | the loop can move without a Start unless the queue is full with no consumer in its select; then only a Start is possible, and with a consumer started before nothing at all, Stop included |
| Manager.LoopCanFinish | enhancement-register-manager.go:126-135 | from every state of the loop some schedule without a Start runs it as far as it goes |
| Manager.CanDeliverAll | enhancement-register-manager.go:57-75 | between calls of an open manager the consumer can deliver everything enqueued |
| Manager.StopCanLoseQueued | enhancement-register-manager.go:60-66 | a Stop with groups queued has a schedule in which exactly those are never delivered |
| Manager.StopSteps | enhancement-register-manager.go:95-104 | in every state that satisfies the invariant Stop cannot panic, and its steps reach the fields the method leaves |

## Left out

- Real I/O: dialing, deadlines, sleeps, idle timers, opening and closing (`serial.go`, `connect`, `closeIdle`). A read with too little pending fails and uses up what there is.
- `ascii_over_tcp_client.go` and `rtu_over_tcp_client.go`: the same read loops as the serial versions.
- Logging, error texts, JSON and string formatting: an error is a constructor that says which check failed.
- `enhancement-register.go` (weights, floats, byte orders) and the register fields it uses.
- `enhancement-poller.go`: repeats the manager without the shared lock.
- `ReadFIFOQueue`, `ReadWithCustomFunction`, the custom-function methods of the handler, `ReadExceptionStatus`, `SendRawBytes`, `ScanSlaves` and `ReadRawDeviceIdentity`.
- The handler's `ReadInputRegisters`, `WriteSingleCoil`, `WriteSingleRegister` and `ReadWithMask`: the same helpers with other constants. What the handler's methods do to the devices is stated from an idle line on, their results on any line.
- The retry loops of `ReadDeviceIdentification` (client.go:640-699): nothing in the second one changes its exit test. Only the reply parser is modelled.
- Broadcast (slave id 0): the devices are a map by address, and an address that is not in it stays silent.
- Devices that do not follow the standard and noise on the line, beyond the corruption theorems about frames and the receivers' exact behaviour on any stream; the client's end-to-end statements start from an idle line.
- Client.Client.Perform: merges the request methods of client.go, whose bodies differ only in the check, the PDU and the reply check of their request; an RTU client whose line still holds the last byte of an exception is not followed further.
- Rtu.Packager.EncodePdu: a nil PDU is not modelled.
- Ascii.EncodeInvertsDecode: slices are bounded by their length, which matters only for a request shorter than three characters, and every request handed to Verify is an encoded frame.
- Batch.ReadGroupedDataSequential: the groups are distinct arrays, and outcomes after an exception on RTU are not described.
- Batch.BatchRefinesIndividualReads: for lists all of whose groups have one word-reading function, existing cells and a total of 1 to 125; `ReadableGroupOfAny` has such a group of any list, and the other groups are `GroupReadIff`, `RunReadIff`, `MixedGroupRightIff` and `BitGroupNeverReads`.
- GroupReads.ReadGroup: the registers' `Value` buffers are values, so reusing a buffer's capacity and sharing a buffer between registers are not captured.
- Handler.ModbusHandler.ReadModbusData: carries the request it stands for as a ghost parameter.
- ConcurrentRuns.ConcurrentIsSequential: over TCP, starting on an idle connection, with devices that nobody else writes to.
- Concurrent.StepKeepsInv: each statement of a goroutine that touches shared state is one atomic step; finer data races on the slave id byte are not modelled.
- Manager.RunsAreSafe: one `Start`, a callback that is set and does not call the manager, a callback for duplicate tags; `ReadGroupedData`'s read is one step with any contents, one group per loaded group, and a group already queued does not change when its registers are read again.
- Manager.RegisterManager.LoadRegisters: the registers' tags are compared, and the error callback is not called.
- `SetOnReadCallback`, `SetOnErrorCallback` and the getters.
