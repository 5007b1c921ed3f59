# A verified model of the Modbus stack

This project models the Modbus client and server in `utils/modbus` and the in-memory device in
`core/plugin/cmbus` that sits behind the server, and proves what the layers promise each other. The
layers are modelled in the form the program gives them: the client, the transports, the UDP adapter, the
CRC generator, the server, the device and the connection pool are classes whose methods change
their fields and buffers, and each method is proved equal to a function on values. The properties are
then lemmas about those functions, over every input, stream, run or interleaving.

| module | what it models |
|---|---|
| `Crc`, `CrcDetection`, `CrcDistance` | the table-driven CRC-16, the shift register it stands for, and the errors that register detects |
| `Bits`, `BoolPacking`, `Encoding`, `WideEncoding` | coils in octets; 16-, 32- and 64-bit values in registers, in both byte orders and both word orders |
| `Net` | sockets, `io.ReadFull`, and the adapter that makes a stream of datagrams |
| `Mbap`, `Transactions`, `ServerRuns` | framing over a stream, matching a response to its request, and whole runs with late responses, of any server and of this one |
| `Protocol` | the eight requests: printing, decoding, validating |
| `Serving`, `Server` | the server on one connection, as a function of its input bytes and as the loop |
| `Dialogue`, `Client` | requests as the client carries them out and checks their responses, and their agreement with the server |
| `Truncation`, `DeviceTruncation` | requests of more items than 16 bits count: what is sent, what is carried out, what the client reports |
| `OnTheWire`, `AnswersOnTheWire` | both ends in the octets of the standards: requests, frames, the server's answer to every PDU, what the client makes of every response |
| `Device`, `EndToEnd`, `MemoryOverRuns`, `ClientOnDevice` | the device, the whole stack against plain arrays, and the client's methods against the device |
| `Rtu`, `RtuTransport`, `RtuServer` | serial framing, line timing, and the serial server's message check, bit loops and replies |
| `Pool` | the server's connection pool under every interleaving |

The main results:

- **The stack is a plain memory.** Over any run of requests of any kind, valid or not, under any unit
  ids, client, framing, server and device together give the results of a plain array of 65536 registers
  beside a hundred coils, one of which cannot be written (`EndToEnd.StackRefinesArrays`). Registers
  and coils hold the last value written, and values of every width and byte strings of every allowed
  length read back unchanged in all byte and word orders, though the server knows only one, with any
  other requests in between (`MemoryOverRuns`).
- **Client and server agree, for any handler.** A request over the wire has the effect and the result of
  calling the handler (`Dialogue.WireAgreement`), except when the handler itself returns a protocol
  error, and then the link closes (`Dialogue.ProtocolErrorClosesLink`): the two lemmas cover every case.
- **Every PDU has one answer, in octets.** For every handler and state, which PDUs are refused by which
  exception, which close the link, which call the handler with what, and the octets that go back
  (`AnswersOnTheWire`); and for every response, what the client reports of it
  (`AnswersOnTheWire.ClientReports`). Conditions and octets are written out in numbers there.
- **The server's output is determined by its input bytes.** It is exactly one response frame per
  request, in order, up to the first request that closes the link or frame that cannot be read,
  however the network cuts the stream and whether or not the client waits for responses
  (`Serving.ServeWritesResponses`, `ServeSplit`, `ConverseIsServe`).
- **The CRC is the serial register, and detects what it should.** Every table entry is eight register
  shifts; a frame passes exactly when its last two octets are the CRC of the others; every error of odd
  weight and every burst of at most sixteen bits in a frame of any length is detected, and so are any
  three wrong bits in a serial frame. Neither bound can be raised (`CrcDistance.PolynomialUndetected`).
- **Transaction ids work up to their width, and no further.** Over any run against this server with
  any handler, and any delivery of its frames, late, lost, repeated or out of order, each response
  returned is the server's answer to the request just sent, as long as nothing is 65536 requests
  late (`ServerRuns.ClientGetsOwnAnswers`). The client reads the right response if and only if no
  other with the same id comes first (`Transactions.OwnAnswerReadIff`).
- **The serial line is left silent long enough.** However the clock runs, each transmission starts the
  silent interval after the end of the one before, and that end is the start plus eleven bits a byte at
  the line's speed, short of it by less than a nanosecond a byte (`RtuTransport.StartsApart`).
- **The pool is safe, admits and drains**, over every interleaving of accepting, serving, starting and
  stopping: below the limit a started server admits every connection, and nothing else enters.

## What the code does that a reader may not expect

These are properties that fail, each with the exact condition under which it holds.

- The client cuts the number of values to 16 bits before it checks it (`utils/modbus/client.go:606`,
  `:1139`), and sends all of them. What it accepts can be served if and only if it covers fewer than
  32768 items (`Dialogue.AcceptedIffServable`). Beyond, whatever the handler, an acknowledgement
  stands for the cut request only, which is the one asked for if and only if it covers fewer than 32768
  items, and the data left over is served as if it were further requests (`Truncation.AcceptedIsCut`).
  Only coils whose surplus is no multiple of 524288 make a frame that the server cannot read, and are not
  acknowledged (`Truncation.AcceptedIsLost`). So a write of 32769 registers reports success and
  writes one (`DeviceTruncation.OverlongWriteTruncated`), and 65537 coils pass the checks
  (`Dialogue.TruncatedQuantityAccepted`).
- `ReadUint32s` and `ReadUint64s` multiply the quantity at 16 bits (`client.go:440`, `:496`) and return
  fewer values than asked for from 32768 and 16384 values up, without an error
  (`DeviceTruncation.WrappedReadsSucceed`). Successful reads yield the number asked for exactly below
  these bounds, against any server (`Client.Uint32CountExact`, `Client.Uint64CountExact`); against the
  device, a read yields it exactly when the quantity before wrapping is one that can be read
  (`DeviceTruncation.Uint32sReadExactly`, `Uint64sReadExactly`).
- An odd number of register bytes, which the client's own callers never pass, makes the server close
  the link (`Truncation.OddBytesCloseLink`).
- Coil writes under a unit id other than 1 are acknowledged without effect, because the device's
  handler returns no error (`core/plugin/cmbus/handler.go:21-27`), while coil reads fail with a device
  failure: `MemoryOverRuns.ForeignUnitCoils`. Holding registers answer under every unit id. The comments
  there speak of accepting unit id 1 only; the model follows the code.
- The serial server cuts the byte count of a reply to four bits (`utils/modbus/server_rtu.go:390`, `:411`)
  and rounds the number of coil bytes to the nearest, which loses coils exactly when one to three of
  them are left over (`RtuServer.ReplyKeepsCoils`). So a client reads the registers it asked for
  off the line exactly when they are at most seven (`RtuServer.RegisterReplyReadable`), and the coils
  exactly when their bytes are fewer than sixteen and none has been lost
  (`RtuServer.CoilReplyReadable`); the reply to a read of one coil is refused
  (`RtuServer.OneCoilReplyRefused`).
- A response whose request lies a positive multiple of 65536 requests back has the id of the current one
  (`Transactions.IdMatchesIff`) and is returned in its place (`Transactions.WrappedIdMistaken`), and
  the result of reading any arrivals is right exactly when no such response comes before the
  current one (`Transactions.OwnAnswerReadIff`).

## Reading the model

A socket (`Net.Socket`) holds segments that its peer has delivered and not yet been read; its peer is any
function of the bytes written so far, and once everything is read a read fails as `silence` says, by a
timeout or by the end of the stream. `Dialogue.PeerOf` is the server seen as such a function. A link is *synced* when
the client has read all it was sent and the server has served all it was sent; a fresh link is, and every
exchange of a servable request keeps it so. Go integers are unbounded integers here with their
wrap-around written out; octets are integers below 256, and bit-vectors are used
for the CRC register only. Preconditions such as an even number of bytes for `BytesToUint16s` are the
inputs on which Go does not panic.

## Model

| member | source | states |
|---|---|---|
| `Modbus.MappingsAgree` | utils/modbus/modbus.go:75-111 | an error sent as an exception code and mapped back is itself if it has a code, and a device failure otherwise |
| `Crc.RowIsShifted` | utils/modbus/crc.go:3-36 | each of the 256 table literals is its index pushed through eight shifts of the reflected register with polynomial 0xA001 |
| `Crc.LookUp` | utils/modbus/crc.go:55 | looking an octet up in the table is eight register shifts |
| `Crc.FeedPieces` | utils/modbus/crc.go:49-60 | the register takes a message in any number of pieces: adding `s + t` is adding `s`, then `t` |
| `Crc.FeedByte` | utils/modbus/crc.go:49-60 | eight single-bit steps, lowest bit first, are the exclusive-or of the octet followed by eight shifts |
| `Crc.Generator.Init` | utils/modbus/crc.go:42-47 | the register starts at 0xffff; `CrcDetection.SampleFrame` and `ZerosDoNotPass` fix that value from outside |
| `Crc.Generator.Add` | utils/modbus/crc.go:49-60 | the table-driven loop leaves the register where feeding the message bit by bit leaves it |
| `Crc.Generator.Value` | utils/modbus/crc.go:62-67 | the two octets of the register, low octet first |
| `Crc.Generator.IsEqual` | utils/modbus/crc.go:69-73 | true exactly when the two octets given are the value of the register |
| `CrcDetection.ZerosDoNotPass` | utils/modbus/crc.go:42-47 | because the register starts at other than zero, no message of zeros passes, however long |
| `CrcDetection.SampleFrame` | utils/modbus/crc.go:42-67 | the message 02 07 is sealed as 02 07 41 12, the example of the serial line standard |
| `CrcDetection.PassesIffSealed` | utils/modbus/server_rtu.go:272-286 | the register over message and two more octets is zero exactly when these are the CRC of the message |
| `CrcDetection.OddErrorDetected` | utils/modbus/server_rtu.go:272-286 | a frame that differs from a passing one in an odd number of bits does not pass, at any length |
| `CrcDetection.BurstDetected` | utils/modbus/server_rtu.go:272-286 | a different frame that differs from a passing one only within sixteen consecutive bits does not pass, at any length |
| `CrcDetection.TwoOctetsDetected` | utils/modbus/crc.go:3-60 | the same for damage confined to two consecutive octets, CRC octets included |
| `CrcDistance.PassesIffErrorVanishes` | utils/modbus/crc.go:49-73 | whether a damaged frame passes depends on the error alone: exactly when the register fed the error from zero ends at zero |
| `CrcDistance.OneNotBack` | utils/modbus/crc.go:3-60 | shifting a single one by up to 2160 places never gives it back |
| `CrcDistance.ThreeBitsDetected` | utils/modbus/server_rtu.go:272-286 | a frame of up to 256 octets with one, two or three wrong bits, CRC included, does not pass |
| `CrcDistance.PolynomialUndetected` | utils/modbus/server_rtu.go:272-286 | an error of the polynomial's shape, four bits over seventeen, passes anywhere in a frame of any length |
| `BoolPacking.UnpackPack` | utils/modbus/encoding.go:183-209 | packed coils come back, and the padding bits of the last octet are zero |
| `BoolPacking.PackUnpack` | utils/modbus/encoding.go:183-209 | octets read as eight bits each pack back into themselves |
| `BoolPacking.EncodeBools` | utils/modbus/encoding.go:183-200 | the loop that ors bits into a buffer packs the booleans eight to an octet, the first one lowest |
| `BoolPacking.DecodeBools` | utils/modbus/encoding.go:202-209 | the loop reads the first `quantity` bits |
| `Encoding.Uint16sToBytes` | utils/modbus/encoding.go:18-24 | the octets of the registers in the given byte order |
| `Encoding.BytesToUint16s` | utils/modbus/encoding.go:35-41 | the registers a string of octets holds |
| `Encoding.WordsRoundTrip` | utils/modbus/encoding.go:8-41 | decoding inverts encoding for lists of any length, in both byte orders |
| `Encoding.BytesRoundTrip` | utils/modbus/encoding.go:8-41 | encoding inverts decoding for every even number of octets |
| `Encoding.Join32Split32` | utils/modbus/encoding.go:43-91 | 32-bit values split into registers and joined again are unchanged, in both word orders |
| `Encoding.Join64Split64` | utils/modbus/encoding.go:111-163 | the same for 64-bit values |
| `WideEncoding.Layout32` | utils/modbus/encoding.go:43-91 | the octets of a 32-bit value in its two registers, in each of the four orders |
| `WideEncoding.Layout64` | utils/modbus/encoding.go:111-163 | the octets of a 64-bit value in its four registers, in each of the four orders |
| `OnTheWire.RegisterOctets` | utils/modbus/encoding.go:8-41 | register i of a list is octets 2i and 2i + 1, the high one first in network order |
| `OnTheWire.CoilBits` | utils/modbus/encoding.go:183-200 | coil i is bit i mod 8 of octet i / 8, counted from the lowest, and the bits behind the last coil are zero |
| `OnTheWire.CoilsRead` | utils/modbus/encoding.go:202-209 | and is read from there |
| `WideEncoding.Uint32ToBytes` | utils/modbus/encoding.go:70-91 | a fixed-order store and an in-place swap give the value split into words in word order, each word in byte order |
| `WideEncoding.Uint64ToBytes` | utils/modbus/encoding.go:140-163 | the same for 64 bits |
| `WideEncoding.BytesToUint32s` | utils/modbus/encoding.go:43-68 | the decoding loop joins the registers that the octets hold, in all four orders |
| `WideEncoding.BytesToUint64s` | utils/modbus/encoding.go:111-138 | the same for 64 bits |
| `WideEncoding.Uint32sToBytes` | utils/modbus/client.go:746-757 | a list of values encodes as its registers do |
| `WideEncoding.Uint64sToBytes` | utils/modbus/client.go:788-799 | the same for 64 bits |
| `Net.UdpSockWrapper.constructor` | utils/modbus/udp.go:17-24 | a new adapter holds nothing |
| `Net.UdpSockWrapper.Receive` | utils/modbus/udp.go:42-51 | taking a datagram into the buffer changes nothing about what readers are still to see |
| `Net.ClipInNumbers` | utils/modbus/udp.go:42-51 | a datagram of up to 260 bytes is whole, of a longer one the first 260 bytes are left |
| `Net.UdpSockWrapper.Deliver` | utils/modbus/udp.go:29-40 | hands over the front of what is held, in order, and keeps the rest despite the overlapping copy |
| `Net.UdpSockWrapper.Read` | utils/modbus/udp.go:26-60 | a queue: delivered bytes followed by held ones are always the datagrams consumed, each cut to 260 bytes, for any read sizes |
| `Net.Conn.ReadFull` | utils/modbus/tcp_transport.go:133-138 | over TCP or UDP alike, the slice gets the next bytes of the stream, as many as there are, and the error says whether it was filled |
| `Mbap.ParsePrinted` | utils/modbus/tcp_transport.go:126-205 | reading back a printed frame gives its transaction id and PDU and leaves exactly the tail, for every payload up to 252 bytes |
| `Mbap.PrintParsed` | utils/modbus/tcp_transport.go:126-205 | whatever is read as a frame is the print of what it was read as, followed by what is left |
| `Mbap.ParseExtended` | utils/modbus/tcp_transport.go:126-187 | bytes behind a complete frame change nothing about it |
| `Mbap.FirstMatchReturned` | utils/modbus/tcp_transport.go:93-124 | the client stays aligned across any frames of other protocols or transactions and returns the first that matches |
| `Mbap.OnlySkippable` | utils/modbus/tcp_transport.go:93-124 | a stream of such frames only is drained, and the wait fails |
| `OnTheWire.FrameOctets` | utils/modbus/tcp_transport.go:189-205 | the octets of a frame: transaction id, protocol 0, length, unit, code, payload |
| `OnTheWire.FrameReadFrom` | utils/modbus/tcp_transport.go:126-187 | what any octets are read as: lengths below 2 or above 254 are illegal, other protocol ids than 0 foreign, and seven octets and then the announced ones are waited for |
| `OnTheWire.SkippedFrames` | utils/modbus/tcp_transport.go:93-124 | of frames given as octets, a waiting client skips exactly those of another protocol or transaction |
| `OnTheWire.CutShort` | utils/modbus/tcp_transport.go:133-170 | a frame cut anywhere fails as the link does, an ended link being told from one that ended inside the header or the rest |
| `Mbap.TcpTransport.constructor` | utils/modbus/tcp_transport.go:24-32 | transaction ids start at zero |
| `Mbap.TcpTransport.AssembleMbapFrame` | utils/modbus/tcp_transport.go:189-205 | the appended bytes are the frame, the length field wrapped at 16 bits |
| `Mbap.TcpTransport.ReadExactly` | utils/modbus/tcp_transport.go:165-170 | exactly the next bytes of the stream, or an error and a drained stream when there are too few |
| `Mbap.TcpTransport.ReadMbapFrame` | utils/modbus/tcp_transport.go:126-187 | reads what parsing the stream gives: frame, foreign protocol, bad length or shortage, each leaving the right remainder |
| `Mbap.TcpTransport.ReadResponse` | utils/modbus/tcp_transport.go:93-124 | the loop terminates and returns the first frame of the last transaction, or the first error |
| `Mbap.TcpTransport.ExecuteRequest` | utils/modbus/tcp_transport.go:41-60 | the next id modulo 65536, one frame written, then the wait for its response |
| `Mbap.TcpTransport.ReadRequest` | utils/modbus/tcp_transport.go:62-81 | one frame read; its id is stored if and only if it is a request, and the old one kept otherwise |
| `Mbap.TcpTransport.WriteResponse` | utils/modbus/tcp_transport.go:83-91 | the response goes out under the id of the last request read |
| `Protocol.DecodeIffCarries` | utils/modbus/server.go:394-756 | a PDU is decoded into a request exactly when the request is within its limits and the address space and the PDU is its print, padding bits aside |
| `Protocol.DecodePrinted` | utils/modbus/client.go:900-1208 | every servable request a client prints is decoded into itself |
| `Protocol.CarriesOne` | utils/modbus/server.go:394-756 | a PDU carries at most one servable request |
| `OnTheWire.ReadRequestOctets` | utils/modbus/client.go:898-1021 | the octets of the four reads, as the client's methods send them |
| `OnTheWire.WriteOneOctets` | utils/modbus/client.go:678-700 | the octets of single writes, a coil being ff 00 or 00 00 |
| `OnTheWire.WriteCoilsOctets` | utils/modbus/client.go:625-645 | the octets of a write of several coils |
| `OnTheWire.WriteRegistersOctets` | utils/modbus/client.go:1160-1173 | the octets of a write of several registers |
| `OnTheWire.LimitsInNumbers` | utils/modbus/server.go:394-768 | which requests can be served, by function, in numbers |
| `OnTheWire.ExceptionCodes` | utils/modbus/modbus.go:75-111 | exactly which errors travel by which codes, and which codes are read as which errors |
| `AnswersOnTheWire.DecodeCases` | utils/modbus/server.go:394-768 | which PDUs are unknown, past the end, or well formed, in octets |
| `AnswersOnTheWire.UnknownCodeAnswered` | utils/modbus/server.go:758-767 | for every handler and state an unknown function code is answered by exception 1 and the handler is not called |
| `AnswersOnTheWire.PastTheEndAnswered` | utils/modbus/server.go:413-417 | an allowed quantity past address 65535 is answered by exception 2 and the handler is not called |
| `AnswersOnTheWire.IllFormedCloses` | utils/modbus/server.go:779-788 | any other PDU that is not well formed closes the link and the handler is not called |
| `AnswersOnTheWire.ReadCoilsAnswered` | utils/modbus/server.go:395-468 | the handler's call and the octets of the answer for function code 1, wrong counts and errors included |
| `AnswersOnTheWire.ReadDiscreteInputsAnswered` | utils/modbus/server.go:395-468 | the same for function code 2 |
| `AnswersOnTheWire.ReadHoldingRegistersAnswered` | utils/modbus/server.go:580-652 | the same for function code 3 |
| `AnswersOnTheWire.ReadInputRegistersAnswered` | utils/modbus/server.go:580-652 | the same for function code 4 |
| `AnswersOnTheWire.WriteCoilAnswered` | utils/modbus/server.go:470-511 | the same for function code 5 |
| `AnswersOnTheWire.WriteRegisterAnswered` | utils/modbus/server.go:654-692 | the same for function code 6 |
| `AnswersOnTheWire.WriteCoilsAnswered` | utils/modbus/server.go:513-578 | the same for function code 15 |
| `AnswersOnTheWire.WriteRegistersAnswered` | utils/modbus/server.go:694-756 | the same for function code 16 |
| `AnswersOnTheWire.ClientReports` | utils/modbus/client.go:898-1234 | of any response under the right transaction id the client takes the data of a normal response from its unit, the named error of an exception from that unit or a gateway, and nothing else |
| `AnswersOnTheWire.RefusedNotSent` | utils/modbus/client.go:898-1208 | a request the client refuses is not sent and uses no transaction id |
| `AnswersOnTheWire.ErrorsPassedOn` | utils/modbus/client.go:407-876 | the typed methods pass errors on as they are |
| `Protocol.RefusedIff` | utils/modbus/server.go:394-768 | exactly which PDUs are refused without a handler call: unknown codes, and allowed quantities that pass address 65535; by which octets, `AnswersOnTheWire` says |
| `Serving.InvokeFits` | utils/modbus/server.go:417-449 | data a handler returns for a read reaches the response only if it is as many items as were asked for |
| `Serving.ResponseShape` | utils/modbus/server.go:394-795 | for every handler and PDU the response carries the unit id and function code of the request, the code possibly with the error bit, and 1 to 251 bytes of payload |
| `Serving.ServeSplit` | utils/modbus/server.go:389-806 | serving a stream in two deliveries, cut anywhere, is serving it whole |
| `Serving.ConverseIsServe` | utils/modbus/server.go:389-806 | a client that reacts to each response is served as if all it ever sends had been there at once |
| `Serving.StreamIsRequests` | utils/modbus/tcp_transport.go:62-81 | every stream is the print of its requests followed by what does not parse |
| `Serving.ServeWritesResponses` | utils/modbus/server.go:381-810 | for every input stream the output is exactly the frames of the responses to its requests, in order |
| `Serving.ResponsesMatch` | utils/modbus/server.go:381-810 | the i-th response answers the i-th request: same transaction id, unit id and function code but for the error bit |
| `Serving.ResponseIsAnswer` | utils/modbus/server.go:389-806 | the i-th response is the answer to the i-th request in the state the earlier requests have led to |
| `Serving.OnlyClosingStopsResponses` | utils/modbus/server.go:779-795 | a request stays unanswered only if it, or one before it, closes the link |
| `Serving.DatagramsUnclipped` | utils/modbus/udp.go:8-51 | frames with at most 252 bytes of payload, one to a datagram, pass the adapter uncut |
| `Serving.ResponsesUnclipped` | utils/modbus/udp.go:8-51 | a UDP client sees the same response bytes as a TCP client |
| `Server.ModbusServer.ServeReadBools` | utils/modbus/server.go:395-468 | decodes, checks, calls the handler and answers as the specification does |
| `Server.ModbusServer.ServeWriteSingleCoil` | utils/modbus/server.go:470-511 | the same for function code 5 |
| `Server.ModbusServer.ServeWriteMultipleCoils` | utils/modbus/server.go:513-578 | the same for function code 15 |
| `Server.ModbusServer.ServeReadRegisters` | utils/modbus/server.go:580-652 | the same for function codes 3 and 4 |
| `Server.ModbusServer.ServeWriteSingleRegister` | utils/modbus/server.go:654-692 | the same for function code 6 |
| `Server.ModbusServer.ServeWriteMultipleRegisters` | utils/modbus/server.go:694-756 | the same for function code 16 |
| `Server.ModbusServer.ServeRequest` | utils/modbus/server.go:394-795 | the switch and the error handling give the specified response, or close the link |
| `Server.ModbusServer.ServeNext` | utils/modbus/server.go:389-806 | one turn of the loop: one frame read, one response written under its id, or the end |
| `Server.ModbusServer.HandleTransport` | utils/modbus/server.go:381-810 | against every client that falls silent sometime the loop terminates, having written, called and closed what the conversation specifies |
| `Dialogue.AcceptedIffServable` | utils/modbus/client.go:900-1208 | a request is servable if and only if the client accepts it and it covers fewer than 32768 items |
| `Dialogue.TruncatedQuantityAccepted` | utils/modbus/client.go:606-623 | 65537 coils pass the client's checks and cannot be served |
| `Truncation.CutServable` | utils/modbus/client.go:1139-1158 | what the 16-bit quantity announces of an accepted request can be served, and is the whole request if and only if that covers fewer than 32768 items |
| `Truncation.FrameOfAccepted` | utils/modbus/client.go:597-1208 | the frame of an accepted request is one that carries the cut request with the other data behind it, or, for coils whose surplus is no multiple of 524288, one of illegal length |
| `Truncation.AcceptedIsCut` | utils/modbus/client.go:1130-1208 | for every handler and accepted request whose frame can be read, the client reports the outcome of the cut request, and the data left over is served as further requests |
| `Truncation.AcceptedIsLost` | utils/modbus/client.go:597-675 | otherwise nothing is carried out, nothing comes back, and the server stops reading |
| `Truncation.OddBytesCloseLink` | utils/modbus/client.go:1130-1208 | an odd number of register bytes, of any length the checks pass, writes nothing and closes the link |
| `DeviceTruncation.Uint32sReadExactly` | utils/modbus/client.go:436-449 | against the device a read yields as many 32-bit values as asked for if and only if twice their number, not wrapped, can be read |
| `DeviceTruncation.Uint64sReadExactly` | utils/modbus/client.go:492-505 | the same for 64-bit values and four times their number |
| `DeviceTruncation.WrappedReadsSucceed` | utils/modbus/client.go:436-505 | asking the device for 32769 32-bit or 16385 64-bit values succeeds and yields one |
| `DeviceTruncation.OverlongWriteTruncated` | utils/modbus/client.go:1130-1208 | writing 32769 registers, all zero but the first, is acknowledged, and the device has been written the first only |
| `Dialogue.ExchangeIsAnswer` | utils/modbus/client.go:1210-1234 | on a synced link an exchange is one call of the server and leaves the link synced |
| `Dialogue.CheckAccepts` | utils/modbus/client.go:900-1208 | the client's check of a response accepts the server's print of any fitting data and yields that data |
| `Dialogue.WireAgreement` | utils/modbus/client.go:900-1234 | for every handler and servable request, handler state and client result are those of calling the handler directly, errors without a code becoming device failures |
| `Dialogue.NoProtocolError` | utils/modbus/client.go:1210-1234 | the client then never reports a protocol error, a foreign unit id or a timeout |
| `Dialogue.ProtocolErrorClosesLink` | utils/modbus/server.go:779-788 | a handler that returns a protocol error closes the link, and the client waits in vain |
| `Dialogue.ClosingExchange` | utils/modbus/server.go:779-788 | the same one layer down: nothing comes back and the server is done with the link |
| `Client.ModbusClient.constructor` | utils/modbus/client.go:192-196 | unit id 1, big endian, high word first |
| `Client.ModbusClient.SetUnitId` | utils/modbus/client.go:335-343 | the unit id of later requests |
| `Client.ModbusClient.SetEncoding` | utils/modbus/client.go:345-366 | known codes set the byte and word order of later values; unknown ones are refused and change nothing |
| `Client.ModbusClient.ExecuteRequest` | utils/modbus/client.go:1210-1234 | one exchange; timeouts renamed, foreign unit ids refused except a gateway's exceptions |
| `Client.ModbusClient.ReadBools` | utils/modbus/client.go:898-987 | the request carried out and its response checked as specified, refused requests sending nothing |
| `Client.ModbusClient.ReadRegisterBytes` | utils/modbus/client.go:989-1074 | the same for register reads |
| `Client.ModbusClient.WriteCoil` | utils/modbus/client.go:565-580 | the same for single coils with the standard values |
| `Client.ModbusClient.WriteCoils` | utils/modbus/client.go:597-675 | the same for several coils, the count cut to 16 bits before the checks |
| `Client.ModbusClient.WriteRegister` | utils/modbus/client.go:678-729 | the same for one register; on the wire it is the value its bytes have in network order |
| `Client.ModbusClient.WriteRegisterBytes` | utils/modbus/client.go:1129-1208 | the same for several registers given as bytes of any number, whole registers being the request that writes them |
| `Client.WholeRegistersAsBytes` | utils/modbus/client.go:1129-1208 | an even number of bytes, sent as they are, is the print of the registers they hold in network order |
| `Client.ModbusClient.ReadRegisters` | utils/modbus/client.go:407-420 | the register bytes decoded in the client's byte order |
| `Client.ModbusClient.ReadUint32s` | utils/modbus/client.go:436-449 | the same in both orders, twice the quantity wrapped at 16 bits |
| `Client.ModbusClient.ReadUint64s` | utils/modbus/client.go:492-505 | the same, four times the quantity |
| `Client.ModbusClient.WriteRegisters` | utils/modbus/client.go:732-743 | registers written in the client's byte order |
| `Client.ModbusClient.WriteUint32s` | utils/modbus/client.go:746-757 | 32-bit values written in both orders |
| `Client.ModbusClient.WriteUint64s` | utils/modbus/client.go:788-799 | 64-bit values written in both orders |
| `Client.ModbusClient.ReadBytes` | utils/modbus/client.go:850-876 | the bytes read, swapped per register if asked for, the padding of an odd length dropped |
| `Client.ModbusClient.WriteBytes` | utils/modbus/client.go:878-896 | the slice padded and swapped as asked for, and what that leaves in the caller's array: the swapped bytes, the padding where there is room behind the slice, and nothing changed where the padding has made a copy |
| `Client.SwapInPlace` | utils/modbus/client.go:887-891 | the in-place loop exchanges the bytes of every register of the slice and nothing behind it |
| `Client.Uint32CountExact` | utils/modbus/client.go:436-449 | a successful read yields the number of values asked for if and only if that is below 32768 |
| `Client.Uint64CountExact` | utils/modbus/client.go:492-505 | the same, below 16384 |
| `Device.ModbusInstance.constructor` | core/plugin/cmbus/cmbus.go:56-61 | a hundred coils and 65636 registers, all cleared |
| `Device.ModbusInstance.ServeCoils` | core/plugin/cmbus/handler.go:20-55 | the loop writes the range but for coil 80 and returns what the range holds afterwards; out of range it changes nothing |
| `Device.ModbusInstance.ServeHoldingRegisters` | core/plugin/cmbus/handler.go:73-106 | the loop writes the range and returns what it holds; no address wraps |
| `EndToEnd.DeviceStep` | core/plugin/cmbus/handler.go:20-106 | one call of the device is one step of the plain arrays |
| `EndToEnd.StepRefines` | utils/modbus/client.go:900-1234 | one request through the whole stack is one step of the plain arrays |
| `EndToEnd.StackRefinesArrays` | utils/modbus/server.go:381-810 | over any run of requests, and any input registers that change from reading to reading, all results and the final memory are those of the plain arrays |
| `MemoryOverRuns.DeviceHoldsLastWritten` | core/plugin/cmbus/handler.go:20-106 | after any run each coil and register holds the last value an accepted write gave it, or its initial one |
| `MemoryOverRuns.ReadOnlyCoilStays` | core/plugin/cmbus/handler.go:44-48 | no run changes coil 80 |
| `MemoryOverRuns.ForeignUnitCoils` | core/plugin/cmbus/handler.go:21-27 | under other unit ids writes of one coil or several are acknowledged without effect, in range or not, and coil reads of any quantity fail |
| `MemoryOverRuns.SparesIff` | utils/modbus/client.go:678-1208 | a request spares a range of registers if and only if it writes none of them |
| `MemoryOverRuns.RegistersReadBack` | utils/modbus/client.go:678-1208 | registers written by either function are acknowledged and read back, with any requests that spare them in between |
| `MemoryOverRuns.WordReadBack` | utils/modbus/client.go:678-729 | one register written by its own function reads back in both byte orders |
| `MemoryOverRuns.BytesReadBack` | utils/modbus/client.go:990-1208 | bytes written to registers read back, with any requests that spare these registers in between |
| `MemoryOverRuns.WordsReadBack` | utils/modbus/client.go:407-743 | 16-bit values read back in both byte orders |
| `MemoryOverRuns.Uint32sReadBack` | utils/modbus/client.go:436-757 | 32-bit values read back in all four orders |
| `MemoryOverRuns.Uint64sReadBack` | utils/modbus/client.go:492-799 | 64-bit values read back in all four orders |
| `MemoryOverRuns.StringReadBack` | utils/modbus/client.go:850-896 | strings of 1 to 246 bytes read back, odd lengths included, swapped or raw |
| `MemoryOverRuns.FreshLinkSynced` | utils/modbus/tcp_transport.go:24-32 | a link that has carried nothing is synced |
| `ClientOnDevice.StoreAndLoadCoils` | utils/modbus/client.go:597-987 | the client's methods, called one after the other against the device over TCP or UDP: coils written are the coils read |
| `ClientOnDevice.StoreAndLoadRegister` | utils/modbus/client.go:407-729 | the same for one register in the client's own byte order |
| `ClientOnDevice.StoreAndLoadUint32s` | utils/modbus/client.go:436-757 | the same for 32-bit values in any encoding |
| `ClientOnDevice.StoreAndLoadUint64s` | utils/modbus/client.go:492-799 | the same for 64-bit values in any encoding |
| `ClientOnDevice.StoreAndLoadBytes` | utils/modbus/client.go:850-896 | the same for byte strings, odd lengths included, swapped or not |
| `ClientOnDevice.CoilsWrittenInNumbers` | core/plugin/cmbus/handler.go:20-55 | what writes of one coil or several do under unit id 1: coils 0 to 99 exist, 80 stays, a range past them changes nothing and is an illegal address |
| `ClientOnDevice.CoilsReadInNumbers` | core/plugin/cmbus/handler.go:20-55 | and what reads yield |
| `ClientOnDevice.DiscreteInputsRefused` | core/plugin/cmbus/handler.go:61-68 | reads of discrete inputs are illegal functions |
| `ClientOnDevice.StringInRegisters` | utils/modbus/client.go:878-896 | which byte of a string is in which half of which register, swapped or not, the padding being zero |
| `Transactions.AwaitById` | utils/modbus/tcp_transport.go:93-124 | reading the bytes of any arrivals finds the first response with the id and leaves the rest |
| `Transactions.IdsSuffice` | utils/modbus/tcp_transport.go:112-118 | telling responses apart by id is telling them apart by request, if none is 65536 requests late |
| `Transactions.IdMatchesIff` | utils/modbus/tcp_transport.go:49-50 | two requests share an id if and only if they are a multiple of 65536 apart |
| `Transactions.OwnAnswerReadIff` | utils/modbus/tcp_transport.go:93-124 | what the client makes of the bytes of any arrivals, result and remainder, is right if and only if no response to another request with the same id comes before its own |
| `Transactions.WrappedIdMistaken` | utils/modbus/tcp_transport.go:112-118 | of a response exactly 65536 requests late and the current one, in this order on the wire, the client returns the late one and leaves the other unread |
| `Transactions.RunAnswersOwnRequests` | utils/modbus/tcp_transport.go:41-124 | over any run, with any timeouts and late responses within the bound, each result is that of matching by request |
| `Transactions.OwnAnswerArrived` | utils/modbus/tcp_transport.go:41-124 | each such result is a response that arrived to that very request, and not after its turn |
| `Transactions.ShortRunsInTime` | utils/modbus/tcp_transport.go:41-124 | runs of up to 65536 requests are within the bound, whatever arrives in them |
| `Transactions.FirstAnswerAmong` | utils/modbus/tcp_transport.go:93-124 | a response is found if and only if one to the request is there |
| `ServerRuns.ServerEchoes` | utils/modbus/tcp_transport.go:77-91 | for every handler, the server's output is its responses under the ids of their own requests |
| `ServerRuns.ClientGetsOwnAnswers` | utils/modbus/tcp_transport.go:41-124 | over any run, handler and delivery of the server's frames, lost, repeated, late or out of order but nothing 65536 requests late, each response returned is the server's answer to the request just sent |
| `ServerRuns.TurnInOrder` | utils/modbus/tcp_transport.go:93-124 | of responses delivered in order the client reads its own if it has arrived and drains the others |
| `ServerRuns.ShortRunsInOrder` | utils/modbus/tcp_transport.go:41-124 | in a run of up to 65536 requests no delivery in order can be late |
| `ServerRuns.StreamGivesOwnAnswers` | utils/modbus/tcp_transport.go:41-124 | over a stream in order each request gets the server's answer if that arrives in its own turn, and the link's failure otherwise |
| `Rtu.RtuParsePrinted` | utils/modbus/rtu_transport.go:138-246 | reading back a printed, well-shaped response gives it and leaves exactly the tail |
| `Rtu.RtuPrintParsed` | utils/modbus/rtu_transport.go:138-246 | only well-shaped responses with a matching CRC are ever returned |
| `Rtu.RtuReadableIff` | utils/modbus/rtu_transport.go:138-246 | a printed frame is read back as itself if and only if it is well shaped |
| `Rtu.RtuConsumesAtMostOneFrame` | utils/modbus/rtu_transport.go:138-201 | on any input at most 256 bytes are consumed |
| `Rtu.ResponseLengths` | utils/modbus/rtu_transport.go:221-246 | how many bytes follow the third one, by function code, and which codes are unknown |
| `Rtu.NotRead` | utils/modbus/rtu_transport.go:138-201 | with which error a stream fails to be read, and what it leaves: empty, cut in the head, unknown code or too long, cut further on, wrong CRC |
| `Rtu.DamageNotAccepted` | utils/modbus/rtu_transport.go:183-191 | a response damaged in an odd number of bits, within sixteen consecutive ones, or in at most three if it fits a frame, is never taken for a whole frame |
| `Rtu.UnsealIffSealed` | utils/modbus/rtu_transport.go:183-198 | a frame is accepted as a PDU exactly when it is the print of that PDU |
| `Rtu.ServerResponsesWellShaped` | utils/modbus/rtu_transport.go:221-246 | every response of the server to the eight functions, exceptions included, has the length the serial reader infers |
| `Rtu.AssembleRtuFrame` | utils/modbus/rtu_transport.go:203-219 | the frame is unit id, function code and payload followed by their CRC |
| `Rtu.ReadRtuFrame` | utils/modbus/rtu_transport.go:138-201 | reads what parsing the stream gives, with the right error and remainder |
| `Rtu.ReadRtuBody` | utils/modbus/rtu_transport.go:173-201 | the second read, behind the bytes already in the buffer |
| `Rtu.CheckRtuFrame` | utils/modbus/rtu_transport.go:183-198 | the CRC comparison in the buffer accepts exactly sealed frames |
| `RtuTransport.IntervalAccurate` | utils/modbus/rtu_transport.go:31-51 | below 19200 bauds the silent interval is short of 3.5 characters by less than four nanoseconds; at no rate is it under 1750 microseconds, and from 19200 bauds on it is just that |
| `RtuTransport.SpacedFromAll` | utils/modbus/rtu_transport.go:72-94 | each transmission starts an interval or more after the end of every earlier one |
| `RtuTransport.BusyEstimated` | utils/modbus/rtu_transport.go:88-91 | the estimated end of a transmission is its start plus eleven bits a byte at the line's speed, short of it by less than a nanosecond a byte |
| `RtuTransport.StartsApart` | utils/modbus/rtu_transport.go:72-94 | so far apart, and the interval more, are the starts of two transmissions in a row |
| `RtuTransport.ErrorsThatResync` | utils/modbus/rtu_transport.go:99-104 | the three errors after which up to 1024 bytes are dropped, and no other |
| `RtuTransport.RtuTransport.constructor` | utils/modbus/rtu_transport.go:31-51 | the character time and the interval for the line's speed, and a flushed line |
| `RtuTransport.RtuTransport.AwaitSilence` | utils/modbus/rtu_transport.go:72-79 | the time read is an interval or more after the last activity |
| `RtuTransport.RtuTransport.Transmit` | utils/modbus/rtu_transport.go:72-94 | the request is written after that silence, recorded with its number of bytes and an end as estimated for the line's speed, and the line is left silent for another interval |
| `RtuTransport.RtuTransport.Resync` | utils/modbus/rtu_transport.go:99-104 | after a bad response, and only then, 256 characters' time passes and up to 1024 bytes are dropped |
| `RtuTransport.RtuTransport.Receive` | utils/modbus/rtu_transport.go:96-111 | the next frame, re-syncing on damage; the time is marked unless nothing was heard, and never moves back |
| `RtuTransport.RtuTransport.ExecuteRequest` | utils/modbus/rtu_transport.go:60-112 | in every run, however time passes: transmissions as long as their bytes take and spaced, last activity at the end of the write or when something was heard, and the next frame as the result |
| `RtuTransport.Discard` | utils/modbus/rtu_transport.go:248-258 | drops up to 1024 bytes |
| `RtuServer.MessageIsValid` | utils/modbus/server_rtu.go:272-286 | valid exactly when longer than a CRC and leaving the register at zero |
| `RtuServer.UnpackArgs` | utils/modbus/server_rtu.go:308-324 | the bit loop yields what decoding as many booleans as are asked for and present does |
| `RtuServer.PackByte` | utils/modbus/server_rtu.go:391-402 | adding powers of two gives the octet with those bits |
| `RtuServer.PackReply` | utils/modbus/server_rtu.go:389-403 | the packing loop yields the first (n + 4) / 8 octets of the packed coils |
| `RtuServer.ReplyKeepsCoils` | utils/modbus/server_rtu.go:389-403 | these are all the octets if and only if the number of coils is a multiple of eight or leaves at least four |
| `RtuServer.SealReply` | utils/modbus/server_rtu.go:435-437 | a message followed by its CRC passes the receiver's check |
| `RtuServer.ReplyBools` | utils/modbus/server_rtu.go:384-403 | the sealed reply to a coil read, its byte count cut to four bits |
| `RtuServer.ReplyRegisters` | utils/modbus/server_rtu.go:405-415 | the sealed reply to a register read, its byte count cut to four bits |
| `RtuServer.ReplyWrite` | utils/modbus/server_rtu.go:426-430 | the sealed head of the message |
| `RtuServer.CreateBytes` | utils/modbus/server_rtu.go:378-438 | what goes back to a valid message: the data of a read, a single write as it came, or the sealed first six octets of a multiple write; each passes the receiver's check and carries the message's unit id and function code; only unknown codes get nothing |
| `RtuServer.CutFields` | utils/modbus/server_rtu.go:389-411 | the number of coil octets is an eighth of the coils rounded to the nearest, and a byte count is cut to its four low bits |
| `RtuServer.ErrorMessage` | utils/modbus/server_rtu.go:151-160 | the sealed exception reply |
| `RtuServer.RegisterReplyReadable` | utils/modbus/server_rtu.go:405-415 | a client that asked for holding or input registers reads them off the line and accepts them if and only if they are at most seven |
| `RtuServer.CoilReplyReadable` | utils/modbus/server_rtu.go:384-403 | a client that asked for coils or discrete inputs reads them off the line and accepts them if and only if their bytes are fewer than sixteen and the rounding has lost none |
| `RtuServer.OneCoilReplyRefused` | utils/modbus/server_rtu.go:389-390 | the reply to a read of one coil holds no coil byte, and the client reports a protocol error |
| `Pool.SwapRemoveRemoves` | utils/modbus/server.go:361-370 | filling the gap with the last connection removes exactly the finished one and keeps the pool free of duplicates |
| `Pool.StepKeepsInvariant` | utils/modbus/server.go:229-376 | every step of every goroutine keeps the invariant |
| `Pool.RunKeepsInvariant` | utils/modbus/server.go:229-376 | so does every interleaving |
| `Pool.EveryRunSafe` | utils/modbus/server.go:229-376 | from the start on: never more than the limit, no duplicates, pooled exactly while served, every connection handed out accounted for, and while stopped everything pooled has been closed |
| `Pool.PoolChanges` | utils/modbus/server.go:301-310 | a connection enters the pool only while started and below the limit, and leaves only when its own handler exits |
| `Pool.DecidedPooledIff` | utils/modbus/server.go:301-319 | a connection decided upon is pooled and served if and only if the server is started and the pool not full, and refused otherwise |
| `Pool.StepsTake` | utils/modbus/server.go:229-290 | a successful start starts the server, a stop stops it and closes everything pooled, and accepting hands out a connection |
| `Pool.StartedAdmits` | utils/modbus/server.go:229-320 | over runs, once started and not stopped since, the server admits each connection it decides upon exactly while the pool is below the limit |
| `Pool.OneConnection` | utils/modbus/server.go:229-376 | one connection's whole way: handed out, pooled, out of the pool, closed |
| `Pool.StoppedPoolDrains` | utils/modbus/server.go:259-280 | once stopped, the pool shrinks by one with every handler that exits and changes in no other way |
| `Pool.AfterStop` | utils/modbus/server.go:259-280 | so it is after every stop, with everything pooled closed and nothing admitted |
| `Pool.ModbusServerPool.constructor` | utils/modbus/server.go:157-225 | a stopped server with an empty pool |
| `Pool.ModbusServerPool.Start` | utils/modbus/server.go:228-256 | the guarded section is the start step; it succeeds exactly when the server ends up started |
| `Pool.ModbusServerPool.Stop` | utils/modbus/server.go:258-280 | the guarded section is the stop step; a started server closes exactly its pooled connections |
| `Pool.ModbusServerPool.Decide` | utils/modbus/server.go:301-311 | the accept loop's guarded section is the decision step |
| `Pool.ModbusServerPool.HandlerExits` | utils/modbus/server.go:360-370 | the search and the swap are the exit step |

## Left out

- Real sockets, serial ports, TLS, certificates and roles, logging, URL parsing and default settings.
- Writes always succeed whole, and setting a deadline never fails.
- A read that ends in the middle of a frame drops the bytes it got, as the program does; later bytes
  that would then be misread as the start of a frame are outside the runs of `Transactions`, where waits end
  on frame boundaries.
- Server.ModbusServer.HandleTransport: a client that goes on for ever is not covered, because the loop would not end;
  the bound on the client's patience is any number. The link is closed by the caller after a read error.
- EndToEnd.StackRefinesArrays: runs hold requests of fewer than 32768 items each, because beyond that the client's
  16-bit conversions send something else than was asked for; what that is, `Truncation` says.
- Client.ModbusClient.WriteCoil: payloads other than 0xff00 and 0x0000 (`WriteCoilValue`).
- `ReadCoil`, `ReadRegister`, `WriteUint32` and the other single-value wrappers: the list versions with one value.
- Floating-point values: their bit patterns are the 32- and 64-bit integers.
- Unknown register types, which Go's integer constants would allow.
- `HandleInputRegisters`, a clock and constants: at each reading any function of the request, so long as it
  returns no protocol error.
- `ClientAddr` and `ClientRole` of handler requests, constant for a connection.
- The device's lock and several connections writing to the device at once.
- The peer of a socket is a function of the bytes written so far, so the server answers at once.
- RtuServer.UnpackArgs: the other fields of requests to the serial server, its receive loop and its message lengths.
- RtuServer.CreateBytes: messages and handler results on which Go panics.
- Clock readings are whole nanoseconds, never go back, and start at or after the zero time.
- The CRC table is written as thirty-two rows of eight entries and indexed by row and column.
