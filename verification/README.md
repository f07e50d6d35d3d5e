# GameBloat: verified models

GameBloat is a Game Boy emulator that shows its state to a browser: a WebSocket server (wsServer) carries JSON (cJSON)
over the network. This project models the parts of the repository in which state, buffers and protocols meet, and
proves what they promise. `dafny verify dfyconfig.toml` checks it.

| files | what they model |
|---|---|
| `Utf8Bits`, `Utf8` | the table-driven UTF-8 automaton of utf8.c, and the grammar of section 4 of RFC 3629 |
| `Frames`, `Messages`, `FrameOctets` | the frame format of section 5.2 of RFC 6455, what a call of next_frame() makes of an octet stream, and both octet by octet |
| `Sockets`, `Sending`, `Pings`, `Connection` | the receiving and sending code of ws.c over a socket that cuts its octets anywhere, from handshake to close |
| `Sha1`, `Sha1Vectors`, `Sha1Context` | FIPS PUB 180-1, its known answers, and the context of sha1.c that takes a message in pieces |
| `Base64`, `Base64Numbers`, `Requests`, `Handshake` | base64.c in both directions, and handshake.c from the request in the buffer to the response |
| `JsonText`, `JsonParse`, `JsonLiterals` | JSON text as cJSON prints it, the language it parses, and its string literals |
| `JsonGrammar`, `JsonAccepted`, `JsonRoundTrip`, `JsonSecondTrip` | the grammar of RFC 8259, and that the parser reads it, accepts little else, and reads what is printed |
| `JsonItems`, `JsonTrees` | the linked children of a cJSON item, and trees of items |
| `JsonReader`, `JsonWriter` | the parse buffer and the print buffer of cJSON.c, over such trees |
| `GpuTiming`, `Gpu`, `GpuNumbers`, `GpuRuns` | the clock of gpu.c, its registers, interrupts and frame buffer, and the main loop that drives them |
| `Bytes`, `Wrappers` | octets and their numbers, network byte order, optional values |

Each C routine that changes state is a method of a class with the same fields. Its postcondition ties the new state to
a function of the old one, and lemmas about that function carry the promises of the design. What these functions compute
is stated again without their names: in octets and numbers, as the standards have them.

## Main results

- **Messages.** `Messages.Receive` says what a call of next_frame() yields for an octet stream. A stream is accepted
  if and only if it starts with a legal sequence of frames, and then the message, its type and the PONGs follow from
  those frames (`ExactAcceptance`, `Reassembly`). The code refines this for every chunking of the input and every
  partial send (`NextFrame`), and so does a whole connection (`Serve`, `SessionDelivers`), from the request on: frames
  start right behind its header, wherever the first chunk ends behind it (`Establish`).
- **Frames.** Which octet unmasks which, how long a payload is, and what each first octet does are stated of the
  stream itself (`FrameIsRead`, `FrameReacts`), and so are the frames that are sent (`ServerOctets`, `CloseReplies`).
- **UTF-8.** The automaton accepts the grammar, rejects as soon as no continuation could be valid, and yields scalar
  values that encode exactly the octets read. This is what makes checking fragments one at a time exact.
- **JSON.** The parser reads every text of RFC 8259 as what it stands for, if and only if it is nested no more than
  1000 deep and its surrogates come in pairs (`TextTaken`). Whatever else it accepts has the same structure
  (`TextAccepted`, `StringsAccepted`). The printer writes nothing but such texts (`PrintedIsJson`). So whatever is
  printed is parsed again, up to its end, if and only if it is not too deep (`TreeRoundTrip`). Trees of ints come back
  as they were, and so does what was parsed from any other text if its numbers are ints (`PrintedAgain`). Printing
  again what came back gives the same text if and only if no number leaves the range of a double when it is rounded to
  15 digits; what came back is equal in the sense of compare_double() if and only if, besides, all numbers are finite
  (`PrintedTwice`). The parser builds a tree of linked items with no item in two places, the printer walks its links,
  and items can be detached and inserted in between. The printer succeeds if and only if the text, a NUL and one more
  octet fit. Resolved literals never overrun their estimated buffer, and the string that a UTF-8 literal yields is
  always UTF-8 (`StringIsUtf8`).
- **SHA-1.** Every way of cutting a message into calls gives the digest of the whole; the length counter overflows at
  exactly 2^64 bits, and that is noticed. The digest of "abc" is that of the standard (`DigestOfAbc`).
- **Base64 and handshake.** Decoding undoes encoding for all inputs but the empty one; the allocated length is enough
  and, for one octet, used up. The key is found in any request in which no line before mentions its name
  (`RequestWithKey`), and cutting words out of the buffer in place leaves the octets behind that line alone
  (`FindKey`). The response fills its 130 octets exactly. The example of section 1.3 of RFC 6455 comes out
  (`AcceptOfSample`).
- **Child lists.** Appending, inserting, detaching and replacing keep the links of a list and act as sequence
  operations, exactly for the items that the source asks for, and one call undoes another.
- **GPU.** Time is conserved modulo 70224 ticks. States and events depend on the ticks in all, and every run paints
  lines 0 to 143 in order, once between two entries of VBLANK. The writes of a run determine memory at every moment,
  and a frame of the main loop repaints all 160*144 cells from memory as it is when their line is painted
  (`RunFrame`). No run of any kind paints outside of the screen. The status register shows the mode at every tick
  (`RunGame`, `AtInNumbers`).

## Where code and documentation disagree

- ws_sendframe() is documented to return the number of octets written (libs/wsServer/src/ws.c:453); it returns the
  result of send_all(), which is 0.
- do_handshake() receives once (libs/wsServer/src/ws.c:801): a request whose header comes in two chunks is refused
  (`DoHandshake`), which section 4.2 of RFC 6455 gives no reason for.
- SHA1Input() marks a message that is too long with 1, which is shaNull, and returns shaSuccess; shaInputTooLong,
  which libs/wsServer/include/sha1.h:37 has for this, is never used.
- libs/cJSON/cJSON.h:162 advises 5 octets more than needed for cJSON_PrintPreallocated(); exactly one more than the
  text with its NUL is needed and enough.
- add_item_to_array() leaves the `next` of the item as it is when there are other children
  (libs/cJSON/cJSON.c:1978-1983): an item that is still linked brings its successors along. `AddItemToArray` states
  exactly when it appends, and `LastLeadsNowhere` what becomes of the list otherwise.
- HandleLCDModeChange() uses the select bit that is named for mode 1 on entering HBLANK and that for mode 0 on
  entering VBLANK (src/gpu.c:171-182). The model follows the code; `SelectsByName` says when this makes no difference.
- renderScan() adds the tile row to the map address as it is, not times the 32 tiles of a row (src/gpu.c:423). The
  model follows the code; `MapStartIsRow` says that the two agree for the first row alone.
- Writes to the bus never reach the tile cache: gpuWriteByte() compares the address on the bus, not that inside video
  memory, with 0x1800 (src/gpu.c:308). After gpuReset() the screen is therefore white from the end of the first frame
  on, whatever is written (`RunGame`, `FirstFrameIsWhite`).
- print_number() keeps 15 digits whenever compare_double() finds no difference, and an infinity differs from nothing:
  the 15 digits of DBL_MAX are read as an infinity, which is then printed as null (`LargestIsLost`).
- Switching the display off and on starts in HBLANK of line 0 (src/gpu.c:351): the first frame then paints only lines
  1 to 143 (`FirstFrameAfterSwitchingOn`).
- base64_decode() counts padding characters anywhere in a group, and ignores what follows a group with padding:
  `MalformedAccepted` states exactly which texts that are not base64 it accepts. Characters outside of the alphabet
  are passed over, as section 5.2 of RFC 1341 has it.

## Model

| member | source | states |
|---|---|---|
| `Utf8.Decode` | libs/wsServer/src/utf8.c:49-59 | one octet moves state and code point through the table utf8d as the two specification functions say |
| `Utf8.IsUtf8LenState` | libs/wsServer/src/utf8.c:80-88 | the state after an array is the run of the automaton from the state before it |
| `Utf8.IsUtf8Len` | libs/wsServer/src/utf8.c:70-78 | accepts exactly the octet strings of section 4 of RFC 3629 |
| `Utf8.IsUtf8` | libs/wsServer/src/utf8.c:61-68 | the same for a C string: the octets in front of the first NUL decide |
| `Utf8.AcceptIffGrammar` | libs/wsServer/src/utf8.c:32-59 | from ACCEPT back to ACCEPT if and only if the octets are in the grammar of section 4 of RFC 3629 |
| `Utf8.RejectIffNotViable` | libs/wsServer/src/utf8.c:32-59 | REJECT is reached if and only if no continuation whatever makes the octets valid |
| `Utf8.RunConcat` | libs/wsServer/src/utf8.c:80-88 | a text checked in two pieces with the state carried over is checked like the whole text |
| `Utf8.ClassIsRange` | libs/wsServer/src/utf8.c:33-41 | the first half of the table sorts octets into the lead and tail ranges of the grammar |
| `Utf8.StepInside` | libs/wsServer/src/utf8.c:42-46 | inside a character the second half of the table allows just the continuation octets of the grammar |
| `Utf8.CharIsEncoding` | libs/wsServer/src/utf8.c:49-59 | every UTF8-char encodes a scalar value: no surrogate, no overlong form, nothing above 10FFFF |
| `Utf8.EncodingIsChar` | libs/wsServer/src/utf8.c:49-59 | every scalar value has an encoding that is one UTF8-char with that value |
| `Utf8.EmitChar` | libs/wsServer/src/utf8.c:49-59 | over one character codep is complete once, at its last octet, and holds the value of the character |
| `Utf8.EmitIsDecoding` | libs/wsServer/src/utf8.c:49-59 | the values of codep at each return to ACCEPT are scalar values that encode the text just read |
| `Utf8.EmitInvertsEncode` | libs/wsServer/src/utf8.c:49-59 | the scalar values of any text come back, in order, from its encoding |
| `Utf8.CharInNumbers` | libs/wsServer/src/utf8.c:49-59 | a character of the grammar is what section 3 of RFC 3629 makes, in numbers, of one that is at most 10FFFF and no surrogate, and the other way round |
| `Utf8.EncodeInNumbers` | libs/cJSON/cJSON.c:715-764 | the encoding octet by octet, in numbers |
| `Frames.MaskedTwice` | libs/wsServer/src/ws.c:1115 | masking with one key twice gives back the payload; FrameOctets.MaskedByOctets says which octet of the key goes with which of the payload |
| `Frames.ParseWire` | libs/wsServer/src/ws.c:1010-1117 | a frame on the wire, in any of the three length forms and with any key, is read back as that frame, and what follows is left alone |
| `Frames.WireOfParse` | libs/wsServer/src/ws.c:1010-1117 | whatever is read as a frame is the wire form of a well-formed frame |
| `Frames.ServerLengthRoundTrip` | libs/wsServer/src/ws.c:471-503 | the length field ws_sendframe() writes is read back by the rules of read_frame() as the same length |
| `Frames.ServerLengthMinimal` | libs/wsServer/src/ws.c:471-503 | no shorter length field is read as that length: the minimal form that section 5.2 of RFC 6455 wants |
| `FrameOctets.MaskedByOctets` | libs/wsServer/src/ws.c:1115 | octet e + 4 + i of the stream is unmasked with octet e + i mod 4, where the key is at e |
| `FrameOctets.LengthField` | libs/wsServer/src/ws.c:1026-1040 | the length is that of the low seven bits of the second octet, or of the next two octets, or of the next eight, as a number |
| `FrameOctets.FrameIsRead` | libs/wsServer/src/ws.c:1010-1117 | a frame that is there octet by octet is read: its first octet, its payload unmasked, and the octets behind it |
| `FrameOctets.ReadIsThere` | libs/wsServer/src/ws.c:1010-1117 | and whatever is read is there |
| `FrameOctets.ServerOctets` | libs/wsServer/src/ws.c:471-514 | every octet of a frame that is sent: 128 and the opcode, the length in its shortest form as a number, the payload |
| `Messages.Reassembly` | libs/wsServer/src/ws.c:1154-1426 | any legal sequence of frames, fragmented, masked and mixed with control frames in any way, yields the joined payload and the type of the first fragment, a PONG per PING in order, and leaves the rest of the stream |
| `Messages.ExactAcceptance` | libs/wsServer/src/ws.c:1184-1425 | a call can succeed if and only if the stream starts with a legal sequence of frames: RSV, opcodes, order, control frames, 16 MiB and UTF-8 |
| `Messages.ReassemblyFrom` | libs/wsServer/src/ws.c:1184-1414 | the loop invariant over frames: from every legal prefix the same outcome follows |
| `Messages.TextOkBefore` | libs/wsServer/src/ws.c:1292-1324 | text that is valid as a whole is extendible after each of its fragments, so checking fragment by fragment loses nothing |
| `Messages.OutcomeShape` | libs/wsServer/src/ws.c:1052-1060 | a delivered message is text or binary of at most 16 MiB, a close reason is at most 125 octets |
| `FrameOctets.FrameReacts` | libs/wsServer/src/ws.c:1184-1414 | what a call makes of each first octet: 81, 82, 01, 02, 80 and 00 by the message under way, 88, 89 and 8A, and no other; PONG is 8A and the same payload, invalid text is answered with 88 02 03 EF, 16777216 octets are the limit |
| `FrameOctets.WholeMessage` | libs/wsServer/src/ws.c:1184-1414 | 81 or 82 in front of a payload is a message of type 1 or 2 with that payload |
| `FrameOctets.NoWholeFrame` | libs/wsServer/src/ws.c:1184-1414 | a stream without a whole frame at its start ends the call |
| `FrameOctets.MaskedHello` | libs/wsServer/src/ws.c:1010-1117 | 81 85 37 FA 21 3D 7F 9F 4D 51 58 is the text Hello (section 5.7 of RFC 6455) |
| `FrameOctets.UnmaskedHello` | libs/wsServer/src/ws.c:471-514 | Hello is sent as 81 05 48 65 6C 6C 6F, and its PONG as 8A 05 48 65 6C 6C 6F (section 5.7 of RFC 6455) |
| `FrameOctets.LongFrames` | libs/wsServer/src/ws.c:471-514 | 256 and 65536 octets are sent behind 82 7E 01 00 and 82 7F and eight octets of length (section 5.7 of RFC 6455) |
| `Messages.SessionDelivers` | libs/wsServer/src/ws.c:1461-1490 | over a whole connection every message is delivered once, whole and in order, and every PING is answered |
| `FrameOctets.SessionByOctets` | libs/wsServer/src/ws.c:1461-1490 | a session by the first octet of its next frame: a message goes on, a CLOSE is answered, anything else ends it |
| `FrameOctets.CloseReplies` | libs/wsServer/src/ws.c:854-904 | the answer to a CLOSE octet by octet: the reason again, or 88 02 03 EA for one octet, or for two that are no code from 1000 to 1003, 1007 to 1011 or 3000 to 4999 |
| `Sockets.Socket.SendAll` | libs/wsServer/src/ws.c:253-280 | all octets once and in order, however send() cuts them; after a failure a prefix of them |
| `Sending.Response` | libs/wsServer/src/ws.c:505-524 | the response buffer is the server frame and a NUL |
| `Sending.Header` | libs/wsServer/src/ws.c:471-503 | FIN and the opcode, and the length in 7, 16 or 64 bits |
| `Sending.SendFrame` | libs/wsServer/src/ws.c:459-555 | one client receives exactly one server frame with the payload; the result is 0 or -1 |
| `Sending.Broadcast` | libs/wsServer/src/ws.c:531-554 | without a client every open connection receives the frame once, in the order of the places, up to the first that fails; closed ones receive nothing |
| `Pings.SendPing` | libs/wsServer/src/ws.c:601-623 | the next number goes out in a PING; the connection is to be closed if and only if it is further than the threshold ahead of the last answer |
| `Pings.WritePingMessage` | libs/wsServer/src/ws.c:581-588 | the number in network byte order |
| `Pings.ReadPongId` | libs/wsServer/src/ws.c:566-572 | the signed number of four octets |
| `Pings.EchoedId` | libs/wsServer/src/ws.c:566-588 | a PONG that echoes a PING is read as the number of that PING |
| `Pings.IdsInNumbers` | libs/wsServer/src/ws.c:566-588 | the four octets are the number, most significant first; 80 00 00 00 and above read as negative |
| `Pings.CountersInOrder` | libs/wsServer/src/ws.c:601-623 | whatever is received, the last identifier is that of a PING that was sent, or none |
| `Pings.Unanswered` | libs/wsServer/src/ws.c:601-623 | over every run in which the client answers in turn, the distance compared with the threshold is the number of unanswered pings |
| `Connection.FrameData.NextByte` | libs/wsServer/src/ws.c:946-963 | the octets left in the buffer and then those received come out each once and in order, whatever the chunks; an error if and only if there are none |
| `Connection.FrameData.NextBytes` | libs/wsServer/src/ws.c:1033-1039 | several calls in one expression take the next octets, or fail if one is missing |
| `Connection.FrameData.ReadLength` | libs/wsServer/src/ws.c:1026-1040 | the 7, 16 or 64 bit length is the number in network byte order |
| `Connection.FrameData.ReadHeader` | libs/wsServer/src/ws.c:1042-1078 | the total size is bounded by 16 MiB before the masking key is read; a missing octet is an error |
| `Connection.FrameData.CopyPayload` | libs/wsServer/src/ws.c:1107-1116 | the payload is unmasked behind what the buffer held |
| `Connection.FrameData.StorePayload` | libs/wsServer/src/ws.c:1080-1138 | the message buffer grows by the payload and, at the end of a message that is not empty, a NUL |
| `Connection.FrameData.ReadFrame` | libs/wsServer/src/ws.c:1010-1141 | read_frame() reads what the format says: payload appended, rest of the stream left, or an error |
| `Connection.FrameData.SendClose` | libs/wsServer/src/ws.c:882-893 | a CLOSE frame with a code |
| `Connection.FrameData.ReplyClose` | libs/wsServer/src/ws.c:854-904 | the reason is sent back, or 1002 where it is no more than an invalid code |
| `Connection.FrameData.CheckHead` | libs/wsServer/src/ws.c:1200-1265 | RSV, order, opcode and state are refused exactly where the model of a legal frame refuses them |
| `Connection.FrameData.ReadHead` | libs/wsServer/src/ws.c:1196-1282 | the two header octets are taken, or the frame is one the specification fails on |
| `Connection.FrameData.DataFrame` | libs/wsServer/src/ws.c:1284-1325 | a fragment joins the message, and the carried state decides about its text: whole at the end, extendible before |
| `Connection.FrameData.PingFrame` | libs/wsServer/src/ws.c:1365-1377 | the payload of a PING goes back in a PONG |
| `Connection.FrameData.PongFrame` | libs/wsServer/src/ws.c:1333-1363 | a PONG is read; its payload becomes the last identifier if and only if it has four octets and is the number of a PING that was sent |
| `Connection.FrameData.CloseFrame` | libs/wsServer/src/ws.c:1379-1402 | a CLOSE is accepted if and only if its reason is UTF-8 |
| `Connection.FrameData.FrameBody` | libs/wsServer/src/ws.c:1284-1402 | after the header the opcode decides, with the outcome of the specification |
| `Connection.FrameData.OneFrame` | libs/wsServer/src/ws.c:1184-1414 | one round of the loop keeps the outcome of the stream and uses up some of it |
| `Connection.FrameData.NextFrame` | libs/wsServer/src/ws.c:1154-1426 | next_frame() has the outcome that the specification gives the stream, for every chunking, unless a send fails; and in octets: 81 or 82 and a masked payload are that message, 89 is answered with 8A |
| `Connection.FrameData.OutcomeHeard` | libs/wsServer/src/ws.c:1154-1426 | the second half of this, from the first |
| `Connection.FrameData.Serve` | libs/wsServer/src/ws.c:1460-1490 | onmessage sees the messages of the session, and the client receives its PONGs and CLOSE |
| `Connection.FrameData.constructor` | libs/wsServer/src/ws.c:1447-1451 | all octets are 0 and nothing is read yet |
| `Connection.FrameData.DoHandshake` | libs/wsServer/src/ws.c:794-840 | a chunk of any size is received; the response goes out if and only if the chunk has an empty line and a key, and the frames then start right behind the empty line |
| `Connection.FrameData.Answer` | libs/wsServer/src/ws.c:804-840 | the same with the request in the buffer, which strtok_r() rewrites in place |
| `Connection.Establish` | libs/wsServer/src/ws.c:1441-1492 | the client receives the response to its key and then what the session behind the header calls for; onmessage sees the messages of that session |
| `Requests.StrTok` | libs/wsServer/src/handshake.c:94-96 | strtok_r() on a buffer: token and rest of the string, a NUL between them, and nothing rewritten behind |
| `Requests.StrStr` | libs/wsServer/src/handshake.c:97 | where a text first occurs, or nowhere |
| `Requests.FindKey` | libs/wsServer/src/handshake.c:94-108 | the second word of the first line that has the name of the key; what follows that line is not touched |
| `Requests.KeyInHead` | libs/wsServer/src/handshake.c:94-108 | a key in the header is found there whatever follows the header, and octets behind the header stay as they were |
| `Requests.KeyOfRequest` | libs/wsServer/src/handshake.c:94-108 | the value of the field is found in any request in which no line before mentions the name, whether lines end with CR, LF or both |
| `Requests.RequestWithKey` | libs/wsServer/src/ws.c:804-815 | a request with that field in front of its empty line is accepted, with that key |
| `Requests.RequestInOctets` | libs/wsServer/src/ws.c:804-815 | the same with every octet of the name, the line ends and the blank |
| `Requests.NoKey` | libs/wsServer/src/handshake.c:94-103 | a text in which those octets do not occur has no key |
| `Requests.FirstAtIsFirst` | libs/wsServer/src/handshake.c:97 | what strstr() finds is the first place there is |
| `Requests.TokenByPlace` | libs/wsServer/src/handshake.c:94-108 | the token starts at the first octet that is no delimiter and ends at the next that is one, which is used up |
| `Sha1.PaddedIsBlocks` | libs/wsServer/src/sha1.c:343-389 | padding adds 9 to 72 octets and makes whole blocks (section 4 of FIPS PUB 180-1) |
| `Sha1.PaddedInjective` | libs/wsServer/src/sha1.c:343-389 | different messages stay different under padding |
| `Sha1.LastBlocks` | libs/wsServer/src/sha1.c:343-389 | padding ends the message with one more block or two, depending on whether 56 octets are used |
| `Sha1.HashAfterPrefix` | libs/wsServer/src/sha1.c:184-206 | the hash after some blocks depends on those blocks alone, which is what lets it be computed while the message comes in |
| `Sha1.LengthOctets` | libs/wsServer/src/sha1.c:379-386 | the two length words written in octets are the 64-bit length in network byte order |
| `Sha1Vectors.RotationByOne` | libs/wsServer/src/sha1.c:37-38 | rotation by 1 in arithmetic modulo 2^32: x * 2 + x / 2^31 |
| `Sha1Vectors.RotationByFive` | libs/wsServer/src/sha1.c:37-38 | and by 5 |
| `Sha1Vectors.RotationByThirty` | libs/wsServer/src/sha1.c:37-38 | and by 30 |
| `Sha1Vectors.DigestOfAbc` | libs/wsServer/src/sha1.c:232-317 | the digest of abc is A9993E36 4706816A BA3E2571 7850C26C 9CD0D89D (Appendix A of FIPS PUB 180-1) |
| `Sha1Vectors.DigestOfSample` | libs/wsServer/src/sha1.c:232-317 | the digest of the 60 octets of the example in section 1.3 of RFC 6455, which takes two blocks |
| `Sha1Vectors.ScheduleExtends` | libs/wsServer/src/sha1.c:248-259 | each word of the schedule from the 17th on is the rotation of four before it |
| `Sha1Context.PiecesMakeTheMessage` | libs/wsServer/src/sha1.c:159-209 | any way of cutting a message into SHA1Input() calls stands for the whole message if it has less than 2^64 bits, and is corrupt if it has more |
| `Sha1Context.StatusInNumbers` | libs/wsServer/src/sha1.c:159-177 | 0 for success, 3 after SHA1Result(), the code of a corrupted context, and 0 for an empty piece |
| `Sha1Context.Context.Reset` | libs/wsServer/src/sha1.c:59-80 | after SHA1Reset() no octets are taken |
| `Sha1Context.Context.FillSchedule` | libs/wsServer/src/sha1.c:248-259 | W holds the 80 words of section 7 of FIPS PUB 180-1 |
| `Sha1Context.Context.ProcessMessageBlock` | libs/wsServer/src/sha1.c:232-317 | the four loops compute the compression of the block |
| `Sha1Context.Context.CountOctet` | libs/wsServer/src/sha1.c:189-198 | the two length words are 8 times the octets taken, until they overflow exactly at 2^64 bits |
| `Sha1Context.Context.TakeOctet` | libs/wsServer/src/sha1.c:184-206 | an octet more: the block or the hash takes it, and the counter |
| `Sha1Context.Context.Input` | libs/wsServer/src/sha1.c:159-209 | appends to the message; a NULL message is shaNull; after SHA1Result() it corrupts the context and returns shaStateError |
| `Sha1Context.Context.PadMessage` | libs/wsServer/src/sha1.c:343-389 | leaves the hash of the padded message |
| `Sha1Context.Context.StoreLength` | libs/wsServer/src/sha1.c:376-386 | the last 8 octets of the block are the length in bits |
| `Sha1Context.Context.WriteDigest` | libs/wsServer/src/sha1.c:130-134 | the digest is the five words, most significant octet first |
| `Sha1Context.Context.Result` | libs/wsServer/src/sha1.c:101-137 | the digest of all octets taken, also when asked again; shaNull for NULL; the error code of a corrupted context |
| `Base64.ValueOfLetter` | libs/wsServer/src/base64.c:104-107 | the decoding table inverts base64_table |
| `Base64.LetterOfValue` | libs/wsServer/src/base64.c:104-107 | and base64_table inverts the decoding table |
| `Base64.OctetsOfValues` | libs/wsServer/src/base64.c:134-136 | the shifts of the decoder undo those of the encoder |
| `Base64.EncodedLength` | libs/wsServer/src/base64.c:49-79 | the text has four characters for three octets, rounded up, and a line feed for 72 characters, rounded up |
| `Base64Numbers.AlphabetInNumbers` | libs/wsServer/src/base64.c:14-15 | the 64 characters by their codes |
| `Base64Numbers.GroupInNumbers` | libs/wsServer/src/base64.c:52-56 | the characters of a group are the four digits to the base of 64 of the number of 24 bits |
| `Base64Numbers.BareAt` | libs/wsServer/src/base64.c:50-60 | group k of the text stands for octets 3k to 3k + 2 |
| `Base64Numbers.BareEnds` | libs/wsServer/src/base64.c:63-75 | one octet left over is two characters and ==, two are three characters and = |
| `Base64Numbers.EncodedAt` | libs/wsServer/src/base64.c:49-79 | character i of the groups stands at i + i / 72, and the text has a line feed for every 72 and the rest |
| `Base64.EncodedFits` | libs/wsServer/src/base64.c:37-39 | characters, line feeds and NUL fit the allocated length, which a single octet uses up exactly |
| `Base64.EncodedLines` | libs/wsServer/src/base64.c:57-79 | line feeds stand behind each 72 characters and at the end and nowhere else, and there is no NUL |
| `Base64.Encode` | libs/wsServer/src/base64.c:29-84 | the buffer holds the encoded text and a NUL inside the allocated length; NULL if and only if four times the length overflows size_t |
| `Base64.CheckIsExact` | libs/wsServer/src/base64.c:37-41 | the check for olen < len fires for exactly those lengths |
| `Base64Numbers.BufferInNumbers` | libs/wsServer/src/base64.c:37-39 | the size that is allocated |
| `Base64.CountSignificant` | libs/wsServer/src/base64.c:109-113 | counts the characters that stand for something |
| `Base64.StoreOctets` | libs/wsServer/src/base64.c:133-149 | a group of four gives three octets, less one for each padding character; more than two are invalid |
| `Base64.Decode` | libs/wsServer/src/base64.c:97-155 | NULL or the octets, as the specification of decoding says, for any text |
| `Base64Numbers.KeptInNumbers` | libs/wsServer/src/base64.c:104-107 | the characters that count, by their codes |
| `Base64Numbers.ForeignSkipped` | libs/wsServer/src/base64.c:109-127 | any other character makes no difference, wherever it stands |
| `Base64Numbers.GroupDecoded` | libs/wsServer/src/base64.c:124-136 | the octets of a group are the digits to the base of 256 of its number of 24 bits |
| `Base64Numbers.GroupsDecoded` | libs/wsServer/src/base64.c:109-151 | groups are decoded up to the first with padding, which loses an octet for each; none, or an incomplete one, is refused |
| `Base64.RoundTrip` | libs/wsServer/src/base64.c:29-155 | decoding the encoded text gives back the input if and only if it is not empty |
| `Base64.AcceptedTexts` | libs/wsServer/src/base64.c:109-149 | a text is accepted if and only if it has whole groups and the first with padding has at most two padding characters |
| `Base64.MalformedAccepted` | libs/wsServer/src/base64.c:124-149 | a text that is not base64 is accepted if and only if that padding is not at the end of its group, or more text follows |
| `Base64.MalformedExamples` | libs/wsServer/src/base64.c:124-149 | =AAA and AA==AAAA are accepted |
| `Base64.EncodedIsWellFormed` | libs/wsServer/src/base64.c:50-78 | what the encoder writes is base64 in the sense of section 4 of RFC 4648 |
| `Base64.OneLine` | libs/wsServer/src/base64.c:57-79 | a text that fits a line has its one line feed at the end |
| `Handshake.AcceptOfKey` | libs/wsServer/src/handshake.c:47-72 | for a key of 24 octets the accept value is 28 characters that decode to SHA-1 of the key followed by the GUID (section 4.2.2 of RFC 6455) |
| `Handshake.AcceptOfSample` | libs/wsServer/src/handshake.c:47-72 | dGhlIHNhbXBsZSBub25jZQ== is accepted with s3pPLMBiTxaQ9kYGzzhZRbK+xOo= (section 1.3 of RFC 6455) |
| `Handshake.HashedOctets` | libs/wsServer/src/handshake.c:57-62 | longer keys are cut to 24 octets, behind shorter ones the GUID is followed by NULs |
| `Handshake.GuidOctets` | libs/wsServer/include/ws.h:72-74 | the GUID octet by octet |
| `Handshake.JoinKey` | libs/wsServer/src/handshake.c:57-62 | the 60 octets hashed: up to 24 of the key, the GUID, NULs if the key is shorter |
| `Handshake.EncodeHash` | libs/wsServer/src/handshake.c:68-69 | base64 of the digest with the line feed turned into the NUL |
| `Handshake.GetHandshakeAccept` | libs/wsServer/src/handshake.c:47-72 | the accept value as a C string, or -1 without a key |
| `Handshake.GetHandshakeResponse` | libs/wsServer/src/handshake.c:87-124 | from the request in the buffer to header, accept value, two line ends and a NUL, which fill the 130 octets exactly; -1 without a key |
| `Handshake.HeaderHasNoNul` | libs/wsServer/include/ws.h:94-98 | the header of the response has 97 characters |
| `Handshake.ResponseIsText` | libs/wsServer/include/ws.h:94-98 | the response line by line |
| `Handshake.AsciiIsCode` | libs/wsServer/include/ws.h:94-98 | the octets of these texts are the codes of their characters |
| `JsonRoundTrip.TreeRoundTrip` | libs/cJSON/cJSON.c:1312-1438 | parsing the printed text, formatted or not, gives back the tree, up to its NUL, if and only if it is nested at most 1000 deep; a deeper one is rejected; numbers are what strtod() makes of their text, ints just as they were, and NaN and infinities become null |
| `JsonRoundTrip.PrintedIsJson` | libs/cJSON/cJSON.c:1367-1438 | every printed tree is a text of RFC 8259, strictly, formatted or not, if sprintf() writes doubles as JSON numbers |
| `JsonRoundTrip.NodeSpells` | libs/cJSON/cJSON.c:1367-1825 | the text of a tree octet by octet: names, brackets, commas, colons, line breaks, tabs and blanks |
| `JsonRoundTrip.NodeWritten` | libs/cJSON/cJSON.c:1367-1825 | that text is in the grammar and stands for the tree, its numbers as strtod() reads them |
| `JsonRoundTrip.CharsAreEscaped` | libs/cJSON/cJSON.c:902-1021 | a printed string is a string of section 7 of RFC 8259 that stands for its octets |
| `JsonRoundTrip.DecimalIsNumber` | libs/cJSON/cJSON.c:563-566 | printed ints are numbers of section 6, without leading zeros |
| `JsonGrammar.TextTaken` | libs/cJSON/cJSON.c:1095-1139 | every text of RFC 8259 is read as what it stands for, with white space and a byte order mark, if and only if it is nested at most 1000 deep and its surrogates come in pairs; numbers of up to 63 characters |
| `JsonGrammar.ValueTaken` | libs/cJSON/cJSON.c:1312-1711 | every value of RFC 8259 in the middle of a text is read as what it stands for, and the rest of the text is left |
| `JsonGrammar.StringTaken` | libs/cJSON/cJSON.c:773-899 | every string of section 7, with all eight short escapes and digits of either case, is read as its octets up to a NUL, and refused if a surrogate is alone |
| `JsonGrammar.NumberTaken` | libs/cJSON/cJSON.c:305-379 | a number is read to its end and no further |
| `JsonGrammar.NumbersAreLike` | libs/cJSON/cJSON.c:316-346 | every number of section 6 consists of the characters that are handed to strtod(), and begins like one |
| `JsonGrammar.StrictIsWritten` | libs/cJSON/cJSON.c:1312-1711 | whatever the grammar has is among the texts that are read |
| `JsonGrammar.LongNumber` | libs/cJSON/cJSON.c:316-346 | of a longer number strtod() gets 63 characters |
| `JsonAccepted.TextAccepted` | libs/cJSON/cJSON.c:1095-1139 | a text that is accepted whole is one value with white space around it, in the structure of RFC 8259; besides, cJSON takes control characters in white space, and loose strings and numbers |
| `JsonAccepted.ValueSpelled` | libs/cJSON/cJSON.c:1312-1711 | the same for every value that is read in the middle of a text |
| `JsonAccepted.StringsAccepted` | libs/cJSON/cJSON.c:773-899 | a literal is accepted if and only if it ends with the first quote that no backslash takes away, and each step of the copy loop takes some of it |
| `JsonGrammar.UnitInOctets` | libs/cJSON/cJSON.c:819-874 | what each step of the copy loop does with any octets: which escapes are refused, and what the others write |
| `JsonAccepted.ClosingInOctets` | libs/cJSON/cJSON.c:786-809 | where the literal ends: at the first quote behind octets of which a backslash takes the next with it |
| `JsonAccepted.HexInNumbers` | libs/cJSON/cJSON.c:615-648 | four digits of either case as a number, and 0 if one is none |
| `JsonRoundTrip.IntTreeRoundTrip` | libs/cJSON/cJSON.c:1312-1438 | the same for trees of ints with a strtod() that reads decimals, and nothing assumed |
| `JsonRoundTrip.ReadDecimalIsExact` | libs/cJSON/cJSON.c:305-379 | what is assumed of strtod() can be met |
| `JsonRoundTrip.PrintedAgain` | libs/cJSON/cJSON.c:1079-1260 | a tree parsed from any text is printed to a text that parses again, to the same tree if its numbers are ints |
| `JsonRoundTrip.ParsedIsSound` | libs/cJSON/cJSON.c:1312-1364 | what the parser returns is nested within the limit and has names and strings without a NUL |
| `JsonRoundTrip.ValueRoundTrip` | libs/cJSON/cJSON.c:1312-1364 | a printed value in the middle of a text is read back and no more of the text is taken, if and only if it is not nested too deep where it stands |
| `JsonRoundTrip.ParseQuoted` | libs/cJSON/cJSON.c:773-1021 | a printed C string is read back as its octets, whatever follows |
| `JsonRoundTrip.IntsBack` | libs/cJSON/cJSON.c:563-566 | ints come back as they were |
| `JsonSecondTrip.PrintedTwice` | libs/cJSON/cJSON.c:538-612 | what comes back equals what was printed in the sense of compare_double() if and only if every number is finite and stays so when it is rounded to 15 digits; printing and parsing once more changes neither tree nor text if and only if no number overflows by that rounding |
| `JsonSecondTrip.BackIsNear` | libs/cJSON/cJSON.c:538-581 | the first half of this, for every tree |
| `JsonSecondTrip.BackAgain` | libs/cJSON/cJSON.c:538-581 | the second half, for the values |
| `JsonSecondTrip.SameText` | libs/cJSON/cJSON.c:538-612 | and for the text at any depth |
| `JsonSecondTrip.NumberAgain` | libs/cJSON/cJSON.c:568-581 | a number that does not overflow comes back equal in the sense of compare_double() and is printed with the same digits |
| `JsonSecondTrip.NumberLost` | libs/cJSON/cJSON.c:538-581 | a number that overflows comes back as an infinity, and that as null |
| `JsonSecondTrip.LargestIsLost` | libs/cJSON/cJSON.c:538-581 | DBL_MAX does |
| `JsonText.NumberFits` | libs/cJSON/cJSON.c:550-588 | what sprintf() writes fits number_buffer, and is a numeral unless the number is not finite |
| `JsonText.IntOfInNumbers` | libs/cJSON/cJSON.c:357-370 | an int is cut towards zero, and saturates at 2147483647 and -2147483648 |
| `JsonText.CompareInNumbers` | libs/cJSON/cJSON.c:538-542 | the tolerance is 2^-52 of the larger number, and an infinity is near everything |
| `JsonText.DigitsInNumbers` | libs/cJSON/cJSON.c:563-566 | the last digit is that of the units, the others are those of the tens |
| `JsonLiterals.EscapeDecodes` | libs/cJSON/cJSON.c:652-770 | the escape or surrogate pair of every scalar value is resolved to the UTF-8 encoding of that value |
| `JsonLiterals.StringIsUtf8` | libs/cJSON/cJSON.c:773-899 | the string that a UTF-8 literal is resolved to, read up to its NUL, is UTF-8, however its escapes are written |
| `JsonLiterals.ParsedStringIsUtf8` | libs/cJSON/cJSON.c:773-899 | so is every string that parse_string() returns for a literal that is UTF-8 |
| `JsonLiterals.EscapeOrNul` | libs/cJSON/cJSON.c:652-713 | an escape stands for a NUL, or consists of ASCII and stands for octets that are none |
| `JsonLiterals.Utf8Preserved` | libs/cJSON/cJSON.c:819-877 | all octets left in the buffer, also those behind a NUL, are UTF-8 if and only if no escape takes a part of a character with it |
| `JsonLiterals.WellFormedIsWhole` | libs/cJSON/cJSON.c:860-867 | escapes with four hexadecimal digits never take a part of a character, so then the whole buffer is UTF-8 |
| `JsonLiterals.EscapeCanCut` | libs/cJSON/cJSON.c:615-648 | a malformed escape leaves a NUL and can leave part of a character behind it, where no reader of the string looks |
| `JsonLiterals.UnitFits` | libs/cJSON/cJSON.c:786-817 | no step of the copy loop writes more than its share of the estimate, also for malformed escapes |
| `JsonLiterals.EscapeYieldsUtf8` | libs/cJSON/cJSON.c:652-770 | what an escape is resolved to is valid UTF-8 |
| `JsonReader.ParseBuffer.SkipWhitespace` | libs/cJSON/cJSON.c:1038-1061 | white space is passed over, but never the last octet, and the offset never goes back |
| `JsonReader.ParseBuffer.ParseHex4` | libs/cJSON/cJSON.c:615-648 | four hexadecimal digits as a number, 0 where one is not a digit |
| `JsonReader.ParseBuffer.Utf16LiteralToUtf8` | libs/cJSON/cJSON.c:652-770 | an escape or a pair of them goes to the output as UTF-8, or the sequence length is 0 |
| `JsonReader.ParseBuffer.EncodeUtf8` | libs/cJSON/cJSON.c:715-764 | the loop over the marks writes the encoding of RFC 3629 |
| `JsonReader.ParseBuffer.MeasureLiteral` | libs/cJSON/cJSON.c:786-809 | finds the closing quote that escapes leave, and counts the backslashes it jumped behind |
| `JsonReader.ParseBuffer.CopyLiteral` | libs/cJSON/cJSON.c:819-874 | the literal resolved, inside a buffer of the estimated size, or a failure |
| `JsonReader.ParseBuffer.ReadString` | libs/cJSON/cJSON.c:773-899 | reads a string as the specification does, up to the NUL where an escape reads as 0 |
| `JsonReader.ParseBuffer.ReadNumber` | libs/cJSON/cJSON.c:305-379 | gives up to 63 characters to strtod() and takes as many as it used; the item holds the value, and its int with saturation |
| `JsonReader.ParseBuffer.ReadValue` | libs/cJSON/cJSON.c:1312-1364 | reads a value as the specification does into linked items that stand for it, no item in two places, with depth restored and never above the limit, offset inside the buffer |
| `JsonReader.ParseBuffer.OpenBracket` | libs/cJSON/cJSON.c:1446-1459 | the depth is checked, then counted, before the bracket is looked at |
| `JsonReader.ParseBuffer.ReadArray` | libs/cJSON/cJSON.c:1441-1536 | an array, in spite of the step back before the loop; its items are the children of the item, linked by next and prev |
| `JsonReader.ParseBuffer.ReadBehindBracket` | libs/cJSON/cJSON.c:1460-1527 | behind the bracket: an empty array, or elements up to the closing bracket, or a failure at the end of the text |
| `JsonReader.ParseBuffer.ReadElements` | libs/cJSON/cJSON.c:1474-1508 | the loop over the elements ends, with a list of new items that stand for the elements of the specification |
| `JsonReader.ParseBuffer.ReadMember` | libs/cJSON/cJSON.c:1657-1682 | a name, a colon and a value; the name moves from valuestring to string |
| `JsonReader.ParseBuffer.ReadObject` | libs/cJSON/cJSON.c:1601-1711 | an object, its members as named children |
| `JsonReader.ParseBuffer.ReadBehindBrace` | libs/cJSON/cJSON.c:1618-1702 | behind the brace: an empty object, or members up to the closing brace, or a failure at the end of the text |
| `JsonReader.ParseBuffer.ReadMembers` | libs/cJSON/cJSON.c:1632-1684 | the loop over the members ends, with a list of new named items that stand for the members of the specification |
| `JsonReader.ParseBuffer.ReadElement` | libs/cJSON/cJSON.c:1477-1507 | one more item behind the list, and its value read into it |
| `JsonReader.ParseBuffer.ReadPair` | libs/cJSON/cJSON.c:1635-1683 | one more item behind the list, and its name and value read into it |
| `JsonReader.ParseBuffer.SetNumber` | libs/cJSON/cJSON.c:357-374 | valuedouble, and valueint with saturation |
| `JsonTrees.AppendNew` | libs/cJSON/cJSON.c:1478-1497 | a new item is linked behind the list, and the items already there still stand for their values |
| `JsonTrees.Grown` | libs/cJSON/cJSON.c:1478-1507 | an item with its tree makes the list one longer, and still no item is in two places |
| `JsonTrees.Close` | libs/cJSON/cJSON.c:1515-1527 | the list becomes the children of the item, the prev of the first set to the last |
| `JsonTrees.CloseArray` | libs/cJSON/cJSON.c:1515-1527 | the item stands for the array of the values of the list |
| `JsonTrees.CloseObject` | libs/cJSON/cJSON.c:1691-1702 | the item stands for the object of the named values of the list |
| `JsonTrees.TypesInNumbers` | libs/cJSON/cJSON.h:88-97 | the types of the items of a tree, by their numbers |
| `JsonTrees.DetachElement` | libs/cJSON/cJSON.c:2187-2231 | on an array of any trees: the array has lost that element, and the element detached stands for what it was |
| `JsonTrees.InsertElement` | libs/cJSON/cJSON.c:2263-2290 | on an array of any trees: the array has the value of the new item at that place |
| `JsonReader.ParseWithOpts` | libs/cJSON/cJSON.c:1079-1172 | NULL, or a tree of new items that stands for the result of the specification, byte order mark and strict ending included; return_parse_end is behind the value, or inside the text after an error |
| `JsonReader.EncodeByLoop` | libs/cJSON/cJSON.c:747-762 | shifting and marking octet by octet amounts to the encoding of RFC 3629 |
| `JsonWriter.PrintBuffer.Ensure` | libs/cJSON/cJSON.c:439-522 | room is found if and only if the capacity allows it, and what was written is kept when the buffer is regrown |
| `JsonWriter.PrintBuffer.UpdateOffset` | libs/cJSON/cJSON.c:525-535 | the offset moves to the next NUL |
| `JsonWriter.PrintBuffer.MeasureString` | libs/cJSON/cJSON.c:929-953 | the counting pass gives the length of the escaped text |
| `JsonWriter.PrintBuffer.WriteString` | libs/cJSON/cJSON.c:975-1016 | the writing pass writes the escaped text and no more than was counted |
| `JsonWriter.PrintBuffer.PrintString` | libs/cJSON/cJSON.c:902-1021 | a quoted string on both branches, and success exactly if it, its NUL and one octet fit |
| `JsonWriter.PrintBuffer.PrintNumber` | libs/cJSON/cJSON.c:538-612 | an int in decimal, other doubles with 15 digits or, where those do not give it back, 17, and null for NaN and infinities |
| `JsonWriter.PrintBuffer.PrintValue` | libs/cJSON/cJSON.c:1367-1438 | prints the text of the value that the linked items stand for if and only if text, NUL and one more octet fit |
| `JsonWriter.PrintBuffer.PrintArray` | libs/cJSON/cJSON.c:1539-1598 | the same for an array |
| `JsonWriter.PrintBuffer.PrintItem` | libs/cJSON/cJSON.c:1564-1584 | an element and its separator, or no room |
| `JsonWriter.PrintBuffer.PrintItems` | libs/cJSON/cJSON.c:1562-1586 | the elements, along the links |
| `JsonWriter.PrintBuffer.PrintKey` | libs/cJSON/cJSON.c:1743-1776 | tabs, name and colon |
| `JsonWriter.PrintBuffer.PrintMember` | libs/cJSON/cJSON.c:1743-1783 | a member |
| `JsonWriter.PrintBuffer.PrintMembers` | libs/cJSON/cJSON.c:1741-1805 | the members, along the links |
| `JsonWriter.PrintBuffer.PrintObject` | libs/cJSON/cJSON.c:1714-1825 | the same for an object |
| `JsonWriter.Print` | libs/cJSON/cJSON.c:1187-1249 | a buffer of its own with the text and a NUL, if and only if they fit an int with one octet to spare |
| `JsonWriter.PrintPreallocated` | libs/cJSON/cJSON.c:1292-1309 | succeeds if and only if the buffer has one octet more than text and NUL |
| `JsonWriter.PrintBuffered` | libs/cJSON/cJSON.c:1262-1290 | the first size of the buffer makes no difference to the result |
| `JsonWriter.TextHasNoNul` | libs/cJSON/cJSON.c:1367-1438 | printed text has no NUL, so the next NUL is its end |
| `JsonItems.ChildrenUnique` | libs/cJSON/cJSON.c:1956-1987 | the links determine the sequence of children |
| `JsonItems.LinksOfChildren` | libs/cJSON/cJSON.c:1956-1987 | next leads to the next child or NULL, prev back, and from the first to the last |
| `JsonItems.InsertedByPlace` | libs/cJSON/cJSON.c:2263-2290 | what inserting does to the sequence, place by place |
| `JsonItems.DetachedByPlace` | libs/cJSON/cJSON.c:2187-2221 | and detaching |
| `JsonItems.GetArraySize` | libs/cJSON/cJSON.c:1828-1849 | the number of children |
| `JsonItems.GetArrayItem` | libs/cJSON/cJSON.c:1851-1878 | the child at an index, or NULL |
| `JsonItems.AddItemToArray` | libs/cJSON/cJSON.c:1956-1987 | appends if and only if the item is no child yet and leads nowhere, or is the first; otherwise the links that result; refuses NULL and the array itself |
| `JsonItems.DetachItemViaPointer` | libs/cJSON/cJSON.c:2187-2221 | removes the child and unlinks it |
| `JsonItems.InsertItemInArray` | libs/cJSON/cJSON.c:2263-2290 | inserts in front of an index, or appends behind the last, if and only if the item is no child yet and, at the end, leads nowhere; refuses NULL behind the last |
| `JsonItems.ReplaceItemViaPointer` | libs/cJSON/cJSON.c:2292-2339 | the replacement takes the place of the child, which is unlinked, if and only if it is no other child |
| `JsonItems.DetachItemFromArray` | libs/cJSON/cJSON.c:2223-2231 | removes the child at an index, if there is one |
| `JsonItems.ReplaceItemInArray` | libs/cJSON/cJSON.c:2341-2349 | replaces the child at an index, if there is one, under the same condition; refuses NULL |
| `JsonItems.LastLeadsNowhere` | libs/cJSON/cJSON.c:1977-1984 | an item that leads on, or was a child, and was put last leaves links that no sequence of children describes |
| `JsonItems.InsertThenDetach` | libs/cJSON/cJSON.c:2187-2290 | inserting an item and detaching it leaves the children as they were |
| `JsonItems.DetachThenInsert` | libs/cJSON/cJSON.c:2187-2290 | detaching a child and inserting it at its place leaves the children as they were |
| `JsonItems.DetachAndInsertReplaces` | libs/cJSON/cJSON.c:2187-2339 | detaching a child and inserting another item leaves the children that replacing it does |
| `GpuTiming.Conservation` | src/gpu.c:189-240 | every step adds its ticks to the position in the frame of 70224 ticks, and VBLANK stays lines 144 to 153 |
| `GpuTiming.TickBound` | src/gpu.c:189-240 | ticks keep the clock below the length of the mode in every state if and only if they are at most 80 |
| `GpuTiming.StepIsAt` | src/gpu.c:189-240 | a step of at most 80 ticks takes the closed form of the state on by its ticks |
| `GpuTiming.StepLogs` | src/gpu.c:189-240 | and paints and enters VBLANK exactly where the time it covers says so |
| `GpuTiming.RunIsAt` | src/gpu.c:189-240 | over every run, states and events depend on the ticks in all, not on how they are cut into steps |
| `GpuNumbers.AtInNumbers` | src/gpu.c:26-34 | for 80 ticks a line on the screen is in mode 2, for 172 in mode 3, for 204 in mode 0; lines 144 to 153 are in mode 1 |
| `GpuNumbers.EventInNumbers` | src/gpu.c:189-240 | a line is painted at its tick 252, and VBLANK begins with line 144 |
| `GpuNumbers.AdvanceInNumbers` | src/gpu.c:189-240 | one step in numbers: 80, 172, 204 and 456 ticks of a clock of 32 bits, the lines before 144 and 0 |
| `GpuNumbers.ResetInNumbers` | src/gpu.c:115-139 | gpuReset() leaves the clock at tick 116 of line 153, switched off |
| `GpuNumbers.SwitchInNumbers` | src/gpu.c:316-365 | writes to 0xFF40, by bit 7, and to 0xFF44 on the clock |
| `GpuTiming.RunFromReset` | src/gpu.c:135-240 | the same from gpuReset() with the display switched on and left on |
| `GpuTiming.RunPaintsFrames` | src/gpu.c:135-240 | every such run does the first part of frame after frame, each lines 0 to 143 in order, once, and VBLANK |
| `GpuTiming.FrameLog` | src/gpu.c:189-240 | between two entries of VBLANK lines 0 to 143 are painted in order, once each |
| `GpuTiming.PaintsInBounds` | src/gpu.c:189-240 | whatever is written to the control register and to 0xFF44 and whatever the ticks, only lines of the screen are painted |
| `GpuTiming.RunConcat` | src/gpu.c:189-240 | a run of two parts is the run of the second from where the first ends |
| `GpuTiming.AtIsRunning` | src/gpu.c:189-240 | every moment of the frame is a state with the clock below the length of its mode |
| `GpuTiming.RunningIsAt` | src/gpu.c:189-240 | and every such state is the state of one moment of the frame |
| `GpuTiming.FirstFrameAfterSwitchingOn` | src/gpu.c:346-357 | switched off and on, the display begins behind the pixels of line 0, which its first frame leaves out |
| `GpuTiming.ResetLineInVBlank` | src/gpu.c:329-330 | a write to 0xFF44 puts line and mode at odds if and only if it comes in VBLANK |
| `Gpu.Gpu.Reset` | src/gpu.c:115-139 | VBLANK, clock 116, line 153, display off; all registers, video memory and tiles cleared |
| `Gpu.Gpu.NextScanline` | src/gpu.c:141-155 | the line counts on to 153 and around; LY = LYC is shown and, if selected, asks for the LCD interrupt |
| `Gpu.Gpu.HandleLcdModeChange` | src/gpu.c:157-187 | the status register shows the mode, and the interrupts selected for it are asked for |
| `Gpu.Gpu.Step` | src/gpu.c:189-253 | the clock advances as the timing machine, VBLANK and LCD interrupts are asked for just then, the screen changes by the row of the line painted and nothing else, and the low bits of the status register go on being 0, 1, 2 or 3 by the mode |
| `Gpu.Gpu.RenderScan` | src/gpu.c:412-473 | writes the 160 cells of its line, each from its tile, and no other |
| `Gpu.Gpu.UpdateLcdControlRegister` | src/gpu.c:346-365 | all bits are taken over; switching off resets mode, clock and line |
| `Gpu.Gpu.WriteRegister` | src/gpu.c:316-344 | which register an address sets, for all ten, and that only the control register and 0xFF44 touch the clock |
| `Gpu.PixelOf` | src/gpu.c:447-458 | after several rows each cell holds the pixel of its own row |
| `Gpu.PaintsDraw` | src/gpu.c:447-458 | paints in order put their rows in place, from the first line on |
| `Gpu.SelectsByName` | src/gpu.c:161-183 | the interrupts asked for are those selected by the names of the status bits if and only if bits 3 and 4 are alike |
| `Gpu.SelectsSwapped` | src/gpu.c:171-182 | with bit 3 alone, the interrupt named for HBLANK is asked for on entering VBLANK |
| `Gpu.MapStartIsRow` | src/gpu.c:415-423 | the map address is that of the tile row of the line if and only if the line is in the first row |
| `Gpu.Gpu.WriteByte` | src/gpu.c:299-314 | video memory changes at addresses from 0x8000 to 0x9FFF and nowhere else |
| `Gpu.Gpu.BusWrite` | src/memory.c:92-131 | a write to the bus changes exactly the video memory or register at its address, and the clock only by the control register and 0xFF44 |
| `GpuRuns.LoopCycle` | src/Platforms/main_server.c:175-180 | the writes of an instruction, then its ticks: memory is what the writes make of it, the clock advances as the timing machine, and a row is painted from memory as it is then |
| `GpuRuns.CycleInOrder` | src/Platforms/main_server.c:175-180 | writes one by one, then the ticks of the instruction; a row is painted from memory behind the writes |
| `GpuRuns.RunCycles` | src/Platforms/main_server.c:151-180 | over every run of the loop, memory is what all writes make of it, clock and events are those of the timing machine, and the screen is what its paints draw, each row from memory after the writes up to its cycle |
| `GpuRuns.RunGame` | src/Platforms/main_server.c:151-180 | from gpuReset() with the display switched on and left on, every run of the loop paints the first part of frame after frame, and the screen is what those paints draw from memory as it then is; from the end of the first frame on it is white; and unless 0xFF41 is written the status register shows 1, 2, 3 or 0 by the tick of the frame |
| `GpuRuns.RunFrame` | src/Platforms/main_server.c:151-180 | from the line in which VBLANK begins to the same line of the next frame, lines 0 to 143 are painted in order, and each of the 160*144 cells ends as the pixel of its line from memory after the writes up to the cycle that painted it |
| `GpuRuns.FirstFrameIsWhite` | src/gpu.c:299-311 | with the tiles as gpuReset() leaves them every cell is (255, 255, 255) after the first full frame, whatever is in video memory |
| `GpuRuns.AroundTheFrame` | src/gpu.c:189-240 | the time of a frame logs its 144 paints and the entry of VBLANK |
| `Gpu.DrawnConcat` | src/gpu.c:447-458 | drawing the events of two runs one after the other is drawing the events of both |
| `Gpu.FrameRepaints` | src/gpu.c:447-458 | 144 paints in order and any rows leave no cell of the earlier picture |
| `Gpu.TileNumber` | src/gpu.c:431-443 | tile numbers stay below 384, so the checks for invalid tiles never fire |
| `Gpu.MapStart` | src/gpu.c:415-423 | map addresses stay inside the 0x2000 octets of video memory |
| `Gpu.StatusShowsMode` | src/gpu.c:158-160 | the low bits of the status register go on showing the mode |
| `GpuNumbers.StatusInNumbers` | src/gpu.c:141-187 | bits 0 and 1 of the status register after a step are the number of the mode, bit 2 is LY = LYC, and bits 3 to 7 stay |
| `GpuNumbers.InterruptsInNumbers` | src/gpu.c:141-187 | bits 3, 4 and 5 ask for the LCD interrupt on entering VBLANK, HBLANK and mode 2, bit 6 when LY becomes LYC |
| `GpuNumbers.RequestInNumbers` | src/gpu.c:146-183 | VBLANK is bit 0 of the request register, LCD bit 1 |
| `GpuNumbers.SwitchedInNumbers` | src/gpu.c:346-357 | switching the display keeps bits 3 to 7 of the status register; the others are the mode or 0 |
| `GpuNumbers.WroteInNumbers` | src/gpu.c:299-344 | which of the 0x2000 octets of video memory or which register a write sets |
| `GpuNumbers.PixelInNumbers` | src/gpu.c:412-473 | each pixel by scroll registers, map, tile set and tile, as one of the shades 255, 192, 96 and 0 |
| `GpuNumbers.RowInNumbers` | src/gpu.c:447-458 | line l is the cells from 160 * l on |
| `Gpu.EightBits` | src/gpu.c:347-364 | updating the eight bits one by one sets the whole register |

## Left out

- Connection.FrameData.NextFrame: reads whether the connection is CLOSING as one parameter for the whole call, and takes malloc() and realloc() never to fail.
- Connection.FrameData.ReadLength: takes 64-bit lengths as unbounded numbers, so the sum of sizes cannot wrap; section 5.2 of RFC 6455 requires the top bit to be 0.
- Connection.FrameData.CloseFrame: has one more slot in the control buffer, for the NUL behind a payload of 125 octets (libs/wsServer/src/ws.c:1137).
- Pings.SendPing: is for an open connection and at most 2^31 pings; ws_ping() to all clients, and what the thread does that closes a connection, are left out.
- The mask bit of client frames: the code never looks at it, and neither does the model.
- Connection.Establish: says what follows in the stream if the key is in front of the empty line; where it is not, strtok_r() goes on into the octets behind the header and rewrites them.
- Builds without VALIDATE_UTF8: the model has it on.
- Sockets, threads, mutexes, ping timing and the thread that closes a connection in time: what recv() and send() do is a class with arbitrary chunks, and a receive at the end of the stream goes on failing.
- Handshake.GetHandshakeResponse: hands the key on as its text, where the code has a pointer into the request.
- Sha1Context.Context: the context itself is never NULL.
- JsonParse.Parse: takes strtod() as a parameter, and the printer sprintf() as well. JsonRoundTrip.Reads is what TreeRoundTrip assumes of them (ints are exact, numerals are read to their end), JsonRoundTrip.JsonNumerals what PrintedIsJson assumes besides (doubles are written as numbers of JSON), JsonSecondTrip.Precise what PrintedTwice assumes (17 digits identify a double, 15 survive); JsonRoundTrip.IntTreeRoundTrip assumes nothing.
- JsonWriter.PrintBuffer.PrintNumber: compares doubles as real numbers, so the rounding of the tolerance below the normal range is not modelled; valueint is what the parser sets it to, and the decimal point is '.' in any locale.
- JsonWriter.PrintBuffer.PrintValue: leaves out strings, raw texts and names that are NULL, and items of no type.
- JsonReader.ParseBuffer.ReadArray: says nothing about the items made, nor the offset, when it fails; freeing them is left out.
- JsonGrammar.TextTaken: is for numbers of up to 63 characters that strtod() reads to their end; what becomes of longer ones is in JsonGrammar.LongNumber.
- JsonAccepted.TextAccepted: says of strings and numbers that are accepted outside of RFC 8259 what UnitInOctets and LongNumber say, and no more.
- JsonReader.ParseWithOpts: is for buffers that end with a NUL; after an error return_parse_end is only known to be inside the text, and the global error position is left out.
- JsonItems.ReplaceItemViaPointer: leaves out the deletion of the item replaced.
- JsonItems.DetachItemViaPointer: asks for a child of the parent; any other item makes the code follow links that are not the parent's.
- JsonItems.InsertItemInArray: lets an array be inserted into itself, as the code does; what the links mean then is not modelled.
- Allocation hooks, reference items, locale, lookup by name, copying, comparing and minifying of cJSON: not modelled.
- Gpu.Gpu.RenderScan: takes the tile cache as any values from 0 to 3; filling it from video memory is left out, as updateTile() is not reached from bus writes (src/gpu.c:308).
- Gpu.Gpu.WriteRegister: gpuReadRegister() is left out, which gives scroll X at the address that sets scroll Y.
- GpuRuns.RunFrame: takes what the processor writes and how long it takes as given; the interrupts it serves and gpuReset() between two cycles are left out.
- Processor, memory map, cartridges, timers, interrupt handling, logging, the user interfaces and the sample programs: not modelled; from the processor comes only that a step takes at most 80 ticks.
