# GPush: a verified model

GPush is a push-messaging system in C++ with its own network framework. This
project models the parts of it on which the rest depends and proves what they
keep over all inputs and all runs. `dafny verify dfyconfig.toml` checks it.

**JSON.** `JsonLexer`, `JsonDecoder` and `JsonParser` say as functions what the
reader does with the text after its cursor, recovery from errors included;
`JsonReader` is the class with cursor, node stack and error list, each method
proved equal to those functions. `JsonWriter` and `JsonStyledWriter` are the two
printers as classes that append to a document. `JsonTokens` defines the tokens
of a tree and what it means for a text to be those tokens with white space
around them; `JsonRoundTrip` proves that any such text parses to the tree, and
`JsonEndToEnd` joins printers and reader. Conversion of doubles (`sscanf`) is a
function parameter.
`JsonGrammar` is a grammar of tokens and that exactly it is accepted, `JsonErrors`
what the error of a refused text says, `JsonLexicon` what tokens, escapes and
numbers look like and stand for, `JsonLayout` the lines of the styled text.

**Buffers and streams.** `LoopBuf` is the chain of frames that rewires itself
while it is read, `RingBuffer` the client's ring; both refine a sequence of
bytes, and `Fifo` runs any sequence of operations on either against one queue.
`Framing` defines the packets of a byte stream, `Connection` the receive and send
paths on the chain, `ClientConnection` the receive path on the ring. What each
`send` and each `epoll_ctl` returns is an arbitrary function of how many there
have been.

**Event loop.** `OpQueue` is the queue of operators between threads as a state
machine of atomic steps; a run is any sequence of labels. `Timers` is the ordered
set of timers, the timers of connections and the pass that fires them, with
arbitrary clock readings and callbacks that may start, stop and destroy anything.

**Codecs.** `Base64`, `CipherModes` (modes on whole messages), `Rijndael` (the
loops over buffers, which may be the same), `Md5` (buffering), `Aes` and `Token`;
`Base64Laws` and `ModeLaws` say letter by letter, block by block and bit by bit
what these compute.
The block cipher is any pair of functions of which one undoes the other, the MD5
transform any function.

**Identity.** `Session` has connection ids, the id counter, dispatch to loops and
session ids.

Results that contradict what one would expect of the code are proved as such:

- `efnfw/net/ef_event_loop.cpp:279-280` and `331-334`: a wake-up is lost when a
  compare-exchange falls between the reset of the flag and the recv
  (`OpQueue.WakeUpCanBeLost`, `OpQueue.StuckStays`).
- `efnfw/net/ef_event_loop.cpp:349-402` with `214-221`: when the pass stops at its
  cap the wait is 0, which the loop takes for no timer at all
  (`Timers.CapLeavesTimers`, exactly when: `Timers.CapLeavesTimersExactly`).
- `efnfw/net/ef_connection.cpp:330-359`: the first frame of the send buffer can be
  empty while bytes are queued, and then nothing is ever sent again
  (`Connection.SendCanStall`, `Connection.StallLasts`, exactly when:
  `Connection.MakeCall`).
- `efnfw/base/ef_loop_buf.cpp:183-193`: the frame header is not counted in the
  aligned size, so up to a header's worth of bytes is lost
  (`LoopBuf.StorableIsEnough`).
- `efnfw/base/ef_loop_buf.cpp:119-139`: reading more than there is never ends if
  there is a second frame (`LoopBuf.OverreadNeverEnds`).
- `efnfw/base/rijndael-api-fst.cpp:343-346`: padded ECB cannot read back messages
  of whole blocks (`Rijndael.PadThereAndBack`).
- `efnfw/base/ef_md5.cpp:254`: the wipe of the context takes the size of a pointer
  and leaves the last block (`Md5.Context.Final`).
- `efnfw/net/ef_timer.cpp:16-24`: a negative delay can put timers out of order
  (`Timers.NegativeDelayMisorders`, exactly when: `Timers.OrderedExactly`).
- `common/src/ef_crypt.cpp:88-93`: a map whose keys or values hold separators does
  not come back from a token (`Token.EqualsInKeyIsLost`, exactly when:
  `Token.MapComesBackExactly`).
- `clientsdk/json/json_reader.cpp:712-724`: any escape is taken for the second half
  of a surrogate pair (`JsonRoundTrip.SurrogatesJoin`).
- `clientsdk/json/json_reader.cpp:566-567`: any token but the closing bracket
  separates two elements of an array (exactly what is accepted:
  `JsonGrammar.AcceptsExactly`).
- `connect_server/src/client_conn.cpp:253-258`: a negative connection id above
  minus a million passes for one of loop 0 (`Session.LookedExactly`).

## Model

| member | source | states |
|---|---|---|
| JsonRoundTrip.ParsesTree | clientsdk/json/json_reader.cpp:150-242 | every well-formed tree without doubles, printed with any white space between its tokens, parses to that tree with each integer re-read; a strict root turns down exactly the scalars other than null; success is the absence of errors |
| JsonRoundTrip.ReadsTree | clientsdk/json/json_reader.cpp:194-242 | at any point of a document the spelled tree is read whole, whatever tokens follow it are left untouched |
| JsonRoundTrip.ReadsScalar | clientsdk/json/json_reader.cpp:194-242 | null, booleans, numbers and strings are read back and nothing after them is consumed |
| JsonRoundTrip.ReadsArray | clientsdk/json/json_reader.cpp:538-578 | a spelled array of any length reads back element by element |
| JsonRoundTrip.ReadsElements | clientsdk/json/json_reader.cpp:554-576 | the loop of readArray reads the remaining elements in order on top of those it has |
| JsonRoundTrip.ReadsObject | clientsdk/json/json_reader.cpp:479-535 | a spelled object reads back with its names, in their order |
| JsonRoundTrip.ReadsMembers | clientsdk/json/json_reader.cpp:485-534 | the loop of readObject reads the remaining members in order on top of those it has |
| JsonRoundTrip.RereadIsIdentity | clientsdk/json/json_reader.cpp:597-614 | a tree comes back unchanged if and only if its integers are in -2147483639..4294967289 and those up to maxInt were tagged Int |
| JsonRoundTrip.IntegerRoundTrip | clientsdk/json/json_reader.cpp:581-616 | the printed integer decodes to an Int up to maxInt, to a UInt up to 4294967289, and to a double outside the range the digit loop keeps |
| JsonRoundTrip.StringRoundTrip | clientsdk/json/json_reader.cpp:657-701 | decoding undoes escaping for every NUL-free string, control characters included |
| JsonRoundTrip.EscapeScans | clientsdk/json/json_reader.cpp:463-476 | no character of an escaped string ends the string token early, and the closing quote does |
| JsonRoundTrip.ControlDecodes | clientsdk/json/json_writer.cpp:157-163 | the four-digit escape of a control character decodes to that character |
| JsonRoundTrip.ReadNumber | clientsdk/json/json_reader.cpp:451-460 | a printed integer is one number token if a non-number character or the end follows |
| JsonRoundTrip.ReadQuoted | clientsdk/json/json_reader.cpp:463-476 | a quoted string is one string token, with its quotes |
| JsonRoundTrip.ReadPunctuation | clientsdk/json/json_reader.cpp:273-345 | each punctuation character is a token of its own |
| JsonParser.VerdictIsNoErrors | clientsdk/json/json_reader.cpp:194-242 | reading a value returns true exactly when it added no error, and otherwise adds exactly one, through all recovery |
| JsonParser.ParsedIsWellFormed | clientsdk/json/json_reader.cpp:194-242 | whatever the text, the value left behind is well formed: integers in their type, C strings, members in strcmp order and distinct |
| JsonRoundTrip.ParsedSurvives | clientsdk/json/json_reader.cpp:194-242 | whatever the text, the integers of the value left behind are ones that printing and parsing keep |
| JsonParser.MembersStayWellFormed | clientsdk/json/json_reader.cpp:479-535 | the same inside readObject, for every text |
| JsonParser.ElementsStayWellFormed | clientsdk/json/json_reader.cpp:538-578 | the same inside readArray, where any token but the closing bracket separates two elements |
| JsonParser.ReadValue | clientsdk/json/json_reader.cpp:194-242 | a value that is read consumes input, so the mutual recursion ends on every text |
| JsonParser.ReadMembers | clientsdk/json/json_reader.cpp:479-535 | readObject never moves backwards and ends on every text |
| JsonParser.ReadElements | clientsdk/json/json_reader.cpp:538-578 | readArray never moves backwards and ends on every text |
| JsonLexer.ReadToken | clientsdk/json/json_reader.cpp:273-345 | each token consumes input or the stream is over; a string token has both quotes |
| JsonLexer.SkipComments | clientsdk/json/json_reader.cpp:245-260 | the first token that is no comment, always nearer to the end |
| JsonLexer.RecoverStops | clientsdk/json/json_reader.cpp:773-787 | recovery drops tokens up to and including the first of the wanted kind, or to the end of the stream |
| JsonRoundTrip.SurrogatesJoin | clientsdk/json/json_reader.cpp:703-731 | a first half and any escape after it, in digits of either case, make one code point from their low ten bits each; the second half is not tested |
| JsonRoundTrip.SurrogatePairComesBack | clientsdk/json/json_reader.cpp:703-731 | every code point from 0x10000 to 0x10FFFF comes back from its surrogate pair, in digits of either case |
| JsonRoundTrip.FourDigitsDecode | clientsdk/json/json_reader.cpp:733-757 | four characters decode to their number if all are hexadecimal digits of either case, and are refused otherwise |
| JsonDecoder.DecodeEscapeSequence | clientsdk/json/json_reader.cpp:733-757 | four hexadecimal digits make a number up to 0xFFFF, or an error |
| JsonReader.Reader.Parse | clientsdk/json/json_reader.cpp:150-190 | the imperative reader returns the verdict, the value and the errors of the specification, and the node stack ends with the root alone; null passes for an array and an object |
| JsonReader.Reader.ReadValue | clientsdk/json/json_reader.cpp:194-242 | the value on top of the stack becomes the value read, everything below it and the depth stay |
| JsonReader.Reader.ReadObject | clientsdk/json/json_reader.cpp:479-535 | the object on top of the stack is the one the specification reads, errors in order |
| JsonReader.Reader.ReadMember | clientsdk/json/json_reader.cpp:485-534 | one round of the loop: the end, an error with recovery, or one more member |
| JsonReader.Reader.ReadArray | clientsdk/json/json_reader.cpp:538-578 | the array on top of the stack is the one the specification reads |
| JsonReader.Reader.ReadArrayElements | clientsdk/json/json_reader.cpp:554-576 | the loop of readArray gives the array and the errors of the recursive specification |
| JsonReader.Reader.ReadToken | clientsdk/json/json_reader.cpp:273-345 | the token and the cursor of the specification |
| JsonReader.Reader.SkipSpaces | clientsdk/json/json_reader.cpp:348-358 | the cursor stops at the first character that is no white space |
| JsonReader.Reader.Match | clientsdk/json/json_reader.cpp:361-375 | on a mismatch nothing is consumed |
| JsonReader.Reader.ReadComment | clientsdk/json/json_reader.cpp:377-400 | both comment styles, and failure on anything else |
| JsonReader.Reader.ReadCStyleComment | clientsdk/json/json_reader.cpp:425-436 | up to the closing mark, or to the end and failure |
| JsonReader.Reader.ReadString | clientsdk/json/json_reader.cpp:463-476 | up to the closing quote, stepping over escaped characters |
| JsonReader.Reader.ReadNumber | clientsdk/json/json_reader.cpp:451-460 | takes exactly the characters a number token may hold |
| JsonReader.Reader.SkipCommentTokens | clientsdk/json/json_reader.cpp:245-260 | skips comments only if the features allow them |
| JsonReader.Reader.RecoverFromError | clientsdk/json/json_reader.cpp:773-787 | skips to the token, drops the errors made meanwhile, returns false |
| JsonReader.Reader.AddErrorAndRecover | clientsdk/json/json_reader.cpp:790-797 | keeps the one error it was called for |
| JsonReader.Reader.DecodeNumberToken | clientsdk/json/json_reader.cpp:581-616 | the number replaces the value on top of the stack, or one error is added and the stack stays |
| JsonReader.Reader.DecodeStringToken | clientsdk/json/json_reader.cpp:657-701 | decodes between the quotes and never looks at or past the closing one |
| JsonReader.Reader.DecodeUnicodeCodePoint | clientsdk/json/json_reader.cpp:703-731 | reads one or two escape sequences inside the given bounds |
| JsonReader.Reader.DecodeUnicodeEscapeSequence | clientsdk/json/json_reader.cpp:733-757 | reads four digits inside the given bounds |
| JsonValue.PutIsMapUpdate | clientsdk/json/json_value.cpp:1021-1044 | storing under a name changes that name alone and keeps the map in order |
| JsonValue.LessTotal | clientsdk/json/json_value.cpp:217-223 | any two different names are ordered by strcmp |
| JsonValue.LessTransitive | clientsdk/json/json_value.cpp:217-223 | the order of names is transitive |
| JsonValue.LessAsymmetric | clientsdk/json/json_value.cpp:217-223 | the order of names is asymmetric |
| JsonWriter.FastTextSpellsTokens | clientsdk/json/json_writer.cpp:207-263 | the compact text is the tokens of the tree in order, and nothing else without the YAML option |
| JsonWriter.FastWriter.Write | clientsdk/json/json_writer.cpp:197-205 | the writer appends exactly the compact text and a line feed |
| JsonWriter.FastWriter.WriteValue | clientsdk/json/json_writer.cpp:207-263 | appends the compact text of the value to the document |
| JsonWriter.FastWriter.WriteArray | clientsdk/json/json_writer.cpp:233-244 | brackets, commas and every element, in order |
| JsonWriter.FastWriter.WriteObject | clientsdk/json/json_writer.cpp:245-261 | braces, quoted names, colons and every member, in order |
| JsonWriter.UintToString | clientsdk/json/json_writer.cpp:29-40 | the digits end up at the end of a 32-byte buffer and always fit |
| JsonWriter.ValueToString | clientsdk/json/json_writer.cpp:42-64 | the decimal text of every Int, minInt included, and of every UInt |
| JsonWriter.ValueToQuotedString | clientsdk/json/json_writer.cpp:111-173 | the quoted, escaped string, with or without the shortcut for plain strings |
| JsonWriter.PlainEscapesToItself | clientsdk/json/json_writer.cpp:117-118 | a string without special characters needs no escaping |
| JsonStyledWriter.StyledWriter.Write | clientsdk/json/json_writer.cpp:276-288 | the text is that of the layout and a line feed, and its tokens are those of the tree |
| JsonStyledWriter.StyledSpells | clientsdk/json/json_writer.cpp:290-458 | wherever the layout breaks lines, what it adds spells the tokens of the value and nothing else |
| JsonStyledWriter.OneLineFits | clientsdk/json/json_writer.cpp:404-433 | the length that decides the layout is that of the line, and an array is put on one line only if that is below the margin |
| JsonStyledWriter.StyledWriter.WriteValue | clientsdk/json/json_writer.cpp:290-349 | the document goes on as the layout says, or the one-line text is collected; the indentation is restored |
| JsonStyledWriter.StyledWriter.WriteArrayValue | clientsdk/json/json_writer.cpp:351-402 | empty, on one line, or between brackets on lines of their own, as the layout says |
| JsonStyledWriter.StyledWriter.IsMultineArray | clientsdk/json/json_writer.cpp:404-433 | multi-line exactly when there are 25 elements or more, a non-empty nested one, or a long line; the collected texts are those of the elements |
| JsonStyledWriter.StyledWriter.WriteElementsOnLines | clientsdk/json/json_writer.cpp:357-385 | each element on a line of its own at the deeper indent, commas behind all but the last |
| JsonStyledWriter.StyledWriter.WriteElementsOnOneLine | clientsdk/json/json_writer.cpp:386-400 | all elements on the same line with a comma and a blank between them |
| JsonStyledWriter.StyledWriter.WriteMembers | clientsdk/json/json_writer.cpp:322-347 | each name on a line of its own, its value behind it |
| JsonStyledWriter.StyledWriter.PushValue | clientsdk/json/json_writer.cpp:435-443 | collects the text or appends it |
| JsonStyledWriter.StyledWriter.WriteIndent | clientsdk/json/json_writer.cpp:445-458 | a new line at the indent, no second line feed, and nothing after a blank |
| JsonStyledWriter.StyledWriter.Unindent | clientsdk/json/json_writer.cpp:475-480 | undoes one indent |
| JsonEndToEnd.FastRoundTrip | clientsdk/json/json_writer.cpp:197-263 | printing compactly and parsing gives back the tree, unchanged exactly when its integers survive; under a strict root it succeeds exactly for arrays, objects and null |
| JsonEndToEnd.StyledRoundTrip | clientsdk/json/json_writer.cpp:276-480 | printing with style and parsing gives back the same as the compact text does, with the same verdict |
| JsonEndToEnd.ParsePrintParse | clientsdk/json/json_reader.cpp:150-242 | any text at all, parsed, printed by either writer and parsed again: the same tree, if it holds no doubles |
| JsonEndToEnd.ParseAnything | clientsdk/json/json_reader.cpp:150-190 | any text at all: parsing ends, success is no errors, and the value is well formed |
| LoopBuf.LoopBuf.Write | efnfw/base/ef_loop_buf.cpp:79-94 | appends exactly what fits in the frames ahead; a full write frame takes nothing even if drained frames were moved behind it |
| LoopBuf.LoopBuf.WriteStep | efnfw/base/ef_loop_buf.cpp:82-91 | one round stores at least a byte and keeps the chain, the order and the room ahead |
| LoopBuf.LoopBuf.Read | efnfw/base/ef_loop_buf.cpp:119-139 | takes the first bytes of the queue, for len up to the size, or any len with a single frame; frames keep their pieces as the value-level reading says |
| LoopBuf.LoopBuf.ReadRound | efnfw/base/ef_loop_buf.cpp:123-136 | one round takes from the head frame and moves it to the tail when drained |
| LoopBuf.LoopBuf.Rotate | efnfw/base/ef_loop_buf.cpp:127-134 | moving the head behind the tail keeps the chain acyclic, unshared and in order |
| LoopBuf.RoundTakesFront | efnfw/base/ef_loop_buf.cpp:123-136 | each round takes the front bytes and either ends the read or moves on from a frame before the write frame |
| LoopBuf.Drain | efnfw/base/ef_loop_buf.cpp:119-139 | a read of at most the size ends, visits no frame twice, and leaves exactly the rest |
| LoopBuf.OverreadNeverEnds | efnfw/base/ef_loop_buf.cpp:119-139 | asking for more than the size with a spare frame still wants bytes after every number of rounds |
| LoopBuf.LoopBuf.Peek | efnfw/base/ef_loop_buf.cpp:105-117 | the first bytes, without changing the buffer |
| LoopBuf.LoopBuf.Find | efnfw/base/ef_loop_buf.cpp:141-162 | the first index of a byte in the queue, or -1 exactly when it is not there |
| LoopBuf.LoopBuf.Extend | efnfw/base/ef_loop_buf.cpp:195-202 | adds an empty frame of the aligned size; contents stay; a full write frame is left |
| LoopBuf.LoopBuf.AutoResizeWrite | efnfw/base/ef_loop_buf.cpp:96-103 | claims to store all bytes, stores the first Storable of them; the pieces before the write frame stay and that one takes what fits it |
| LoopBuf.StorableIsEnough | efnfw/base/ef_loop_buf.cpp:183-193 | nothing is lost exactly when the remainder mod 2048 leaves room for the frame header; the loss is always less than the header |
| LoopBuf.SafeMessagesFit | efnfw/base/ef_loop_buf.cpp:183-193 | up to 2016 bytes are always stored whole |
| LoopBuf.PointersFit | efnfw/base/ef_loop_buf.cpp:96-103 | eight bytes are always stored whole |
| LoopBuf.LoopBuf.Clear | efnfw/base/ef_loop_buf.cpp:204-211 | drops everything and says how much |
| LoopBuf.LoopBuf.FirstFrame | efnfw/base/ef_loop_buf.cpp:59-67 | the bytes of the head frame are a prefix of the queue, possibly empty |
| LoopBuf.LoopBuf.FreeFrameLen | efnfw/base/ef_loop_buf.cpp:69-77 | the room of the write frame, 0 exactly when it is full |
| LoopBuf.LoopBuf.Receive | efnfw/base/ef_loop_buf.cpp:79-94 | write with no source accounts for bytes that were put into the free frame |
| LoopBuf.Frame.Read | efnfw/base/ef_loop_buf.cpp:22-32 | takes the first bytes of a frame |
| LoopBuf.Frame.Write | efnfw/base/ef_loop_buf.cpp:34-50 | appends what fits to a frame |
| LoopBuf.Frame.Peek | efnfw/base/ef_loop_buf.cpp:7-20 | looks at the first bytes of a frame |
| RingBuffer.RingBuffer.Read | clientsdk/client/ef_loop_buf.cpp:35-58 | takes the first bytes of the queue across the end of the array, also when start equals capacity |
| RingBuffer.RingBuffer.Write | clientsdk/client/ef_loop_buf.cpp:72-90 | appends what fits, in one or two pieces |
| RingBuffer.RingBuffer.Peek | clientsdk/client/ef_loop_buf.cpp:116-130 | the first bytes, unchanged buffer |
| RingBuffer.RingBuffer.Resize | clientsdk/client/ef_loop_buf.cpp:21-33 | keeps the first bytes that fit the new array |
| RingBuffer.RingBuffer.Grow | clientsdk/client/ef_loop_buf.cpp:21-33 | growing keeps everything |
| RingBuffer.RingBuffer.AutoResizeWrite | clientsdk/client/ef_loop_buf.cpp:108-114 | always stores all the bytes |
| RingBuffer.RingBuffer.NextPartLen | clientsdk/client/ef_loop_buf.cpp:92-106 | contiguous room that really is free, 0 exactly when the ring is full |
| RingBuffer.RingBuffer.Receive | clientsdk/client/ef_loop_buf.cpp:72-90 | write with no source accounts for bytes put into the next part |
| RingBuffer.StoredAfterWindow | clientsdk/client/ef_loop_buf.cpp:72-90 | bytes stored at the stop position continue the window of the queue |
| RingBuffer.RingBuffer.Clear | clientsdk/client/ef_loop_buf.cpp:132-138 | empties the ring and says how much it dropped |
| Fifo.RunRing | clientsdk/client/ef_loop_buf.cpp:21-138 | any sequence of operations on the ring, of any starting capacity, answers as one queue of bytes |
| Fifo.RunChain | efnfw/base/ef_loop_buf.cpp:79-211 | any sequence of writes, reads, looks, finds, extensions and clears on the chain answers as the same queue; of each message it stores what is storable, of a plain write what fits ahead |
| Fifo.NothingIsLost | efnfw/base/ef_loop_buf.cpp:79-139 | what was taken and then what is queued is what was put, in order |
| Framing.ChunkingIsIrrelevant | efnfw/net/ef_connection.cpp:83-170 | the packets handed on, the end of the stream and what is left over depend on the bytes alone, not on how they are cut into chunks |
| Framing.FeedTwice | efnfw/net/ef_connection.cpp:119-149 | feeding two chunks is feeding their concatenation |
| Framing.ExtractAppend | efnfw/net/ef_connection.cpp:119-149 | extracting from a longer stream goes on from what was left |
| Framing.CheckLen | connect_server/src/common.cpp:11-27 | a length is only given when it covers the head and is buffered whole |
| Framing.CheckLenAppend | connect_server/src/common.cpp:11-27 | a verdict on a stream does not change when more bytes arrive |
| Framing.PacketFields | connect_server/src/common.cpp:30-40 | a constructed packet says its own length and parses back to command, magic and body |
| Framing.ConstructedPacketsComeOut | connect_server/src/common.cpp:11-40 | a stream of constructed packets yields exactly those, in order, and leaves the proper beginning of the next |
| Framing.PacketsParse | connect_server/src/common.cpp:30-40 | each packet that comes out parses to the message it was made of |
| Framing.ConstructPacket | connect_server/src/common.cpp:30-40 | twelve bytes of head and the body |
| Framing.ExtractIsDone | efnfw/net/ef_connection.cpp:119-149 | nothing more comes out of what was left over |
| Framing.BeginningWaits | connect_server/src/common.cpp:11-27 | a proper beginning of a packet waits for more |
| Connection.Receiver.HandleRead | efnfw/net/ef_connection.cpp:83-170 | one read event takes some of the incoming bytes and hands on every whole packet of the stream so far |
| Connection.Receiver.HandOnPackets | efnfw/net/ef_connection.cpp:119-149 | the packet loop over the frame buffer computes the specification of the stream |
| Connection.Receiver.CheckPackLen | connect_server/src/common.cpp:11-27 | peeks the head through the frame buffer without changing it |
| Connection.ReceiveAll | efnfw/net/ef_connection.cpp:83-170 | any number of events over a stream, each with any number of new bytes: the packets handed on are those of the whole byte sequence |
| ClientConnection.Client.ReceiveAll | clientsdk/client/client_conn.cpp:191-217 | takes all the bytes, growing the ring when it is full |
| ClientConnection.Client.HandleRead | clientsdk/client/client_conn.cpp:180-243 | the client hands on the messages of the stream, and ends in an exception exactly when a head gives a length below its own size |
| ClientConnection.Client.TakePacket | clientsdk/client/client_conn.cpp:235-239 | head and body come off the ring as one packet |
| Connection.RunCalls | efnfw/net/ef_connection.cpp:60-281 | over every run of calls, failed ones included, with any partial sends: bytes sent and bytes buffered are exactly the messages of the sends that were not refused, in order, and buffered bytes have write interest, unless a byte was lost or a registration failed; no byte is lost if each message has at most 2016; each refusal is a send that failed, the answers add up to the bytes sent, and a write event at the end empties the buffer if the socket takes all and there is no stall |
| Connection.MakeCall | efnfw/net/ef_connection.cpp:60-281 | a call stalls the connection exactly when it queues bytes in an empty buffer whose write frame is not the first, and no call ends a stall |
| Connection.Sender.SendMessage | efnfw/net/ef_connection.cpp:251-281 | keeps that law; with write interest a message only queues, otherwise one send is tried, the rest queues and write interest is asked for; refused only when that send fails; says exactly when it stalls the connection |
| Connection.Sender.DoSend | efnfw/net/ef_connection.cpp:330-359 | the buffer and the number of sends come to what offering frame after frame comes to, until an error or a frame that is not taken whole; tries nothing exactly when the head frame is empty |
| Connection.Sender.SendsStopShort | efnfw/net/ef_connection.cpp:337-357 | sending stops only at a send that failed, took nothing or left something of its frame |
| Connection.Sender.TriesNeverStall | efnfw/net/ef_connection.cpp:330-359 | sending never comes to an empty head frame with bytes behind it unless it begins there |
| Connection.Sender.TriesSendAll | efnfw/net/ef_connection.cpp:330-359 | a socket that takes all empties the buffer exactly when the head frame is not an empty one with bytes behind it |
| Connection.Sender.SendFirstFrame | efnfw/net/ef_connection.cpp:337-357 | one round offers the whole first frame and drops what was taken |
| Connection.Sender.HandleWrite | efnfw/net/ef_connection.cpp:172-192 | loses nothing; exactly an emptied buffer stops write interest, or reports the end of a safe close; never stalls |
| Connection.Sender.SafeClose | efnfw/net/ef_connection.cpp:60-81 | an empty buffer is recycled at once, otherwise the rest is still sent |
| Connection.Sender.Enqueue | efnfw/base/ef_loop_buf.cpp:96-103 | stores exactly the storable first part, the rest is lost without a sign; says which frames take it |
| Connection.SendCanStall | efnfw/net/ef_connection.cpp:330-359 | a message for two frames that is queued and then sent whole, and one more: from then on every message is taken and none is sent, whatever is called |
| Connection.StallLasts | efnfw/net/ef_connection.cpp:60-359 | whatever is called, a stalled connection takes every message and gives the socket nothing |
| OpQueue.ProcessedInPushOrder | efnfw/net/ef_event_loop.cpp:275-347 | under every interleaving, operators processed and in hand are a prefix of those pushed, the queue holds the rest as whole pointers between writes, and none is NULL |
| OpQueue.MutualExclusion | efnfw/net/ef_event_loop.cpp:275-347 | at most one thread is between take and give of the mutex |
| OpQueue.QueuedMeansWoken | efnfw/net/ef_event_loop.cpp:275-347 | if no compare-exchange falls between the flag reset and the recv, a blocked loop with queued operators has a byte pending or a producer still inside |
| OpQueue.QueuedMeansWokenOrDeaf | efnfw/net/ef_event_loop.cpp:275-347 | in every run the only other case is a flag that is up with no byte behind it |
| OpQueue.DeafExactly | efnfw/net/ef_event_loop.cpp:279-280 | the loop turns deaf exactly at a recv that drains the byte of a flag set again after the reset |
| OpQueue.UndisturbedRunsHear | efnfw/net/ef_event_loop.cpp:279-334 | runs that keep out of the window never turn deaf |
| OpQueue.WakeUpCanBeLost | efnfw/net/ef_event_loop.cpp:279-334 | a concrete run through the window ends with an operator queued, the loop blocked and nothing to wake it |
| OpQueue.StuckStays | efnfw/net/ef_event_loop.cpp:321-347 | once stuck, no step of any producer gets anything processed |
| OpQueue.OtherEventFrees | efnfw/net/ef_event_loop.cpp:275-299 | from a stuck state with the mutex free another event makes the loop process all that is queued and lower the flag |
| OpQueue.PassDrains | efnfw/net/ef_event_loop.cpp:282-297 | a pass left alone processes all that is queued, in order, and blocks |
| OpQueue.WokenLoopDrains | efnfw/net/ef_event_loop.cpp:275-299 | one pending byte is enough for a blocked loop to take up everything and lower the flag |
| OpQueue.StepKeepsStored | efnfw/net/ef_event_loop.cpp:275-347 | every atomic step keeps the bytes of the queue equal to the pointers not yet taken |
| OpQueue.StepKeepsExclusive | efnfw/net/ef_event_loop.cpp:275-347 | every atomic step keeps the mutex with whoever is in its section |
| OpQueue.StepKeepsAnnounced | efnfw/net/ef_event_loop.cpp:321-347 | what arrives after the last look at the queue is announced by the flag or by a producer on its way to it |
| OpQueue.WholeCallPushes | efnfw/net/ef_event_loop.cpp:321-347 | an uninterrupted call appends one pointer, sets the flag and sends a byte exactly if the flag was down |
| OpQueue.PointerRoundTrip | efnfw/net/ef_event_loop.cpp:327-328 | the eight bytes of a pointer read back as that pointer |
| Timers.EveryRunIsExact | efnfw/net/ef_connection.cpp:203-244 | over every sequence of creating, starting, stopping, clearing, destroying and passes with any clock, callbacks and cap: the set holds exactly the started timers in order, each timer belongs to one live connection under its id, and each one fired was the first of the set and less than 1 ms early |
| Timers.ApplyKeepsSound | efnfw/net/ef_connection.cpp:25-58 | each single operation keeps that |
| Timers.PassFiresDue | efnfw/net/ef_event_loop.cpp:349-391 | whatever callbacks do, each timer fired was the minimum of the set at that moment and less than 1 ms early, the set stays exact, and at most cap fire |
| Timers.PassWaits | efnfw/net/ef_event_loop.cpp:349-402 | below the cap the returned wait is 0 exactly when the set is empty and otherwise within 1 ms of the first deadline |
| Timers.NothingDueIsLeft | efnfw/net/ef_event_loop.cpp:360-372 | below the cap, if all deadlines are normal, every timer left is due later than now |
| Timers.CapLeavesTimers | efnfw/net/ef_event_loop.cpp:349-402 | so a cap of one leaves a second timer without a timeout |
| Timers.CapLeavesTimersExactly | efnfw/net/ef_event_loop.cpp:349-402 | for any cap and idle callbacks: the wait is 0, which run takes for no timeout, with timers left exactly when there are more than the cap and all up to the cap are due |
| Timers.DeadlineIsExact | efnfw/net/ef_timer.cpp:16-24 | the deadline is exactly the delay after now, for every delay; its microseconds are normal exactly when the part of a second does not fall below zero |
| Timers.BeforeIsEarlier | efnfw/net/ef_timer.h:29-38 | on normal times the lexicographic order is the order in time |
| Timers.NegativeDelayMisorders | efnfw/net/ef_timer.cpp:16-24 | a concrete negative delay after which the timer that is due first comes second |
| Timers.OrderedExactly | efnfw/net/ef_timer.cpp:16-24 | the new deadline is ordered in time against all normal ones exactly when the part of a second does not fall below zero |
| Timers.DiffMsIsClose | efnfw/base/ef_utility.cpp:47-48 | the difference in milliseconds is off by less than one, either way |
| Timers.InsertedSorts | efnfw/net/ef_event_loop.h:88-125 | inserting keeps the set sorted and adds exactly that timer |
| Timers.ErasedRemoves | efnfw/net/ef_event_loop.h:88-125 | erasing by key removes exactly that timer |
| Timers.StartArms | efnfw/net/ef_connection.cpp:203-227 | exactly that timer is armed with that deadline, all others stay as they are |
| Timers.StopDisarms | efnfw/net/ef_connection.cpp:229-244 | exactly that timer leaves the set |
| Timers.DestroyTakesTimers | efnfw/net/ef_connection.cpp:25-58 | a connection that goes takes all its timers along, and no others |
| Timers.ForwardKeepsNormal | efnfw/net/ef_timer.cpp:16-24 | delays that are not negative keep all deadlines normal |
| Timers.EventLoop.StartTimer | efnfw/net/ef_connection.cpp:203-227 | the steps of startTimer reach that state |
| Timers.EventLoop.StopTimer | efnfw/net/ef_connection.cpp:229-244 | the steps of stopTimer reach that state |
| Timers.EventLoop.ClearTimer | efnfw/net/ef_connection.cpp:25-37 | deleting one by one in any order reaches that state |
| Timers.EventLoop.ProcessTimers | efnfw/net/ef_event_loop.cpp:349-402 | the loop fires, waits and changes the world as the specification of a pass says |
| Timers.EventLoop.Fire | efnfw/net/ef_timer.cpp:31-34 | out of the set and stopped before the callback, which may do anything |
| Timers.EventLoop.SetTimeOutAfter | efnfw/net/ef_timer.cpp:16-24 | the field-by-field computation of the deadline |
| Timers.EventLoop.AddTimer | efnfw/net/ef_event_loop.cpp:526-540 | the walk from the front inserts in order, or not at all if an equivalent timer is there |
| Timers.EventLoop.DelTimer | efnfw/net/ef_event_loop.cpp:542-558 | the walk from the front erases by key |
| Base64.DecodeUndoesEncode | efnfw/base/ef_base64.cpp:8-105 | decoding undoes encoding for every byte string |
| Base64.EncodeIsInjective | efnfw/base/ef_base64.cpp:8-43 | different strings have different encodings |
| Base64.NoAmpersand | efnfw/base/ef_base64.cpp:6-43 | encoded text never holds the separator |
| Base64.Base64Encode | efnfw/base/ef_base64.cpp:8-43 | the loop over the output buffer computes the encoding of RFC 4648 |
| Base64.Base64Decode | efnfw/base/ef_base64.cpp:68-105 | the loop with its early exit and pad count computes the decoding |
| Base64.PadOutlivesGroup | efnfw/base/ef_base64.cpp:84-103 | a pad character in the middle keeps counting for all later groups |
| Base64.OctetsOfSextets | efnfw/base/ef_base64.cpp:26-31 | four numbers of six bits make up three bytes |
| CipherModes.EcbRoundTrip | efnfw/base/rijndael-api-fst.cpp:120-313 | ECB decryption undoes encryption for any block permutation and number of blocks |
| CipherModes.CbcRoundTrip | efnfw/base/rijndael-api-fst.cpp:120-313 | CBC decryption undoes encryption from equal IVs, for any number of blocks |
| CipherModes.CfbRoundTrip | efnfw/base/rijndael-api-fst.cpp:159-173 | 1-bit CFB decryption undoes encryption from equal registers and leaves equal registers |
| CipherModes.ShiftedIsShift | efnfw/base/rijndael-api-fst.cpp:166-169 | the byte-wise shift of the register is a shift by one bit |
| CipherModes.PadComesOff | efnfw/base/rijndael-api-fst.cpp:315-392 | the pad comes off whole; ECB takes it for good exactly when the message was not whole blocks |
| CipherModes.WholeRoundTrip | efnfw/base/rijndael-api-fst.cpp:192-392 | padded messages of whole blocks come back in both modes |
| CipherModes.XorTwice | efnfw/base/rijndael-api-fst.cpp:148-151 | mixing a block in twice takes it out again |
| Rijndael.Cipher.BlockEncrypt | efnfw/base/rijndael-api-fst.cpp:120-180 | the three loops compute the modes, in place or not; CBC leaves the IV alone, CFB moves it; wrong direction or mode is refused; bytes past the result stay |
| Rijndael.Cipher.BlockDecrypt | efnfw/base/rijndael-api-fst.cpp:251-313 | the three loops compute the inverse modes, in place or not; CBC moves the IV; CFB takes keys of either direction |
| Rijndael.Cipher.PadEncrypt | efnfw/base/rijndael-api-fst.cpp:192-249 | the whole padded message, enciphered, in place or not; bytes past the result stay |
| Rijndael.Cipher.PadDecrypt | efnfw/base/rijndael-api-fst.cpp:315-392 | the plain text without its pad, or an error exactly when the pad is not good; bytes past the text stay; in place or not |
| Rijndael.PadThereAndBack | efnfw/base/rijndael-api-fst.cpp:192-392 | CBC gives every padded message back, ECB exactly those that are not whole blocks |
| Rijndael.BlocksThereAndBack | efnfw/base/rijndael-api-fst.cpp:120-313 | whole blocks come back in all three modes when one buffer is enciphered and deciphered in place |
| Rijndael.CfbLoop | efnfw/base/rijndael-api-fst.cpp:159-173 | flipping and shifting bit by bit in bytes is CFB on bits, in either direction, also when the output is the input |
| Rijndael.FlippedBit | efnfw/base/rijndael-api-fst.cpp:165-165 | one bit is flipped and the other seven stay |
| Rijndael.ShiftIn | efnfw/base/rijndael-api-fst.cpp:166-169 | the loop that shifts the register |
| Md5.Context.Update | efnfw/base/ef_md5.cpp:166-209 | after any update the chain is the fold over complete blocks, the rest is buffered and the two words count the bits mod 2^64 |
| Md5.Context.Final | efnfw/base/ef_md5.cpp:215-255 | the digest is that of the padded message; only the first two words of the context are wiped, the rest of the chain, the count and the last block of the message stay |
| Md5.Context.Absorb | efnfw/base/ef_md5.cpp:193-208 | the block loop and the rest after it |
| Md5.Context.Count | efnfw/base/ef_md5.cpp:172-176 | the carry between the two words |
| Md5.CarryAdds | efnfw/base/ef_md5.cpp:172-176 | 32-bit addition with a carry adds mod 2^64 |
| Md5.BufferedBytes | efnfw/base/ef_md5.cpp:178-178 | the low word tells how many bytes are buffered |
| Md5.Md5OfPieces | efnfw/base/ef_md5.cpp:166-255 | however a message is cut into updates, the digest is that of the whole |
| Md5.Md5 | efnfw/base/ef_md5.cpp:258-263 | one call is one update and a final |
| Md5.PaddedIsWhole | efnfw/base/ef_md5.cpp:224-243 | the padded message is whole blocks, one or two more than the message fills |
| Aes.AesRoundTrip | efnfw/base/ef_aes.cpp:12-82 | decryption gives back every text, whole blocks or not, also the empty one |
| Aes.AesEncrypt | efnfw/base/ef_aes.cpp:12-43 | the blocks and the length behind them |
| Aes.AesDecrypt | efnfw/base/ef_aes.cpp:45-82 | the mode by the length, every refusal, and the cut to the length |
| Token.TokenRoundTrip | common/src/ef_crypt.cpp:71-117 | inside the time limit a generated token gives back exactly the map, for any block permutation; outside it is refused |
| Token.TokenComesBackExactly | common/src/ef_crypt.cpp:71-117 | inside the time limit a token gives back its map exactly when no key holds a separator and no value the ampersand |
| Token.TokenCarriesBody | common/src/ef_crypt.cpp:71-117 | whatever the map, a token in time gives back what its joined text splits into |
| Token.BodyReadsBack | common/src/ef_crypt.cpp:88-93 | joining and splitting give back every map whose keys avoid both separators and whose values avoid the ampersand, over any map |
| Token.MapComesBackExactly | common/src/ef_crypt.cpp:88-93 | a map comes back through joining and splitting exactly when no key holds a separator and no value the ampersand |
| Token.AllOfHasEach | common/src/ef_crypt.cpp:88-93 | for distinct keys every entry is there and nothing else of the old map changes |
| Token.EqualsInKeyIsLost | common/src/ef_crypt.cpp:92-93 | a concrete key with an equals sign does not come back |
| Token.TimeReadsBack | common/src/ef_crypt.cpp:79-79 | the decimal text of a time that fits an int reads back as that time |
| Token.Split | common/src/ef_crypt.cpp:35-69 | the pieces are the non-empty stretches between separators |
| Token.FieldsFirst | common/src/ef_crypt.cpp:35-69 | a first piece without separators comes out whole |
| Token.GenerateToken | common/src/ef_crypt.cpp:98-117 | the loop over the map and the two layers of base64 |
| Token.CheckToken | common/src/ef_crypt.cpp:71-96 | each refusal in its order, then the map |
| Token.InnerFields | common/src/ef_crypt.cpp:73-78 | the decoded token has exactly the time and the cipher text as its two pieces |
| Session.SessionFindsLoop | connect_server/src/client_conn.cpp:34-45 | a session id minted at login leads back to the loop, the connection and the name on its own server, and nowhere on others |
| Session.SessionIdReadsBack | connect_server/src/common.cpp:42-71 | server, connection and name come out as they went in |
| Session.SessionIdsAreInjective | connect_server/src/common.cpp:42-71 | session ids are equal exactly when server, connection and name are |
| Session.LoopIsRecovered | connect_server/src/common.h:44-51 | the loop is recovered from the id exactly when the id fits 32 bits |
| Session.LoopsThatFit | connect_server/src/common.h:44-51 | loop indexes up to 2146 always fit, 2147 for some ids, larger ones never |
| Session.CollideExactly | connect_server/src/client_conn.cpp:34-45 | two connections get the same id exactly when their numbers agree modulo a million and modulo the threads |
| Session.NearIdsDiffer | connect_server/src/common.h:44-47 | numbers fewer than a million apart give different ids |
| Session.AllocatedIdsDiffer | efnfw/net/ef_connection.cpp:11-19 | connections fewer than a million allocations apart differ if the counter did not wrap between them |
| Session.CounterInCycle | efnfw/net/ef_connection.cpp:16-18 | the counter goes on at 2 after its largest value |
| Session.Dispatcher.DispatchConnection | connect_server/src/client_conn.cpp:34-45 | the connection is queued on the loop that its new id names |
| Session.ConFromSessid | connect_server/src/client_conn.cpp:241-265 | every refusal in its order, then loop, connection and name |
| Session.DecorationName | connect_server/src/common.cpp:42-55 | twelve characters of base64 and the name |
| Session.IdCounter.Next | efnfw/net/ef_connection.cpp:16-18 | the k-th id of the counter |
| JsonGrammar.AcceptsExactly | clientsdk/json/json_reader.cpp:150-242 | a document is accepted exactly when it begins with tokens of a grammar over token kinds alone, with the leniencies of the reader (any token between two elements, any behind comments after a member, comments where they are skipped), and under a strict root their value is an array, an object or null; the root is then that value |
| JsonGrammar.AcceptedIsValue | clientsdk/json/json_reader.cpp:194-242 | what is read without an error is a value of the grammar, and exactly its tokens are consumed |
| JsonGrammar.ValueIsAccepted | clientsdk/json/json_reader.cpp:194-242 | tokens of the grammar are read without an error, as the value they are, wherever they stand |
| JsonGrammar.AcceptedAreElements | clientsdk/json/json_reader.cpp:538-578 | the same for the elements of an array |
| JsonGrammar.AcceptedAreMembers | clientsdk/json/json_reader.cpp:479-535 | the same for the members of an object |
| JsonGrammar.ElementsAreAccepted | clientsdk/json/json_reader.cpp:538-578 | and back, for elements |
| JsonGrammar.MembersAreAccepted | clientsdk/json/json_reader.cpp:479-535 | and back, for members: a closing brace ends the object at its start and after an empty name only |
| JsonGrammar.ValueIsUnique | clientsdk/json/json_reader.cpp:194-242 | of any text at most one beginning is a value, and it is one value |
| JsonErrors.ErrorsSayTrue | clientsdk/json/json_reader.cpp:194-242 | the error of a refused value stands at a token of the text, and its kind is true of that token: one that starts no value, a number that cannot be decoded, a string that decodes to just that error, no name, no colon, no comma or brace |
| JsonErrors.MembersSayTrue | clientsdk/json/json_reader.cpp:479-535 | the same inside readObject |
| JsonErrors.ElementsSayTrue | clientsdk/json/json_reader.cpp:538-578 | the same inside readArray |
| JsonErrors.NoValueStarts | clientsdk/json/json_reader.cpp:231-232 | a first token that starts no value is refused at that token, and what the root held stays |
| JsonErrors.ParseErrors | clientsdk/json/json_reader.cpp:150-190 | a refused document carries the true error of its value first, or, when only a strict root refuses it, that one alone |
| JsonLexicon.TokenSplits | clientsdk/json/json_reader.cpp:273-345 | a text is white space, the characters of its first token, and the rest |
| JsonLexicon.TokenLooks | clientsdk/json/json_reader.cpp:273-345 | the characters of each kind of token: punctuation, words, numbers, strings with both quotes, comments of both styles |
| JsonLexicon.NumberLooks | clientsdk/json/json_reader.cpp:451-460 | a number token ends before the first character that is not of a number |
| JsonLexicon.StringEnds | clientsdk/json/json_reader.cpp:463-476 | a string token ends at a quote before which every quote is behind a backslash that is not itself escaped |
| JsonLexicon.StringEndsThere | clientsdk/json/json_reader.cpp:463-476 | and at the first such quote |
| JsonLexicon.CommentEnds | clientsdk/json/json_reader.cpp:425-436 | a comment of the one style ends behind its first closing mark; without one there is no token |
| JsonLexicon.LineEnds | clientsdk/json/json_reader.cpp:438-449 | one of the other style ends behind the first end of a line, or with the text |
| JsonLexicon.EscapeDecodes | clientsdk/json/json_reader.cpp:672-680 | each of the eight one-letter escapes, the slash among them, decodes to the character it stands for |
| JsonLexicon.OtherEscapesFail | clientsdk/json/json_reader.cpp:691-692 | there are no others but the one with four digits |
| JsonLexicon.PlainDecodes | clientsdk/json/json_reader.cpp:661-697 | text without quotes and backslashes stands for itself |
| JsonLexicon.Utf8Decodes | clientsdk/json/json_reader.cpp:69-103 | every code point becomes the shortest sequence that decodes to it by section 3 of RFC 3629 |
| JsonLexicon.DigitsAccumulate | clientsdk/json/json_reader.cpp:597-607 | the digit loop yields the number if all but its last digit is below the threshold, and overflows otherwise |
| JsonLexicon.NumberDecodes | clientsdk/json/json_reader.cpp:581-616 | a number with a point, an exponent or an inner sign goes to the scan for doubles, so does one that is too large, and all others are the Int or UInt their digits say |
| JsonValue.CStringCuts | clientsdk/json/json_value.cpp:685-697 | a C string keeps all up to the first NUL |
| JsonWriter.FastTextIsJoined | clientsdk/json/json_writer.cpp:207-263 | the compact text is the tokens of the tree one after the other, to the character, with a blank behind each colon for YAML |
| JsonWriter.EscapeIsShort | clientsdk/json/json_writer.cpp:111-173 | exactly quote, backslash and the control characters but NUL are escaped, seven of them in two characters and the others in six |
| JsonLayout.StyledIsLines | clientsdk/json/json_writer.cpp:276-480 | the styled text is the lines of a layout defined on the tree and its depth alone, one under the other |
| JsonLayout.LinesAreGood | clientsdk/json/json_writer.cpp:315-480 | there is one line feed for each element or member and one for the closing bracket of every multi-line value; each line begins with 3 blanks times a depth not below its own and then a character that is no blank |
| JsonLayout.WriteLines | clientsdk/json/json_writer.cpp:276-480 | of a whole document: the text of the writer is those lines, with as many line feeds as the tree says |
| JsonLayout.MultilineExactly | clientsdk/json/json_writer.cpp:404-433 | an array takes several lines exactly when it holds a non-empty array or object, or its line would reach column 74 |
| Framing.WireFormat | connect_server/src/common.cpp:30-40 | the bytes of a packet: magic as in memory, then 12 more than the length of the body and the command with the most significant byte first, then the body |
| Framing.HeadFields | connect_server/src/common.cpp:16-18 | length and command of any packet are the numbers of those bytes brought into the range of an int32 |
| Framing.CheckLenExactly | connect_server/src/common.cpp:11-27 | a stream is refused exactly when the field says less than 12 or more than the limit, waits exactly while there is less than it says, and otherwise gives a packet of that length |
| Bytes.NetIsBigEndian | connect_server/src/common.cpp:34-36 | htonl puts the most significant byte first |
| OpQueue.NullCallWakes | efnfw/net/ef_event_loop.cpp:321-347 | a call without an operator, whoever holds the mutex, raises the flag and sends a byte exactly if the flag was down, and changes nothing else |
| OpQueue.NeverComesUpShort | efnfw/net/ef_event_loop.cpp:282-297 | in every run the loop finds a whole pointer behind the mutex, although it looks at the size before it takes it |
| Timers.PassLeads | efnfw/net/ef_event_loop.cpp:349-391 | a pass goes from its world to the next by firings one after the other: each takes the first timer, reads the clock once, and goes through every action of its callback |
| Timers.LastActionCounts | efnfw/net/ef_timer.cpp:31-34 | what the last callback of a pass did last is found afterwards: a timer it started is armed with its deadline, one it stopped is not, of a connection it destroyed or cleared no timer is left |
| Timers.ScriptSnoc | efnfw/net/ef_timer.cpp:31-34 | running a callback with one more action is running it and then that action |
| Timers.ClearTakesTimers | efnfw/net/ef_connection.cpp:25-37 | clearing takes exactly the timers of that connection, which stays |
| Timers.CreateAttaches | efnfw/net/ef_connection.cpp:11-23 | a new connection has no timers, an old one keeps its own |
| Base64Laws.LettersAreAlphabet | efnfw/base/ef_base64.cpp:6-6 | the alphabet of section 4 of RFC 4648 |
| Base64Laws.OthersHaveNoValue | efnfw/base/ef_base64.cpp:45-66 | exactly the letters have a value, and it is their own |
| Base64Laws.LetterSaysSixBits | efnfw/base/ef_base64.cpp:8-43 | letter k stands for bits 6k to 6k + 5 of the message followed by zeros; behind the message stand pads |
| Base64Laws.EncodedLength | efnfw/base/ef_base64.cpp:8-43 | four letters for every three bytes begun |
| Base64Laws.BadGroupEnds | efnfw/base/ef_base64.cpp:68-105 | decoding ends at the first group that holds a character without a value, whatever follows; behind a pad in the last two places nothing is looked at |
| Base64Laws.ShortRestIgnored | efnfw/base/ef_base64.cpp:68-105 | up to three characters behind whole groups are not looked at |
| ModeLaws.EcbBlock | efnfw/base/rijndael-api-fst.cpp:137-143 | ECB enciphers every block by itself |
| ModeLaws.CbcBlock | efnfw/base/rijndael-api-fst.cpp:145-157 | CBC mixes each block with the cipher block before it, the first with the IV, and enciphers that |
| ModeLaws.CbcBlockBack | efnfw/base/rijndael-api-fst.cpp:276-289 | and back: the deciphered block, mixed with the cipher block before it |
| ModeLaws.XorAddsBits | efnfw/base/rijndael-api-fst.cpp:148-151 | mixing adds bit by bit without carry |
| ModeLaws.CfbBitOf | efnfw/base/rijndael-api-fst.cpp:159-173 | cipher bit k is plain bit k plus the first bit of the enciphered last 128 bits of IV and cipher text before it |
| ModeLaws.CfbBitBack | efnfw/base/rijndael-api-fst.cpp:291-306 | the same back, with the cipher text that came in |
| ModeLaws.RegisterIsUnique | efnfw/base/rijndael-api-fst.cpp:159-173 | only one block can be the register at any point |
| ModeLaws.PadBytes | efnfw/base/rijndael-api-fst.cpp:214-218 | 1 to 16 bytes up to whole blocks, each of them their number |
| ModeLaws.GoodInCbcExactly | efnfw/base/rijndael-api-fst.cpp:356-384 | in CBC the pad is good exactly of the padded messages |
| ModeLaws.GoodInEcbExactly | efnfw/base/rijndael-api-fst.cpp:335-354 | in ECB a pad of 16 is refused and a last byte of zero is good too |
| Md5.PaddedBytes | efnfw/base/ef_md5.cpp:215-243 | the message, one 1 bit, no more zeros than it takes, and the number of bits mod 2^64, the lowest byte first |
| Md5.InitialBytes | efnfw/base/ef_md5.cpp:63-71 | the initial chain is the bytes of section 3.3 of RFC 1321 |
| Md5.ChainWord | efnfw/base/ef_md5.cpp:252-253 | each word of the chain goes into the digest with its lowest byte first |
| Md5.DigestRuns | efnfw/base/ef_md5.cpp:166-255 | the digest is the end of a run of the transform over the blocks of the padded message, in order, from the initial chain |
| Aes.CipherTextIs | efnfw/base/ef_aes.cpp:12-43 | every block by itself, of the message or the padded one, and the length in four bytes, the lowest first |
| Aes.OutcomeExactly | efnfw/base/ef_aes.cpp:45-82 | of every text: which are read outside their bounds, which are refused with which code, and on which resize throws |
| Aes.PlainIs | efnfw/base/ef_aes.cpp:45-82 | what comes out has the length the last bytes say: the deciphered blocks without their pad, and zeros where they are too short |
| Token.TokenNeedsTwoFields | common/src/ef_crypt.cpp:73-78 | a token of any other number of fields than two is refused, at any time |
| Token.TokenInTime | common/src/ef_crypt.cpp:79-81 | a token is out of time exactly when its time is more than the limit before or after now |
| Token.TokenByCipher | common/src/ef_crypt.cpp:83-95 | in time, it is what its cipher text comes to under the key of its time |
| Token.FieldsSkip | common/src/ef_crypt.cpp:35-69 | separators in front or behind another make no field |
| Token.BareFieldNamesItself | common/src/ef_crypt.cpp:88-93 | a field without the equals sign becomes a name with itself for its value |
| Token.TimeIsDecimal | common/src/ef_crypt.cpp:102-103 | the text of a time is decimal |
| Session.LookedExactly | connect_server/src/client_conn.cpp:241-265 | of every text: refused are those whose prefix does not decode to eight bytes, those of another server, and those whose id is not above minus a million or lies past the last loop |
| Session.FoundIs | connect_server/src/client_conn.cpp:241-265 | what is found is the number in the last four of the eight bytes, the loop that it lies in, and the rest of the text; ids between minus a million and zero lie in loop 0 |
| Session.LoopOfId | connect_server/src/common.h:49-51 | the loop is the whole number of millions in the id, cut toward zero |
| Session.LoopsTakeTurns | connect_server/src/client_conn.cpp:34-45 | the loops of a dispatcher take turns |

## Left out

- JsonReader.Reader.Parse: the place in the document that an error message points at is left out, because messages are for people; the kind, the token and the order of errors are there.
- JsonWriter.ValueToString: the negation of minInt overflows in C++; it is taken to wrap around, as two's complement hardware does.
- JsonParser.ElementsStayWellFormed: elements are appended at the next index; sparse arrays, which only `resize` and a higher index make, are not modelled.
- LoopBuf.LoopBuf.Read: requires the length to be at most the size, or a single frame, because the original does not end otherwise (LoopBuf.OverreadNeverEnds).
- LoopBuf.LoopBuf.Receive: a NULL source is modelled for the bytes of one frame only, as both callers use it.
- RingBuffer.RingBuffer.AutoResizeWrite: sizes are unbounded; doubling beyond 2^31 is not modelled, and likewise for the frame buffer.
- Connection.RunCalls: the receive and the send half of a connection are two classes; what they share is the notification flags, which the receive half does not touch.
- OpQueue.MutualExclusion: a send on the control socket is taken to fail only when bytes are waiting in it; the end of the loop by closing is not modelled.
- Timers.PassFiresDue: callbacks are finite lists of timer and connection operations; other effects of a callback do not reach the timers.
- Md5.Context.Update: for little-endian machines, where the byte reversal does nothing.
- Rijndael.CfbLoop: one loop for both directions, which differ in the bit that goes into the register and in the order of the two updates; buffers are the same or disjoint, not overlapping.
- Aes.AesDecrypt: the key comes as the two functions it selects; MD5 and hexadecimal form of the key are not connected to it. Reading eight bytes where four are stored is modelled as reading the four.
- Token.CheckToken: `atoi` beyond an int is cut to 32 bits as the GNU C library does; times are those that fit an int.
- Session.IdCounter.Next: the increment and the reset of the counter are one step; two threads that increment between them are not modelled.
- Sockets, epoll, threads and the clock are parameters or arbitrary choices.
- AES tables and key schedule and the rounds of MD5: opaque functions.
- JSON doubles, comments attached to values, the `Path` class and the internal map.
- Redis, ZooKeeper, protobuf messages, sessions in the cache, logging, statistics, configuration, start-up, JNI and the demo application.
- Hexadecimal conversion, error strings and plain accessors.
- The magic number of a packet, which nothing tests.
