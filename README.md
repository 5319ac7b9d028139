# OSC client codec and dispatcher, modelled in Dafny

This project models two parts of the MPR Lab OSC-Ethernet client. The client
is the firmware of a networked musical instrument (an STM32 Nucleo running
mbed). It talks Open Sound Control (OSC) over UDP, and only a subset of OSC:
the type tags `i`, `f` and `s`.

The first part is the wire codec of `OSCClient`:

- `OSC_SIZE`, the 4-byte padding rule for strings;
- `swap_endian`;
- `build_osc_message`, which encodes typed arguments into a 128-byte data array;
- `flatten_osc_message`, which serialises a message into a datagram;
- the parsing half of `receive`;
- the accessors `getInstrumentName`, `getMessageType` and `getIntAtIndex`.

The second part is `osc_dispatch`, the example firmware's handler. It splits
the address with `strtok`, ignores messages meant for other instruments, and
turns "/<instrument>/play" with format ",ii" into a pitch and a velocity.

The modules:

- `OscBytes` (`bytes.dfy`): bytes as `bv8`, words as `bv32`, C strings by their
  content, `OSC_SIZE`, `swap_endian`, and the little-endian `memcpy` of a word.
- `OscMessage` (`message.dfy`):
  - the `OSCMessage` record;
  - the argument list, as a typed `Field` sequence checked against the tags;
  - `build_osc_message`, a method with its tag-walking loop;
  - `flatten_osc_message`, a method over its output buffer;
  - `getIntAtIndex`.
- `OscReceive` (`receive.dfy`): `receive` as a function over
  (`recv`, the 256-byte stack buffer), and as a method with the source's
  `strlen`/`strcpy`/cursor steps proved equal to it. Every path on which the
  C code would read or write outside an array ends in `Undefined(fault)`.
- `OscDispatch` (`dispatch.dfy`):
  - the token list of an address;
  - `strtok(…, "/")` as a `Strtok` object whose `Scan` writes a NUL over the
    delimiter and keeps the hidden cursor;
  - `osc_dispatch`, as a decision function and as a method that calls `Scan`
    twice on the address array.
- `OscScenarios` (`scenarios.dfy`): the firmware's own messages, the
  "/OSCInstrument/play" note and the "/NoticeMe" registration, end to end.

The transport is replaced by inputs. `recv` is what `recvfrom` returned,
and `buffer` is the whole stack buffer, including the stale bytes after the
datagram. The host is taken to be little-endian, as the Cortex-M target is.

In several places the code departs from OSC 1.0 and from what its own
comments suggest. The model follows the code:

- OSC 1.0 sends integers big-endian. `build_osc_message` stores them in host
  (little-endian) order instead. Every reader swaps them, so an integer comes
  back byte-swapped (`BuiltIntReadsSwapped`).
- `build_osc_message`, `receive` and `getIntAtIndex` check no capacity or
  index. The model states the capacities as preconditions of `BuildMessage`
  and `GetIntAtIndex`, and as `Undefined` faults of `receive`.
- `receive` computes `data_size` from the unpadded string lengths, not from
  the cursor (see Findings).
- `getIntAtIndex` reads slot `4*index` whatever the format says.

## Model

| member | source | states |
|---|---|---|
| OscBytes.OscSize | src/osc_client.cpp:12-16 | The padded size is a multiple of four, leaves room for the terminator, and adds fewer than four bytes beyond it. |
| OscBytes.OscSizeUnique | src/osc_client.cpp:12-16 | OSC_SIZE is the only multiple of four with that property. |
| OscBytes.OscSizeExamples | src/osc_client.cpp:12-16 | The sizes of "" and "a" and "abc" are 4; the size of "abcd" is 8. |
| OscBytes.Padded | src/osc_client.cpp:140-150 | A string as flatten lays it out: its content, then zeros up to OSC_SIZE. |
| OscBytes.FindNul | src/osc_client.cpp:210 | strlen from a position: the first NUL at or after it, or none before the end of the buffer. |
| OscBytes.CString | src/osc_client.cpp:210-211 | The string strcpy copies: the bytes before the first NUL, which contain no NUL. |
| OscBytes.SwapEndian | src/osc_client.cpp:18-25 | Byte k of the result is byte 3-k of the argument. The copy at main.cpp:33-40 is the same function. |
| OscBytes.SwapEndianInvolution | src/osc_client.cpp:18-25 | Swapping twice gives back the word. |
| OscBytes.HostBytes | src/osc_client.cpp:91-93 | The four bytes memcpy stores for a word: least significant first. |
| OscBytes.HostWord | src/osc_client.cpp:323 | The word memcpy loads from four bytes: byte k is the k-th byte. |
| OscBytes.HostWordOfHostBytes | src/osc_client.cpp:92 | Loading the bytes a word was stored as gives back the word. |
| OscBytes.SwapOfHostWordIsNetworkWord | src/osc_client.cpp:323-325 | A host load followed by swap_endian reads the four bytes in network order. |
| OscBytes.ZeroFill | src/osc_client.cpp:141-143 | Every byte of the buffer is zero afterwards. |
| OscBytes.CopyInto | src/osc_client.cpp:105 | memcpy: the target range holds the source and every other byte is unchanged. |
| OscMessage.TypeTags | src/osc_client.cpp:88-89 | The characters of the format after format[0] that take an argument, in order. |
| OscMessage.TagStep | src/osc_client.cpp:88-89 | One step of the tag walk: a type tag takes the next argument, which has the matching kind; any other character takes none. |
| OscMessage.FieldBytes | src/osc_client.cpp:90-110 | The bytes one argument is written as have exactly the argument's width. |
| OscMessage.EncodedSize | src/osc_client.cpp:113 | data_size, the arguments' total width, is a multiple of four. |
| OscMessage.EncodeAll | src/osc_client.cpp:88-112 | The arguments' bytes back to back have length EncodedSize. |
| OscMessage.EncodeAllPrefix | src/osc_client.cpp:88-112 | Encoding a prefix of the arguments gives a prefix of the encoding. |
| OscMessage.ArgumentStep | src/osc_client.cpp:88-112 | One more argument adds exactly its own width and bytes. |
| OscMessage.EncodeAllAt | src/osc_client.cpp:92-109 | Argument k starts where the arguments before it end. |
| OscMessage.StringFieldLayout | src/osc_client.cpp:102-110 | A string argument is its characters, then zeros up to OSC_SIZE. |
| OscMessage.IntFieldLayout | src/osc_client.cpp:90-94 | An integer argument is stored in host order, without swapping. |
| OscMessage.PutField | src/osc_client.cpp:89-111 | One case of the switch writes the argument's bytes at offset i. The bytes before i and from i plus the width on keep their old values. |
| OscMessage.BuildMessage | src/osc_client.cpp:74-119 | With conforming arguments that fit, the message has the given address and format, data_size equal to the total width, and the encoded arguments at the front of data. |
| OscMessage.Flattened | src/osc_client.cpp:129-156 | The wire image: padded address, padded format, then the valid data. |
| OscMessage.FlattenedLayout | src/osc_client.cpp:146-153 | Offset and contents of each part of the image; every padding byte is zero. |
| OscMessage.FlattenedBuiltIsAligned | src/osc_client.cpp:130-135 | A message built from arguments flattens to a multiple of four bytes, as the source comment promises. |
| OscMessage.Flatten | src/osc_client.cpp:129-156 | The output has length OSC_SIZE(address)+OSC_SIZE(format)+data_size, is the wire image, and its length is a multiple of four exactly when data_size is. |
| OscMessage.WriteHeader | src/osc_client.cpp:140-150 | After the zero fill and the two strcpy calls, the buffer starts with the padded address and the padded format, and every byte after them is zero. |
| OscMessage.StrcpyPadded | src/osc_client.cpp:147-149 | strcpy into a zeroed buffer leaves the padded string at the cursor and zeros after it. |
| OscMessage.GetIntAtIndex | src/osc_client.cpp:319-326 | The result is the four bytes at 4*index read in network order. |
| OscMessage.BuiltIntReadsSwapped | src/osc_client.cpp:319-326 | Integer k written by build is read back as swap_endian of its value. |
| OscReceive.ParseString | src/osc_client.cpp:210-221 | A string parsed at a cursor is terminated inside the buffer, holds no NUL, fits its array and is the bytes at the cursor. |
| OscReceive.ParseStringOf | src/osc_client.cpp:210-221 | Converse of ParseString: a terminated string that fits its array parses to itself. |
| OscReceive.ParseHeader | src/osc_client.cpp:209-225 | The address lies at the start of the buffer and the format at OSC_SIZE(address); each is terminated and fits its array. |
| OscReceive.ParseHeaderOf | src/osc_client.cpp:209-225 | Converse of ParseHeader: any such pair of strings in the buffer is what parses. |
| OscReceive.ParseHeaderUnterminated | src/osc_client.cpp:210 | strlen runs off the buffer exactly when the buffer holds no NUL. |
| OscReceive.ParseBody | src/osc_client.cpp:207-229 | A message that parses is well formed and keeps the header that parsed. |
| OscReceive.Strlen | src/osc_client.cpp:210 | The loop stops at the first NUL, or at the end of the buffer when there is none. |
| OscReceive.CopyData | src/osc_client.cpp:207-228 | memset followed by memcpy: the copied bytes, then zeros up to 128. |
| OscReceive.Align | src/osc_client.cpp:214-216 | The cursor moves to the next multiple of four, by fewer than four bytes. |
| OscReceive.ReadString | src/osc_client.cpp:210-216 | Equals ParseString; on success the cursor has moved by OSC_SIZE of the string. |
| OscReceive.ReadHeader | src/osc_client.cpp:209-225 | Equals ParseHeader; on success the cursor is OSC_SIZE(address)+OSC_SIZE(format). |
| OscReceive.Receive | src/osc_client.cpp:195-231 | The status is recv. A status of zero or less leaves the message alone; otherwise the result is ParseBody. |
| OscReceive.ParseHeaderFlattened | src/osc_client.cpp:209-225 | The header of a received flattened message is the original address and format. |
| OscReceive.ParseFlattened | src/osc_client.cpp:228-229 | As written, data_size comes out too large by both paddings. The data is the original followed by that many stale bytes. It fails, with DataOverflow only, exactly when that exceeds 128. |
| OscReceive.ParseBodyOverCount | src/osc_client.cpp:228-229 | The same over-count for any buffer holding a parsed header followed by data. |
| OscReceive.ParseBodyExact | src/osc_client.cpp:223-229 | Corrected receive: data_size is taken from the cursor, so the header plus the data is exactly recv bytes, and no path reads past the buffer. |
| OscReceive.ParseExactFlattened | src/osc_client.cpp:223-229 | The corrected receive gives back a flattened message exactly, up to the data bytes that never travel. |
| OscReceive.ExactReceiveFlattensBack | src/osc_client.cpp:209-229 | A datagram with zero padding, received the corrected way, flattens back to the same bytes. |
| OscReceive.HeaderInBuffer | src/osc_client.cpp:214-225 | A parsed header with zero padding is the start of the buffer. |
| OscDispatch.Segments | src/osc_client.cpp:285-299 | The pieces of the address between slashes contain no slash. |
| OscDispatch.NonEmpty | src/osc_client.cpp:285-299 | The non-empty pieces, in order, are drawn from the pieces. |
| OscDispatch.Tokens | src/osc_client.cpp:285-299 | Every token that strtok hands out is non-empty and holds no slash. |
| OscDispatch.LeadingSlashes | src/osc_client.cpp:286 | The delimiters that strtok skips are slashes, and the byte after them is not a slash. |
| OscDispatch.FirstToken | src/osc_client.cpp:286 | The token a call returns: None when only slashes remain. |
| OscDispatch.AfterToken | src/osc_client.cpp:298 | Where the next call continues: after the delimiter that ended the token. |
| OscDispatch.CutAt | src/osc_client.cpp:286 | Where one strtok call writes its NUL: a position holding the '/' that ends the first token, or none. |
| OscDispatch.CutBuffer | src/osc_client.cpp:286 | The array after that call: the same length, and a NUL remains at or after the next cursor. A byte changes only from '/' to NUL. |
| OscDispatch.NextFrom | src/osc_client.cpp:298 | The cursor the next call starts from lies within the array, at or after the current one. |
| OscDispatch.TokensStep | src/osc_client.cpp:285-299 | A call returns None exactly when no token is left. Otherwise it returns the first token and leaves the rest of the list. |
| OscDispatch.PathTokens | main.cpp:48-61 | "/name/command" has the tokens name and command. |
| OscDispatch.OnePartPath | src/osc_client.cpp:369 | "/name" has the single token name. |
| OscDispatch.Strtok.constructor | src/osc_client.cpp:285-287 | The first strtok call's string: the cursor is 0. |
| OscDispatch.Strtok.Scan | src/osc_client.cpp:296-299 | One strtok call returns FirstToken of what remains and leaves AfterToken. It writes exactly one NUL, over the '/' that ends the token, or nothing; the cursor moves just past it. The constructor plus one Scan is getInstrumentName; the next Scan is getMessageType. |
| OscDispatch.StrtokStep | src/osc_client.cpp:286 | strtok on the array from the cursor returns the same token and rest as FirstToken and AfterToken. The array afterwards is CutBuffer and the cursor is NextFrom. |
| OscDispatch.Decide | main.cpp:45-88 | The outcome is Play exactly when the tokens are the instrument's name and "play" and the format is ",ii". The two words are then read in network order. |
| OscDispatch.Dispatch | main.cpp:45-88 | The outcome is Decide of the address. The array has one strtok cut when the message is dropped on the name, and two cuts otherwise. |
| OscDispatch.DispatchCommand | main.cpp:60-83 | The second strtok call, the format check and the word loads give the command outcome, and the array gets the second cut. |
| OscDispatch.DecideSteps | main.cpp:48-83 | Decide is the nested test on the first and second strtok results. The second call is made only when the name matches. |
| OscDispatch.DecideOther | main.cpp:48-52 | A message whose first token is another name goes to that name. |
| OscDispatch.DecidePlay | main.cpp:61-74 | A ",ii" "play" for this instrument plays the two words, loaded in host order and swapped. |
| OscDispatch.PlayReadsLikeGetIntAtIndex | main.cpp:68-74 | The pitch and the velocity are what getIntAtIndex returns at indices 0 and 1. |
| OscScenarios.PlayAddressTokens | main.cpp:96 | "/OSCInstrument/play" has the tokens "OSCInstrument" and "play". |
| OscScenarios.PlayAddressCut | main.cpp:48 | The first call on "/OSCInstrument/play" writes its NUL over the second '/'. |
| OscScenarios.PlayAddressAfterFirstCall | main.cpp:56 | After the first call the address reads "/OSCInstrument", which is what osc_dispatch prints, and the next call starts at "play". |
| OscScenarios.PlayNoteEndToEnd | main.cpp:61-74 | A note built with two ints is played with both words byte-swapped. This holds after flatten and either receive, as written or corrected. |
| OscScenarios.ReceivedIntPair | src/osc_client.cpp:195-231 | A received two-int message keeps its header, and its data starts with the ints' host-order bytes. |
| OscScenarios.ReceivedIntPairExact | src/osc_client.cpp:223-229 | The same for the corrected receive. |
| OscScenarios.InstrumentPlayEndToEnd | main.cpp:96-139 | The firmware's own name and "/OSCInstrument/play" give that note. |
| OscScenarios.NoticeMeIsForAnotherInstrument | main.cpp:48-52 | A "/NoticeMe" reaching the dispatcher is sent to "NoticeMe" and dropped. |
| OscScenarios.NoticeMeOverCount | src/osc_client.cpp:369-376 | The registration message arrives with data_size two too large, followed by two stale bytes. |
| OscScenarios.NoticeMeSample | src/osc_client.cpp:369-376 | For "OSCInstrument" and "10.0.0.5": 44 bytes, 28 of them data. data_size is 30 as written and 28 corrected. |

## Left out

- send, checkForMessage, waitForMessage, messageRecieverFunction, initBuffer, threadStarter, getMessageFromQueue, freeMessage: socket I/O, the RTOS thread, the queue and the memory pool. The model gets the datagram as `(recv, buffer)`.
- connect: its socket set-up, sendto, bind and recvfrom are I/O. The message it builds and flattens is modelled in `NoticeMeOverCount` and `NoticeMeSample`.
- get_controller_ip, the UDPBroadcastSocket class, main's loop, the LEDs and the printf calls: hardware and I/O.
- getFloatAtIndex: it passes a float to swap_endian, which converts the value to an integer. Floating point is not modelled. Float arguments of build are modelled as their 32-bit pattern.
- getStringAtIndex: its body is a TODO that returns NULL.
- getMessageFormat: it returns the format field, which is `Message.format` here.
- malloc and free: the model returns values, so the allocation and its failure are not modelled.
- Variadic arguments: replaced by a `Field` sequence that conforms to the tags. Too few arguments or arguments of the wrong kind are undefined in C. `Conforms` also excludes surplus arguments, although C would ignore them, because it asks for exactly one argument per tag.
- GetIntAtIndex: requires the index to lie inside the data array; the source checks no index and would read past the array.
- BuildMessage: the data bytes past data_size are left unspecified, because malloc does not clear them. The source does not check the 64/16/128 capacities, so the model requires them.
- Receive: a `recv` larger than the buffer cannot come from recvfrom and is excluded. Faults are reported as `Undefined` rather than modelled as whatever memory corruption the C code would cause.
- Dispatch: strtok's hidden static cursor is modelled as an explicit `Strtok` object over one buffer. In C that cursor is shared by every strtok call in the program, so a strtok on another string between getInstrumentName and getMessageType would redirect the second call; a per-buffer object cannot show that. strcmp on a NULL token is undefined in C and is modelled as the NoInstrument or NoCommand outcome.
- Decide: compares the instrument name as a whole sequence. strcmp would stop at a NUL inside it; the name is the content of a C string, so it has none.
- Byte order: the host is taken to be little-endian. On a big-endian host, build would store integers in network order and the swapping readers would return swapped values.

## Findings

| source | as written | input that shows it | evidently intended | confidence | as-written member | corrected member |
|---|---|---|---|---|---|---|
| src/osc_client.cpp:228-229 | data_size = recv - (strlen(address)+1) - (strlen(format)+1), which leaves out the padding after each string | "/NoticeMe" with ",ss", "OSCInstrument", "10.0.0.5": a 44-byte datagram with 28 data bytes is received with data_size 30 | data_size = recv - (OSC_SIZE(address) + OSC_SIZE(format)), the bytes after the cursor | not executed | OscScenarios.NoticeMeSample | OscReceive.ParseExactFlattened |
