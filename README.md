# BoostClientServer session core in Dafny

This project models the part of the BoostClientServer server that turns bytes arriving on
a client connection into actions: the per-connection `Session` of
`Source/Server/Session.cpp`.

- **Frame loop** (`Server`, file `session.dfy`). `readHeader` reads a four-byte
  `_dataLen`, resizes `_data` to it, and issues `readBody`; `readBody` fills `_data`,
  hands its text to `handleMessage`, swallows whatever that throws, and issues the next
  `readHeader`; a failed read ends the chain. The asynchronous completions are unrolled into
  the class `Session`, whose fields are the source's `_dataLen` and `_data` plus the bytes the
  socket has still to deliver, the point the loop is at, and the list of outcomes
  `handleMessage` produced. Its methods `ReadHeader`, `ReadBody`, `Step` and `Run` are
  proved against the function `Frames`, which splits a byte stream into its complete frames,
  and `Run` is shown to handle every complete frame exactly once, in order.
- **Dispatch** (`Dispatch`, file `dispatch.dfy`). `handleMessage` over the parsed JSON
  object: the required string fields `type`, `data` and `receiver`, the optional `sender`
  and `filename` with their defaults `"unknown"` and `"unnamed"`, base64 decoding of
  `data`, and the three-way dispatch on `FILE`, `TEXT` and anything else. The exceptions that
  reach `readBody`'s `catch` are the `Err` side of a `Result`.
- **Base64 decoding** (`Base64`, file `base64.dfy`). `base64Decode` and `is_base64` as
  the imperative loop over the two small buffers `char_array_4` and `char_array_3`, proved
  equal to the function `Decode`. The lemmas show what the decoder does on every input: it
  reads exactly the longest prefix of alphabet characters before the first `'='` or foreign
  character, it emits three bytes per complete group and one fewer than the characters of a
  trailing group, each group's bytes are the 24-bit big-endian value of its sextets, and the
  `0xFF` that `find` yields for the zero padding never reaches an emitted byte.
- **A reference encoder** (`Base64Encoding`, file `base64_encoder.dfy`). No base64
  encoder appears in the repository: the client sends raw tagged bytes, not this JSON
  protocol. The standard encoder of section 4 of
  RFC 4648 (with `'='` padding) is written out as the decoder's partner, and
  `DecodeEncode` proves that the decoder inverts it on every byte string.
- **File names** (`Filename`, file `filename.dfy`). `sanitizeFilename`, the loop that
  overwrites each of `\ / : * ? " < > |` with `_`, and the path `processFile` writes to.
- `Bytes` and `Wrappers` hold the fixed-width integers (`unsigned char`, `uint32_t`), the
  byte-to-character conversion of `std::string(v.begin(), v.end())`, and `Option`/`Result`.

`base64Decode` never reports malformed input. It stops silently at the first `'='` or
non-alphabet character and returns what it decoded up to there
(`Base64.PrefixLenIsLongest`, `Base64.DecodeIgnoresRest`).

## Model

| member | source | states |
|---|---|---|
| Bytes.Chars | Source/Server/Session.cpp:38 | the text built from a byte vector has one character per byte, whose code is that byte |
| Bytes.CharsInjective | Source/Server/Session.cpp:80 | two byte vectors giving the same text are equal: the TEXT message loses nothing of the decoded bytes |
| Base64.AlphabetSpelledOut | Source/Server/Session.cpp:129-132 | the table indexed by sextet value is exactly `A`-`Z`, `a`-`z`, `0`-`9`, `+`, `/` |
| Base64.Find | Source/Server/Session.cpp:147 | `std::string::find`: `npos` exactly when the character is absent, otherwise the first index holding it |
| Base64.FindFirst | Source/Server/Session.cpp:147 | `find` returns the index of the first occurrence |
| Base64.IsBase64 | Source/Server/Session.cpp:60 | `is_base64` in the "C" locale: an ASCII letter or digit, `+` or `/`; the body is the model, and `FindIsSextet` and `SextetRange` tie it to the table lookup |
| Base64.Sextet | Source/Server/Session.cpp:147 | the table lookup narrowed to `unsigned char`; the body is the model, and `FindIsSextet` proves it equal to `find` narrowed to `unsigned char` |
| Base64.FindIsSextet | Source/Server/Session.cpp:129-147 | a character passes `is_base64` exactly when `find` locates it in the table, where it is found at its own position; `find` narrowed to `unsigned char` is the character's sextet |
| Base64.SextetRange | Source/Server/Session.cpp:60 | the narrowed lookup is below 64 exactly for the accepted characters |
| Base64.FindAccepted | Source/Server/Session.cpp:140-147 | every character the loop accepts is found in the table, at its sextet value |
| Base64.FindRejected | Source/Server/Session.cpp:162-165 | a character outside the alphabet, such as the `'\0'` padding, is not found, and `npos` narrowed to `unsigned char` is `0xFF` |
| Base64.SextetOfTable | Source/Server/Session.cpp:129-132 | each table character is accepted, is not `'='`, and looks up to its own index |
| Base64.Quartet | Source/Server/Session.cpp:149-151 | the three shift-and-mask expressions stored into `unsigned char`; the body is the model, and `QuartetIsBigEndian` states its meaning on sextets |
| Base64.DecodeGroups | Source/Server/Session.cpp:144-156 | g complete groups yield exactly 3·g bytes |
| Base64.DecodeTail | Source/Server/Session.cpp:159-173 | a trailing group of i characters yields i − 1 bytes, none for a single character |
| Base64.PrefixLen | Source/Server/Session.cpp:140 | the consumed prefix is never longer than the input |
| Base64.PrefixLenIsLongest | Source/Server/Session.cpp:140 | every consumed character is an alphabet character other than `'='`, and the character after the prefix is `'='` or rejected by `is_base64` |
| Base64.PrefixLenUnique | Source/Server/Session.cpp:140 | any length with those two properties is the consumed prefix's |
| Base64.PrefixNarrow | Source/Server/Session.cpp:140-142 | every consumed character fits an `unsigned char` |
| Base64.PrefixLenStep | Source/Server/Session.cpp:140 | a position inside the prefix holds an accepted character |
| Base64.PrefixLenGrow | Source/Server/Session.cpp:140 | the loop guard holding at position n means n is still inside the prefix |
| Base64.PrefixLenStop | Source/Server/Session.cpp:140 | the loop guard failing at position n means n is the end of the prefix |
| Base64.Decode | Source/Server/Session.cpp:127-176 | what `base64Decode` returns; the body is the model, `Base64Decode` is proved equal to it, and `DecodeLength`, `DecodeGroupAt`, `PaddingNeverEmitted`, `DecodeIgnoresRest` and `DecodeEncode` characterise it |
| Base64.DecodeLength | Source/Server/Session.cpp:140-173 | the output has 3·(n/4) bytes plus n%4 − 1 when n%4 > 0, n being the consumed prefix's length |
| Base64.LookupGroup | Source/Server/Session.cpp:146-147 | after the lookup loop each buffer slot holds its character's sextet |
| Base64.CombineGroup | Source/Server/Session.cpp:149-151 | the three output bytes are the shifts and masks of the four sextets |
| Base64.DecodeGroup | Source/Server/Session.cpp:146-151 | lookup followed by combination yields the group's quartet |
| Base64.AppendBytes | Source/Server/Session.cpp:153-154 | the `push_back` loop appends exactly the first count bytes of `char_array_3` |
| Base64.DecodeFullGroup | Source/Server/Session.cpp:144-156 | the fourth accepted character extends the output by the next group's three bytes |
| Base64.DecodeLastGroup | Source/Server/Session.cpp:159-173 | the zero-filled trailing group appends exactly its i − 1 meaningful bytes |
| Base64.StoreChar | Source/Server/Session.cpp:142 | the accepted character goes, as an `unsigned char`, into the next slot of `char_array_4` and the earlier slots keep theirs |
| Base64.TakeChar | Source/Server/Session.cpp:140-157 | one iteration of the loop keeps the buffer, the counters and the output in step with the input consumed so far |
| Base64.Base64Decode | Source/Server/Session.cpp:127-176 | the decoder returns exactly `Decode` of its input |
| Base64.DecodeSplit | Source/Server/Session.cpp:134-176 | the output is the complete groups' bytes followed by the trailing group's |
| Base64.QuartetIsBigEndian | Source/Server/Session.cpp:149-151 | on sextets, the three bytes read as a big-endian number equal the four sextets read as base-64 digits |
| Base64.DecodeGroupsAt | Source/Server/Session.cpp:144-156 | bytes 3k to 3k+3 of the complete groups come from characters 4k to 4k+4 |
| Base64.DecodeGroupAt | Source/Server/Session.cpp:144-156 | each complete group of the consumed prefix decodes to bytes 3k to 3k+3 of the output by the quartet formula |
| Base64.PaddingNeverEmitted | Source/Server/Session.cpp:161-172 | the trailing group's bytes depend only on its real characters, so the `0xFF` of the padding slots never reaches the output |
| Base64.QuartetAtSame | Source/Server/Session.cpp:149-151 | a group's bytes depend only on its four characters |
| Base64.DecodeGroupsLocal | Source/Server/Session.cpp:140-156 | the complete groups' bytes depend only on the characters they cover |
| Base64.DecodeReadsOnlyPrefix | Source/Server/Session.cpp:140 | two inputs with the same consumed prefix decode to the same bytes: nothing after the prefix is read |
| Base64.DecodeIgnoresRest | Source/Server/Session.cpp:140 | whatever follows a `'='` or a foreign character is ignored |
| Base64.PrefixLenAppend | Source/Server/Session.cpp:140 | a block of accepted characters in front of a string lengthens its consumed prefix by its own length |
| Base64.DecodeGroupsCons | Source/Server/Session.cpp:144-156 | a group of four characters in front adds its quartet in front of the complete groups' bytes |
| Base64.DecodeCons | Source/Server/Session.cpp:140-173 | a group of four accepted characters in front adds exactly its three bytes in front of the output |
| Base64.DecodeConsParts | Source/Server/Session.cpp:144-173 | the complete groups and the trailing group of a string shift together behind a group put in front |
| Base64.DecodeTailShift | Source/Server/Session.cpp:159-173 | the trailing group's bytes do not depend on what precedes it |
| Base64Encoding.EncodeAlphabet | Source/Server/Session.cpp:60 | an encoding is made of characters `is_base64` accepts, with `'='` only in its last two positions |
| Base64Encoding.SextetsDecode | Source/Server/Session.cpp:149-151 | the decoder's shifts and masks rebuild the three bytes from the encoder's four sextets |
| Base64Encoding.EncodeGroupSextets | Source/Server/Session.cpp:146-147 | the decoder's lookup of an encoded character gives back the encoder's sextet |
| Base64Encoding.DecodeEncode | Source/Server/Session.cpp:127-176 | decoding the RFC 4648 encoding of any byte string gives that byte string back |
| Base64Encoding.DecodeEncodeFirst | Source/Server/Session.cpp:140-156 | the first group of an encoding decodes to the first three bytes and decoding goes on after it |
| Base64Encoding.DecodeGroupThen | Source/Server/Session.cpp:140-156 | an encoded group in front of any text decodes to its bytes in front of the text's |
| Base64Encoding.EncodeGroupDecodes | Source/Server/Session.cpp:146-151 | the four characters of an encoded group decode to its three bytes |
| Base64Encoding.DecodeEncodeLast | Source/Server/Session.cpp:159-173 | a padded last group of one or two bytes decodes to those bytes |
| Base64Encoding.DecodePadded | Source/Server/Session.cpp:159-173 | the loop stops at the `'='` padding and the trailing group yields exactly the encoded bytes |
| Filename.Sanitize | Source/Server/Session.cpp:114-125 | the sanitised name; the body is the model, `SanitizeFilename` is proved equal to it, and `SanitizePointwise`, `SanitizeClean` and `SanitizeIdempotent` characterise it |
| Filename.SanitizePointwise | Source/Server/Session.cpp:114-125 | the result has the name's length; each reserved character is replaced by `'_'` and every other character is kept in place |
| Filename.SanitizeClean | Source/Server/Session.cpp:118-121 | no reserved character is left in the result |
| Filename.SanitizeIdempotent | Source/Server/Session.cpp:114-125 | sanitising a sanitised name changes nothing |
| Filename.SanitizeKeepsClean | Source/Server/Session.cpp:114-125 | a name without reserved characters is returned unchanged |
| Filename.SanitizeFilename | Source/Server/Session.cpp:114-125 | the in-place loop computes the sanitised name |
| Filename.ReceivedPath | Source/Server/Session.cpp:93 | desktop path, `"\\Received from client "`, sanitised name; the body is the model, and `ReceivedPathStaysInDesktop` characterises it |
| Filename.ReceivedPathStaysInDesktop | Source/Server/Session.cpp:92-93 | the path is the desktop path, a `'\'`, then `"Received from client "` and the name with no further `'\'` or `'/'`: the sender cannot choose the directory |
| Dispatch.Required | Source/Server/Session.cpp:66-68 | `msg[key]` into a `std::string` succeeds exactly on a present string field and fails with missing-field or not-a-string otherwise |
| Dispatch.Optional | Source/Server/Session.cpp:69-70 | `msg.value(key, fallback)` gives the fallback for an absent key, the string of a string field, and fails on any other value |
| Dispatch.HandleMessage | Source/Server/Session.cpp:62-87 | `handleMessage` as a function from the parse result to an effect or an error; the body is the model, and `HandleSucceedsIffWellFormed`, `HandleErrorOrder`, `HandleFile`, `HandleText` and `HandleOther` characterise it |
| Dispatch.HandleSucceedsIffWellFormed | Source/Server/Session.cpp:64-72 | handling returns normally exactly for a JSON object with string type, data and receiver whose sender and filename, when present, are strings; the sender is then the message's or `"unknown"` |
| Dispatch.HandleErrorOrder | Source/Server/Session.cpp:64-70 | failures are reported in the order of the reads: a missing type before anything else, then a missing data; a bad filename means everything else was well-formed |
| Dispatch.HandleFile | Source/Server/Session.cpp:72-93 | a FILE message saves the decoded data under the sanitised file name (or `"unnamed"`) in the desktop directory, from the sender (or `"unknown"`) to the receiver |
| Dispatch.HandleText | Source/Server/Session.cpp:72-82 | a TEXT message shows the decoded bytes as one character per byte, from the sender (or `"unknown"`) to the receiver |
| Dispatch.HandleOther | Source/Server/Session.cpp:83-86 | any other type is neither saved nor shown; only the type is reported |
| Server.LengthOf | Source/Server/Session.cpp:19 | the four header bytes copied into `_dataLen`, read little-endian; the body is the model, and `LengthOfHeaderOf` and `HeaderOfLengthOf` show it is a bijection |
| Server.LengthOfHeaderOf | Source/Server/Session.cpp:19 | a length written as a header is read back unchanged |
| Server.HeaderOfLengthOf | Source/Server/Session.cpp:19 | every four bytes are the header of exactly one length |
| Server.Resize | Source/Server/Session.cpp:24 | `_data.resize(n)`; the body is the model, and `ResizeContents` characterises it |
| Server.ResizeContents | Source/Server/Session.cpp:24 | `resize(n)` leaves exactly n bytes, the old ones first and zeros after |
| Server.Frames | Source/Server/Session.cpp:16-58 | the bodies the frame loop reads from a byte stream, up to the first short header or body; the body is the model, and `FramesOfEncodeFrame` and `FramesOfStream` characterise it |
| Server.FramesOfEncodeFrame | Source/Server/Session.cpp:16-58 | a frame written as header and body is read back as that body, and reading continues right after it |
| Server.FramesOfStream | Source/Server/Session.cpp:16-58 | a stream of frames, followed by the start of an incomplete one, is read as exactly its bodies |
| Server.OutcomesPointwise | Source/Server/Session.cpp:42-49 | there is one outcome per frame, and outcome k is the handling of body k |
| Server.Session.constructor | Source/Server/Session.cpp:12-14 | a new session awaits its first header with an empty buffer and no outcome, and its handler is `handleMessage` of the body's text |
| Server.Session.ReadHeader | Source/Server/Session.cpp:16-28 | with four bytes available the length is taken from them and the buffer is resized to it, leaving the body buffer exactly dataLen bytes long; otherwise the session closes with nothing else changed; either way the outcomes still to come are those of the frames of the input |
| Server.Session.ReadBody | Source/Server/Session.cpp:30-58 | with enough bytes the buffer is filled with the next dataLen bytes, their handling is recorded, success or error alike, and the next header is awaited; otherwise the session closes and nothing is recorded |
| Server.Session.Step | Source/Server/Session.cpp:14-58 | a completion keeps the buffer invariant, never loses or invents an outcome, and after a failed read nothing changes any more |
| Server.Session.Run | Source/Server/Session.cpp:14-58 | the session ends closed, having recorded the handling of every complete frame of its input, once each and in order, and of nothing else |

## Left out

- Asynchronous I/O: `async_read` on the socket is modelled as taking bytes from a sequence fixed in advance. A read error is the sequence running out before the requested count. Errors in the middle of a stream (a reset) and short reads are not modelled separately.
- The completion handlers' `shared_from_this` lifetime, the thread pool, and the accept loop in `Server.cpp` are left out. They are concurrency and object lifetime.
- The JSON text is parsed by nlohmann::json, which is not part of this model. The parser is a parameter of the session (`parse: string -> Option<JsonObject>`). A text that is not a JSON object, including an array or a scalar on which `msg["type"]` throws, is `None`. A field is kept only as "a string" or "something else".
- Dispatch.Required: reading a missing key through `operator[]` on a `const` json object is undefined behaviour in nlohmann::json, not a guaranteed exception. The model treats it as an error that `readBody` catches, so the loop goes on.
- `getDesktopPath` (a Win32 shell query) is a parameter. Its failure paths are left out.
- What `processFile` and `processText` do with the effect is left out: writing with `ofstream`, the "cannot open" branch, and the log lines. `HandleMessage` returns the effect they are handed (`SaveFile` with the path and bytes, `ShowText`, `UnknownType`).
- Server.Session.ReadHeader: in the model every header resizes `_data` successfully. In the source, `_data.resize(_dataLen)` allocates up to 2^32 − 1 bytes chosen by the sender and can throw `std::bad_alloc`, or `std::length_error` where `max_size()` is smaller. That throw happens in the completion handler, outside any `try`, escapes `io_context.run()` on a worker thread, and terminates the whole server. Neither the allocation failure nor the process termination is modelled.
- Server.Session.ReadHeader, Server.Session.ReadBody: when a read fails, the source's `async_read` may already have written the bytes it did receive into `_dataLen` or `_data`, and those bytes are consumed from the socket. The model leaves `dataLen`, `data` and `input` unchanged on a failed read. Nothing reads them afterwards, so no outcome differs.
- spdlog output, including the 200-character JSON preview in `readBody`, is left out.
- Base64.Base64Decode: `int in_len = encoded_string.size()` overflows for inputs of 2^31 characters or more. The model's count is unbounded.
- Base64.IsAlnum: `isalnum` is taken in the default "C" locale, where it accepts exactly ASCII letters and digits.
- Server.LengthOf: `_dataLen` is filled by copying raw bytes into a `uint32_t`. The model reads them little-endian, the byte order of the Windows targets the source builds for.
- `_data` is a `std::vector<char>`. Its bytes are modelled as values 0 to 255, because the signedness of `char` only matters through the byte-to-character conversion, which preserves the bit pattern.
- `handleMessage` decodes `data` before testing `type`. Decoding has no side effect, so an `UnknownType` message simply carries no decoded bytes.
- The client (`Source/Client`) is left out, and so are the server-side client registry, `REGISTER` messages and forwarding to other clients. None of these is part of `Session.cpp`.
