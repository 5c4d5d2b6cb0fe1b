# STOMP frame decoder and read loop, in Dafny

This project models the receiving side of a small STOMP client: the frame
decoder of `src/frame.rs` and the read loop of `read_messages` in
`src/client.rs`.

The decoder is a pure function of the bytes received so far. It returns
either "no complete frame yet" or the first frame together with the number
of leading bytes the frame takes. A frame is:

- a header block;
- the separator `\n\n`;
- a body, delimited by the first `content-length:` header line that parses,
  or otherwise by the first NUL byte;
- one trailing byte.

The read loop works as follows:

- it appends each read to an accumulator;
- it repeatedly takes the first complete frame off the front of the
  accumulator;
- it turns each frame's body into a message, which is empty, decompressed, or
  decoded as lossy UTF-8;
- it hands the message to the callback;
- it stops on an empty read, a failed read, or a callback error.

Files:

- `bytes.dfy`: the `byte` type, first-occurrence search (`Iterator::position`), and flattening.
- `headers.dfy`:
  - `get_content_length`, which covers `str::lines`, `str::trim` over the Unicode
    White_Space characters, and `str::parse::<usize>`;
  - the lemmas that characterise each of them.
- `frame.dfy`:
  - `find_header_end`, the two body parsers, `parse_body` and `parse_stomp_frame`;
  - a declarative description of "`data` starts with frame `f`" (`Delimits`), and
    the proof that the decoder computes exactly it;
  - prefix stability;
  - an encoder the decoder inverts.
- `client.dfy`:
  - the message of a body;
  - the inner `while let` loop (`Drain`), with its declarative
    description (`Drains`) and the proof that its outcome is the only one
    meeting it;
  - the outer `loop` (`ReadLoop`) over a list of read results;
  - the accumulator invariant, callback order, how the loop ends, and chunking
    invariance;
  - `read_messages` itself (`ReadMessages`).
- `scenarios.dfy`: two frames in one read, one delimited by `content-length`
  and one by NUL.
- `overflow.dfy`: `parse_fixed_length_body` with wrapping `usize` arithmetic
  (see Findings).

Two abstractions keep the outer loop's proofs small:

- `ReadLoop` is written over any inner loop (`InnerLoop`), and its lemmas
  assume only what they need of it (`DrainsAlways`, `SplitsAlways`).
- `Drain` is written over any decoder (`Decoder`) with the two properties
  `MakesProgress` and `AppendStable`.

`read_messages` instantiates these with `Drain` and `ParseStompFrame`.
`StompDecoder` and `StompInnerLoop` discharge the assumptions for that
instance.

Where the code differs from a reading of the STOMP frame format, the model
follows the code:

- After a `content-length` body, the trailing byte is taken without checking
  that it is NUL.
- Only `\n\n` separates the header block from the body; `\r\n\r\n` does not.
- Only a line that starts with exactly `content-length:` counts. The match is
  case-sensitive and no space is allowed before the colon. After the colon the
  value is trimmed.
- A line whose value does not parse is passed over, and the search goes on to
  later lines.

## Model

| member | source | states |
|---|---|---|
| Bytes.Position | src/frame.rs:75 | the index found holds the byte and no earlier index does; `None` exactly when the byte does not occur |
| Headers.Lines | src/frame.rs:15 | `lines()` yields at least one line from a non-empty block, and no line it yields holds a line feed: it splits at every one |
| Headers.LinesRoundTrip | src/frame.rs:15 | joining the lines with line feeds gives back any header block that has no carriage return and does not end with a line feed |
| Headers.TrimStartSpec | src/frame.rs:18 | `trim` removes only whitespace characters from the front: what it keeps is a suffix that starts with no whitespace character |
| Headers.TrimEndSpec | src/frame.rs:18 | `trim` removes only whitespace characters from the back: what it keeps is a prefix that ends with no whitespace character |
| Headers.TrimSpec | src/frame.rs:18 | `trim` keeps a slice of its input that neither starts nor ends with whitespace, and removes only whitespace on either side |
| Headers.ParseUsizeAccepts | src/frame.rs:18 | `parse::<usize>` accepts a string with value n exactly when n fits in 64 bits and the string is an optional `+`, any number of zeros, then the shortest numeral of n |
| Headers.FirstValueSpec | src/frame.rs:16-19 | `find_map` returns `None` exactly when no line declares a value; otherwise it returns the value of a line before which no line declares one |
| Headers.ContentLengthFirstMatch | src/frame.rs:13-20 | the body length is the value of the first line starting with `content-length:` whose trimmed rest parses; a line that starts that way but does not parse is skipped; with no such line there is no length |
| Headers.ContentLengthLine | src/frame.rs:17-18 | the line `content-length:N` declares N, for every N that fits in a `usize` |
| Frame.FindSeparator | src/frame.rs:38 | the result is the first index where `\n\n` starts; `None` exactly when `\n\n` does not occur |
| Frame.FindHeaderEnd | src/frame.rs:36-40 | the header length is the first separator index, which may be 0; the body starts two bytes later, within the data |
| Frame.ParseFixedLengthBody | src/frame.rs:50-68 | the result is incomplete exactly when fewer than header end + length + 1 bytes are present; otherwise the body is exactly the `length` bytes after the header end, NUL bytes included, and it takes header end + length + 1 bytes |
| Frame.ParseNullTerminatedBody | src/frame.rs:70-85 | the result is incomplete exactly when no NUL follows the header end; otherwise the body runs up to the first NUL, holds no NUL, and the NUL is taken too |
| Frame.ParseBody | src/frame.rs:42-48 | a declared length fixes the body size even when a NUL comes earlier; without one, the body holds no NUL |
| Frame.ParseStompFrame | src/frame.rs:30-34 | the bytes a frame takes are its wire size: at least 3, and at most what is there |
| Frame.ParseDelimits | src/frame.rs:30-85 | the decoder returns `(n, f)` exactly when `data` starts with the frame `f` of `n` bytes, as `Delimits` describes it |
| Frame.ParseIncomplete | src/frame.rs:30-85 | the decoder returns `None` exactly when one of three holds: no separator; a declared length with fewer than header end + length + 1 bytes; or no length and no NUL after the header end |
| Frame.PrefixStable | src/frame.rs:29-34 | once the decoder has returned a frame, appending bytes does not change what it returns |
| Frame.ParseEncoded | src/frame.rs:25-28 | decoding inverts encoding: an encodable frame on the wire, followed by anything, decodes to that frame and its size |
| Client.Message | src/client.rs:86-97 | an empty body gives `""` without the decompressor being asked; otherwise the message is the decompressed text, or the lossy text when decompression fails |
| Client.StompDecoder | src/client.rs:81-83 | every frame `parse_stomp_frame` returns takes at least one byte, and appending bytes never changes a returned frame |
| Client.ChainSizes | src/client.rs:81-83 | the bytes the frames took add up to their wire sizes, and the accumulator shrinks by exactly that much |
| Client.Drain | src/client.rs:81-100 | the inner loop takes frames off the front of the accumulator in order, hands their messages to the callback in that order, and stops either when the decoder reports incomplete with every message accepted, or when the callback fails on the last frame |
| Client.DrainComplete | src/client.rs:81-100 | the inner loop's outcome is the only one meeting that description |
| Client.DrainAppend | src/client.rs:78-100 | draining `a + b` is draining `a`, then, unless the callback failed, draining what `a` left followed by `b` |
| Client.StompInnerLoop | src/client.rs:81-100 | the inner loop with `parse_stomp_frame` meets both properties the outer loop's proofs rely on |
| Client.ReadLoop | src/client.rs:71-102 | the outer loop makes at most one read per result, at least one when there is a result, and is still waiting only when it has used up every result |
| Client.ReadLoopStops | src/client.rs:71-102 | after an empty read, a failed read or a callback error, no further reads are made |
| Client.ReadLoopResumes | src/client.rs:71-102 | a loop that ran out of reads resumes exactly where it stopped: running on `a + b` equals running on `a`, then on `b`, from the accumulator and callback history `a` left |
| Client.ReadLoopChain | src/client.rs:78-83 | the frames taken, in order, followed by the accumulator left, are the starting accumulator followed by every byte read |
| Client.ReadLoopCallback | src/client.rs:99 | the callback sees the frames' messages in frame order and accepts each; if it fails, it fails on the last frame taken |
| Client.ReadLoopStatus | src/client.rs:72-77 | every read but the last brought data; `Ok(())` exactly when the last read was empty; the read error exactly when the last read failed; a callback error only after a read that brought data; an empty first read leaves everything as it was |
| Client.ReadLoopDrained | src/client.rs:81 | unless the callback failed, no complete frame is left in the accumulator once the first read has brought data, however the loop ended, nor at any ending when the loop started with none |
| Client.ChunkingInvariance | src/client.rs:71-100 | splitting bytes into several non-empty reads gives the same frames, messages and ending as one read of them all |
| Client.ReadMessages | src/client.rs:67-102 | the frames of `read_messages` come, by `parse_stomp_frame` and in order, from the accumulator followed by the bytes read; their sizes account for every byte taken; the accumulator left is a suffix of that input; the callback accepted each message in order, failing only on the last; unless it failed, no complete frame is left once the first read brought data |
| Client.ReadMessagesChunking | src/client.rs:67-102 | `read_messages` passes the callback the same messages and ends the same way however the bytes are split into reads |
| Client.EncodedChain | src/frame.rs:22-34 | encoded frames sent back to back come apart into exactly those frames |
| Client.ReadMessagesEncoded | src/client.rs:81-99 | one read of encoded frames into an empty accumulator delivers exactly those frames and leaves nothing behind, when the callback accepts them |
| Scenarios.HelloWorld | src/client.rs:81-99 | reading `MESSAGE\ncontent-length:5\n\nhello\0MESSAGE\n\nworld\0` in one chunk hands the callback `hello` and then `world`, leaves the accumulator empty, and the loop goes on waiting |
| Overflow.FixedLengthAsWritten | src/frame.rs:56-60 | with wrapping `usize` arithmetic, a frame the parser takes lies within the data |
| Overflow.WrappedLengthPanics | src/frame.rs:56-60 | a declared length of 2^64 - 1 - header end wraps the total to 0, and the slice then panics, where the corrected parser reports incomplete |
| Overflow.NoOverflowAgrees | src/frame.rs:56-60 | when the total does not overflow, the code as written and the corrected parser agree |

## Left out

- Connecting, the CONNECT handshake, SUBSCRIBE and frame sending (src/client.rs:15-62) are left out. They are socket I/O around fixed format strings.
- `println!` logging and `tokio` suspension are left out. A read is the next element of a list of results. Running out of results is the `Waiting` status: the loop is suspended, waiting for data.
- The 4096-byte read buffer is not modelled. A read result may be any byte sequence, since the loop never relies on its size.
- Gzip decompression (`decompress_gzipped_data`, src/frame.rs:89-94) is an abstract function `Env.decompress`. It gives `None` for an `Err`.
- `String::from_utf8_lossy` of a body is an abstract function `Env.lossy`.
- The callback is an abstract function of the messages it was handed before and the new message. This is how the model represents an `FnMut` closure's state.
- Errors (`Box<dyn Error>`) are strings.
- A 64-bit `usize` is assumed for `parse::<usize>`.
- `usize` wrap-around in `header_end + body_length + 1` (src/frame.rs:56) is not part of the decoder the rest of the model uses. It is modelled separately in `overflow.dfy`, as described under Findings.
- Frame headers are kept as the received bytes, not as their lossy UTF-8 decoding; nothing downstream reads the header text. Content-length detection works on those bytes. Lossy decoding maps each ASCII byte to itself and produces no ASCII from other bytes, so the lines, the header name and the digits are the same. `str::trim` is modelled on the UTF-8 encodings of the White_Space characters. Lossy decoding resynchronises at every lead byte, and U+FFFD is not whitespace, so the trimmed value, and whether it parses, come out the same.

## Findings

| source | as written | input that shows it | evidently intended | confidence | as-written member | corrected member |
|---|---|---|---|---|---|---|
| src/frame.rs:56-60 | `header_end + body_length + 1` is computed in `usize`. A release build wraps it around, so the length check can pass and the slice `data[header_end..header_end + body_length]` then panics. A debug build panics at the addition itself. | a frame whose header block is `content-length:18446744073709551578` (header end 37); the declared length 2^64 - 38 makes the total wrap to 0 | report the frame as incomplete, as for any declared length larger than the data (checked addition) | not executed; medium (release-build wrapping assumed) | Overflow.WrappedLengthPanics | Frame.ParseFixedLengthBody |
