# A toy DNS server's message codec, in Dafny

The server listens on UDP, reads a datagram into a 512-byte buffer and
answers every question in it with a placeholder record that copies the
question's name, type and class and carries the four data bytes 1.1.1.1
(ttl 60), whatever the question's type. This project
models what happens between the receive and the send:

- the 12-byte header codec (section 4.1.1 of RFC 1035: id, the two flags
  bytes `qr|opcode|aa|tc|rd` and `ra|z|rcode`, four big-endian counts);
- the question codec, which takes as the name the raw bytes up to and
  including the first zero byte, then a big-endian type and class;
- the answer record encoder (name, type, class, ttl, length, data);
- the request handling: the question loop with its cursor from offset 12,
  one placeholder answer per question (ttl 60, address 1.1.1.1), the header
  rewrite (`qr` set, both counts 1, rcode 0 or 4), and the concatenation of
  header, question and answer bytes.

Modules, one per file: `Errors` (the error enum and a `Result`), `Bytes`
(bytes and 16/32-bit words as bounded integers, big-endian conversion,
flattening), `BitCasts` (a byte seen as eight bits), `HeaderCodec`,
`QuestionCodec`, `AnswerCodec`, `Responder`, and `Scenarios` (two concrete
exchanges).

Bytes are integers in `[0, 256)`. The header's `opCode`, `z` and `rcode`
are 8-bit bit vectors, because the Rust code only masks, shifts and or-s
them, compares the op code with 0, and sets rcode to the constants 0 or 4
(src/main.rs:246-250). Each decoder is a function. Where the Rust code builds a buffer or a
list step by step, a method does the same and is proved equal to that
function: `HeaderCodec.Pack`, `QuestionCodec.Parse`, `QuestionCodec.Write`,
`AnswerCodec.Write`, `Responder.ReadQuestions`, `WriteQuestions`,
`WriteAnswers` and `HandleRequest`. `expect` and `unwrap` failures in the
request handling are the `Panic` case of `Responder.Outcome`.

The model follows the code where it differs from the usual DNS behaviour:
- the response's question and answer counts are always 1, whatever the
  number of questions;
- an unsupported operation code gets rcode 4 and still receives answers
  and an answer count of 1 (`Scenarios.InverseQuery`);
- a malformed question stops the process instead of dropping the datagram;
- names are not walked label by label, and compression pointers are not
  followed.

## Model

| member | source | states |
|---|---|---|
| HeaderCodec.Bit | src/main.rs:90-97 | `b as u8`: 1 for true, 0 for false; `FlagsRoundTrip` and `FlagsInverse` are its partners |
| HeaderCodec.FlagBits1 | src/main.rs:90-94 | packs qr, opcode, aa, tc and rd into byte 2, most significant bit first, dropping the op code bits shifted past bit 7; `FlagsInverse` unpacks it for fields within their widths and `Overflow` says what is lost otherwise |
| HeaderCodec.FlagBits2 | src/main.rs:97 | packs ra, z and rcode into byte 3; `FlagsInverse` unpacks it for fields within their widths and `Overflow` says what is lost otherwise |
| HeaderCodec.Flags1 | src/main.rs:90-94 | byte 2 of the encoding as a byte; `DecodedFlags` shows it reproduces the decoded byte |
| HeaderCodec.Flags2 | src/main.rs:97 | byte 3 of the encoding as a byte; `DecodedFlags` shows it reproduces the decoded byte |
| HeaderCodec.Decode | src/main.rs:40-79 | decoding fails, with `InvalidHeader`, exactly when the input is not 12 bytes long; a decoded header has op code < 16, z < 8 and rcode < 16 |
| HeaderCodec.Encode | src/main.rs:82-106 | a header always encodes to exactly 12 bytes |
| HeaderCodec.Pack | src/main.rs:84-105 | filling a zeroed 12-byte buffer field by field yields `Encode` |
| HeaderCodec.WordOffsets | src/main.rs:87-103 | the id and the four counts read back big-endian from bytes 0-1, 4-5, 6-7, 8-9 and 10-11 of the encoding |
| HeaderCodec.FlagsRoundTrip | src/main.rs:47-57 | fields masked out of two flags bytes pack back into the same two bytes |
| HeaderCodec.DecodedFlags | src/main.rs:47-57 | the flags of a decoded header pack back into bytes 2 and 3 of the input |
| HeaderCodec.DecodedWords | src/main.rs:45-62 | the decoded id and counts split back into the bytes they came from |
| HeaderCodec.BytesRoundTrip | src/main.rs:40-105 | every 12-byte input decodes, and re-encoding gives the input back |
| HeaderCodec.FlagsInverse | src/main.rs:90-97 | masking the packed flags bytes returns every field when op code, z and rcode fit their widths |
| HeaderCodec.EncodedFlags | src/main.rs:90-97 | bytes 2 and 3 of the encoding are the packed flag bits |
| HeaderCodec.ValueRoundTrip | src/main.rs:40-105 | decoding an encoded header gives it back if and only if op code < 16, z < 8 and rcode < 16 |
| HeaderCodec.Overflow | src/main.rs:90-97 | for every header, the decoded re-encoding keeps the low four bits of op code and rcode; op code bit 4 lands on qr; z keeps its low three bits or-ed with rcode bits 4-6; z bit 3 and rcode bit 7 land on ra; the id, aa, tc, rd and the four counts are always kept |
| Bytes.HighByte | src/main.rs:87 | the first byte of `to_be_bytes` on a 16-bit word; with `LowByte`, split back by `Word16Inverse` |
| Bytes.LowByte | src/main.rs:87 | the second byte of `to_be_bytes` on a 16-bit word; with `HighByte`, read back by `Be16Inverse` |
| Bytes.Be16 | src/main.rs:100-103 | `to_be_bytes` on a 16-bit word yields two bytes, high byte first; `Be16Inverse` reads the word back |
| Bytes.Word16 | src/main.rs:59-62 | `u16::from_be_bytes` builds a word from a high and a low byte; `Word16Inverse` splits it back |
| Bytes.Be32 | src/main.rs:191 | `to_be_bytes` on a 32-bit word yields four bytes, most significant first; `Be32Inverse` reads the word back |
| Bytes.Word32 | src/main.rs:191 | reads four big-endian bytes as a 32-bit word, the partner of `Be32` in `Be32Inverse` |
| Bytes.FlatMap | src/main.rs:265-268 | `iter().flat_map(Vec::from).collect()`: the encodings one after another; `FlatMapSnoc` shows that appending an item appends its encoding |
| Bytes.TruncateToUint16 | src/main.rs:234 | `as u16` keeps any value below 2^16 unchanged |
| Bytes.Be16Inverse | src/main.rs:45 | reading back the two big-endian bytes of a 16-bit word gives the word |
| Bytes.Word16Inverse | src/main.rs:45 | splitting a word built from two bytes gives the two bytes |
| Bytes.Be32Inverse | src/main.rs:191 | reading back the four big-endian bytes of a 32-bit word gives the word |
| Bytes.FlatMapSnoc | src/main.rs:265-268 | appending an item appends its encoding to the flattened bytes |
| QuestionCodec.FirstZero | src/main.rs:133-137 | the end of the `take_while` lies between its start and the end of the input |
| QuestionCodec.FirstZeroIsFirst | src/main.rs:133-137 | the `take_while` stops at a zero byte or at the end of the input, and passes over no zero byte |
| QuestionCodec.FirstZeroAt | src/main.rs:133-137 | the first zero byte is where the `take_while` stops |
| QuestionCodec.FirstZeroNone | src/main.rs:133-137 | with no zero byte, the `take_while` takes the whole input |
| QuestionCodec.Decode | src/main.rs:120-161 | every failure is `InvalidQuestion`; on success the size is the name length plus 4 and at most the input length |
| QuestionCodec.Decoded | src/main.rs:133-153 | a decoded name is the input prefix up to and including the first zero byte, with no earlier zero and a non-zero first byte; type and class are the big-endian words right after it |
| QuestionCodec.AcceptsExactly | src/main.rs:121-143 | decoding succeeds if and only if the first byte is non-zero, the first byte is less than the input length, and a zero byte has at least four bytes after it |
| QuestionCodec.TruncatedRejected | src/main.rs:129-143 | an encoded question cut short at any length, down to one byte, is rejected with `InvalidQuestion` |
| QuestionCodec.Encode | src/main.rs:164-172 | the encoding has the name's length plus 4 and starts with the name |
| QuestionCodec.EncodedWords | src/main.rs:168-169 | type and class read back big-endian from the four bytes after the name |
| QuestionCodec.Write | src/main.rs:166-171 | growing a buffer from the name by the two words yields `Encode` |
| QuestionCodec.Parse | src/main.rs:120-161 | collecting the name byte by byte, pushing the terminator, then checking lengths yields `Decode` |
| QuestionCodec.RoundTrip | src/main.rs:120-171 | an encoded question with a valid name decodes back to itself, whatever follows it, when its first byte does not overrun the input |
| QuestionCodec.DecodesAt | src/main.rs:120-171 | an input that starts with the encoding of a question with a valid name decodes to that question |
| QuestionCodec.DecodeEncode | src/main.rs:120-171 | re-encoding a decoded question reproduces exactly the bytes it was decoded from |
| AnswerCodec.Encode | src/main.rs:185-196 | an answer encodes to its name's length plus 10 plus its data's length, starting with the name and ending with the data |
| AnswerCodec.EncodedWords | src/main.rs:189-192 | type, class, ttl and length read back big-endian from their places after the name |
| AnswerCodec.Write | src/main.rs:187-195 | growing a buffer from the name by the five fields yields `Encode` |
| Responder.DecodeQuestions | src/main.rs:216-222 | the loop yields exactly `count` questions, or panics on an empty slice or an invalid question |
| Responder.Continue | src/main.rs:219-221 | after one decoded question, the rest of the loop yields the questions still due, or panics for one of the same two reasons |
| Responder.DecodeStep | src/main.rs:219-221 | one turn of the loop decodes a question at the cursor, stays inside the buffer and advances the cursor by the question's size |
| Responder.PrependAssoc | src/main.rs:221 | pushing questions one batch at a time equals pushing them all at once |
| Responder.PrependNothing | src/main.rs:216 | `Prepend([], o) == o`: putting no questions in front of an outcome leaves it unchanged, which lets `ReadQuestions`' invariant start from the empty list |
| Responder.ReadQuestions | src/main.rs:216-222 | the counted loop, with its cursor from 12 and its growing list, returns what `DecodeQuestions` specifies |
| Responder.DecodedQuestionsFit | src/main.rs:216-222 | the decoded questions lie inside the buffer, one after another; each name is valid and each size is the name length plus 4 |
| Responder.Readable | src/main.rs:129-131 | each of the listed questions has a valid name, the size of its encoding, and a first byte below the bytes left at its own offset |
| Responder.DecodedReadable | src/main.rs:216-222 | every list of questions the loop decodes is `Readable` from the cursor; `Covered` uses it to show that `EndToEnd` covers every request the loop accepts |
| Responder.EchoStep | src/main.rs:265-266 | questions encoded one after another in the buffer flatten into exactly the bytes they cover |
| Responder.EchoesQuestionSection | src/main.rs:216-266 | re-encoding the decoded questions reproduces the request's question bytes |
| Responder.EncodedHead | src/main.rs:219-220 | at a cursor holding encoded questions, the first one decodes and the others follow it |
| Responder.SliceParts | src/main.rs:219-220 | a slice holding two parts one after the other holds each part at its offset |
| Responder.DecodeCons | src/main.rs:219-221 | a question decoded at the cursor goes in front of the questions decoded after it |
| Responder.DecodesEncodedQuestions | src/main.rs:216-222 | encoded questions fed to the loop come back as the same questions, in order |
| Responder.Synthesize | src/main.rs:226-237 | an answer copies its question's name, type and class, with ttl 60 and data 1.1.1.1, and its length equals its data length |
| Responder.SynthesizeAll | src/main.rs:224-238 | there is one answer per question, in question order |
| Responder.AnswerSectionLength | src/main.rs:268 | the answer bytes are the question bytes plus 10 per question |
| Responder.ResponseHeader | src/main.rs:242-250 | qr is set and both counts are 1; rcode is 0 for op code 0 and 4 otherwise; no other field changes, and fields within their widths stay within them |
| Responder.Respond | src/main.rs:212-277 | handling a request panics only on an empty slice or an invalid question |
| Responder.Sections | src/main.rs:272-277 | the three parts sit at their offsets in the concatenation |
| Responder.AssembledLength | src/main.rs:224-277 | a response built from questions whose sizes are their encodings' lengths is 12 bytes plus twice the question bytes plus 10 per question |
| Responder.AssembledHeader | src/main.rs:242-254 | the first 12 bytes of a response decode to the rewritten header when the request header fits its widths |
| Responder.AssembledSections | src/main.rs:264-277 | after the header a response holds the request's question bytes unchanged, then the answer bytes |
| Responder.Assembled | src/main.rs:242-277 | a response assembled from a header and echoed questions has the rewritten header, the echoed question bytes and the answers at their offsets, with the stated length |
| Responder.ResponseLayout | src/main.rs:212-277 | a response is a header that decodes to the rewritten request header, then the request's question bytes unchanged, then the answers; its length is 12 plus twice the question bytes plus 10 per question |
| Responder.DecodedFacts | src/main.rs:212-222 | for a buffer whose header and questions decode, the header fits its widths, every question's size is its encoding's length, and the question encodings lie one after another from offset 12 |
| Responder.Answered | src/main.rs:212-277 | a buffer whose header and questions decode is answered with the rewritten header, the question encodings and one answer per question |
| Responder.EndToEnd | src/main.rs:212-277 | a request made of a header that fits its widths, the right number of `Readable` questions, and any padding is answered with the rewritten header, the same question bytes and one placeholder answer per question |
| Responder.Covered | src/main.rs:212-222 | every 512-byte buffer the server answers is a header that fits its widths, the right number of `Readable` questions and padding, laid out as `EndToEnd` requires, so `EndToEnd` covers every answered request |
| Responder.DecodedRequest | src/main.rs:212-222 | a buffer whose header and questions decode is exactly their encodings followed by the rest of the buffer, with the header fitting its widths, the right question count and `Readable` questions |
| Responder.RequestHeaderDecodes | src/main.rs:212-214 | the first 12 bytes of a request built from a header that fits its widths decode to that header |
| Responder.RequestQuestionsDecode | src/main.rs:216-222 | the questions of a request built from `Readable` encoded questions and padding decode back to those questions |
| Responder.WriteQuestions | src/main.rs:265-266 | the flattening loop over the questions yields the concatenated encodings |
| Responder.WriteAnswers | src/main.rs:268 | the flattening loop over the answers yields the concatenated encodings |
| Responder.HandleRequest | src/main.rs:212-277 | decoding, looping, rewriting the header field by field and concatenating the parts yields what `Respond` specifies |
| Scenarios.Exchange | src/main.rs:212-277 | a query for `abc.com` is answered with the rewritten header, the echoed question and the placeholder answer |
| Scenarios.StandardQuery | src/main.rs:246-247 | a standard query for `abc.com` gets rcode 0, one question and one answer |
| Scenarios.InverseQuery | src/main.rs:248-249 | a query with op code 1 gets rcode 4 and still one answer with an answer count of 1 |

## Left out

- Socket work: binding, `recv_from`, `send_to` and the endless receive loop with its `break` (src/main.rs:204-208, 270-286). The model takes the receive buffer as its input and returns the bytes to send instead of doing network I/O.
- The received size (src/main.rs:209): the server ignores it and decodes the whole 512-byte buffer, stale bytes included, and so does the model.
- Logging and the `Display`/`std::error::Error` impls (src/main.rs:12-18, 201, 210, 283): diagnostics only, they decide nothing about the reply.
- The commented-out fixed name (src/main.rs:255-263): the server never builds it.
- The second, identical first-byte check (src/main.rs:125). It can never fire, so it is modelled once.
- QuestionCodec.Decode: requires a non-empty input, because the Rust code reads the first byte unguarded, which panics. Inside the request loop that case is the `IndexOutOfBounds` panic.
- Responder.Respond: `expect` and `unwrap` are modelled as a `Panic` outcome, not as a process abort. The header `expect` is never reached, because the slice always has 12 bytes.
- The server never follows compression pointers, never parses names label by label, never forwards queries upstream and never decodes answer records, so the model has none of these.
