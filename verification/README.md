# A verified model of a small DNS codec and server

This project models the DNS library of `tp_7` and the response-building part
of its UDP server. The library writes and reads the messages of RFC 1035
(section 4.1). It writes names as length-prefixed labels and follows
compression pointers when it reads them. The server answers A questions from
a small table of names, looked up without regard to ASCII case.

Modules, one per part of the source:

- `Wire`: byte, `u16` and `u32` subset types, big-endian fields, the error
  type, and the `At`/`CutShort` predicates ("these bytes sit here", "the
  buffer ends inside these bytes").
- `HeaderCodec`: `DnsHeader::{new,to_bytes,from_bytes}` with the packed
  flags word.
- `NameCodec`: `encode_name`, a method proved equal to `NameBytes`.
  `decode_name`, a method proved equal to `DecodedName`, which follows at
  most as many pointers as the buffer has bytes.
- `NameLoop`: the decode loop exactly as written, with no bound, as a step
  function. It is related to the bounded decoder.
- `RecordCodec`: type and class codes, questions, records, `get_ip`.
- `MessageCodec`: `DnsMessage`, its constructors, `to_bytes`, and
  `from_bytes`. `to_bytes` and `from_bytes` are methods proved equal to the
  functions `MessageBytes` and `ParseMessage`.
- `MessageLaws`: round trips, and what parsing makes of truncated or
  unknown input.
- `NameDatabase`: `SimpleDnsDatabase` as the class `NameTable` over a map.
- `Server`: `handle_query` with no socket. It takes the datagram and returns
  the bytes it would send, or nothing.

Details of the code that the model keeps:

- `new_response` sets both qr and ra.
- Only bytes of the form `11xxxxxx` are pointers. A length byte from 64 to
  191 is read as the length of a label, so `ReadShape` bounds decoded labels
  below 0xC0 bytes, not at 63.
- The answer count is incremented modulo 2^16.
- The rdlength field is the data length modulo 2^16 (`as u16`).

## Model

| member | source | states |
|---|---|---|
| Wire.BE16 | tp_7/src/lib.rs:88-106 | a 16-bit field is written as two bytes, high byte first, whose big-endian value is the field |
| Wire.BE32 | tp_7/src/lib.rs:277 | a 32-bit field is written as four bytes, most significant first, whose big-endian value is the field |
| Wire.ReadBE16 | tp_7/src/lib.rs:119-124 | a 16-bit field read where it was written, whatever surrounds it, gives its value |
| Wire.ReadBE32 | tp_7/src/lib.rs:421 | a 32-bit field read where it was written, whatever surrounds it, gives its value |
| RecordCodec.TypeFromU16 | tp_7/src/lib.rs:17-29 | recognises exactly the codes 1, 2, 5, 12, 15, 28; a recognised code is the discriminant of the type returned |
| RecordCodec.ClassFromU16 | tp_7/src/lib.rs:37-44 | recognises exactly code 1, as IN |
| RecordCodec.TypeCodeRoundTrip | tp_7/src/lib.rs:8-28 | decoding each type's discriminant gives the type back |
| HeaderCodec.NewHeader | tp_7/src/lib.rs:65-81 | rd set, every other flag clear, opcode, z, rcode and all four counts zero; the id is the one given |
| HeaderCodec.Flags | tp_7/src/lib.rs:90-99 | qr is bit 15, opcode bits 11-14, aa 10, tc 9, rd 8, ra 7, z bits 4-6, rcode bits 0-3, each narrow field masked to its width |
| HeaderCodec.FieldsLayout | tp_7/src/lib.rs:91-99 | each field packed into the flags word is recovered by shifting and masking |
| HeaderCodec.HeaderBytes | tp_7/src/lib.rs:84-109 | a header is always written as exactly 12 bytes |
| HeaderCodec.HeaderFromBytes | tp_7/src/lib.rs:112-116 | parsing fails exactly on fewer than 12 bytes, with the short-header error |
| HeaderCodec.MaskedInRange | tp_7/src/lib.rs:93-99 | masking leaves a header whose opcode, z and rcode fit their widths unchanged |
| HeaderCodec.HeaderMasking | tp_7/src/lib.rs:84-141 | writing then parsing any header, whatever follows it, gives the header with opcode, z and rcode masked |
| HeaderCodec.HeaderRoundTrip | tp_7/src/lib.rs:84-141 | writing then parsing gives back every header whose narrow fields are in range |
| HeaderCodec.NameErrorFlagBytes | tp_7/src/lib.rs:90-100 | a name-error response with rd set has flag bytes 0x81 0x03, or 0x81 0x83 with ra also set |
| NameCodec.Split | tp_7/src/lib.rs:166 | `split('.')` gives at least one piece, and no piece holds a dot |
| NameCodec.JoinSplit | tp_7/src/lib.rs:166 | joining the pieces of a split with dots gives the text back |
| NameCodec.SplitJoin | tp_7/src/lib.rs:166 | splitting the join of dot-free labels gives the labels back |
| NameCodec.EncodedLength | tp_7/src/lib.rs:166-175 | the encoding is two bytes longer than the name: one length byte per label plus the terminator |
| NameCodec.NameBytes | tp_7/src/lib.rs:163-176 | encoding fails exactly when some label is longer than 63 bytes, with the label-too-long error; otherwise it gives the name's length plus 2 bytes |
| NameCodec.EncodeName | tp_7/src/lib.rs:163-176 | the label-by-label loop produces exactly `NameBytes` |
| NameCodec.GoogleEncoding | tp_7/src/lib.rs:162 | "google.com" encodes as [6]google[3]com[0] |
| NameCodec.LongLabelRejected | tp_7/src/lib.rs:167-169 | a 64-byte label does not encode |
| NameCodec.PointerTarget | tp_7/src/lib.rs:197 | a pointer's target is the low six bits of its first byte times 256 plus its second byte, so below 0x4000 |
| NameCodec.ReadLabels | tp_7/src/lib.rs:184-220 | a successful read leaves the cursor past where it started and within the buffer; a failed read reports a truncated name, label or pointer, or too many jumps |
| NameCodec.DecodedName | tp_7/src/lib.rs:179-223 | a decoded name leaves the cursor past the offset and within the buffer; decoding fails only with one of the name errors |
| NameCodec.DecodeName | tp_7/src/lib.rs:179-223 | the loop over length bytes and pointers returns exactly `DecodedName` |
| NameCodec.LabelsRoundTrip | tp_7/src/lib.rs:163-223 | non-empty labels of at most 63 bytes, encoded anywhere in a buffer, decode back to themselves with the cursor just past them |
| NameCodec.NameDecodesAt | tp_7/src/lib.rs:179-223 | a well-formed name whose encoding sits at an offset decodes to itself, leaving the cursor just past the encoding |
| NameCodec.NameRoundTrip | tp_7/src/lib.rs:163-223 | name round trip: a name with no empty and no overlong label is decoded back from its encoding, whatever surrounds it, with the cursor at the encoding's end |
| NameCodec.ValidNameEncodes | tp_7/src/lib.rs:167-169 | a well-formed name always encodes |
| NameCodec.EmptyNameCursor | tp_7/src/lib.rs:163-223 | the empty name encodes as [0, 0] but decodes after one byte, so empty labels break the round trip |
| NameCodec.TruncatedNameFails | tp_7/src/lib.rs:184-211 | an encoding of labels cut short anywhere before its end does not decode |
| NameCodec.NameCutAt | tp_7/src/lib.rs:184-211 | a buffer that ends partway through a name's encoding at an offset does not decode there |
| NameCodec.NameCutFails | tp_7/src/lib.rs:184-211 | a name's encoding cut short anywhere before its end does not decode |
| NameCodec.CompressedName | tp_7/src/lib.rs:192-220 | labels followed by a pointer decode as those labels and then the labels at the target; the cursor ends two bytes past the pointer |
| NameCodec.CompressedExample | tp_7/src/lib.rs:181-222 | "www" then a pointer to a written "google.com" decodes as "www.google.com", with the cursor just past the pointer |
| NameCodec.ReadShape | tp_7/src/lib.rs:189-216 | every decoded label is non-empty and shorter than 0xC0 bytes; the bytes read form a run of plain labels ended by the terminator or by the first pointer, and that pointer alone fixes the cursor |
| NameCodec.SelfPointerRejected | tp_7/src/lib.rs:192-201 | a pointer to itself is rejected with the too-many-jumps error, whatever the budget |
| NameLoop.SourceStep | tp_7/src/lib.rs:184-214 | one iteration keeps the labels already read and, once a pointer was followed, the cursor to restore; its own errors are a truncated name and a truncated label |
| NameLoop.SourceRun | tp_7/src/lib.rs:184-214 | the same holds across any number of iterations |
| NameLoop.BoundedReadAgrees | tp_7/src/lib.rs:184-220 | unless it runs out of jumps, the bounded read ends where the source's loop ends after some number of iterations: same labels and cursor, same error, or a panic where the read reports a pointer in the last byte |
| NameLoop.DecodeAgreesWithSource | tp_7/src/lib.rs:179-223 | `DecodedName` returns the name and cursor that the unbounded loop computes, unless it stops for too many jumps |
| NameLoop.SelfPointerLoopsForever | tp_7/src/lib.rs:184-201 | on a two-byte pointer to itself, the loop as written never ends |
| NameLoop.SelfPointerDecodeFails | tp_7/src/lib.rs:184-201 | the bounded decoder rejects that buffer |
| NameLoop.PointerAtEndPanics | tp_7/src/lib.rs:197 | a pointer in the last byte makes the loop as written index past the end |
| NameLoop.PointerAtEndDecodeFails | tp_7/src/lib.rs:197 | the bounded decoder returns the truncated-pointer error for it |
| RecordCodec.NewQuestion | tp_7/src/lib.rs:153-159 | the class is always IN |
| RecordCodec.NewARecord | tp_7/src/lib.rs:253-261 | an A record of class IN with the given name and ttl, whose `get_ip` is the address |
| RecordCodec.GetIp | tp_7/src/lib.rs:289-300 | an address exactly for type A with exactly four bytes of data, and then the data |
| RecordCodec.QuestionBytes | tp_7/src/lib.rs:226-239 | writing a question fails exactly when its name does not encode; otherwise the name's length plus 6 bytes |
| RecordCodec.RecordBytes | tp_7/src/lib.rs:264-286 | writing a record fails exactly when its name does not encode; otherwise the name's length plus 12 plus the data's length |
| RecordCodec.QuestionTailAt | tp_7/src/lib.rs:232-236 | qtype and qclass read back where they were written |
| RecordCodec.RecordTailAt | tp_7/src/lib.rs:270-283 | type, class, ttl, rdlength (the data length modulo 2^16) and data read back where they were written |
| MessageCodec.NewMessage | tp_7/src/lib.rs:314-322 | a fresh header and four empty sections |
| MessageCodec.NewQuery | tp_7/src/lib.rs:325-330 | qdcount 1, the fresh header otherwise (rd set, qr clear), and one question of class IN |
| MessageCodec.NewResponse | tp_7/src/lib.rs:333-341 | the query with qr and ra set and its three record sections emptied; ancount and every other field kept |
| MessageCodec.QuestionsBytes | tp_7/src/lib.rs:351-353 | the question section is the sum of the questions' sizes, and writing it can only fail with the label-too-long error |
| MessageCodec.RecordsBytes | tp_7/src/lib.rs:356-358 | the answer section is the sum of the records' sizes, and writing it can only fail with the label-too-long error |
| MessageCodec.QuestionsBytesOk | tp_7/src/lib.rs:351-353 | writing the question section fails exactly when some question's name does not encode |
| MessageCodec.RecordsBytesOk | tp_7/src/lib.rs:356-358 | writing the answer section fails exactly when some answer's name does not encode |
| MessageCodec.MessageBytes | tp_7/src/lib.rs:344-364 | a written message is 12 bytes plus its questions' and answers' sizes; the only failure is an overlong label |
| MessageCodec.MessageBytesOk | tp_7/src/lib.rs:344-364 | writing a message fails exactly when a question or answer name does not encode |
| MessageCodec.MessageStartsWithHeader | tp_7/src/lib.rs:347-348 | a written message starts with its header's 12 bytes |
| MessageCodec.MessageToBytes | tp_7/src/lib.rs:344-364 | the loop that appends the header, each question and each answer produces exactly `MessageBytes` |
| MessageCodec.OnlyQuestionsAndAnswersWritten | tp_7/src/lib.rs:360-361 | the authority and additional sections do not affect the bytes written |
| MessageCodec.ParseMessage | tp_7/src/lib.rs:367-451 | fewer than 12 bytes is the short-message error; a parsed message has the header read, exactly qdcount questions, at most ancount answers, and empty authority and additional sections |
| MessageCodec.ScanQuestion | tp_7/src/lib.rs:379-403 | a question read successfully ends within the buffer |
| MessageCodec.QuestionLoop | tp_7/src/lib.rs:378-404 | a question loop that succeeds has read exactly as many questions as it made passes |
| MessageCodec.ParseQuestions | tp_7/src/lib.rs:378-404 | a question section read successfully holds exactly the number of questions asked for |
| MessageCodec.ScanAnswer | tp_7/src/lib.rs:408-441 | one pass of the answer loop keeps at most one record and ends within the buffer |
| MessageCodec.AnswerLoop | tp_7/src/lib.rs:407-442 | an answer loop that fails does so with the error of one of its passes |
| MessageCodec.AnswersBounded | tp_7/src/lib.rs:407-442 | the answer loop keeps at most one record per pass |
| MessageCodec.ParseAnswers | tp_7/src/lib.rs:407-442 | at most as many answers as announced; the section fails only on a name that does not decode |
| MessageCodec.ReadQuestion | tp_7/src/lib.rs:379-403 | the body of the question loop computes exactly `ScanQuestion` |
| MessageCodec.ReadQuestions | tp_7/src/lib.rs:378-404 | the question loop computes exactly `ParseQuestions` |
| MessageCodec.ReadAnswer | tp_7/src/lib.rs:408-441 | the body of the answer loop computes exactly `ScanAnswer` |
| MessageCodec.ReadAnswers | tp_7/src/lib.rs:407-442 | the answer loop computes exactly `ParseAnswers` |
| MessageCodec.MessageFromBytes | tp_7/src/lib.rs:367-451 | `from_bytes` computes exactly `ParseMessage` |
| MessageLaws.ScanQuestionRoundTrip | tp_7/src/lib.rs:379-403 | a written question reads back as itself, with the offset just past it |
| MessageLaws.ScanAnswerRoundTrip | tp_7/src/lib.rs:408-441 | a written record whose data fits 16 bits reads back as itself, with the offset just past it |
| MessageLaws.ScanQuestionCut | tp_7/src/lib.rs:379-387 | a buffer that ends partway through a written question does not read |
| MessageLaws.AnswerTailCut | tp_7/src/lib.rs:414-427 | once the name is read, fewer than 10 fixed bytes or fewer data bytes than rdlength end the answer section without error |
| MessageLaws.ScanAnswerCut | tp_7/src/lib.rs:408-427 | a written record cut short ends the answer section, unless the cut falls inside its name, which is an error |
| MessageLaws.UnknownQuestionRejected | tp_7/src/lib.rs:394-397 | a question of unknown type, or of known type and a class other than IN, fails the whole question section |
| MessageLaws.UnknownAnswerSkipped | tp_7/src/lib.rs:432-441 | an answer of unknown type or class is skipped: the loop goes on after its data with one pass fewer |
| MessageLaws.WrittenMessageParses | tp_7/src/lib.rs:344-451 | a buffer starting with a well-formed written message, whatever follows, parses to that message with empty authority and additional sections |
| MessageLaws.MessageRoundTrip | tp_7/src/lib.rs:344-451 | message round trip: a message whose counts match its sections and whose names and data fit is written and read back as itself, except for the two unwritten sections |
| MessageLaws.QueryRoundTrip | tp_7/src/lib.rs:325-451 | a query built by `new_query` with a well-formed name is read back exactly |
| MessageLaws.QuestionSectionCut | tp_7/src/lib.rs:368-404 | a well-formed message cut anywhere before the end of its question section does not parse |
| MessageLaws.AnswerSectionCut | tp_7/src/lib.rs:407-450 | a message cut inside an answer, at its start or after its name, parses as the message with only the answers before it, the header unchanged |
| MessageLaws.AnswerNameCut | tp_7/src/lib.rs:412 | a message cut inside the name of one of its answers does not parse |
| NameDatabase.Lower | tp_7/src/lib.rs:476-482 | lower-casing gives a name with no capital letter that equals the input up to the case of letters |
| NameDatabase.LowerIdempotent | tp_7/src/lib.rs:476-482 | lower-casing twice is lower-casing once |
| NameDatabase.LowerEqualIffSameIgnoringCase | tp_7/src/lib.rs:476-482 | two names lower-case to the same key exactly when they differ only in the case of letters |
| NameDatabase.Find | tp_7/src/lib.rs:480-482 | a look-up finds an address exactly when the lower-cased name is a key, and then the address stored there |
| NameDatabase.FindIgnoresCase | tp_7/src/lib.rs:480-482 | names that differ only in case find the same thing |
| NameDatabase.FindStored | tp_7/src/lib.rs:476-482 | after storing under a name, any case of it finds the address stored |
| NameDatabase.FindOther | tp_7/src/lib.rs:476-482 | storing under a name changes no look-up of a different name |
| NameDatabase.StoreOverwrites | tp_7/src/lib.rs:476-478 | storing under a name a second time, in any case, replaces the first address |
| NameDatabase.NameTable.constructor | tp_7/src/lib.rs:461-474 | the table holds exactly the five built-in entries, stored in the source's order, and every key is lower-case |
| NameDatabase.NameTable.Lookup | tp_7/src/lib.rs:480-482 | what a look-up finds is stored under a name equal to the one asked for up to the case of letters; while every key is lower-case, it finds something exactly when such a name is stored |
| NameDatabase.NameTable.AddRecord | tp_7/src/lib.rs:476-478 | the map is updated at the lower-cased name; keys stay lower-case; the name now finds the address, and every name differing from it by more than case finds what it found before |
| NameDatabase.SeededLookups | tp_7/src/lib.rs:467-471 | each built-in name finds its own address (localhost is 127.0.0.1, google.com is 8.8.8.8, ...), and there are exactly five keys |
| Server.AnswerFor | tp_7/src/bin/dns_server.rs:134-166 | a question gets one answer exactly when it is of type A and its name is in the table; that answer is the A record of class IN with the question's name, the address found and ttl 300 |
| Server.Resolved | tp_7/src/bin/dns_server.rs:133-168 | no more answers than questions, each an A record of class IN with ttl 300 and four bytes of data |
| Server.AnswerQuestion | tp_7/src/bin/dns_server.rs:134-166 | one pass appends the question's answer, if any, and adds 1 to ancount modulo 2^16 for it; rcode becomes 4 for a type other than A, 3 for a name not in the table, and stays otherwise; nothing else changes |
| Server.AnswerAll | tp_7/src/bin/dns_server.rs:133-168 | the loop appends the answers in question order, adds their number to ancount modulo 2^16, and changes nothing but rcode besides |
| Server.Respond | tp_7/src/bin/dns_server.rs:130-168 | the response keeps the query's header except for qr and ra set, ancount raised by the number of answers modulo 2^16, and rcode; it keeps the questions; its answers are the resolved ones; no authority or additional records |
| Server.Serve | tp_7/src/bin/dns_server.rs:106-171 | the handler sends nothing exactly when the datagram does not parse |
| Server.HandleQuery | tp_7/src/bin/dns_server.rs:105-171 | the handler sends nothing for a datagram that does not parse, and otherwise the written response `Serve` describes |
| Server.AnswerQuestions | tp_7/src/bin/dns_server.rs:130-168 | the loop over the questions builds exactly `Respond`: the response copy, then one pass per question in order |
| Server.AnswerOne | tp_7/src/bin/dns_server.rs:134-166 | the body of the loop over the questions computes exactly `AnswerQuestion` |
| Server.AllAnsweredKeepsRcode | tp_7/src/bin/dns_server.rs:133-168 | when every question is answered, rcode is the one the loop started with |
| Server.LastRefusalWins | tp_7/src/bin/dns_server.rs:150-161 | rcode is the code left by the last question not answered: 3 for an unknown name, 4 for a type other than A |
| Server.ResolvedNames | tp_7/src/bin/dns_server.rs:137-141 | the answers carry questions' names, so they encode when the questions' names do |
| Server.ServeOutcome | tp_7/src/bin/dns_server.rs:106-171 | nothing is sent exactly when the datagram does not parse; a parsed query's response fails to write exactly when a question name has a label over 63 bytes |
| Server.LocalhostAnswered | tp_7/src/bin/dns_server.rs:135-143 | an A question for localhost on the built-in table gets 127.0.0.1 with ttl 300, ancount 1, rcode 0, qr and ra set, and the query's id |
| Server.UnknownNameRefused | tp_7/src/bin/dns_server.rs:150-152 | an A question for a name not in the table gets no answer, ancount 0, rcode 3, and flag bytes 0x81 0x83 |

## Left out

- Randomness: `rand::random()` for a new header's id is a parameter, `id`.
- Text: names are raw bytes. `String::from_utf8_lossy` on decode is the identity on the label bytes. So a label that is not UTF-8 decodes to its bytes, not to U+FFFD replacement characters.
- Case folding: `to_lowercase` is ASCII-only. Non-ASCII letters are not folded.
- `Ipv4Addr` is its four octets.
- Panics: `encode_name`'s panic on a label over 63 bytes is the error `LabelTooLong`, carried through every `to_bytes`. A pointer in the last byte is the error `PointerTruncated` (see Findings).
- NameCodec.DecodeName: follows at most as many pointers as the buffer has bytes and then fails with `TooManyJumps`; the source has no bound (see Findings). The model does not prove that every buffer rejected for too many jumps makes the source loop forever.
- `list_records` is left out: it only hands out the map.
- The server's transport is left out: the UDP socket, `send_to` and its error, `tokio::spawn`, the cloned database passed to each task, the command line and the coloured log lines.
- Server.HandleQuery: a panic while writing the response (an overlong label in a question name) is `Some(Err(LabelTooLong))`; the source task would abort there.
- Server.AnswerAll: ancount wraps modulo 2^16, as in a release build. A debug build would panic on overflow instead.
- RecordCodec.RecordBytes: the rdlength field is the data's length modulo 2^16, as the `as u16` cast writes it. The round-trip lemmas require data shorter than 65536 bytes.
- Authority and additional records are never written or read, as in the source.

## Findings

| source | as written | input that shows it | evidently intended | confidence | as-written member | corrected member |
|---|---|---|---|---|---|---|
| tp_7/src/lib.rs:184-201 | the pointer-following loop has no bound | the two bytes `C0 00` at offset 0: a pointer to itself | a malformed name is a decode error | not executed | NameLoop.SelfPointerLoopsForever | NameLoop.SelfPointerDecodeFails |
| tp_7/src/lib.rs:197 | reads `data[*offset + 1]` without a bounds check | the one byte `C0`: a pointer as the last byte | a truncated pointer is a decode error | not executed | NameLoop.PointerAtEndPanics | NameLoop.PointerAtEndDecodeFails |
