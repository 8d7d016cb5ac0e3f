# Serbian eID reader: card protocol and record decoding

This project models the core of a reader for Serbian electronic identity cards (Rust, `pcsc`):

- **Card recognition.** `PersonalId::new` picks a card reader by comparing the card's Answer-To-Reset with the known Apollo and Gemalto signatures.
- **Card protocols.** Each card reader's `select_aid`, `select_file`, `read_binary` and `read_raw_file` use the command/response format of ISO/IEC 7816-4:
  - SELECT is described in section 11.2.2;
  - READ BINARY is described in section 11.3.3;
  - the status words are described in sections 5.1.3 and 5.6.
- **Decoding.** `parse_tlv` is the flat tag/length/value decoder.
- **Record assembly.** `fit_in` merges one decoded file into the personal-data record, through the `ID_TAGS` catalogue and `PersonalIdItem::new`.
- **`read_id`.** It reads the personal, residence and document files in order, then the photo with its tag stripped.

The single-file version `src/idreader.rs` is modelled as well. It is the module the binary builds: `src/main.rs` declares `mod idreader`, and that file declares no submodules of `src/idreader/`. Its select_file, read_binary and read_raw_file (lines 212-271 and 324-383) are the same text as the current ones and are modelled by the same Dafny members. Its `parse_tlv` is a method of each card reader (lines 183-210 and 295-322, with one more copy at `apollo_card_reader.rs:21-48`); all copies are the same text as the current `parse_tlv` and are modelled by `Tlv.ParseTlv`. Its `fit_in` and `read_id` follow the same steps as the current ones. Three things differ, and each has its own members:

- it recognises fewer card signatures (`Legacy.New`);
- it passes the application identifier to `select_aid` as a parameter (`Legacy.SelectAid`). Its `read_id` passes `LICNA_KARTA_AID`, which is the identity application, so the command sent is the current one;
- its `ID_TAGS` spells eight descriptions without diacritics, for example "Mesto rodjenja" for "Mesto rođenja" (`Record.LegacyIdTags`). The ids and field names are the same, so records built with either catalogue hold the same fields and texts (`Legacy.SameAsCurrent`).

## How the model is built

- **`Common`.** Bytes, little-endian words, and `Result`. Every way the Rust code can fail is an `Error` value; that includes its panics:
  - a slice or `drain` out of range;
  - an index past the end of a reply;
  - `rapdu.len() - 2` on a reply of fewer than two bytes;
  - an unsigned subtraction going below zero.
- **`Channel`.** The card channel `card.transmit` is a `Transport`: a function from the commands sent so far in the session, and the next command, to the reply or a transport error. An operation returns, next to its result, the transcript of the exchanges it made (`log`). Its contract says that this transcript is `Consistent` with the transport, and that the operation `StopsAt` its first failing exchange: the Rust code ends each step with `?`, so nothing more is sent after a reply fails its check, and the error returned is that reply's.
- **`Apdu`.** The command builders and the two response checks:
  - the shared check drops the status word;
  - Apollo's select check also drops two leading bytes, and slices before it examines the status.
- **`Tlv`.** `parse_tlv`, together with an encoder it is proved to invert.
- **`Record`.** The tag catalogue, `PersonalIdItem::new` and `fit_in`.
- **`IdCard`.** A reference card, used as a yardstick for the file-reading procedures. It holds elementary files and answers SELECT and READ BINARY the way section 7 of ISO/IEC 7816-4 describes. For each read it may hand back fewer bytes than were asked for (`chunk`). Every reader operation (`SelectFile`, `ReadHeader`, `ReadBlocks`, each variant's `SelectAid` except Apollo's, which sends nothing, each `ReadRawFile`, `MergeFile`, `MergeAll` and `ReadId`) takes such a card as a ghost parameter; the channel helpers `Channel.Transmit` and `RawFile.RequestBlock` do not. The reader operation's contract then states:
  - what holds for any transport, including that the operation stops at its first failing exchange (`Channel.StopsAt`);
  - and, when the transport behaves as that card (`ActsAs`), exactly what the Rust function returns and how many exchanges it makes.

  `IdCard.RespondProgresses` shows that a transport behaving as the model card meets `ReadsProgress`, so the `ActsAs` clauses of the methods that require it are reachable and not vacuous.
- **`RawFile`.** The parts of `read_raw_file` the two chip families share:
  - `select_file`;
  - the header read;
  - the block loop `while len > 0`.

  `Expected` is the independent statement of what a file read yields.
- **`GemaltoReader`, `ApolloReader`.** The two `CardReader` implementations.
- **`Reader`.** `PersonalId::new`, dispatch to the reader in use, and `read_id`. The merge steps take the tag catalogue as a parameter, so the legacy `read_id` is the same procedure over its own catalogue.
- **`Legacy`.** The parts of `src/idreader.rs` that differ from the current code.

## Model

| member | source | states |
|---|---|---|
| `Tlv.ParseTlv` | src/idreader/reader.rs:144-171 | A buffer of fewer than four bytes fails with an end-of-buffer error (this includes the empty buffer, because the loop reads a tag before it tests for the end); a successful decode yields at least one entry; the only errors are the end-of-buffer error of `read_u16` and the slice panic |
| `Tlv.DecodeEncode` | src/idreader/reader.rs:144-171 | Round trip: decoding the back-to-back encoding of any non-empty run of records yields the map of those records, where a later record with a repeated tag wins |
| `Tlv.ParseTlvSound` | src/idreader/reader.rs:144-171 | Converse of the round trip: every buffer that decodes is exactly the encoding of some non-empty run of records whose map is the decoded map |
| `Tlv.ParseStep` | src/idreader/reader.rs:161-168 | One pass of the loop over an encoded record moves the cursor by exactly four plus the declared length and stores exactly the record's value under its tag, then stops or continues depending on whether the cursor reached the end |
| `Tlv.TruncatedHeaderFails` | src/idreader/reader.rs:149-160 | Well-formed records followed by one to three stray bytes fail on reading the next tag or length |
| `Tlv.OverlongValueFails` | src/idreader/reader.rs:161-163 | Well-formed records followed by a record whose declared length runs past the buffer make the value slice panic |
| `Tlv.InsertLastWins` | src/idreader/reader.rs:163 | After inserting a run of records, a tag maps to the value of the last record that carries it |
| `Tlv.InsertKeeps` | src/idreader/reader.rs:163 | Inserting records that do not carry tag k leaves the entry for k (present or absent) unchanged |
| `Record.NewItem` | src/idreader/reader.rs:95-103 | A field exists exactly when the decoded file has the tag and its bytes are valid UTF-8; it then holds the catalogue entry and the decoded text |
| `Record.FitIn` | src/idreader/reader.rs:138-142 | The merged record holds a key exactly when it was held before or the key is catalogued and carries valid text in the file; an accepted key gets its catalogue entry and the file's text, and every other key keeps its old field |
| `Record.IdTagsDistinct` | src/idreader/reader.rs:56-81 | No two entries of `ID_TAGS` share an id: the ids increase up to the sentinel 0 |
| `Record.LookupDistinct` | src/idreader/reader.rs:139-140 | In a catalogue without repeated ids, every entry is the one that decides its own tag |
| `Record.FitInIdTags` | src/idreader/reader.rs:138-142 | For every `ID_TAGS` entry whose tag is in the file with valid text, the merged record stores exactly that text under that entry (the sentinel id 0 included) |
| `Record.FitInSkips` | src/idreader/reader.rs:96-101 | A tag outside `ID_TAGS`, or one whose bytes are not valid UTF-8, never enters the record through a merge, and an existing field for it is kept |
| `Record.LaterFileOverwrites` | src/idreader/reader.rs:176-186 | When two files are merged one after the other and the second carries a catalogued tag as text, the second file's value replaces the first file's |
| `Record.LegacyIdTagsParallel` | src/idreader.rs:59-84 | The legacy catalogue has the same ids and field names as `ID_TAGS` in the same order, and its descriptions differ in exactly the eight entries that lose their diacritics (place, community, state and date of birth, state, community, house number and house letter) |
| `Record.LegacyIdTagsDistinct` | src/idreader.rs:59-84 | No two entries of the legacy catalogue share an id |
| `Record.FitInParallel` | src/idreader.rs:119-123 | Merging a decoded file with the legacy or the current catalogue into records with the same fields yields records with the same fields and texts |
| `Apdu.SelectByNameCommand` | src/idreader/gemalto_card_reader.rs:30-32 | SELECT by name: header 00 A4 04 00, then the identifier length modulo 256, then the identifier bytes |
| `Apdu.SelectFileCommand` | src/idreader/apollo_card_reader.rs:50-51 | SELECT FILE is eight bytes: 00 A4 08 00, then a length byte (Gemalto always sends 2; Apollo sends the identifier length modulo 256), then the first two identifier bytes and the size hint |
| `Apdu.ReadBinaryCommand` | src/idreader/gemalto_card_reader.rs:68-70 | READ BINARY is 00 B0 P1 P2 Le, where Le is the request clamped to 254 |
| `Apdu.ReadBinaryOffset` | src/idreader/gemalto_card_reader.rs:70 | The offset that P1 P2 encode is the requested offset modulo 65536 |
| `Apdu.ReadBinaryAliases` | src/idreader/apollo_card_reader.rs:70 | Offsets 65536 apart send the identical command, so a read past 64 KiB re-reads the start of the file |
| `Apdu.CheckStatus` | src/idreader/gemalto_card_reader.rs:79-85 | A reply shorter than two bytes panics; otherwise the check succeeds exactly when the reply ends in 90 00, returns the reply without its status word, and reports any other status word |
| `Apdu.CheckStatusAccepts` | src/idreader/gemalto_card_reader.rs:59-65 | The partner of the shared check: data followed by 90 00 yields exactly that data |
| `Apdu.ApolloCheckSelect` | src/idreader/apollo_card_reader.rs:59-65 | Replies shorter than four bytes panic on the slice even when they carry an error status; the check succeeds exactly on a reply of at least four bytes ending in 90 00, and the reply is the two dropped bytes, then the data, then 90 00 |
| `Apdu.ApolloCheckSelectAccepts` | src/idreader/apollo_card_reader.rs:60-65 | The partner of Apollo's select check: a reply of at least two data bytes followed by 90 00 yields the data without its first two bytes |
| `IdCard.NotFoundRejected` | src/idreader/apollo_card_reader.rs:59-63 | The status "file not found" (6A 82) is reported as such by the shared check, but makes Apollo's select check panic, because the two-byte reply is sliced first |
| `IdCard.RespondProgresses` | src/idreader/gemalto_card_reader.rs:100-106 | A transport that answers as the model card never returns an empty successful reply to a READ BINARY for at least one byte, so the block loop's progress assumption holds for it |
| `Channel.Transmit` | src/idreader/gemalto_card_reader.rs:72-78 | Sending a command appends exactly one exchange, holding the transport's reply to that command after the session's earlier commands, so the transcript stays consistent |
| `Channel.ReplyCheck` | src/idreader/apollo_card_reader.rs:53-65 | The check the reader applies to one reply: a transport error passes through; a reply of at least four bytes that does not end in 90 00 fails with its status word, whichever check applies; a pass means the reply ended in 90 00; every command but Apollo's SELECT FILE gets the shared check |
| `Channel.CheckedStep` | src/idreader/gemalto_card_reader.rs:91-104 | After exchanges that all passed, the next one either passes too, or ends the operation with its own error (the `?` after each exchange) |
| `Channel.StopsAtConcat` | src/idreader/reader.rs:174-188 | An operation that stops at its first failure, run after operations that all passed, stops at its first failure in the joined transcript |
| `Channel.StopsAtMeans` | src/idreader/reader.rs:173-191 | Stopping at the first failure means: every exchange before the last ended in 90 00, all did on success, and a transport error or a bad status word on the last exchange is the failure reported |
| `RawFile.SelectFile` | src/idreader/gemalto_card_reader.rs:50-66 | An identifier shorter than two bytes panics and sends nothing; otherwise exactly one SELECT FILE is sent, and the result is that exchange's check: a transport error passes through, and a reply of at least four bytes with a status other than 90 00 fails with that status. On the model card: a missing file fails (Gemalto with 6A 82, Apollo with a panic), an existing file succeeds on Gemalto, and on Apollo when the card answers the SELECT with at least two bytes of control information before 90 00 (a bare 90 00 makes the Apollo select check panic on its slice), and the selection moves to the file exactly when it exists |
| `RawFile.ReadHeader` | src/idreader/gemalto_card_reader.rs:91-97 | A SELECT FILE with hint 4, then READ BINARY of the header (4 or 6 bytes) at offset 0, sent only if the SELECT passed. The call stops at the first exchange that fails its check and returns that exchange's error; a success means both passed and the header has at least the bytes the length is read from. On the model card: a missing file stops after the SELECT; a served file yields its first header bytes and stays selected |
| `RawFile.ReadBlocks` | src/idreader/gemalto_card_reader.rs:100-106 | Every request asks for the bytes still missing, from where the data so far ends. The loop stops at the first reply that fails the status check and returns that error, so every earlier block passed; a success means every block passed and returns the concatenated block data, exactly as long as asked. On the model card the result is the file's window or its wrong-offset status, and when the file holds the whole window and the card returns whole chunks, the loop takes exactly ceil(length / 254) exchanges (a shorter file ends earlier in the wrong-offset status) |
| `RawFile.ExpectedContent` | src/idreader/apollo_card_reader.rs:91-106 | For a file as long as its header declares, both chip families deliver the same bytes (the content after the header, without the four tag bytes when stripping); they fail only when stripping content shorter than four bytes, Gemalto on the drain and Apollo on the underflow |
| `RawFile.ExpectedTruncated` | src/idreader/gemalto_card_reader.rs:100-105 | A file shorter than its header declares ends in the card's wrong-offset status, when stripping provided the declared length exceeds the four tag bytes (with a declared length of at most 4, Gemalto stops on the drain and Apollo on the `len -= 4` underflow, as `RawFile.ExpectedContent` states) |
| `GemaltoReader.SelectAid` | src/idreader/gemalto_card_reader.rs:30-48 | One SELECT of the identity application by name, whose checked reply is the result, so a transport error or a bad status word is the error returned; the model card accepts it with no data |
| `GemaltoReader.ReadRawFile` | src/idreader/gemalto_card_reader.rs:88-109 | The read stops at the first exchange whose reply fails its check, and a transport error or bad status word it returns is that exchange's; every earlier exchange passed. A success means all exchanges passed, the header has at least four bytes, the block reads start right after the bytes the header read returned, the content is exactly the declared length, and the result is that content (without its first four bytes when stripping). On the model card a missing file gives 6A 82, a served file gives `Expected` however the card splits its replies, and when the file is at least as long as its four header bytes plus the declared length and the card returns whole chunks, there are 2 + ceil(length / 254) exchanges |
| `ApolloReader.SelectAid` | src/idreader/apollo_card_reader.rs:17-19 | Nothing is sent and the answer is empty |
| `ApolloReader.ReadRawFile` | src/idreader/apollo_card_reader.rs:88-109 | The read stops at the first exchange whose reply fails its check (Apollo's select check for the SELECT FILE, the shared one for every READ BINARY), and a transport error or bad status word it returns is that exchange's. A success means all exchanges passed, the six-byte header declared at least 4 bytes when stripping, the blocks were read from offset 6 (10 when stripping), and the result is exactly the declared length (less 4 when stripping). On the model card a missing file panics in the select check, a served file gives `Expected` however the card splits its replies, and when the file is at least as long as its six header bytes plus the declared length and the card returns whole chunks, there are 2 + ceil(fetched / 254) exchanges |
| `Reader.New` | src/idreader/reader.rs:126-137 | A failure reading the ATR passes through; the Apollo reader is chosen exactly for the Apollo signature and the Gemalto reader exactly for one of the four Gemalto signatures; any other signature fails with an unknown-card error; the record starts empty |
| `Reader.SelectAid` | src/idreader/reader.rs:174 | Dispatch: Apollo sends nothing and passes; Gemalto sends one SELECT by name whose check is the result; a model card accepts either |
| `Reader.ReadRawFile` | src/idreader/reader.rs:118-123 | Dispatch: the first exchange is the variant's SELECT FILE with hint 4, and the read stops at its first failing exchange with that exchange's error; on a model card that lacks or serves the file, the result is what the card holds |
| `Reader.MergeFilesPass` | src/idreader/reader.rs:176-186 | Merging the data files passes exactly when every file was read and decoded |
| `Reader.MergeFilesStops` | src/idreader/reader.rs:176-186 | The first file that fails to read or decode decides the error, and the record keeps exactly what the files before it merged |
| `Reader.MergeFilesLast` | src/idreader/reader.rs:180-186 | When every file decodes, the last file is merged last, on top of the others |
| `Reader.MergeFilesExtends` | src/idreader/reader.rs:178-186 | Merging only adds fields: no field is ever removed, and every new one is a catalogued tag |
| `Reader.AssembleOutcome` | src/idreader/reader.rs:173-191 | `read_id` passes exactly when every data file decodes and the photo is read. Only then is the image replaced, and it is replaced by the photo bytes. The reader never changes, and the record only gains fields |
| `Reader.MergeFilesParallel` | src/idreader.rs:127-139 | Merging the same read results with catalogues that differ only in descriptions ends the same way, with records that hold the same fields |
| `Reader.AssembleParallel` | src/idreader.rs:125-143 | `read_id` with catalogues that differ only in descriptions: on the same read results it has the same outcome, image and reader, and records with the same fields |
| `Reader.MergeFile` | src/idreader/reader.rs:176-178 | A failed read or decode leaves the record unchanged, the record only gains fields, and the merge stops where the read stops (a decoding failure comes after exchanges that all passed). On a model card that lacks or serves the file, the record is the card's file merged with `fit_in` |
| `Reader.MergeAll` | src/idreader/reader.rs:176-187 | The record only gains fields and the files stop at the first failing exchange; on a model card the result is the in-order merge of what the card holds for each file, stopping at the first failure |
| `Reader.ReadIdFrom` | src/idreader/reader.rs:173-191 | `read_id` over any catalogue: it stops at its first failing exchange; a Gemalto card's rejected SELECT of the application ends it at once with the record unchanged; the reader is kept, the record only gains catalogued fields, the image changes only on success; on a model card the result is `Assemble` of what the card holds |
| `Reader.ReadId` | src/idreader/reader.rs:173-191 | On any transport: `read_id` stops at its first failing exchange. Every exchange before the last one ended in 90 00; all of them did when it passed; a transport failure on the last exchange is the error it returns. On a Gemalto card a rejected SELECT of the application ends it at once, with the record unchanged. The reader is unchanged, the record only gains catalogued fields, and the image is untouched on failure. On a model card that lacks or serves every file: the result is `Assemble` of the three data files read unstripped and the photo read stripped |
| `Legacy.New` | src/idreader.rs:109-118 | Only the Apollo signature and the first Gemalto signature are recognised, each exactly; every other ATR is an unknown card |
| `Legacy.NewComparison` | src/idreader.rs:114-117 | The legacy and current recognisers agree on every ATR except the three newer Gemalto signatures, which only the current one accepts |
| `Legacy.SelectAid` | src/idreader.rs:276-294 | One SELECT by name that carries the given identifier, whose checked reply is the result. The model card accepts the identity application with no data and reports any other identifier as not found (6A 82) |
| `Legacy.ReadId` | src/idreader.rs:125-143 | The legacy `read_id` stops at its first failing exchange, first sends the SELECT of the identity application on a Gemalto card (and stops there with the record unchanged if it is rejected), keeps the reader, only adds catalogued fields, keeps the image on failure, and on a model card returns `Assemble` with the legacy catalogue |
| `Legacy.SameAsCurrent` | src/idreader.rs:59-84 | On the same read results the legacy and the current `read_id` have the same outcome, image and reader, and records with the same fields and texts: only the tag descriptions differ |

## Left out

- I/O through `pcsc` is not modelled: connecting, reading the ATR attribute, and `card.transmit`. The ATR read is an input `Result` to `New`. The channel is the `Transport` function parameter, whose `Err` case stands for every transport failure.
- `to_json`, the `Display` implementations and base64 encoding are not modelled: they only format the record for output.
- UTF-8 validation (`std::str::from_utf8`) is a function parameter `decode`, not a decoder of its own.
- Error messages are `Error` values, not formatted strings. A Rust panic is an `Err(Panic(..))` value, which names the operation that would panic, instead of an abort.
- RawFile.ReadBlocks: the `u32` arithmetic of the read loops is modelled on unbounded naturals.
  - A reply with more data than is still missing is the debug-build underflow panic of `len -=`; the release-build wrap-around is not modelled.
  - An offset past 16 bits is only modelled through the modulo-65536 command encoding (`Apdu.ReadBinaryOffset`).
- Apdu.ReadBinaryCommand: the offset fills all 16 bits of P1 and P2, as the Rust code builds them. Section 11.3.3 of ISO/IEC 7816-4 reserves bit 8 of P1: when it is set, P1 names a short EF identifier and P2 alone is the offset, so plain offsets are 15-bit. The model card reads every P1 and P2 as a 16-bit offset and does not model short-EF addressing, so offsets of 32768 and above are not modelled as a real card would answer them.
- Channel.StopsAt: a failure is tied to the exchange that caused it through the error value (transport error or status word), not through the message text that the Rust code formats from it.
- RawFile.ReadBlocks, GemaltoReader.ReadRawFile, ApolloReader.ReadRawFile, Reader.ReadRawFile, Reader.MergeFile, Reader.MergeAll, Reader.ReadIdFrom, Reader.ReadId and Legacy.ReadId all require `ReadsProgress`: the transport never answers a READ BINARY for at least one byte with a successful reply carrying no data. Against such a card the Rust loop never ends, and the model does not describe non-termination. Because the precondition covers the whole call, it also excludes an empty 90 00 reply to the header READ BINARY, where the Rust code does not loop but panics on `data[3]` (Gemalto) or `result[5]` (Apollo); `RawFile.ReadHeader`, which does not require it, models that panic, but the reading methods above do not promise anything about a transport that gives such a reply.
- The reference card `IdCard.Card` serves as a yardstick only. The statements about it fix the results of the reading procedures against one well-behaved card. Other card behaviour is covered only by each method's contract over any transport.
- The trait in `src/idreader/reader.rs` declares `select_aid(card)`, while `ApolloCardReader` implements `select_aid(card, aid)`. The model follows the trait and ignores the identifier for Apollo, which the implementation does too.
- Gemalto's `read_raw_file` reads the four header bytes before the loop and appends only block data to its buffer, so its output does not contain the four header bytes: it is the content that follows the header, less four more bytes when stripping.
- Reading the ATR and selecting the application are modelled once per call. The model card does not track whether the application was selected before a file.
