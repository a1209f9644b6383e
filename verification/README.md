# Secure messaging, CAP loading and registry paging, verified

This project models, in Dafny, the three parts of the smart-card library that carry state, buffers and
arithmetic, and proves what they promise over every input and every run.

* **Secure messaging.** SCP03 and SCP02 session slots step through wrap and unwrap. AES and DES are
  arbitrary keyed bijections on blocks, CMAC an arbitrary function; CBC, padding, the KDF, MAC Algorithm 3,
  the ICVs and the APDU framing are built on them as the code builds them. A card is written down from the
  chaining rules of the specifications, in their terms (a 16-byte counter, a masked class byte, an Lc that is
  always there), and shares with the host only ciphers, CBC, padding and MAC; whole runs of the two are
  proved equal to a channel in which no cryptography happens. A class holds the session tables; its methods
  fill and encrypt buffers in place and are proved to be steps of a table in which sessions cannot disturb
  one another. Opening a channel succeeds with a card that derives its keys and cryptograms as the
  specifications say, byte for byte, and with no other.
* **The streaming CAP loader.** The ZIP walk, the pull reader with its wrapping 32 KiB window, and the LOAD
  loop. An archive writer, a token-level LZ77 and plain concatenation are the independent definitions they
  are compared with.
* **BER-TLV and GET STATUS paging.** The cursor parser and the encoder, proved inverse to each other, and
  the accumulator that keeps the last parseable prefix while the card splits its registry at any byte.

## How it is laid out

`Bytes`, `Wrappers`, `Crypto`, `TlvCodec`, `Aid` hold what everything shares. `Scp`, `Scp03`, `Scp02` specify
one step of a host slot; `Scp03Channel`, `Scp02Channel` add the card and whole runs; `Freshness` is about the
ICVs of commands, refused ones included; `SessionTable`, `Keys`, `Backend` are the tables and the in-place code;
`ScpOpen` opens a channel, and `Card03`, `Card02` are the cards it opens to. `Inflate`, `Lz77`, `LoadFile`,
`Cap`, `CapStream`, `Zip`, `ZipWriter`, `CapParse`, `Apdu`, `LoadPackage`, `WrittenCap`, `LoadWitness`,
`LoadChannel` are the loader; `Registry`, `CardStatus`, `Inventory`, `Listing`, `Modules` the paging; `PutKey` and
`PutKeyCard` the key command and the card that takes it.

Constants are named where the source names them. Whatever stands at the other end - the cards, the archive writer, the
registry a card writes, the wire of a load - has the numbers of the standards written out, so that each main result
says which bytes it is about.

A method stands for code that works step by step and is proved against a specification function; the
properties are lemmas about that function. What an entry of the archive *holds* is defined by its own sizes
(`LoadFile.OwnData`: the bytes it occupies if it is stored, and what they inflate to if it is deflated; an entry
of any other method has no data to be had); what the reader *reaches* is defined by what it looks at. Methods that
follow a stream take a ghost `Plan`: what is reached of each component and, for deflated ones, a relation that says
where the decompressor is. An archive *feeds* a plan whatever its declared sizes and methods; it is *complete* when
every entry is stored or deflated and holds exactly what it declares.

A typical chain: `ZipWriter.ArchiveFeeds` turns a written archive into a plan, `LoadPackage.Load` streams it,
`LoadPackage.BlocksNumberedAndMarked` and `LoadPackage.LoadedExactly` say what was sent and when it is the CAP,
`LoadPackage.LoadComplete` puts it together for a complete archive and an agreeing card,
`WrittenCap.LoadWritten` goes from the files by name to the bytes of every command, and
`LoadChannel.LoadFileArrives03` and `LoadChannel.LoadFileArrives02` carry it through secure messaging to the card.

## Where code and comments differ

The model follows the code.

* A scope that ends in 6A88 in the middle of paging comes back empty and *not* truncated
  (`crates/scll-core/src/workflow/card_status.rs:346`). A scope not flagged truncated lacks data that was received
  if and only if it ended so after a page that held any (`CardStatus.CompleteYetLacking`);
  `CardStatus.PageThenNothing` is a card that does it.
* The documentation of the paging loop says that a genuinely malformed response is still a hard error
  (`crates/scll-core/src/workflow/card_status.rs:291-296`). At top level it is not: what comes back always parses
  (`CardStatus.SoundPrefix`), and a scope that ends in 9000 without parsing is cut and flagged like one that is too
  long (`CardStatus.BrokenScopeIsCut`).
* The parser's documentation says that dropping modules beyond sixteen is surfaced as a truncated inventory
  (`crates/scll-core/src/response.rs:388-391`); it is not (`crates/scll-core/src/response.rs:415`).
  `Modules.ModulesGoMissing` says exactly when one is missing, and `Modules.SeventeenthModuleIsLost` has a card
  that shows it.
* A command without data but with an Le has its last byte read as an empty Lc, so its Le is lost under
  secure messaging (`crates/scll-backend-rustcrypto/src/scp03.rs:288`); `Apdu.SplitReadsBuilt` says so.
* SCP02 never re-appends an Le (`crates/scll-backend-rustcrypto/src/scp02.rs:278`).
* The length in the load file header is cut to three bytes from 16 MiB on; `LoadFile.HeaderIsBer` has the bound.
  The size gate of the LOAD loop keeps every loaded file below it.
* The reader goes by declared sizes alone. A stored entry is read past its own end when it declares more than it
  occupies. One that falls short stalls the stream without an error, and the LOAD loop then reports success
  without having marked a last block. A deflated one that inflates past its declared size goes on to the next
  buffer boundary, so the stream depends on the caller's buffers, and the mark may come early.
  `CapStream.DeliveredExactly`, `CapStream.SizesMatterExactly`, `LoadPackage.MarkedExactly` and
  `LoadPackage.LoadedExactly` have the exact conditions; `LoadWitness.LoadShortArchive` and
  `LoadWitness.LoadLongArchive` load archives that show both, `LoadWitness.LongArchiveDependsOnSizes` reads one with
  two lists of buffer sizes.
* The reader takes every method but DEFLATE for stored (`crates/scll-core/src/cap/mod.rs:317`); only Header, Import
  and Applet refuse others (`crates/scll-core/src/cap/mod.rs:531`). A component of another method whose two sizes
  agree reaches the card compressed, in a load reported as a success and marked to its end:
  `LoadWitness.LoadPackedArchive`. Such an archive is not complete, so
  `CapStream.DeliveredExactly` and `LoadPackage.LoadedExactly` exclude it.
* A wrap encrypts its data before it finds that the result is too long for a short command, and a refused wrap leaves
  the counter where it was (`crates/scll-backend-rustcrypto/src/scp03.rs:308-341`). The block under its ICV is then
  encrypted again by the next encrypting wrap. `Freshness.BlockRepeatsExactly` says exactly when,
  `Freshness.RefusedBlockComesBack` has two commands that show it, `Freshness.WireIcvFreshness` that on the wire no
  ICV is used twice, and `Freshness.RefusedLeavesNoTrace` that nothing of the refused command is ever sent.
* An over-long hash, or a target that is no AID, is reported only after the whole file has been loaded
  (`crates/scll-core/src/workflow/ssd.rs:172-182`); `LoadPackage.Report` says so. In the same way PUT KEY checks the
  target only after the card has taken the keys (`crates/scll-core/src/workflow/keys.rs:141`), so an error does not
  mean that they are not there; `PutKey.PutSdKeys` says so.
* A PUT KEY keyset whose keys are not of the declared kind is sent all the same; a card then recovers them
  exactly when the lengths agree (`PutKey.Scp03RoundTrip`).
* A KCV echo shorter than ten bytes is accepted unseen.
* A comment says that every capped level has the C-MAC bit (`crates/scll-backend-rustcrypto/src/scp03.rs:30-33`).
  Capping keeps it only where it was asked for (`Card03.CMacBitAsRequested`); commands carry a C-MAC all the same.
* A channel open that fails after key derivation leaves a never-authenticated slot held, and only then
  (`ScpOpen.Begin03`, `ScpOpen.Begin02`).

## Model

Paths are relative to the repository's root.

| member | source | states |
|---|---|---|
| `Scp03Channel.Lockstep` | crates/scll-backend-rustcrypto/src/scp03.rs:268-400 | over every run of an authenticated session, at every level and in S8 and S16, what each end receives is what an ideal channel without cryptography delivers (headers, data, trailing Le, data with status word, refusals with their reason); both ends finish with one chain, counter and level, and the counter has counted the completed exchanges |
| `Scp03Channel.CommandArrives` | crates/scll-backend-rustcrypto/src/scp03.rs:268-368 | a card following the chaining rules accepts every wrapped command, recovers header, data and Le exactly, and steps to a state equal to the host's |
| `Scp03Channel.ResponseArrives` | crates/scll-backend-rustcrypto/src/scp03.rs:509-567 | any response of such a card that fits a short R-APDU unwraps to exactly its data and status word; error status words pass bare |
| `Scp03Channel.ExactlyTheCardsRmac` | crates/scll-backend-rustcrypto/src/scp03.rs:509-545 | at an R-MAC level no tag is ever accepted but the R-MAC the card computes over the data, and with the card's own data that one is: accepted if and only if it is the card's |
| `Scp03Channel.UnverifiedIsRefused` | crates/scll-backend-rustcrypto/src/scp03.rs:509-545 | in every authenticated session whose level has bit 10, a response under 9000 or a warning that is shorter than its R-MAC is refused as missing it, and one with any other tag than the R-MAC over data and status word as mismatched |
| `Scp03Channel.LongIsRefused` | crates/scll-backend-rustcrypto/src/scp03.rs:370-400 | no response longer than a short R-APDU and its R-MAC is accepted |
| `Scp03Channel.NothingBeforeAuthentication` | crates/scll-backend-rustcrypto/src/scp03.rs:324-333 | before EXTERNAL AUTHENTICATE no response is believed, and only a command with INS 82 is sent, its data in the clear |
| `Scp03.LevelBits` | crates/scll-backend-rustcrypto/src/scp03.rs:30-36 | the levels the host tests are the bits 02, 10 and 20 of the level |
| `Scp.SecureClaSets` | crates/scll-backend-rustcrypto/src/scp03.rs:283-287 | the class byte on the wire has the third bit set and every other bit as it was |
| `Scp03Channel.IcvsAgree` | crates/scll-backend-rustcrypto/src/scp03.rs:76-83 | the host's counter blocks give the ICVs of the standard: a 16-byte big-endian counter, its first byte forced to 80 in responses |
| `Scp03Channel.ProtectionAgrees` | crates/scll-backend-rustcrypto/src/scp03.rs:569-571 | the protected status words are 9000 and the range 6200 to 63FF |
| `Scp03Channel.AuthenticationLatches` | crates/scll-backend-rustcrypto/src/scp03.rs:324-365 | the first command a fresh session takes is EXTERNAL AUTHENTICATE; it puts both ends in step, at the level of its P1 and counter 0 |
| `Freshness.WireIcvFreshness` | crates/scll-backend-rustcrypto/src/scp03.rs:76-83 | in every run of wraps, the counter blocks under the ICVs of the commands put on the wire are pairwise distinct, so are the ICVs, and none is a block encrypted for a response |
| `Freshness.BlockRepeatsExactly` | crates/scll-backend-rustcrypto/src/scp03.rs:306-341 | counting refused wraps too, two encrypting wraps use one counter block if and only if the first was refused after its data was encrypted and nothing was sent from there up to the second |
| `Freshness.RefusedBlockComesBack` | crates/scll-backend-rustcrypto/src/scp03.rs:306-341 | 224 bytes under C-DECRYPTION in S16 are encrypted and refused, and ten bytes wrapped next are encrypted under the same block |
| `Freshness.RefusedForLength` | crates/scll-backend-rustcrypto/src/scp03.rs:335-357 | a wrap that gets as far as encrypting does so under the block of the next counter, and is refused for the length of the result alone |
| `Freshness.RefusedLeavesNoTrace` | crates/scll-backend-rustcrypto/src/scp03.rs:335-365 | in every run, leaving out the refused commands changes no wire command and no later state, so no output carries anything of them |
| `Freshness.WireIcvCounters` | crates/scll-backend-rustcrypto/src/scp03.rs:306-323 | the blocks of the commands put on the wire are those of strictly increasing counters above the starting one |
| `Scp03Channel.CounterNeverWraps` | crates/scll-backend-rustcrypto/src/scp03.rs:308-313 | an authenticated wrap that succeeds adds exactly one to the counter, and at the last counter value every wrap is refused |
| `ScpOpen.CounterCounts` | crates/scll-backend-rustcrypto/src/scp03.rs:308-313 | in every history of the table, lost and failed responses and other sessions included, the counter of a live session is the number of wraps it completed since authentication |
| `Scp03.AcceptedExactly` | crates/scll-backend-rustcrypto/src/scp03.rs:268-368 | an authenticated session wraps a command exactly when it is well formed, the counter has room and the protected length fits, so no inner buffer overflows first |
| `Scp03.ShortApduBound` | crates/scll-backend-rustcrypto/src/scp03.rs:335-357 | with one Le byte at most, a command is accepted exactly when body and MAC come to 255: 239 data bytes under C-DECRYPTION in S8, 223 in S16 |
| `Scp03.WrapKeepsLevel` | crates/scll-backend-rustcrypto/src/scp03.rs:359-365 | once authenticated, no wrap changes level, mode or keys |
| `Scp03.Unwrap` | crates/scll-backend-rustcrypto/src/scp03.rs:370-400 | what is accepted fits the response buffer and ends in the status word received |
| `Scp02Channel.Lockstep` | crates/scll-backend-rustcrypto/src/scp02.rs:212-369 | over every run of an authenticated session the real channel delivers what the ideal one delivers, and both ends finish in step on the C-MAC and R-MAC chains |
| `Scp02Channel.CommandArrives` | crates/scll-backend-rustcrypto/src/scp02.rs:212-323 | a card following the rules accepts every wrapped command and recovers header and data; the Le is gone; the accumulated command never overflows its buffer |
| `Scp02Channel.ResponseArrives` | crates/scll-backend-rustcrypto/src/scp02.rs:325-369 | the host recovers data and status word, and the R-MAC chain steps as the card's does |
| `Scp02Channel.ExactlyTheCardsRmac` | crates/scll-backend-rustcrypto/src/scp02.rs:427-460 | at an R-MAC level the host accepts a response if and only if its tag is the R-MAC the card computes from the wire class byte masked with F8, an Lc that is always there, a length byte, data and status word |
| `Scp02Channel.UnverifiedIsRefused` | crates/scll-backend-rustcrypto/src/scp02.rs:427-460 | in every authenticated session whose level has bit 10, whatever the status word, a response shorter than eight bytes of R-MAC is refused as missing it, one with another tag as mismatched, and an over-long one too |
| `Scp02Channel.NothingBeforeAuthentication` | crates/scll-backend-rustcrypto/src/scp02.rs:234-236 | the same for SCP02 |
| `Scp02Channel.AccumulatorAgrees` | crates/scll-backend-rustcrypto/src/scp02.rs:300-317 | the command the host accumulates is the block the card forms of what it saw, so the secure-messaging bit drops out |
| `Scp02Channel.MaskF8` | crates/scll-backend-rustcrypto/src/scp02.rs:300-317 | clearing the low three bits of the class byte is masking with F8 |
| `Scp02Channel.AuthenticationSeeds` | crates/scll-backend-rustcrypto/src/scp02.rs:285-319 | EXTERNAL AUTHENTICATE puts both ends in step, its C-MAC seeding the R-MAC chain |
| `Scp02.AcceptedExactly` | crates/scll-backend-rustcrypto/src/scp02.rs:212-283 | an authenticated session wraps a command exactly when it is well formed and its body and MAC fit a short Lc |
| `Scp02.ShortApduBound` | crates/scll-backend-rustcrypto/src/scp02.rs:83-90 | 247 data bytes in the clear, 239 under C-DECRYPTION |
| `Backend.RustCryptoBackend.Scp03WrapCommand` | crates/scll-backend-rustcrypto/src/scp03.rs:268-368 | the in-place wrap is one step of the session table: result and whole table are those of the specification, through bounded buffers of which only the output can overflow, and only on an over-long Le |
| `Backend.RustCryptoBackend.Scp03CommandMac` | crates/scll-backend-rustcrypto/src/scp03.rs:343-349 | chaining value, header and body always fit the 320-byte MAC input |
| `Backend.Assemble` | crates/scll-backend-rustcrypto/src/scp03.rs:351-357 | the wire command is its four parts, and overflows exactly when they exceed the buffer |
| `Backend.RustCryptoBackend.Scp03UnwrapResponse` | crates/scll-backend-rustcrypto/src/scp03.rs:370-400 | the same for unwrap, which empties the slot when it fails |
| `Backend.RustCryptoBackend.Scp03Verify` | crates/scll-backend-rustcrypto/src/scp03.rs:509-545 | cuts and compares the R-MAC as specified |
| `Backend.RustCryptoBackend.Scp03Decrypt` | crates/scll-backend-rustcrypto/src/scp03.rs:546-567 | decrypts in scratch space and strips the padding as specified |
| `Backend.RustCryptoBackend.Scp03DeriveSession` | crates/scll-backend-rustcrypto/src/scp03.rs:145-216 | takes the first free slot and fills it with a fresh session under the derived keys, or changes nothing |
| `Backend.RustCryptoBackend.Scp03Cryptogram` | crates/scll-backend-rustcrypto/src/scp03.rs:449-470 | the cryptogram is the KDF over both challenges under the slot's S-MAC, and fails exactly on an empty slot or an over-long context |
| `Backend.RustCryptoBackend.Scp03PseudoCardChallenge` | crates/scll-backend-rustcrypto/src/scp03.rs:236-266 | fails exactly on an over-long AID or a handle without an AES key, and otherwise is the KDF over counter and AID |
| `Backend.RustCryptoBackend.Scp03CloseSession` | crates/scll-backend-rustcrypto/src/scp03.rs:434-442 | empties exactly that slot |
| `Backend.RustCryptoBackend.Scp03EncryptPutKeyPayload` | crates/scll-backend-rustcrypto/src/scp03.rs:402-432 | one CBC pass under a zero IV over the key, padded only when it is not block aligned |
| `Backend.RustCryptoBackend.Scp02WrapCommand` | crates/scll-backend-rustcrypto/src/scp02.rs:212-323 | the in-place wrap is one step of the session table |
| `Backend.RustCryptoBackend.Scp02UnwrapResponse` | crates/scll-backend-rustcrypto/src/scp02.rs:325-369 | the in-place unwrap is one step of the session table, with the accumulator cleared |
| `Backend.RustCryptoBackend.Scp02VerifyRmac` | crates/scll-backend-rustcrypto/src/scp02.rs:427-460 | verifies the R-MAC as specified, the ignored pushes included |
| `Backend.RustCryptoBackend.Scp02DeriveSession` | crates/scll-backend-rustcrypto/src/scp02.rs:151-188 | takes the first free slot and fills it with a fresh session under the derived keys, or changes nothing |
| `Backend.RustCryptoBackend.Scp02CloseSession` | crates/scll-backend-rustcrypto/src/scp02.rs:393-401 | empties exactly that slot |
| `Backend.RustCryptoBackend.Scp02EncryptPutKeyPayload` | crates/scll-backend-rustcrypto/src/scp02.rs:371-391 | encrypts the key block by block under the session's DEK |
| `Backend.EcbSnoc` | crates/scll-backend-rustcrypto/src/scp02.rs:466-479 | one more block of ECB encrypts on its own, which is what lets the chunk loop build the payload |
| `SessionTable.NonInterference` | crates/scll-backend-rustcrypto/src/lib.rs:156-161 | in any interleaving of derives, wraps, unwraps and closes over many handles, each session goes through exactly what it would go through alone, reply by reply |
| `SessionTable.FailedWrapChangesNothing` | crates/scll-backend-rustcrypto/src/scp03.rs:268-368 | a failed wrap leaves the whole table as it was |
| `SessionTable.FailedUnwrapEmptiesItsSlot` | crates/scll-backend-rustcrypto/src/scp03.rs:384-398 | a failed unwrap empties exactly its own slot |
| `SessionTable.DeadStaysDead` | crates/scll-backend-rustcrypto/src/scp02.rs:355-367 | until a derive reallocates the index, every later wrap and unwrap on an empty handle fails |
| `SessionTable.InvariantKept` | crates/scll-backend-rustcrypto/src/lib.rs:89-107 | whatever every wrap and unwrap preserves holds for as long as the session lives |
| `SessionTable.FirstFree` | crates/scll-backend-rustcrypto/src/scp03.rs:195-214 | the first empty slot, or none if all are held |
| `ScpOpen.Begin03` | crates/scll-core/src/scp/scp03.rs:285-345 | `begin` succeeds if and only if the card is genuine (`Card03` says which cards are), the key version and levels agree and a slot is free; then core state and slot hold one level, and the wire command is the wrapped EXTERNAL AUTHENTICATE; a failed open leaves the first free slot held by a never-authenticated session exactly when keys had been derived, and otherwise changes nothing; the error is that of the first check that fails |
| `ScpOpen.Authenticate03` | crates/scll-core/src/scp/scp03.rs:312-343 | the part after derivation succeeds exactly on a genuine card and an agreed level, and changes nothing when it fails |
| `ScpOpen.OpenedInStep03` | crates/scll-core/src/scp/scp03.rs:254-343 | the level is a non-zero subset of the request and of what `i` allows, and a card with the same keys accepts the EXTERNAL AUTHENTICATE, finds the host cryptogram and is in step |
| `ScpOpen.LevelFixed03` | crates/scll-backend-rustcrypto/src/scp03.rs:324-333 | level and mode stay as opened in every later history while the slot lives, INS 82 included |
| `ScpOpen.Begin02` | crates/scll-core/src/scp/scp02.rs:198-249 | the same for SCP02 |
| `ScpOpen.Authenticate02` | crates/scll-core/src/scp/scp02.rs:220-247 | the same for SCP02 |
| `ScpOpen.OpenedInStep02` | crates/scll-core/src/scp/scp02.rs:170-247 | the same for SCP02, with the R-MAC chain seeded by the C-MAC sent |
| `ScpOpen.LevelFixed02` | crates/scll-backend-rustcrypto/src/scp02.rs:285-319 | the level stays as opened in every later history while the slot lives |
| `ScpOpen.CapIsIntersection` | crates/scll-core/src/scp/scp03.rs:254-275 | a capped level has exactly the bits both sides agree on, and capping fails exactly when there are none |
| `ScpOpen.IuReads` | crates/scll-core/src/scp/scp03.rs:200-250 | INITIALIZE UPDATE parsing reads back every field a conforming card sends, in both modes, with and without a sequence counter |
| `ScpOpen.EaWraps03` | crates/scll-core/src/scp/scp03.rs:160-175 | wrapping EXTERNAL AUTHENTICATE in a fresh SCP03 session never fails |
| `ScpOpen.EaWraps02` | crates/scll-core/src/scp/scp02.rs:126-140 | wrapping EXTERNAL AUTHENTICATE in a fresh SCP02 session never fails |
| `Card03.Open` | crates/scll-core/src/scp/scp03.rs:285-345 | a whole opening: it succeeds if and only if a slot is free and the answer is, byte for byte, that of a card with these static keys, a supported `i`, the expected key version and a common level; the level is then the bits asked for and supported, and that card takes the EXTERNAL AUTHENTICATE as `84 82 level 00` with the cryptogram it expects and is in step with the slot |
| `Card03.GenuineOpens` | crates/scll-core/src/scp/scp03.rs:285-345 | to every such card the channel opens, in a slot holding the S-ENC, S-MAC and S-RMAC that the card derives |
| `Card03.OnlyGenuineOpens` | crates/scll-core/src/scp/scp03.rs:200-250 | whatever answer a channel opens to is the answer of such a card |
| `Card03.KeysAgree` | crates/scll-backend-rustcrypto/src/crypto.rs:127-160 | a derived session key is the PRF over eleven zeros, the constant, 00, the length in bits, the counter and the context: one block for 16-byte keys, one and a half for 24, two for 32 |
| `Card03.ValuesAgree` | crates/scll-backend-rustcrypto/src/scp03.rs:449-470 | cryptograms and challenges are one such block, 16 bytes of it with length 0080 or 8 with 0040 |
| `Card03.ParametersAgree` | crates/scll-core/src/scp/scp03.rs:173-188 | the parameter `i` means 08 long fields, 10 pseudo-random challenges, 20 R-MAC and 40 R-ENCRYPTION, and is refused exactly with another bit or with 40 and not 20 |
| `Card03.CMacBitAsRequested` | crates/scll-core/src/scp/scp03.rs:254-275 | a level keeps the C-MAC bit exactly when it was asked for |
| `Card02.Open` | crates/scll-core/src/scp/scp02.rs:198-249 | the same for SCP02, the slot holding the card's data encryption key too |
| `Card02.GenuineOpens` | crates/scll-core/src/scp/scp02.rs:198-249 | to every card that derives its keys and cryptograms as section E.4 says the channel opens, in a slot holding its four session keys |
| `Card02.OnlyGenuineOpens` | crates/scll-core/src/scp/scp02.rs:142-165 | whatever answer a channel opens to is the answer of such a card |
| `Card02.KeysAgree` | crates/scll-backend-rustcrypto/src/scp02.rs:49-55 | a session key is two chained triple-DES blocks over the constant - 0182, 0101, 0102 or 0181 -, the sequence counter and zeros |
| `Card02.CryptogramsAgree` | crates/scll-backend-rustcrypto/src/crypto.rs:302-320 | a cryptogram is the last of three chained triple-DES blocks over two challenges and the padding |
| `Crypto.CbcRoundTrip` | crates/scll-backend-rustcrypto/src/crypto.rs:92-125 | CBC decryption inverts CBC encryption for every aligned message, key and IV |
| `Crypto.CbcEncryptInPlace` | crates/scll-backend-rustcrypto/src/crypto.rs:92-107 | the buffer becomes the CBC encryption of what it held, and nothing past the message changes |
| `Crypto.EcbIsZeroIvCbc` | crates/scll-backend-rustcrypto/src/crypto.rs:77-90 | one block of CBC under a zero IV is the bare cipher |
| `Crypto.EcbBlock` | crates/scll-backend-rustcrypto/src/crypto.rs:257-283 | the CBC-as-ECB helper computes the bare cipher |
| `Crypto.UnpadPad` | crates/scll-backend-rustcrypto/src/crypto.rs:167-198 | stripping inverts padding for every message and block size |
| `Crypto.UnpadOnlyMarked` | crates/scll-backend-rustcrypto/src/crypto.rs:181-198 | only a message, a marker and zeros unpad |
| `Crypto.PadInPlace` | crates/scll-backend-rustcrypto/src/crypto.rs:167-180 | the buffer holds the padded message, and it fails exactly when that does not fit |
| `Crypto.UnpadScan` | crates/scll-backend-rustcrypto/src/crypto.rs:181-198 | the backward scan finds the length of the message and fails exactly on bytes without a marker |
| `Crypto.KdfStep` | crates/scll-backend-rustcrypto/src/crypto.rs:127-160 | each pass of the KDF loop extends the output to a longer prefix of the stream |
| `Crypto.Kdf` | crates/scll-backend-rustcrypto/src/crypto.rs:127-160 | the filled buffer is the prefix of the counter-mode stream, for every length |
| `Crypto.RetailMacIsAlgorithm3` | crates/scll-backend-rustcrypto/src/crypto.rs:326-352 | single DES over the head and one EDE2 block under the chained IV is MAC Algorithm 3 of ISO/IEC 9797-1:2011 with padding method 2, the single-block case included |
| `Crypto.RetailMac` | crates/scll-backend-rustcrypto/src/crypto.rs:326-352 | the scratch-buffer computation returns that MAC for every message and starting IV |
| `Crypto.TdesMac` | crates/scll-backend-rustcrypto/src/crypto.rs:302-320 | the full triple-DES CBC-MAC of the padded data |
| `Crypto.CbcMacAppend` | crates/scll-backend-rustcrypto/src/crypto.rs:302-320 | a CBC-MAC over two aligned parts chains through the first |
| `Keys.AesKey` | crates/scll-backend-rustcrypto/src/scp03.rs:472-491 | an AES key of 16, 24 or 32 bytes, or an error for an empty or triple-DES handle |
| `Keys.TdesKey` | crates/scll-backend-rustcrypto/src/scp02.rs:483-502 | a two-key triple-DES key, or an error |
| `TlvCodec.ParseEncode` | crates/scll-core/src/tlv.rs:52-88 | parsing inverts encoding for every list of at most 64 well-formed objects |
| `TlvCodec.EncodeParse` | crates/scll-core/src/tlv.rs:52-88 | re-encoding whatever parses is no longer, parses to the same list, and is a fixed point |
| `TlvCodec.ParseConcat` | crates/scll-core/src/tlv.rs:52-70 | parses of concatenations concatenate within the bound of 64 |
| `TlvCodec.TagBounds` | crates/scll-core/src/tlv.rs:90-111 | a parsed tag is one to four octets, and its number is that of the octets read |
| `TlvCodec.LengthShrinks` | crates/scll-core/src/tlv.rs:113-133 | the minimal length form is never longer than the one read |
| `TlvCodec.ObjectReads` | crates/scll-core/src/tlv.rs:52-70 | a written object reads back whatever follows it |
| `TlvCodec.Parse` | crates/scll-core/src/tlv.rs:52-70 | the cursor loop returns what the byte string denotes |
| `TlvCodec.ParseObject` | crates/scll-core/src/tlv.rs:55-67 | one pass of the loop reads the object at the cursor and leaves it behind it |
| `TlvCodec.ParseTag` | crates/scll-core/src/tlv.rs:90-111 | the tag loop agrees with the denotation and leaves the cursor behind the tag |
| `TlvCodec.ParseLen` | crates/scll-core/src/tlv.rs:113-133 | the length loop agrees with the denotation and leaves the cursor behind the length, on targets of four and of eight octets |
| `TlvCodec.Encode` | crates/scll-core/src/tlv.rs:79-88 | writes exactly the canonical encoding, keeps the rest of the buffer, and fails exactly when it does not fit |
| `TlvCodec.WriteTag` | crates/scll-core/src/tlv.rs:135-144 | the significant octets of the tag |
| `TlvCodec.WriteLen` | crates/scll-core/src/tlv.rs:146-163 | the minimal definite form |
| `TlvCodec.WriteBytes` | crates/scll-core/src/tlv.rs:165-174 | copies at the position, or fails and changes nothing |
| `Registry.ParseStatusRegistry` | crates/scll-core/src/response.rs:397-433 | the entries of the E3 templates in order, or the first error |
| `Registry.ModulesKept` | crates/scll-core/src/response.rs:354-436 | an entry keeps all the modules the card listed if and only if they are at most sixteen |
| `Registry.EntriesAreCapped` | crates/scll-core/src/response.rs:397-433 | the cap on modules is the only loss of the parser |
| `Registry.CollectModules` | crates/scll-core/src/response.rs:415-421 | the first sixteen module AIDs |
| `Registry.DecodeEntry` | crates/scll-core/src/response.rs:404-427 | the fields of one template |
| `Registry.FindFirst` | crates/scll-core/src/response.rs:452-456 | the first object with the tag, or none |
| `Registry.FirstObjectCounts` | crates/scll-core/src/response.rs:404-427 | whatever else a template holds and in whatever order, the first 4F, 9F70, C5, CC and C4 are AID, life cycle, privileges (cut or filled to three bytes), security domain and load file |
| `Registry.AbsentObject` | crates/scll-core/src/response.rs:404-427 | what a template lacks is empty, zero or absent in the entry |
| `Listing.RegistryReads` | crates/scll-core/src/response.rs:397-433 | a registry of up to 64 entries as a card writes it reads back entry for entry and field for field, but for modules beyond the sixteenth |
| `CardStatus.SplitIndependent` | crates/scll-core/src/workflow/card_status.rs:302-355 | a parseable registry cut into at most sixteen pages of at most 256 bytes, even inside a nested value, comes back whole and complete, with later answers unread |
| `CardStatus.SoundPrefix` | crates/scll-core/src/workflow/card_status.rs:302-355 | for every card the returned bytes parse and, unless the scope ended in 6A88, are the longest page-boundary prefix received that parses; not truncated exactly when 9000 was said and all of it is there, or after 6A88 |
| `CardStatus.CompleteYetLacking` | crates/scll-core/src/workflow/card_status.rs:346-346 | a scope not flagged truncated lacks data that was received if and only if it ended in 6A88 with data already received |
| `CardStatus.PageThenNothing` | crates/scll-core/src/workflow/card_status.rs:346-346 | a page of any content, more announced, then 6A88: the scope comes back empty and not truncated |
| `CardStatus.ReadStatusScope` | crates/scll-core/src/workflow/card_status.rs:302-355 | the accumulating loop returns that, sends `80 F2 P1 02` once and `80 F2 P1 03` for every further page and nothing else, and sixteen pages never overflow its buffer |
| `CardStatus.ScanPage` | crates/scll-core/src/workflow/card_status.rs:315-350 | one pass either goes on with page and checkpoint accounted for or ends the scan with its result |
| `CardStatus.Absorb` | crates/scll-core/src/workflow/card_status.rs:327-345 | a page is appended whole, and the checkpoint moves exactly when everything so far parses |
| `CardStatus.LongestGoodIs` | crates/scll-core/src/workflow/card_status.rs:327-345 | the checkpoint is the longest parseable page boundary |
| `CardStatus.DataOf` | crates/scll-core/src/workflow/session.rs:57-68 | a data field is at most 256 bytes |
| `Inventory.PagingDoesNotMatter` | crates/scll-core/src/workflow/card_status.rs:127-243 | the inventory is the same however each of the three registries was cut into pages |
| `Inventory.NothingLostUncounted` | crates/scll-core/src/workflow/card_status.rs:127-243 | every eligible entry is listed or counted as dropped, and lists only grow |
| `Listing.StoredExactly` | crates/scll-core/src/workflow/card_status.rs:127-243 | after any entries of a scope each list is the old one and then exactly the entries that belong there, in order, up to 8 domains, 48 applets and 32 load files, every field from where it should be; domains are those of the issuer scope and the applications with privilege bit 80 |
| `Listing.InventoryOfCard` | crates/scll-core/src/workflow/card_status.rs:127-243 | a card that keeps these entries, cutting its registries into pages anywhere, is inventoried as exactly those lists, and marked truncated if and only if an entry found no room |
| `Inventory.CollectScope` | crates/scll-core/src/workflow/card_status.rs:252-292 | reads one scope and stores its entries, flagging what was cut short or dropped |
| `Inventory.GetCardInventory` | crates/scll-core/src/workflow/card_status.rs:127-243 | the three scans give the inventory of the script, and send GET STATUS with P1 80, then 40, then 10, once per page, stopping with the scan that fails |
| `Modules.ModulesGoMissing` | crates/scll-core/src/response.rs:415-419 | the inventory is marked truncated exactly when the one with all modules would be, yet lacks a module if and only if a listed load file has a valid one beyond its sixteenth |
| `Modules.SeventeenthModuleIsLost` | crates/scll-core/src/response.rs:415-419 | a card whose load file has seventeen modules is inventoried with sixteen and not marked truncated |
| `Modules.CappedDiffers` | crates/scll-core/src/workflow/card_status.rs:127-243 | what is listed of one load file changes under the cap if and only if a valid module is beyond it |
| `Inflate.RingAppend` | crates/scll-core/src/cap/mod.rs:405-435 | appending at `produced mod 32768`, short of the window end, keeps the window the last bytes of the output |
| `Inflate.RingRead` | crates/scll-core/src/cap/mod.rs:388-400 | a pending run read from the window is the next bytes of the output, in order |
| `Inflate.InflateCtx.Decompress` | crates/scll-core/src/cap/mod.rs:411-415 | one call moves state and window as the decompressor says, never past the window end |
| `Inflate.InflateCtx.DecompressFlat` | crates/scll-core/src/cap/mod.rs:515-523 | one call fills the window from its start |
| `Lz77.RingDecodesTokens` | crates/scll-core/src/cap/mod.rs:371-435 | one decoder, reading tokens with distances up to 32768 from its input and putting them out through the wrapping ring at any pace, gives the bytes of decoding them into an unbounded sequence |
| `Lz77.FillIsRight` | crates/scll-core/src/cap/mod.rs:405-435 | one call from any ring position, for any number of bytes, yields the next bytes of the expansion |
| `Lz77.FlatDecodesTokens` | crates/scll-core/src/cap/mod.rs:513-528 | one call of the same decoder into the window from its start, back-references found there, gives the whole expansion if that fits the window, and is refused if it does not |
| `Lz77.TokensRead` | crates/scll-core/src/cap/mod.rs:405-435 | the tokens read from the input are those written |
| `Lz77.CopyBackRepeats` | crates/scll-core/src/cap/mod.rs:405-435 | a back-reference of any length repeats the output its distance back, overlapping itself if it must |
| `Lz77.TokenCodecBounded` | crates/scll-core/src/cap/mod.rs:405-435 | that decoder never writes past the window end |
| `Cap.LoadFileDataBlock.NextBlock` | crates/scll-core/src/cap/mod.rs:301-331 | on every archive the walk accepts it ends with all indices in range, even when sizes lie or the decompressor stalls, and a short block is the last; on one whose contents are known, of any sizes, block and new position are what is dealt from where the reader is |
| `Cap.LoadFileDataBlock.EmitStored` | crates/scll-core/src/cap/mod.rs:359-369 | copies the component's next bytes, as many as fit, are declared and are there |
| `Cap.LoadFileDataBlock.EmitDeflate` | crates/scll-core/src/cap/mod.rs:371-402 | writes the inflated component's next bytes through the ring, however many it inflates to, until the buffer is full or the component ends |
| `Cap.LoadFileDataBlock.EmitSlice` | crates/scll-core/src/cap/mod.rs:317-323 | a slice of the current component, and a slice short of the room leaves it with nothing more to give |
| `Cap.LoadFileDataBlock.Pump` | crates/scll-core/src/cap/mod.rs:405-435 | one call of the decompressor keeps the ring current and makes progress or fails |
| `Cap.LoadFileDataBlock.Pending` | crates/scll-core/src/cap/mod.rs:388-398 | the run handed out stays within what is pending, the room left and the window |
| `Cap.LoadFileDataBlock.EmitHeader` | crates/scll-core/src/cap/mod.rs:236-243 | hands out the next header bytes |
| `Cap.LoadFileDataBlock.Advance` | crates/scll-core/src/cap/mod.rs:348-351 | an absent or finished component is left behind with a fresh cursor |
| `Cap.LoadFileDataBlock.Reset` | crates/scll-core/src/cap/mod.rs:335-339 | back to the first byte |
| `Cap.LoadFileDataBlock.StartsOn` | crates/scll-core/src/cap/mod.rs:335-339 | a reset reader is at the start of the stream, whatever the decompressor was left doing |
| `LoadFile.HeaderIsBer` | crates/scll-core/src/cap/mod.rs:200-227 | the header is C4 and the canonical BER length if and only if the content is under 16 MiB |
| `LoadFile.EntireReached` | crates/scll-core/src/cap/mod.rs:359-369 | of an entire component the reader reaches its entry's own data |
| `LoadFile.DealSlice` | crates/scll-core/src/cap/mod.rs:309-329 | a slice that fills the room or exhausts the component is what a buffer gets of it, and the component is left once its declared size is out |
| `CapStream.ReadBlocks` | crates/scll-core/src/cap/mod.rs:301-331 | for buffers of any sizes, from any position, the blocks are those dealt, with no component's size excluded |
| `CapStream.StreamIsStretches` | crates/scll-core/src/cap/mod.rs:301-331 | a pass hands out the header and then of each component its stretch: all of it if no longer than declared, otherwise up to the first buffer boundary by which the declared bytes, at least one, are out, or its end; one that falls short ends the stream |
| `CapStream.DeliveredExactly` | crates/scll-core/src/cap/mod.rs:270-282 | for every list of buffer sizes each component's stretch is its entry's own data in the declared size, if and only if every component is entire: a deflated one inflates to its declared size, a stored one has two equal sizes, there is no third method, and all lie in the archive |
| `CapStream.OwnDataForAllSizes` | crates/scll-core/src/cap/mod.rs:301-331 | declared sizes aside, each component's stretch is its own data for every list of buffer sizes if and only if the sizes agree, one component after the other: method supported, as much reached as held, no more than declared (or one byte where none is), and after one that falls short nothing more held |
| `CapStream.CompleteStream` | crates/scll-core/src/cap/mod.rs:270-282 | the stream of a complete archive is header and components, `len` bytes long, for any buffers |
| `CapStream.SizesMatterExactly` | crates/scll-core/src/cap/mod.rs:371-402 | the stream is the same for all buffer sizes if and only if no component the reader gets to inflates past its declared size (or past one byte where none is declared) |
| `CapStream.TwoSizesTwoStreams` | crates/scll-core/src/cap/mod.rs:371-402 | where one does, two lists of sizes, both with room for everything, that give different streams |
| `CapStream.BoundaryIsFirst` | crates/scll-core/src/cap/mod.rs:309-329 | the boundary at which a long component is cut is the first buffer end at or past what is due |
| `CapStream.BlocksFull` | crates/scll-core/src/cap/mod.rs:288-300 | every block before the last that holds anything is full |
| `CapStream.HashThenLoad` | crates/scll-core/src/cap/mod.rs:333-339 | two passes with a reset between them see the streams of their sizes, which are one stream unless a component is too long |
| `CapParse.ParseCap` | crates/scll-core/src/cap/mod.rs:451-481 | the walk and the metadata of Header, Import and Applet, with every refusal in order, and the decompressor left reset |
| `CapParse.MissingIsHeader` | crates/scll-core/src/cap/mod.rs:451-481 | a component is reported missing if and only if the archive is walked and has no Header component |
| `CapParse.ReadComponent` | crates/scll-core/src/cap/mod.rs:490-533 | a component materialized in the window, or the reason it cannot be |
| `CapParse.ParsedIsOwnData` | crates/scll-core/src/cap/mod.rs:490-533 | what is parsed is the entry's own data, for exactly the stored and deflated entries inside the archive that fit the window |
| `CapParse.HeaderRead` | crates/scll-core/src/cap/mod.rs:644-659 | a Header component reads back its version and package AID |
| `CapParse.HeaderSound` | crates/scll-core/src/cap/mod.rs:644-659 | a Header component that parses has magic, versions and an AID of five to sixteen bytes where the parser says |
| `CapParse.ParseImports` | crates/scll-core/src/cap/mod.rs:661-676 | the import loop computes the list the bytes denote |
| `CapParse.ImportsRead` | crates/scll-core/src/cap/mod.rs:661-676 | an Import component of valid AIDs parses to them if and only if they are at most sixteen |
| `CapParse.ImportsSound` | crates/scll-core/src/cap/mod.rs:661-676 | imports that parse are as many as the component counts, at most sixteen, all of them AIDs, and stand behind the count in that order |
| `CapParse.ParseApplets` | crates/scll-core/src/cap/mod.rs:679-700 | the applet loop computes the list the bytes denote |
| `CapParse.AppletsRead` | crates/scll-core/src/cap/mod.rs:679-700 | an Applet component of valid entries parses to them if and only if they are at most eight |
| `CapParse.AppletsSound` | crates/scll-core/src/cap/mod.rs:679-700 | applets that parse are as many as the component counts, at most eight, and their encoding stands behind the count |
| `Zip.WalkZip` | crates/scll-core/src/cap/mod.rs:547-593 | total on every input: the specified locations, all of them inside the archive, or NotAZip or Malformed |
| `Zip.FindEocd` | crates/scll-core/src/cap/mod.rs:596-613 | the last end-record signature within the comment bound |
| `Zip.LastSigned` | crates/scll-core/src/cap/mod.rs:596-613 | nothing after the position found carries the signature, and none in reach when nothing is found |
| `Zip.EndRecordExactly` | crates/scll-core/src/cap/mod.rs:596-613 | the end record is the last place with its four bytes, room for 22 and at most 65535 bytes behind; an input is no ZIP if and only if there is no such place |
| `Zip.ReadEntry` | crates/scll-core/src/cap/mod.rs:557-589 | the checked reads of a directory entry succeed exactly when it is whole |
| `Zip.LocalDataOffset` | crates/scll-core/src/cap/mod.rs:616-628 | data starts behind the local header, within the archive |
| `Zip.ComponentIndexExactly` | crates/scll-core/src/cap/mod.rs:631-637 | a path names a component if and only if its basename is that component's file name |
| `Zip.NamesInOrder` | crates/scll-core/src/cap/mod.rs:36-48 | in any directory, the eleven component files by name have the positions 0 to 10 of the standard's order, and Debug.cap has none |
| `Zip.AsciiCodes` | crates/scll-core/src/cap/mod.rs:36-48 | file names are compared by the codes of their characters |
| `WrittenCap.NamedIsIndexed` | crates/scll-core/src/cap/mod.rs:631-637 | a path is taken for a component if and only if it is that file name or ends in it behind a separator |
| `Zip.BasenameEnds` | crates/scll-core/src/cap/mod.rs:631-637 | the basename is what follows the last separator |
| `ZipWriter.WalkInvertsArchive` | crates/scll-core/src/cap/mod.rs:547-593 | on any archive laid out as PKWARE APPNOTE says, with no false end signature after the true one, the walk succeeds with the listed entries, first to name a component winning |
| `ZipWriter.FoundIsFirst` | crates/scll-core/src/cap/mod.rs:577-587 | each component is located at the first entry naming it, or absent if none does |
| `ZipWriter.LocalRead` | crates/scll-core/src/cap/mod.rs:616-628 | the data of a written file is found right behind its header |
| `ZipWriter.CentralRead` | crates/scll-core/src/cap/mod.rs:557-593 | every field of a written directory entry is read back, and the cursor lands on the next entry |
| `ZipWriter.EndIsFound` | crates/scll-core/src/cap/mod.rs:547-551 | the backward scan stops at the true end record and reads its count and offset |
| `ZipWriter.OrderDoesNotMatter` | crates/scll-core/src/cap/mod.rs:577-587 | directories listing the same unambiguous files in different orders give the same locations |
| `ZipWriter.ArchiveFeeds` | crates/scll-core/src/cap/mod.rs:100-109 | a written archive feeds the streaming reader through the walk, and it is complete if and only if the first file listed under each name is stored or deflated and truthful about its size |
| `ZipWriter.FileHasData` | crates/scll-core/src/cap/mod.rs:616-628 | the bytes the walk finds for a file are those written, and they are its own data exactly for the two supported methods |
| `ZipWriter.SameStreamInAnyOrder` | crates/scll-core/src/cap/mod.rs:100-109 | permuting the directory leaves locations, contents and completeness, and so the load file, unchanged, whatever the files declare, unless one that is not deflated declares a reach past the local part of the archive |
| `Apdu.SplitReadsBuilt` | crates/scll-core/src/command/mod.rs:59-72 | secure messaging reads a built command back as built, except that a command without data loses its Le |
| `Apdu.Build` | crates/scll-core/src/command/mod.rs:59-72 | frames exactly the data a short Lc can say |
| `Apdu.LoadBlock` | crates/scll-core/src/command/load.rs:25-28 | one LOAD block, failing exactly past 255 bytes |
| `Apdu.LoadBlockAlwaysAccepted` | crates/scll-core/src/limits.rs:175-185 | a chunk of 223 bytes passes secure messaging in every protocol, mode and level |
| `Apdu.LoadBlockSizeIsLargest` | crates/scll-core/src/limits.rs:175-185 | any longer chunk that can be framed is refused by SCP03 with 16-byte MACs under C-DECRYPTION |
| `Apdu.InstallForLoad` | crates/scll-core/src/command/install.rs:68-80 | INSTALL [for load], refused exactly when its fields do not fit a short command |
| `Apdu.InstallReads` | crates/scll-core/src/command/install.rs:68-80 | a card reads back package, target and hash |
| `LoadPackage.Load` | crates/scll-core/src/workflow/ssd.rs:119-183 | every early refusal of parse, size gate and INSTALL in order, with nothing sent; else INSTALL and exactly the LOAD commands of the chunks; of an archive whose contents are known, of any sizes, the chunks are the stream's first blocks, all of them when the card agrees throughout; an over-long hash or a target that is no AID is reported only after the whole load |
| `LoadPackage.InstallAnswers` | crates/scll-core/src/workflow/ssd.rs:129-145 | INSTALL is refused as unknown domain on 6A88, as existing package on 6A80, and otherwise with the status word, unless it is 9000 |
| `LoadPackage.ReportExactly` | crates/scll-core/src/workflow/ssd.rs:172-182 | a finished load is reported as one exactly under a hash of at most 64 bytes and a target AID of five to sixteen |
| `LoadPackage.SendBlocks` | crates/scll-core/src/workflow/ssd.rs:146-170 | the loop ends, sends one LOAD per chunk with nothing in between, all chunks full but the last, and fails only on a stream error or the card's last answer |
| `LoadPackage.BlocksNumberedAndMarked` | crates/scll-core/src/workflow/ssd.rs:146-170 | whatever the archive and the card, at most 256 blocks go out, numbered 0, 1, 2 and so on without repeat, and a block has the last-block mark if and only if it is the final one and the announced length is out |
| `LoadPackage.AtMost256` | crates/scll-core/src/workflow/ssd.rs:41-41 | within the size gate at most 256 blocks go out, lying and corrupt archives included |
| `LoadPackage.MarkedExactly` | crates/scll-core/src/workflow/ssd.rs:146-170 | a finished load has its last block marked if and only if the sizes held and declared, each over-long component rounded up to the end of a 223-byte block, come to the announced length |
| `LoadPackage.MarkedWhenNothingTooLong` | crates/scll-core/src/workflow/ssd.rs:146-170 | where nothing is too long, the last block is marked if and only if nothing is too short |
| `LoadPackage.LoadedExactly` | crates/scll-core/src/workflow/ssd.rs:146-170 | a finished load delivers the CAP - last block marked, and each component that the card cuts out by the announced sizes the entry's own data - if and only if every component is entire: stored or deflated, of its declared size, inside the archive |
| `LoadPackage.CompleteSent` | crates/scll-core/src/workflow/ssd.rs:146-170 | of a complete archive exactly header and components are sent |
| `LoadPackage.CountExactly` | crates/scll-core/src/workflow/ssd.rs:146-170 | chunks that are full but for the last are ceil(bytes / 223) many |
| `LoadPackage.LoadComplete` | crates/scll-core/src/workflow/ssd.rs:119-183 | end to end: for every accepted complete archive and a card answering 9000, success is reported with ceil(size / 223) blocks; INSTALL and exactly that many LOAD commands went out, P2 counting 0, 1, 2 and so on, P1 80 exactly on the last; and their data joined parses to one C4 object holding each component's own data in order |
| `WrittenCap.LoadWritten` | crates/scll-core/src/workflow/ssd.rs:119-183 | from files to card: every archive with sound components of up to 57084 bytes is loaded by a card answering 9000; INSTALL and every LOAD command byte for byte, the report, and the one object received: C4 around Header, Directory, Import, Applet, Class, Method, StaticField, Export, ConstantPool, RefLocation and Descriptor, by file name |
| `WrittenCap.MetadataReads` | crates/scll-core/src/cap/mod.rs:451-481 | the parse of a written CAP gives back package, version, imports and applets from the files of those names |
| `WrittenCap.SoundFeeds` | crates/scll-core/src/cap/mod.rs:100-109 | an archive whose component files are stored or deflated and of their declared size feeds the reader and is complete |
| `WrittenCap.PlanJoins` | crates/scll-core/src/cap/mod.rs:36-48 | what the reader hands out of it is the components by file name in order |
| `LoadPackage.ReceivedIsTheLoadFile` | crates/scll-core/src/workflow/ssd.rs:146-170 | what is received of a complete archive parses to one object, tag C4, whose value is the components in order |
| `LoadWitness.LoadShortArchive` | crates/scll-core/src/workflow/ssd.rs:119-183 | an archive with a whole, valid Header component whose declared size runs past the archive is loaded with success by an agreeing card, and no command sent has the last-block mark |
| `LoadWitness.ShortArchiveIsAccepted` | crates/scll-core/src/cap/mod.rs:451-481 | that archive is accepted by the walk, the metadata parsers and the size gate |
| `LoadWitness.LoadLongArchive` | crates/scll-core/src/workflow/ssd.rs:119-183 | an archive whose deflated Class component inflates to 300 bytes and declares 10 is loaded with success by an agreeing card in one LOAD command, marked as the last, which carries 203 of the 300; the archive is not complete |
| `LoadWitness.LongArchiveDependsOnSizes` | crates/scll-core/src/cap/mod.rs:371-402 | that archive is walked and feeds the reader, and two lists of buffer sizes with room for all of it read different streams of it |
| `LoadWitness.LoadPackedArchive` | crates/scll-core/src/cap/mod.rs:317-321 | an archive whose Class component is of method 12, with two equal sizes, is loaded with success and marked to its end, and the object the card received has the compressed bytes for that component; whatever is taken for its contents, it is not complete |
| `LoadWitness.PairAccepted` | crates/scll-core/src/cap/mod.rs:451-481 | both archives are accepted by the walk, the metadata parsers, the size gate and INSTALL |
| `LoadChannel.LoadFileArrives03` | crates/scll-core/src/workflow/ssd.rs:146-170 | over SCP03, in S8 and S16 and at every level, whatever data the card answers with, every LOAD block of a complete archive completes and the data the card recovers parses to one C4 object holding the components in order |
| `LoadChannel.LoadFileArrives02` | crates/scll-core/src/workflow/ssd.rs:146-170 | the same over SCP02 at every level |
| `LoadChannel.IdealLoad03` | crates/scll-core/src/limits.rs:175-185 | no block of a load is refused, whatever level and mode were negotiated |
| `PutKey.Scp03RoundTrip` | crates/scll-core/src/workflow/keys.rs:98-130 | reading the data field back and decrypting under the static DEK recovers the three keys if and only if all have the declared kind's length |
| `PutKey.RecoveredExactly` | crates/scll-backend-rustcrypto/src/scp03.rs:402-432 | one AES key is recovered if and only if it has the declared length, so 24 and 32 bytes are told apart though both travel as 32 |
| `PutKey.Scp02RoundTrip` | crates/scll-backend-rustcrypto/src/scp02.rs:466-479 | decrypting each block under the session DEK recovers the three keys |
| `PutKey.BlocksRead` | crates/scll-core/src/command/put_key.rs:49-69 | a card reading the blocks of a data field gets the blocks written |
| `PutKey.BuildPutKey` | crates/scll-core/src/command/put_key.rs:49-69 | the command carries exactly that data field, and is refused exactly when a length does not fit |
| `PutKey.EncryptNewKey` | crates/scll-core/src/workflow/keys.rs:236-251 | succeeds exactly when the wrapping key exists and the new key is of the protocol's kind, with the payload a block of either protocol carries |
| `PutKey.PutSdKeysCommand` | crates/scll-core/src/workflow/keys.rs:98-130 | the command for three stored keys over either protocol, built exactly when all can be encrypted |
| `PutKey.PutSdKeys` | crates/scll-core/src/workflow/keys.rs:89-150 | one command is sent if all three keys can be encrypted, and none otherwise; once sent, success is reported exactly when the card answers 9000, any full echo repeats version and check values, and the target is an AID - the last found out only with the keys stored |
| `PutKeyCard.PutKeys` | crates/scll-core/src/workflow/keys.rs:89-150 | one command `84 D8 00 81`; a card that reads its data field stores the three keys under the new version, every check value being the one it computes itself, if and only if the keys have the declared length; and success is reported exactly when it answers 9000, an echo of ten bytes or more begins as the card's own, and the target is an AID |
| `PutKeyCard.StoresTheKeys` | crates/scll-backend-rustcrypto/src/key.rs:85-113 | for both protocols and any stored keys, the card recovers all three with their check values in order if and only if they have the declared length |
| `PutKeyCard.KcvAgrees` | crates/scll-backend-rustcrypto/src/key.rs:85-113 | a check value is the first three bytes of sixteen 01s encrypted under an AES key, or of eight zeros under a triple-DES key |
| `PutKey.VerifyKcvEcho` | crates/scll-core/src/workflow/keys.rs:206-228 | accepted exactly when short of ten bytes or beginning with version and check values |
| `PutKey.NewBlocksFit` | crates/scll-core/src/workflow/keys.rs:118-130 | three blocks of either protocol fit a short command and read back as written |

## Left out

- Cap.LoadFileDataBlock.NextBlock: says nothing about the bytes handed out of a deflated component whose data does not inflate, before the error; index safety, termination and the last-block rule hold there too.
- LoadPackage.SendBlocks: the session answers as scripted for every command; that its blocks cross secure messaging is `LoadChannel`'s part.
- Lz77.RingDecodesTokens: stands for DEFLATE after its Huffman stage, with tokens in a plain byte form; the Huffman codes are known only by the step contract of `Inflate.Decodes`.
- CapParse.ParseCap: a deflated metadata component is what the non-wrapping call of the decompressor gives; that this is what the wrapping calls give is assumed only where `Inflate.InflatesWhole` is required.
- ZipWriter.WalkInvertsArchive: archives without bytes ahead of the first local header, where offsets count from the start of the file.
- Zip.WalkZip: positions are unbounded integers, as on a 64-bit target; the overflow checks that matter on a 32-bit `usize` cannot fail here.
- PutKey.PutSdKeys: the session answers as scripted, as in the LOAD loop; generated and imported keys are a given table, and key generation is not modelled.
- AES, DES and CMAC themselves: arbitrary bijections and an arbitrary function of the right sizes.
- Zeroization, constant-time comparison, critical sections and the random generator: comparison is equality, and random bytes are inputs.
- Transports, the card manager, environment and hex parsing, Debug output: plumbing.
- Life-cycle tables, mapping of general status words to error variants, key-type and privilege decoding, SCP selection, and the fixed-layout builders other than LOAD, PUT KEY and GET STATUS: finite tables.
- Card recognition data, card capability information and key information templates: shallow consumers of the TLV parser.
- Conservation of session slots across failed opens: the backend documents that slots can stay held, and the table properties are stated at the backend.
- Error payload texts: one constructor stands for each message.
