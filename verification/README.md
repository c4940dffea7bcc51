# Verification of mmhashchainsigs

mmhashchainsigs makes a log tamper-evident. A signer inside rsyslog feeds every payload into a hash
chain, `H(n) = H(H(n-1) || be64(n) || payload)`, and puts a structured-data element (section 6.3 of
RFC 5424) with the chain head, and from time to time a signature of it, in front of the payload. A
separate verifier reads the stored lines, strips the elements, recomputes the chain and checks the
signatures. This project models both halves down to the characters of the lines between them and
proves what they promise each other.

`dafny verify dfyconfig.toml` checks everything.

## How the model is built

* **Text and octets.** A C `char *` is a `string`; binary data (hashes, fingerprints, signatures,
  certificates) is `octets`, characters below 256. `octets.dfy` has the printed forms, `sdtext.dfy` the
  quote-aware scanner and the rendering of elements, `sdrecord.dfy` the chain record and the
  certificate element, `sdstrip.dfy` and `sdbuffers.dfy` the strippers with their buffer loops,
  `header.dfy` the header element and the assembly of payload and line, `carriage.dfy` and
  `assembly.dfy` what the verifier reads back from such a line, `statefile.dfy` the state file.
* **Writes out of bounds.** The base64 decoder is never told the size of its destination, which is the
  144-octet signature field or the 4096-octet certificate buffer. The model carries both sizes. A text that
  decodes past one of them is an overrun (`StripOverrun`, `CertOverrun`, `Overrun`); by convention the
  verifier is then `Lost` and takes no further line, such a file is not accepted in the sense of
  `LogVerifier.Accepts`, and nothing is claimed about what the program does from there on. A copy of
  length -1 modulo 2^64, which the strip makes when a closing bracket follows an unterminated line in
  memory, is an overrun too (`SdRecords.StripLineBefore`). The encoder has the same flaw on the signer's
  side: a signature of more than 150 octets would be written past its 204 characters before its length is
  tested (src/common/hcs_format.c:64-75). The signer's own buffer holds 144, so no call reaches this, and
  `SdRecords.FormatRecord` has a refusal there.
* **Cryptography.** The digest and the signature check are arbitrary functions held in
  `Crypto.Primitives`; only the digest length is fixed per algorithm. The hash is not assumed
  injective: where the argument needs it not to collide, the result names the two colliding inputs,
  computed from the data at hand (`Crypto.FindCollision`, `LogTheorems.SwapCollides`). The signer's
  signing primitive is a function passed with each call, so it may be randomised and may fail.
* **State.** `HashChains.HashChain`, `SigningWorker.Worker` and `LogVerifier.Verifier` are objects whose
  methods update their fields as the C code does. Each method's contract ties its new state and its
  results to a step function on values (`Signer`, `LogVerifier`), and the theorems are about those
  functions.
* **Whole lives.** `Lifecycle.Run` composes messages, final signatures, graceful restarts (save, then
  load) and crash restarts; the state-file text is all that outlives a worker. `Lifecycle.HistoryOf`
  records what was fed and what was signed.

## Main results

* `Acceptance.AcceptanceIsLogOk`: the verifier accepts a file if and only if the file is a good log,
  stated line by line without reference to the verifier's state.
* `Completeness.HonestLogsAreAccepted`: for every life of the signer, with signatures that fail at will
  and payloads of any form, the log is accepted exactly when it is not empty, none of its lines is flawed
  and, in strict mode, the last one is a signature; or a collision of the hash is named. A line is flawed
  when it continues a chain one of whose payloads got no line (`GapsExactly` says when: a signature failed),
  when in strict mode it opens a chain behind an unsigned tail, or when the verifier will not read its
  payload back. `CarriedLogsAreDecided` has no collision clause, `SteadyLives.SteadyLogsAreAccepted` is the
  case without failures, and `FlawedLives.SampleLives` shows concrete lives that are rejected.
* `LogFiles.HonestFilesAreAccepted`: the same for the command line, where the log has gone through a file
  and its lines have been split and trimmed.
* `Report.RunIsReported`, `StopIsReported`, `EndIsReported`: for every log, faulty ones included, the
  verifier's errors are the first 64 faults of a report written line by line from the log, and its chain
  head is the fold of the payloads that were read. `AlteredTailIsReported`: behind one changed payload every
  later line of the segment is reported, or a collision is named.
* `Calls.SignaturesAreOnSchedule`, `MessageWrites`, `ForeignStateIsDropped`, `OwnStateIsFinished`: what each
  call of the signer writes and signs, when a signature is due over a whole life, and that a state saved
  under another key or algorithm is dropped.
* `Evidence.AcceptedLogIsEvidence`: at every SIG line of every accepted log the stripped payloads of the
  segment are exactly a run of payloads the signer was fed and signed, or a collision or a forgery is
  exhibited. `Evidence.AcceptedHeadersAreSigned` carries this to the six header fields of each message.
* `LogTheorems.SegmentsCompose`, `RangesTile`, `ChangedPayloadIsLocated`, `DeletedLineIsLocated`,
  `VerifierInvariant`: composition, tiling of the signed ranges, localisation, and an invariant of
  arbitrary, also hostile, logs.
* `SdRecords.LineRoundTrip`, `SdStrip.StripIsFilter`, `SdStrip.StripAllSd`,
  `SdHeader.HeaderSelfDelimiting`, `SdRecords.CertRoundTrip`, `StateFile.LoadsExactly`: the text layer;
  `layouts.dfy` writes the alphabets, the digest input, the elements and the state file out literally.
* `Assembly.StoredLineCarriesFields`: from the line the plugin stores the verifier gets back the record
  and the text that was hashed exactly when that text fits, no header field contains the certificate
  mark, and a walk over the client's section and the message does not come to spell it.

Results that say where the code falls short of a simple promise, each with its exact condition:

* Removing elements can leave a mark behind, their own or another. `SdStrip.StripLeaves` says when, for
  every text and mark, by a walk over the input; `SdStrip.StripTwice` is the case of a second strip, and
  `SdHeader.CleanedContains` that of the section a client sent, with each of the signer's three marks.
  `SdStrip.StripCanGlue` and `SdHeader.CleaningCanGlue` give inputs.
* An element that has one of the signer's identifiers and no parameters is not removed
  (`SdHeader.BareElementStays`, `SdStrip.NoneSurvives`).
* A payload that is too long or contains the certificate mark is not read back
  (`Carriage.CarriesExactly`); a message text (`Assembly.MarkedMessageIsNotCarried`), a client element
  (`Assembly.ClientCertIsNotCarried`) and a header field (`Assembly.HostileHostIsNotCarried`; a parsed host
  name has no space, so this takes a field set by other means) can bring the mark in.
* The decoders overrun their destinations (`SdRecords.CertRoundTrip`, `Carriage.LargestCertOverruns`,
  `Carriage.LongSignatureOverruns`), although src/common/hcs_format.h promises a refusal.
* A failed signature is not rolled back (`Completeness.FailedSignatureIsFatal`, `GapsExactly`,
  `FlawedLives.LostSignatureIsRejected`).
* A crash behind an unsigned tail makes a strict verifier reject the log
  (`FlawedLives.CrashIsRejectedStrictly`).
* A failed signature inside the restart call resets the chain but not the start of the next signature
  (`Signer.FinalKeepsCount`). `Signer.CountingCanBeLost` is an input of the exported function only: the
  signer makes this call on a just-initialised worker, where that start is 1.
* A payload with a newline, or with a carriage return at its end, does not survive the way through a file
  (`LogVerifier.FileRoundTrip`, `LogFiles.LogSurvivesFile`), and its log is rejected
  (`LogFiles.HonestFilesAreAccepted`).

## Model

| member | source | states |
|---|---|---|
| `Octets.HexRoundTrip` | src/common/hcs_format.c:34-62 | decoding inverts encoding for all octets, and the digits need no escaping |
| `Octets.HexEncodeInto` | src/common/hcs_format.c:34-44 | the loop writes exactly the digits and the terminator, and nothing after them |
| `Octets.HexDecodeInto` | src/common/hcs_format.c:46-62 | the loop succeeds exactly when `%2x` reads every pair of an even-length text that fits, and otherwise leaves what stood before the first bad pair |
| `Layouts.HexAlphabet` | src/common/hcs_format.c:34-62 | digits are printed in lower case and read in either |
| `Layouts.HexPlaces` | src/common/hcs_format.c:34-44 | each octet is printed as its high digit and then its low one |
| `Layouts.PairRead` | src/common/hcs_format.c:56-56 | `%2x` reads one or two digits, or a sign and one digit, behind white space |
| `Octets.DecimalRoundTrip` | src/common/hcs_format.c:411-425 | strtoull reads a printed 64-bit number back and stops at its last digit |
| `Octets.DecimalFits` | src/common/hcs_format.c:417-417 | every 64-bit number prints in 1 to 20 digits, so the parser's length guard never rejects one |
| `Layouts.NumberRead` | src/common/hcs_format.c:421-423 | strtoull reads white space, a sign and digits, saturates, negates modulo 2^64, and stops at the first other character |
| `Octets.Be64RoundTrip` | src/common/hcs_crypto.c:41-51 | the eight octets determine the number |
| `Octets.Uint64ToBe` | src/common/hcs_crypto.c:41-51 | the eight shifted writes leave the big-endian octets |
| `Octets.B64RoundTrip` | src/common/hcs_format.c:64-95 | decoding with the pad correction inverts encoding for every octet string (section 4 of RFC 4648) |
| `Octets.B64DecodeInto` | src/common/hcs_format.c:77-95 | trimming and block loop succeed exactly on decodable text, and report an overrun exactly when the groups of three exceed the destination |
| `Octets.TrimBase64` | src/common/hcs_format.c:86-87 | blanks in front and line ends, blanks and hyphens behind are skipped, as long as more than three characters stay |
| `Layouts.Base64Places` | src/common/hcs_format.c:64-75 | three octets become the four characters of the base64 alphabet that their 24 bits name, highest first |
| `Layouts.Base64Ends` | src/common/hcs_format.c:64-75 | one or two octets at the end are filled up with zero bits and `=` |
| `Layouts.Base64Trims` | src/common/hcs_format.c:86-87 | blanks in front and line ends, blanks and hyphens behind an encoded text leave what is decoded |
| `Octets.WrittenWhenDecodable` | src/common/hcs_format.c:77-95 | a decodable text writes three octets for every four characters that are left of it, padding included |
| `Octets.BlankInFront` | src/common/hcs_format.c:86-87 | a blank in front does not shorten the write |
| `Octets.WrittenEncoded` | src/common/hcs_format.c:64-95 | decoding an encoded text writes its length rounded up to a multiple of three |
| `Crypto.AlgRoundTrip` | src/common/hcs_crypto.c:53-90 | an algorithm is recovered from its name and from the printed width of its hashes |
| `Crypto.ChainInputInjective` | src/common/hcs_crypto.c:102-141 | the digest input determines previous hash, number and payload |
| `Layouts.ChainInputPlaces` | src/common/hcs_crypto.c:102-141 | the digest input is the previous hash, the number in eight octets from the highest, and the payload |
| `Layouts.ChainStart` | src/common/hcs_format.c:12-28 | a chain starts from the digest of its initial vector |
| `Layouts.Algorithms` | src/common/hcs_crypto.c:53-90 | the three algorithms by their names, in any case, and the lengths of their digests |
| `Crypto.HeadIsNotInit` | src/common/hcs_format.c:12-28 | the input of the initial hash is never the input of a later link |
| `Crypto.FindCollision` | src/common/hcs_crypto.c:102-141 | walks two different chains with one head back to two different inputs with one digest |
| `Crypto.ChainBinding` | src/common/hcs_crypto.c:102-141 | one head means one list of payloads, of any lengths, or that walk yields a collision |
| `HashChains.HashChain.Init` | src/mmhashchainsigs/hashchain.c:9-19 | the chain is the fresh chain of the algorithm |
| `HashChains.HashChain.Update` | src/mmhashchainsigs/hashchain.c:21-36 | the new state is the old one extended by the payload |
| `HashChains.HashChain.ResetCount` | src/mmhashchainsigs/hashchain.c:43-46 | only the count changes, to zero |
| `HashChains.HashChain.Reset` | src/mmhashchainsigs/hashchain.c:48-51 | the chain is fresh again under its own algorithm |
| `HashChains.ExtendTracks` | src/mmhashchainsigs/hashchain.c:21-36 | a chain whose head is the fold of what it was fed stays so when fed one more payload |
| `SdText.FindAfter` | src/common/hcs_format.c:192-198 | a mark preceded by text free of it is found where it stands |
| `SdText.ScanRendered` | src/common/hcs_format.c:488-505 | the quote-aware scan of rendered parameters stops exactly at the bracket that closes them |
| `SdText.GetParamRendered` | src/common/hcs_format.c:344-371 | looking a key up in rendered parameters finds that parameter's own value, or nothing when it is absent |
| `SdText.EscapeRoundTrip` | src/common/hcs_format.c:281-300 | escaping yields a value as section 6.3.3 of RFC 5424 demands, and unescaping recovers the original |
| `SdBuffers.ReadParam` | src/common/hcs_format.c:344-371 | the pointer loop finds the first parameter with the key, standing first or after a space |
| `SdBuffers.SkipQuoted` | src/common/hcs_format.c:359-363 | the inner loop stops at the first unescaped quote, or at the end |
| `SdBuffers.ScanLine` | src/common/hcs_format.c:562-577 | the line scan stops just past the bracket that closes the element, one past the line inside an open quote, and else at its end behind no closing bracket |
| `SdBuffers.StripSdFromLine` | src/common/hcs_format.c:545-593 | whatever follows the line in memory, the buffer holds the stripped line and the record is the parsed one, or both are refused, or a write leaves its destination |
| `SdBuffers.ParseParams` | src/common/hcs_format.c:427-481 | reading the parameters one by one into a record and a signature field of 144 octets is the parse of the body |
| `SdBuffers.ExtractAndStripCert` | src/common/hcs_format.c:178-256 | with one buffer or two the same text is left and the same certificate decoded; a refusal changes no text, and the destination is overrun exactly when the groups do not fit |
| `SdBuffers.MoveDown` | src/common/hcs_format.c:246-252 | a front-first copy to a lower place in the same buffer copies the original text |
| `SdRecords.ParseRendered` | src/common/hcs_format.c:427-481 | for all four shapes, parsing what was printed recovers every field, present or absent, unless the signature exceeds its field |
| `SdRecords.ParsesExactly` | src/common/hcs_format.c:427-481 | for every body, exactly which record is parsed: the type letter, a whole number, a hash of a known width, the range as far as it reads, an optional fingerprint, and a signature that fits |
| `Layouts.MsgText` | src/common/hcs_format.c:117-130 | the text of a message record |
| `Layouts.InitText` | src/common/hcs_format.c:99-115 | the text of an opening record |
| `Layouts.SigText` | src/common/hcs_format.c:132-153 | the text of a signature record |
| `Layouts.CertificateText` | src/common/hcs_format.c:155-176 | the text of a certificate element |
| `SdRecords.LineRoundTrip` | src/common/hcs_format.c:545-593 | stripping a line built around a printed record returns the text around it and that record exactly when the signature fits its field and the text its buffer |
| `SdRecords.StripIsRemoval` | src/common/hcs_format.c:545-593 | a line is stripped to a text and a record if and only if its first chain element ends where the scanner stops, parses as that record, and the text around it is that text and fits; likewise for an overrun |
| `SdRecords.CertRoundTrip` | src/common/hcs_format.c:155-256 | extracting a printed certificate returns it and the text around it exactly when its decoded groups fit the destination, and overruns otherwise |
| `SdRecords.ExtractIsRemoval` | src/common/hcs_format.c:178-256 | for every text, exactly when a certificate is absent, removed, or decoded past its destination, white space around its text included; in every other case it is reported malformed |
| `SdRecords.NoCertToExtract` | src/common/hcs_format.c:199-209 | text that fits is left alone exactly when it is free of the certificate mark |
| `SdRecords.FormatNeverFails` | src/common/hcs_format.c:132-153 | no chain element exceeds 436 characters, so none is refused by a buffer of 512 |
| `SdStrip.StripAllSd` | src/common/hcs_format.c:507-543 | into another buffer or in place the result is the two-buffer strip of the original text; it fails exactly when it does not fit |
| `SdStrip.ScanBuffer` | src/common/hcs_format.c:488-505 | the scan loop agrees with the element scan on a buffer whose unread part is original |
| `SdStrip.StripIsFilter` | src/common/hcs_format.c:507-543 | on sections of well-formed elements the strip keeps exactly the other elements, whole and in order |
| `SdStrip.StripIdempotent` | src/common/hcs_format.c:507-543 | on such sections a second strip changes nothing and no mark is left |
| `SdStrip.StripFixpoint` | src/common/hcs_format.c:507-543 | for every text, a strip changes it exactly when the mark occurs in it |
| `SdStrip.StripLeaves` | src/common/hcs_format.c:507-543 | for every text, strip and mark, the stripped text and what follows it contain the mark if and only if the walk over the input comes to spell it |
| `SdStrip.StripTwice` | src/common/hcs_format.c:507-543 | a second strip changes nothing if and only if the walk never spells the mark of the first |
| `SdStrip.StripCanGlue` | src/common/hcs_format.c:507-543 | for every identifier, an input that the first strip turns into a text the second one changes |
| `SdStrip.StripBoth` | src/mmhashchainsigs/mmhashchainsigs.c:612-642 | the two passes leave exactly the elements that have neither identifier or no parameters |
| `SdStrip.NoneSurvives` | src/mmhashchainsigs/mmhashchainsigs.c:612-642 | no element with either identifier is left if and only if none of them came without parameters |
| `SdHeader.EscapeParam` | src/common/hcs_format.c:281-300 | the loop writes the escaped text, and refuses exactly when it and its terminator do not fit |
| `SdHeader.FormatHdr` | src/common/hcs_format.c:302-342 | five bounded escapes and a bounded print give the header element, or a refusal exactly when a field or the whole does not fit |
| `Layouts.HeaderText` | src/common/hcs_format.c:302-342 | the header element shows each field, the texts escaped, under its own name |
| `Layouts.HeaderFields` | src/common/hcs_format.c:336-339 | looking up each of the six names and undoing the escape gives the field of that name |
| `Layouts.HeaderSearched` | src/common/hcs_format.c:302-371 | for fields without spaces the parameter search in the header's text gives the same |
| `Layouts.HeaderBounds` | src/common/hcs_format.c:302-342 | for fields without characters to escape, the exact lengths at which the header is formatted |
| `Layouts.EscapePlaces` | src/common/hcs_format.c:281-300 | wherever they stand, exactly quotes, backslashes and closing brackets get a backslash |
| `SdHeader.HeaderSelfDelimiting` | src/common/hcs_format.c:302-342 | equal texts that start with header elements have equal headers and equal rests, and the scan stops at the header's bracket |
| `SdHeader.PayloadDeterminesHeader` | src/mmhashchainsigs/mmhashchainsigs.c:644-670 | equal hashed texts come from equal header fields |
| `SdHeader.CleanSection` | src/mmhashchainsigs/mmhashchainsigs.c:603-642 | the two strips, the second in place, give the cleaned section and cannot fail for want of room |
| `SdHeader.CleanedSection` | src/mmhashchainsigs/mmhashchainsigs.c:612-642 | the client's section becomes its untargeted elements, whole, in order and with their repetitions |
| `SdHeader.BareElementStays` | src/mmhashchainsigs/mmhashchainsigs.c:612-642 | a client's element with a signer's identifier and no parameters is passed on |
| `SdHeader.CleanedContains` | src/mmhashchainsigs/mmhashchainsigs.c:612-642 | what is passed on after both strips, with what follows, contains a mark if and only if the walk of the second strip over the result of the first comes to spell it |
| `SdHeader.CleanedMarks` | src/mmhashchainsigs/mmhashchainsigs.c:612-642 | the same for the chain, the header and the certificate mark in the section that is passed on |
| `SdHeader.CleaningCanGlue` | src/mmhashchainsigs/mmhashchainsigs.c:612-642 | inputs on which the chain mark is left, spelt by what stood on both sides of a removed element |
| `Carriage.CarriesExactly` | src/verify/verifier.c:405-438 | a printed record and payload are read back exactly when the payload fits and is free of the certificate mark |
| `Carriage.CarriesWithCert` | src/verify/verifier.c:405-438 | behind the signer's own certificate every payload is read back, unless it does not fit or the certificate overruns its buffer |
| `Carriage.EmbeddedCertFits` | src/verify/verifier.c:420-426 | of the certificates the formatter embeds only one of 4096 octets overruns, and the signer's buffer is too small for it |
| `Carriage.LargestCertOverruns` | src/verify/verifier.c:420-426 | that certificate is formatted, and its line overruns the verifier |
| `Carriage.LongSignatureOverruns` | src/common/hcs_format.c:463-478 | a signature of 145 to 150 octets passes the length guard and overruns its field |
| `Carriage.LongSignatureExists` | src/common/hcs_format.c:466-478 | such a line, written out |
| `Carriage.LineInFile` | src/verify/mmhashchainsigs_verify.c:124-132 | a file gives a signer's line back exactly when its payload has no newline and does not end in a carriage return |
| `Assembly.StoredLineCarries` | src/mmhashchainsigs/mmhashchainsigs.c:644-691 | from the stored line the verifier gets back the record and the hashed text exactly when that text is carried |
| `Assembly.StoredLineCarriesFields` | src/mmhashchainsigs/mmhashchainsigs.c:644-691 | that is, when it fits, no header field contains the certificate mark, and the walk over section and message does not spell it |
| `Assembly.MarkedMessageIsNotCarried` | src/mmhashchainsigs/mmhashchainsigs.c:656-668 | a message text that contains the mark anywhere is not read back |
| `Assembly.EscapeKeepsMark` | src/common/hcs_format.c:281-300 | escaping neither makes nor breaks the mark |
| `Assembly.MarkInHeader` | src/common/hcs_format.c:302-342 | the header element contains the mark exactly when one of its text fields does |
| `Assembly.ClientCertIsNotCarried` | src/mmhashchainsigs/mmhashchainsigs.c:612-642 | a client's certificate element is passed on, and its line is not read back |
| `Assembly.HostileHostIsNotCarried` | src/common/hcs_format.c:281-342 | a host field that spells the mark is not escaped, and its line is not read back |
| `StateFile.StateRoundTrip` | src/mmhashchainsigs/mmhashchainsigs.c:255-273 | loading a saved state gives the same algorithm, hash, numbers and fingerprint |
| `StateFile.LoadAnyOrder` | src/mmhashchainsigs/mmhashchainsigs.c:313-363 | field lines in any order, repeats included, load to the same state exactly when the hash, both numbers and the fingerprint are among them; without an algorithm line it is SHA-256 |
| `StateFile.LoadsExactly` | src/mmhashchainsigs/mmhashchainsigs.c:298-363 | for every text, a state is loaded exactly when the magic word stands first, no line names an unknown algorithm and some line gives each of the four fields; the last line wins |
| `StateFile.SplitIs` | src/mmhashchainsigs/mmhashchainsigs.c:298-320 | the reads cut the whole text, in order, at newlines and where 255 characters are full |
| `StateFile.LongWordIsCut` | src/mmhashchainsigs/mmhashchainsigs.c:323-350 | a word longer than its limit is cut there |
| `Layouts.StateText` | src/mmhashchainsigs/mmhashchainsigs.c:262-273 | the text that is saved |
| `StateFile.FieldLineSets` | src/mmhashchainsigs/mmhashchainsigs.c:323-355 | each field line sets its own field and flag and nothing else, whatever was loaded before |
| `StateFile.FromLine` | src/mmhashchainsigs/mmhashchainsigs.c:341-347 | a `sig_seq_from=` line is never taken for a `seq=` line |
| `StateFile.LoadState` | src/mmhashchainsigs/mmhashchainsigs.c:286-364 | the reading loop with its bit mask loads exactly what the specification says, or nothing |
| `Signer.ProcessMsgKeeps` | src/mmhashchainsigs/mmhashchainsigs.c:43-136 | every call, also a failing one, keeps count = next - start; a call that emits leaves a tail within the interval |
| `Signer.FinalSignKeeps` | src/mmhashchainsigs/mmhashchainsigs.c:138-176 | the final signature keeps the count and, when it succeeds, leaves nothing unsigned |
| `Signer.FinalLeavesFresh` | src/mmhashchainsigs/mmhashchainsigs.c:178-231 | from a just-initialised worker every outcome leaves a fresh chain |
| `Signer.FinalKeepsCount` | src/mmhashchainsigs/mmhashchainsigs.c:195-218 | from any worker counting survives unless the signature fails while the next signature starts after 1 |
| `Signer.CountingCanBeLost` | src/mmhashchainsigs/mmhashchainsigs.c:195-205 | a worker fed two payloads at which a failed signature ends the agreement of count and numbers |
| `Signer.UnfinishedStateIsDropped` | src/mmhashchainsigs/mmhashchainsigs.c:54-76 | a payload whose pending state cannot be finished is chained exactly once, first in the surviving chain |
| `Signer.RestartRefines` | src/mmhashchainsigs/mmhashchainsigs.c:178-284 | save, load and one message emit the record the never-stopped worker would have emitted, over the same digest |
| `Calls.MessageWrites` | src/mmhashchainsigs/mmhashchainsigs.c:70-136 | a due message is signed from just behind the last signature, one that is not due gets a plain record and no signature, a failed signature writes nothing |
| `Calls.MessageParses` | src/mmhashchainsigs/mmhashchainsigs.c:86-107 | the emitted element parses to a SIG record exactly when the interval is reached, and to a MSG record otherwise |
| `Calls.SignaturesAreOnSchedule` | src/mmhashchainsigs/mmhashchainsigs.c:86-107 | over every life whose signatures succeed, a message is signed exactly when that covers max(1, interval) numbers, max(2, interval) for the first of a chain |
| `Calls.CloseWrites` | src/mmhashchainsigs/mmhashchainsigs.c:138-176 | a final call does nothing when nothing is unsigned, and otherwise signs one empty payload more |
| `Calls.ForeignStateIsDropped` | src/mmhashchainsigs/mmhashchainsigs.c:54-68 | a state of another key or algorithm changes nothing: the message opens a chain with INIT and nothing is signed |
| `Calls.OwnStateIsFinished` | src/mmhashchainsigs/mmhashchainsigs.c:178-231 | a state of this key is finished by a signature that continues it, or, if that fails, dropped |
| `Calls.ForeignFileIsDropped` | src/mmhashchainsigs/mmhashchainsigs.c:184-192 | what a signer with another key or algorithm saved is dropped |
| `Calls.RestartContinues` | src/mmhashchainsigs/mmhashchainsigs.c:239-284 | after a graceful restart the next message signs the old chain if anything of it was unsigned, and opens a new one otherwise |
| `SigningWorker.Worker.constructor` | src/mmhashchainsigs/mmhashchainsigs.c:471-480 | a new worker holds the loaded state, if a directory is configured |
| `SigningWorker.Worker.Initialize` | src/mmhashchainsigs/mmhashchainsigs.c:19-41 | a key that loads gives a fresh worker, one that does not changes nothing |
| `SigningWorker.Worker.OnMessage` | src/mmhashchainsigs/mmhashchainsigs.c:43-68 | state, element, digest signed and the deletion of the state file are those of the step function |
| `SigningWorker.Worker.Chain` | src/mmhashchainsigs/mmhashchainsigs.c:70-136 | the three kinds of record, their effects on the counters, and the optional certificate |
| `SigningWorker.Worker.OnFinal` | src/mmhashchainsigs/mmhashchainsigs.c:178-231 | state and outcome of finishing a saved chain, on all return paths |
| `SigningWorker.Worker.OnClose` | src/mmhashchainsigs/mmhashchainsigs.c:138-176 | state and outcome of the final signature, on all return paths |
| `SigningWorker.Worker.SaveState` | src/mmhashchainsigs/mmhashchainsigs.c:235-284 | the text saved, and that nothing is saved when nothing is unsigned |
| `LogVerifier.Verifier.RecordError` | src/verify/verifier.c:80-98 | an error is appended unless 64 are recorded |
| `LogVerifier.Verifier.VerifyHash` | src/verify/verifier.c:172-213 | number, width and hash checks and the new chain state, as the step function |
| `LogVerifier.Verifier.OnInit` | src/verify/verifier.c:215-302 | fingerprint, tail, algorithm and hash checks of an INIT line, as the step function |
| `LogVerifier.Verifier.OnMsg` | src/verify/verifier.c:304-316 | a message line, as the step function |
| `LogVerifier.Verifier.OnSig` | src/verify/verifier.c:318-370 | hash, range and signature checks of a SIG line, as the step function |
| `LogVerifier.Verifier.OnContinue` | src/verify/verifier.c:372-392 | a CONTINUE line, as the step function |
| `LogVerifier.Verifier.OnLine` | src/verify/verifier.c:394-460 | one line of text, whatever follows it in memory: read, report a malformed certificate, dispatch; an overrun is final |
| `LogVerifier.Verifier.Read` | src/verify/verifier.c:404-433 | the line is stripped into one buffer, and its certificate out of it in place, into 4096 octets |
| `LogVerifier.Verifier.Finish` | src/verify/verifier.c:462-477 | the two checks at the end of a file |
| `LogVerifier.StoppedRun` | src/verify/mmhashchainsigs_verify.c:124-142 | stopping at a refused line is the same as feeding every line |
| `LogVerifier.VerifyFile` | src/verify/mmhashchainsigs_verify.c:118-145 | the loop over the text of a file leaves the state of a run over all its trimmed lines, and passes it exactly when that leaves no error |
| `LogVerifier.ReadFileLine` | src/verify/mmhashchainsigs_verify.c:124-124 | one line runs to its newline or to the end of the text |
| `LogVerifier.TrimLine` | src/verify/mmhashchainsigs_verify.c:127-131 | the loop removes exactly the newlines and carriage returns at the end |
| `LogVerifier.FileRoundTrip` | src/verify/mmhashchainsigs_verify.c:118-142 | lines written one by one are read back unchanged if and only if none contains a newline or ends in a carriage return |
| `LogVerifier.BehindIsNoMatter` | src/common/hcs_format.c:562-584 | only a closing bracket that follows a line in memory can change how it is read |
| `LogVerifier.OneMoreLine` | src/verify/mmhashchainsigs_verify.c:124-131 | behind any written lines, one more shows its text up to the first newline, trimmed, and nothing else exactly if it is a file line |
| `Acceptance.AcceptanceIsLogOk` | src/verify/verifier.c:172-482 | a file is accepted if and only if every line reads and the entries form a good log |
| `Acceptance.AcceptedCounters` | src/verify/verifier.c:210-211 | the counters of an accepted file are the numbers of its lines, signatures and segments |
| `Acceptance.RunExact` | src/verify/verifier.c:394-460 | after every prefix the state is error-free exactly when the prefix is good, and then it is the one the prefix determines |
| `Acceptance.ErrorsGrow` | src/verify/verifier.c:80-98 | a recorded error is never forgotten, changed or moved |
| `Acceptance.SegStartIsNearest` | src/verify/verifier.c:259-299 | the start of a line's segment is the nearest INIT at or before it |
| `LogTheorems.VerifierInvariant` | src/verify/verifier.c:80-98 | over every log at most 64 errors, none forgotten, and without errors the tail subtractions do not wrap |
| `LogTheorems.SegmentsCompose` | src/verify/verifier.c:259-299 | a file extended by one that opens with INIT is accepted exactly when both are and they share the algorithm; the counters add |
| `LogTheorems.RangesTile` | src/verify/verifier.c:338-368 | in a good log every number up to the last signed one lies in exactly one SIG range of its segment |
| `LogTheorems.ChangedPayloadIsLocated` | src/verify/verifier.c:193-208 | changing one payload of an accepted log makes that line the first error, a hash mismatch, or exhibits a collision |
| `LogTheorems.DeletedLineIsLocated` | src/verify/verifier.c:178-183 | deleting a line inside a segment is reported at the following line, by its number |
| `Report.RunIsReported` | src/verify/verifier.c:172-460 | for every log that no line stops, errors, head, number, signed range and counters are those of the report |
| `Report.StopIsReported` | src/verify/verifier.c:215-460 | the first line that stops the run is reported with its own faults, and nothing behind it matters |
| `Report.EndIsReported` | src/verify/verifier.c:462-477 | at the end only an empty file and a strict unsigned tail are added |
| `Report.FaultIsRecorded` | src/verify/verifier.c:80-98 | while fewer than 64 faults have been found, a faulty line adds its own first fault |
| `Report.AlteredTailIsReported` | src/verify/verifier.c:193-208 | behind a changed payload of an accepted log every later line of the segment is a hash mismatch, or a collision is named |
| `Report.NumbersWrap` | src/verify/verifier.c:338-343 | successor, predecessor and difference are taken modulo 2^64 |
| `Lifecycle.HistoryStep` | src/mmhashchainsigs/mmhashchainsigs.c:43-284 | every event, failed calls and crashes included, keeps the chains and signatures equal to runs of what was fed |
| `Lifecycle.RunKeepsHistory` | src/mmhashchainsigs/mmhashchainsigs.c:43-284 | the same over every life of the signer |
| `Evidence.AcceptedLogIsEvidence` | src/verify/verifier.c:318-370 | at each SIG line of an accepted log the payloads are a signed run of what the signer was fed, or a collision or a forgery is shown |
| `Evidence.AcceptedHeadersAreSigned` | src/mmhashchainsigs/mmhashchainsigs.c:596-670 | each line up to a SIG of an accepted log shows a message with the header fields it was given with, or is an empty closing payload, or a collision or a forgery is shown |
| `Completeness.HonestLogsAreAccepted` | src/verify/verifier.c:394-477 | for every life of the signer the log is accepted exactly when it has a line, no flawed one and, if strict, a signature last; or a collision is named |
| `Completeness.CarriedLogsAreDecided` | src/verify/verifier.c:394-477 | when payloads are carried, the same without the collision |
| `SteadyLives.SteadyLogsAreAccepted` | src/verify/verifier.c:394-477 | when signatures succeed too, every log with a line is accepted; strictly, with graceful restarts, exactly when the last line is a signature |
| `Completeness.RunSim` | src/mmhashchainsigs/mmhashchainsigs.c:43-231 | after every life the verifier agrees with the chain in progress, or lags behind one with a gap, or shows the flaw |
| `Completeness.GapsExactly` | src/mmhashchainsigs/mmhashchainsigs.c:86-95 | a payload goes without a line exactly when a message or a final signature fails on a live chain; idle closings and resuming restarts keep the gap, a chain given up has none |
| `Completeness.FailedSignatureIsFatal` | src/mmhashchainsigs/mmhashchainsigs.c:86-231 | the next line written on a chain with a gap, also after a restart, makes the log rejected |
| `FlawedLives.LostSignatureIsRejected` | src/mmhashchainsigs/mmhashchainsigs.c:86-95 | for every configuration with a signing interval of at most two, a life of three messages is rejected when the signature due at the second fails |
| `FlawedLives.CrashIsRejectedStrictly` | src/verify/verifier.c:259-266 | a crash behind an unsigned tail is rejected in strict mode and in no other |
| `FlawedLives.SampleLives` | src/verify/verifier.c:394-477 | both for a concrete signer and verifier |
| `Completeness.WithCertPrints` | src/mmhashchainsigs/mmhashchainsigs.c:113-133 | whether an opening line carries the certificate depends on the configuration and the buffer alone |
| `LogFiles.LogSurvivesFile` | src/verify/mmhashchainsigs_verify.c:118-142 | a log written to a file is read back as it was exactly when every payload with a line has no newline and no carriage return at its end |
| `LogFiles.HonestFilesAreAccepted` | src/verify/mmhashchainsigs_verify.c:118-145 | the log of a life, through a file, is accepted exactly when it has a line, no flawed and no cut one and, if strict, a signature last; or a collision is named |

## Left out

- The digests, signature algorithms, key files, certificates' contents, chain validation and revocation lists: arbitrary functions or configuration here. A digest of another length is cut or padded to its algorithm's length.
- The trust-store mode of the verifier (src/verify/verifier.c:229-243) and `install_pubkey_from_cert`: the model has the fixed-key and pinned-certificate modes, where the key and fingerprint are known from the start.
- rsyslog's module macros, configuration parsing, worker counting and message accessors; of `doAction` the cleaning of the section and the assembly of payload and line are modelled. A message that rsyslog retries after a failed call is not modelled as a retry.
- File operations: the state file is one text that is replaced or deleted atomically, and never fails to open.
- Allocation failure, and the wording of error messages: an error is its line number and kind.
- Octets.HexDecodeInto: a pair `0x` is refused, as the C standard has it for `%2x`; some C libraries read it as zero.
- Octets.B64DecodeInto: the trimming and the table are those of OpenSSL's block decoder, which is not part of the repository; what happens after a write past the destination is not modelled.
- LogVerifier.Verifier.VerifyHash: the line and message counters are unbounded, which is exact for files of fewer than 2^64 lines. The successor and the differences that a hostile record can influence wrap at 64 bits as in the source.
- Lifecycle.RunKeepsHistory: lives of fewer than 2^64 - 1 events, so that sequence numbers stay within 64 bits.
- SigningWorker.Worker.OnMessage: the signing primitive is a function given with the call; the choice of key, the file deletion itself and the buffer of the caller appear as parameters and results.
- SdRecords.FormatNeverFails: the formatters return text or a refusal by length rather than filling a buffer, since the source leaves that work to `snprintf`.
