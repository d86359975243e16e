# FIDO Device Onboard server: a verified model

This project models the stateful and encoding cores of the FDO server in Dafny and proves what they
promise over all inputs, all runs and all interleavings. `dafny verify dfyconfig.toml` checks it.

| module | what it models |
|---|---|
| `Hex`, `Decimal`, `Utf8`, `Cbor`, `CborBytes` | the text and byte encodings the rendezvous codecs call, down to bytes (section 8 of RFC 4648; section 3 of RFC 3629; section 3, section 3.1 and section 4.2.1 of RFC 8949) |
| `RvInstruction`, `RvInfoV2`, `RvInfoV1`, `RvInfoMigration` | both rendezvous-info APIs, their shared stored form, and the start-up migration |
| `OwnerStore`, `VoucherImport`, `RvRegistration`, `To0Scheduler`, `OwnerSystem` | the owner: voucher and onboarding tables, voucher import, TO0 registration, the background scheduler, and all of them interleaved |
| `BlobStore`, `RvSessions`, `Availability` | the rendezvous server: blobs, TTL admission, sessions, cleanup; and owner and server together |
| `DeviceCa`, `CaConcurrency` | trusted device CA certificates: import, pool, and concurrent requests |
| `ServiceInfo`, `OwnerModules`, `To2Sessions` | service-info validation, the per-session module iterator, and TO2 session state |

How the model is made:

- Tables are maps by primary key. A transaction restores its snapshot when a statement fails; which
  statement fails is a parameter. Objects and loops of the source are classes and methods, each proved
  against a function; whole-run results are lemmas about that function.
- Times are integer nanoseconds. Random session identifiers and replacement GUIDs are parameters, and
  freshness is a hypothesis only where a result needs it.
- A JSON document is what `json.Unmarshal` leaves behind, so JSON null is an empty list or object. A
  PEM text is the list of its blocks.
- `net.ParseIP`, `net.IP.String`, `x509.ParseCertificate`, SHA-256, `url.Parse`, path functions, the
  file system, voucher verification and servers' answers are function-valued parameters with only the
  laws that a `Lawful` predicate states.
- Lemmas named `...Exactly`, `...Stored`, `...Bytes`, `...Rows` and `...Items` state what an operation leaves in
  literal bytes, nanoseconds, variable numbers and fields, without the definitions that compute it.

Where the code differs from what one would expect, the model follows the code:

- V1 stores `ext_rv` as a text string while both printers read an array of strings: `V1RoundTrip` and
  `V2GetPutOnV1` show that a stored document can be printed if and only if no record has `ext_rv`.
- V1 stores the text of `user_input`, V2 stores none: V2 GET followed by PUT leaves a V1 document
  unchanged if and only if no record has `user_input`.
- V1 records have one field per variable: V1 GET followed by PUT leaves a V2 document unchanged if and
  only if its directives already look like V1 records (`V1GetPutOnV2`).
- V2 converts `delay_seconds` to 32 bits without a check: the round trip is exact if and only if every
  delay is below 2^32.
- A maximum wait of zero grants a TTL of zero, which the owner reads as 300 seconds
  (`RefreshMatchesExpiry`).
- A slow pool reload can overwrite a newer one (`SlowReloadLeavesStalePool`);
  `QuiescentExactly` says exactly when the pool equals the table once all requests have finished.
- A device can complete TO2 between the scheduler's check and its registration, and is then registered
  once more (`CompletedDuringRegistration`); `NeverAgainExactly` says exactly when it is not.
- `PRAGMA foreign_keys = ON` reaches one connection of the SQLite pool, and its failure is only logged:
  nonce rows always have a session if and only if every connection enforces the key
  (`IntegrityExactly`).
- A V1 `user_input` of any text prints as "true": V1 GET followed by PUT leaves a document unchanged if
  and only if every `user_input` is absent or "true" (`V1GetPut`).
- A TO2 setter that checked its session before the session was invalidated can still write after it
  (`DeadRowsExactly`).
- A comment in `cmd/owner.go:306` says 60 seconds; the code waits 10, and so does the model.
- Service-info validation drops the raw parameters, so validating twice fails (`SecondValidationFails`).
- A TO2 setter other than the creating ones succeeds and is lost when its row does not exist yet
  (`EarlyWriteLost`).

## Model

| member | source | states |
|---|---|---|
| Hex.Decode | internal/handlers/rvinfo/parser.go:251-254 | a decoded string is twice as long as its bytes, so odd lengths are refused |
| Hex.DecodeEncode | internal/handlers/rvinfo/converter.go:105-117 | every hash that is printed in hex parses back to the same bytes |
| Hex.EncodeDecode | internal/handlers/rvinfo/converter.go:105-117 | printing a parsed hash changes nothing but the case of its letters |
| Hex.DecodesExactly | internal/handlers/rvinfo/parser.go:251-254 | a hash is accepted exactly when it is an even number of hex digits |
| Hex.EncodeDigits | internal/handlers/rvinfo/converter.go:105-117 | byte i prints as its two lower-case digits, high one first |
| Decimal.AtoiFormat | internal/db/db.go:323-330 | a port printed in decimal parses back to the same number |
| Decimal.AtoiExactly | internal/db/db.go:646-671 | a port string is read exactly when it is decimal digits after at most one sign, and its value is that of the digits with the sign |
| Utf8.DecodeEncode | internal/handlers/rvinfo/parser.go:314-318 | every text survives its UTF-8 form inside a CBOR text string |
| Utf8.CharBytes | internal/handlers/rvinfo/parser.go:314-318 | a character's bytes by scalar value: the lead and tail ranges, and the scalar as their base-64 digits |
| Utf8.EncodeConcat | internal/handlers/rvinfo/parser.go:314-318 | the bytes of a text are those of its characters, in order |
| Utf8.DecodesExactly | internal/db/db.go:427-441 | bytes are read as a text exactly when they are its encoding; overlong, truncated and surrogate forms are refused |
| Cbor.Head | internal/db/db.go:190-193 | a written head carries its major type in the top three bits |
| Cbor.HeadRoundTrip | internal/db/db.go:190-193 | the shortest head of every argument below 2^64 reads back, whatever follows |
| Cbor.ArrayRoundTrip | internal/db/db.go:190-193 | an array of any length reads back element by element if its element codec does |
| CborBytes.UintBytes | internal/handlers/rvinfo/parser.go:331-345 | the bytes of every unsigned integer below 2^32, each a quotient of it, in the shortest of the five forms |
| CborBytes.WideUintBytes | internal/handlers/rvinfo/parser.go:331-345 | the nine bytes of an integer from 2^32, and refusal from 2^64 |
| CborBytes.ByteStringBytes | internal/handlers/rvinfo/parser.go:246-259 | a byte string is 0x40 plus its length or 0x58 to 0x5A with the length, then the bytes |
| CborBytes.TextBytes | internal/handlers/rvinfo/parser.go:314-318 | a text is 0x60 plus its length or 0x78 to 0x7A with the length, then its UTF-8 bytes |
| CborBytes.ArrayBytes | internal/db/db.go:190-193 | an array is 0x80 plus its length or 0x98 to 0x9A with the length, then its elements |
| CborBytes.ElementsInOrder | internal/db/db.go:190-193 | the elements of an array are written one after another, in order, and fail if any does |
| CborBytes.ReadsAnyWidth | internal/db/db.go:428-439 | an argument is read by its value whichever of the forms it was written in |
| CborBytes.ReadsOwnKind | internal/db/db.go:428-439 | each reader takes its own first bytes only: another kind, a reserved or an indefinite length is refused |
| RvInstruction.CodeName | internal/utils/rvinfo.go:48-80 | a protocol or medium name parses to a code that prints as that name |
| RvInstruction.NameCode | internal/utils/rvinfo.go:13-44 | printing a code and parsing it gives it back exactly for the named codes; a number is never a name |
| RvInstruction.DecodeEncode | internal/handlers/rvinfo/parser.go:313-345 | an instruction value is read into a Go type exactly when it has that type, and then unchanged |
| RvInstruction.StoredRoundTrip | internal/db/db.go:427-441 | directives stored as CBOR are fetched unchanged, at byte level |
| RvInstruction.CodesOfNames | internal/utils/rvinfo.go:13-80 | the seven protocol names have codes 0 to 6, the two medium names 20 and 21 |
| RvInstruction.InstrBytes | internal/db/db.go:190-193 | the stored bytes of one instruction: 0x82, the variable, and the value as a byte string |
| RvInstruction.DocumentBytes | internal/db/db.go:190-193 | the stored bytes of a directive and of a document: the array heads, then the parts in order |
| RvInfoV2.PortValue | internal/handlers/rvinfo/parser.go:349-367 | an accepted V2 port is the JSON integer itself and lies in 1..65535 |
| RvInfoV2.ExtRvStrings | internal/handlers/rvinfo/parser.go:287-305 | the loop over ext_rv yields the strings of the array, or an error if any item is not a string |
| RvInfoV2.Parse | internal/handlers/rvinfo/parser.go:39-91 | the nested loops with the address flag compute the parse of the document, with the position of the first error |
| RvInfoV2.Convert | internal/handlers/rvinfo/converter.go:23-137 | the nested loops compute the printed document, or fail if any value does not decode |
| RvInfoV2.KeyOfVariable | internal/handlers/rvinfo/parser.go:94-310 | the key the printer writes for a parsed instruction is the key that was parsed |
| RvInfoV2.InstrAccepted | internal/handlers/rvinfo/parser.go:94-310 | a key and value are accepted exactly when the value is one the key may have, and count as an address exactly for dns and ip |
| RvInfoV2.AcceptsExactly | internal/handlers/rvinfo/parser.go:39-91 | a document is accepted exactly when every object has one key with a good value and every directive names a dns or ip |
| RvInfoV2.ValueRoundTrip | internal/handlers/rvinfo/parser.go:94-310 | each accepted value prints as its canonical spelling and that parses to the same instruction |
| RvInfoV2.DocRoundTrip | internal/handlers/rvinfo/converter.go:23-137 | printing a parsed document keeps directives, instructions, order and duplicates, and parses to the same directives |
| RvInfoV2.V2RoundTrip | internal/handlers/rvinfo/parser.go:39-310 | PUT then GET through the stored bytes succeeds, reparses to identical directives, and is the canonical document if and only if every delay is below 2^32 |
| RvInfoV2.FlagsStored | internal/handlers/rvinfo/parser.go:192-285 | which variable each true flag is stored under, with no value |
| RvInfoV2.TextsStored | internal/handlers/rvinfo/parser.go:96-190 | the variable and the literal bytes of every dns, wifi_ssid and wifi_pw |
| RvInfoV2.NumbersStored | internal/handlers/rvinfo/parser.go:148-244 | the variable and the literal bytes of every port and of every delay below 2^32 |
| RvInfoV2.CodesStored | internal/handlers/rvinfo/parser.go:118-146 | the variable and the byte stored for each protocol and medium name |
| RvInfoV2.BytesStored | internal/handlers/rvinfo/parser.go:107-274 | the variable and the literal bytes of every certificate hash and IP address |
| RvInfoV2.ExtRvStored | internal/handlers/rvinfo/parser.go:287-305 | ext_rv is stored as variable 15, an array of the texts in order |
| RvInfoV2.FirstError | internal/handlers/rvinfo/parser.go:39-91 | a refused document reports the first bad object, or the first directive without dns or ip if it comes earlier, and that object's own fault |
| RvInfoV2.NumbersShown | internal/handlers/rvinfo/converter.go:29-128 | what GET shows of a stored number: any that fits the Go type of its variable, and no other |
| RvInfoV1.Port | internal/db/db.go:646-671 | an accepted V1 port is the decimal value of the string and lies in 1..65535 |
| RvInfoV1.Parse | internal/db/db.go:482-644 | the loop over records computes the parse of the document, or the first fault: a record without address, or its first bad field |
| RvInfoV1.ParseDoc | internal/db/db.go:506-644 | a document is accepted exactly when every record is, and yields the directive of each record in order |
| RvInfoV1.RecordAccepted | internal/db/db.go:507-640 | a record is accepted exactly when it has a dns or ip and every field is empty or well formed |
| RvInfoV1.Convert | internal/db/db.go:263-397 | the nested loops assigning struct fields compute the printed records |
| RvInfoV1.PrintDoc | internal/db/db.go:283-397 | printing succeeds exactly when every directive prints, and yields one record per directive in order |
| RvInfoV1.FieldPrints | internal/db/db.go:288-391 | field by field, an accepted record prints as its canonical field |
| RvInfoV1.ItemPrints | internal/db/db.go:379-389 | an accepted record prints as its canonical form, or not at all if it has ext_rv |
| RvInfoV1.V1RoundTrip | internal/db/db.go:263-397 | POST then GET through the stored bytes gives the canonical document if and only if no record has ext_rv, else an error |
| RvInfoV1.CanonicalReparses | internal/db/db.go:482-644 | the canonical record is accepted and stores the same directive if and only if user_input is absent or "true"; canonicalising twice changes nothing |
| RvInfoV1.V1GetPut | internal/db/db.go:263-397 | V1 GET of a stored document succeeds iff it has no ext_rv, and then PUT is accepted and leaves the stored directives unchanged iff every user_input is absent or "true" |
| RvInfoV1.FieldShownByV2 | internal/handlers/rvinfo/converter.go:29-128 | V2 GET shows each field of a V1 record under the same name, ports and delays as numbers |
| RvInfoV1.V2GetPutOnV1 | internal/handlers/rvinfo/converter.go:23-137 | V2 GET on a V1 document succeeds iff it has no ext_rv, and then PUT leaves the stored directives unchanged iff it has no user_input |
| RvInfoV1.StoredByV2 | internal/handlers/rvinfo/parser.go:94-310 | every value V2 accepts is stored as a bare flag or as a value of its variable's kind |
| RvInfoV1.ApplyField | internal/db/db.go:288-391 | printing an instruction fills its own field, which parses back to it, and no other field |
| RvInfoV1.GatheredInOrder | internal/db/db.go:515-640 | whatever V1 parses is in field order without repetition, each instruction from its own field |
| RvInfoV1.V1GetPutOnV2 | internal/db/db.go:263-397 | V1 GET on a V2 document always succeeds, and PUT leaves the stored directives unchanged iff each is in V1 field order without repetition and has no ext_rv, no user_input and no empty text or hash |
| RvInfoV1.TextsStoredAlike | internal/db/db.go:513-584 | a V1 text field that is present is stored exactly as V2 stores it, one that is empty not at all |
| RvInfoV1.CodesStoredAlike | internal/db/db.go:527-622 | the same for protocol, medium and the two certificate hashes |
| RvInfoV1.NumbersStoredAlike | internal/db/db.go:549-600 | the same for the ports, read from decimal text, and the delay |
| RvInfoV1.FlagsStoredAlike | internal/db/db.go:585-593 | the same for the three flags |
| RvInfoV1.TextsOfV1 | internal/db/db.go:624-637 | the two fields that V1 stores otherwise: user_input and ext_rv, each as the text given |
| RvInfoV1.RecordStored | internal/db/db.go:506-640 | a record is stored as its sixteen fields in order |
| RvInfoV1.ShownFromV2 | internal/db/db.go:377-391 | what V1 shows of the two values only V2 stores: user_input as "true", ext_rv as the JSON of its texts |
| RvInfoV1.OneFirstFault | internal/db/db.go:506-640 | a document has at most one first fault, a record or a field of one, and is refused if it has one |
| RvInfoMigration.RvInfoTable.constructor | internal/db/models.go:203-206 | the rvinfo table holds at most one row |
| RvInfoMigration.RvInfoTable.Migrate | internal/db/state.go:101-147 | the migration step reports and leaves in the row exactly what the step function says, a failing read or update included |
| RvInfoMigration.FormatsDisjoint | internal/db/state.go:113-126 | no byte string is both CBOR directives and a V1 JSON document |
| RvInfoMigration.MigrationMeaning | internal/db/state.go:101-147 | after the step a fetch returns what the old bytes meant; CBOR and unreadable bytes are untouched |
| RvInfoMigration.RestartsConverge | internal/db/state.go:81-85 | after any number of restarts with or without failing statements, the row is the original or the first migrated value |
| RvInfoMigration.OutcomeExactly | internal/db/state.go:101-147 | each outcome of the migration exactly, and the row: rewritten with the CBOR of its V1 meaning if migrated, else untouched |
| RvInfoMigration.IsJsonExactly | internal/db/state.go:118-126 | what is assumed of json.Unmarshal: what it reads as a list begins, after JSON spaces, with a bracket or with null |
| OwnerStore.OwnerDb.constructor | internal/db/state.go:58-75 | the tables start empty |
| OwnerStore.OwnerDb.InsertVoucher | internal/db/db.go:91-100 | voucher and onboarding row are created together or not at all; an existing onboarding row is kept |
| OwnerStore.OwnerDb.AddVoucher | internal/db/state_vouchers.go:97-113 | the voucher row alone is created, and never over an existing one |
| OwnerStore.OwnerDb.ReplaceVoucher | internal/db/state_vouchers.go:116-148 | the old voucher goes, the new one comes and completion with the new GUID is recorded, or nothing changes |
| OwnerStore.OwnerDb.RemoveVoucher | internal/db/state_vouchers.go:152-176 | a decodable voucher and its onboarding row are deleted together, or nothing changes |
| OwnerStore.OwnerDb.ResellVoucher | api/handlers/vouchers.go:282-306 | a resell whose nested removal or extension fails leaves both tables as they were |
| OwnerStore.SettledIsSticky | internal/db/db.go:102-131 | a GUID stays off the pending list in every later state, until its voucher is removed, if and only if it is completed or has a voucher without onboarding row |
| OwnerStore.CompletionIsSticky | internal/db/state_vouchers.go:116-148 | after a replacement the old GUID is never pending again, nor the new one unless it had an uncompleted row |
| OwnerStore.ListedOnce | internal/db/db.go:402-423 | the join lists a voucher once exactly when at most one onboarding row names it |
| OwnerStore.DevicesListedOnce | internal/db/db.go:402-423 | in every state reached with fresh replacement GUIDs new_guid is injective and each voucher is listed once |
| OwnerStore.ReusedGuidListedTwice | internal/db/db.go:405-408 | reusing a replacement GUID after its voucher is removed lists the device twice |
| OwnerStore.InsertedRows | internal/db/db.go:91-100 | row by row, what an insert or an add leaves in both tables, for its GUID and for every other |
| OwnerStore.ReplacedRows | internal/db/state_vouchers.go:116-148 | row by row, what a replacement leaves: the old voucher gone, the new one stored, the old onboarding row completed with the new GUID |
| OwnerStore.RemovedRows | internal/db/state_vouchers.go:152-176 | a successful removal or resell leaves the GUID in neither table and every other row as it was; a failed one changes nothing |
| OwnerStore.RemovedThenPending | internal/db/state_vouchers.go:165-175 | the end of stickiness: an insert directly after a removal or resell is pending, whatever the device's state before |
| OwnerStore.FreshExactly | internal/db/state_vouchers.go:116-148 | a replacement that commits keeps new_guid injective if and only if no other row names its new GUID |
| VoucherImport.Stop | api/handlers/vouchers.go:187-205 | the loop ends at the first block that is undecodable or unverified |
| VoucherImport.Halt | api/handlers/vouchers.go:207-224 | the first block that ends in an internal error: a new GUID whose insert fails, or a known one whose lookup fails |
| VoucherImport.ImportVouchers | api/handlers/vouchers.go:187-230 | which bodies are accepted, refused or end in an internal error, and the tables each leaves, for any failing lookups and inserts |
| VoucherImport.ImportExact | api/handlers/vouchers.go:187-225 | no voucher is overwritten; a new GUID gets the first verified voucher offered, keeping an earlier completion |
| VoucherImport.RepostUnchanged | api/handlers/vouchers.go:207-215 | posting the same body again changes nothing |
| VoucherImport.StoredRow | api/handlers/vouchers.go:207-224 | the row stored for a new GUID has the bytes and the device info of the first block that offers it, and is pending unless it had an onboarding row |
| VoucherImport.OthersUntouched | api/handlers/vouchers.go:187-225 | an import changes no row of a GUID that it does not offer or that is already known |
| VoucherImport.HaltExactly | api/handlers/vouchers.go:207-224 | the failing block exactly: the first voucher whose lookup fails if known, whose insert fails if new |
| RvRegistration.Made | internal/to0/to0.go:71-81 | contacts go on up to and including the first success, and no further |
| RvRegistration.ContactUrls | internal/to0/to0.go:71-81 | the URLs of one directive are contacted in order until one succeeds |
| RvRegistration.TryDirectives | internal/to0/to0.go:59-82 | bypass directives are skipped, the others are tried in order, and the flag says whether all were bypass |
| RvRegistration.ContactDirectives | internal/to0/to0.go:59-91 | the contacts are the prefix, up to first success, of the URLs of the non-bypass directives |
| RvRegistration.RegisterRvBlob | internal/to0/to0.go:33-92 | a bad GUID, missing owner info or no directives fail without contact; otherwise as above, all for the given GUID |
| RvRegistration.SuccessMeansContact | internal/to0/to0.go:84-91 | success without contact means every directive is bypass; failure means every URL was tried and refused |
| RvRegistration.RegisterDevice | cmd/owner.go:289-304 | given the hex text of a voucher's GUID, registration contacts servers for that device only, and never fails on the GUID |
| RvRegistration.CandidatesInOrder | internal/to0/to0.go:59-82 | the URLs to try are those of the directives that are not bypass, in the order of the directives and within each |
| To0Scheduler.BackoffExact | cmd/owner.go:305-315 | the wait is 10s after failure, the refresh in seconds after success, 300s if zero; the 64-bit product never overflows |
| To0Scheduler.Scheduler.constructor | cmd/owner.go:272-272 | the scheduler starts with an empty schedule |
| To0Scheduler.Scheduler.Round | cmd/owner.go:281-316 | one round updates the schedule and attempts exactly as the round function says |
| To0Scheduler.KeyInjective | cmd/owner.go:289-289 | different GUIDs have different schedule keys |
| To0Scheduler.GateCovers | cmd/owner.go:300-302 | the schedule entry is no earlier than any attempt since the last completion allows |
| To0Scheduler.AttemptsAreSpaced | cmd/owner.go:272-318 | in every run attempts on a GUID keep the earlier one's backoff unless it was seen completed between, and the schedule is a function of the history |
| To0Scheduler.DueAttemptedOnce | cmd/owner.go:282-316 | in one sequential round a GUID that is due and found open is attempted exactly once, any other not at all, whatever the other visits find |
| To0Scheduler.RoundReports | cmd/owner.go:281-316 | a round reports only attempts at its own time on GUIDs it found open, with the reply it got, and every completion it saw |
| To0Scheduler.AttemptedExactly | cmd/owner.go:299-315 | a round after any run attempts an open GUID exactly when it was never tried since its last completion or the literal wait after the last try is over |
| To0Scheduler.FreeOrTried | cmd/owner.go:299-315 | in every history a GUID was tried last at some attempt, or was never tried since its last completion, and not both |
| OwnerSystem.RowsOf | internal/db/db.go:114-131 | a round lists the rows of all pending vouchers and of no others |
| OwnerSystem.StepVisits | cmd/owner.go:290-315 | a completion check and the registration that follows it are one visit of the sequential scheduler, whatever requests commit between |
| OwnerSystem.InterleavedSpacing | cmd/owner.go:272-318 | attempts on a GUID keep their backoff in every interleaving of requests, checks and registrations |
| OwnerSystem.RunIsRound | cmd/owner.go:281-316 | the steps of a round, with requests between any two, are a round of the sequential scheduler |
| OwnerSystem.RestOfRound | cmd/owner.go:282-316 | the rest of a round attempts a GUID once if it still owes it an attempt, else not at all |
| OwnerSystem.PendingAttemptedOnce | cmd/owner.go:273-316 | a GUID pending when the round starts, decodable, due and still open when checked is attempted exactly once in the round; one that is not due is not |
| OwnerSystem.QuietStep | cmd/owner.go:275-304 | a settled GUID stays settled through any request or scheduler step, and only a registration whose check had passed attempts it |
| OwnerSystem.QuietAttempts | cmd/owner.go:273-318 | in every interleaving a settled GUID is attempted at most once more until removed: once if a check of it had passed and is followed by its registration, else never |
| OwnerSystem.NeverAgainExactly | cmd/owner.go:291-304 | a settled GUID is never attempted again if and only if no passed check of it is in flight |
| OwnerSystem.CompletedDuringRegistration | cmd/owner.go:291-304 | a replacement that commits between check and registration leads to the registration of a completed device |
| OwnerSystem.ReplacementQuiets | internal/db/state_vouchers.go:131-147 | a replacement settles the old GUID at once, and a fresh new GUID too |
| OwnerSystem.CheckExactly | cmd/owner.go:282-302 | what a check does to every part of the state: a completed device leaves the schedule, an open one that is due is registered next, one that fails is passed over |
| OwnerSystem.OtherSteps | cmd/owner.go:273-316 | the same for the registration, with the literal waits, the start of a round and a request |
| OwnerSystem.ListsExactly | internal/db/db.go:114-131 | a round lists the pending vouchers, each once, in any order |
| OwnerSystem.KeyedExactly | internal/db/state_vouchers.go:91-148 | which calls keep every voucher under the GUID of its header: exactly those whose row has the GUID it is stored under |
| BlobStore.BlobTable.constructor | internal/state/rvblob.go:41-60 | the blob table starts empty |
| BlobStore.BlobTable.SetRVBlob | internal/state/rvblob.go:63-82 | the blob of a GUID is inserted or replaced and no other row changes, or on failure nothing does |
| BlobStore.BlobTable.RVBlob | internal/state/rvblob.go:85-110 | a blob is found exactly until its expiry, and is an error if its bytes do not unmarshal |
| BlobStore.BlobTable.CleanupExpiredBlobs | internal/state/rvblob.go:114-123 | exactly the expired rows go, and the count is theirs |
| BlobStore.CleanupSimulation | internal/state/rvblob.go:81-122 | the cleaned table lacks only rows already expired, at every point of a run |
| BlobStore.CleanupUnobservable | internal/state/rvblob.go:94-122 | cleanups anywhere in any run change no lookup result, under a clock that does not go back |
| BlobStore.ClockMustNotGoBack | internal/state/rvblob.go:114-115 | with a clock that goes back a cleanup can be observed |
| BlobStore.AcceptVoucher | internal/handlers/rendezvous/handler.go:149-194 | a request is refused exactly when the chain fails or it is below the minimum, else granted the smaller of request and maximum |
| BlobStore.FindExactly | internal/state/rvblob.go:85-122 | after any run the blob stored last is found exactly until its expiry, cleanups or not; without one nothing is |
| BlobStore.AnswersExactly | internal/state/rvblob.go:85-122 | every answer of a run, from the stores before it: the last stored blob exactly while its expiry is not before the lookup, else nothing |
| Availability.RoundSchedules | cmd/owner.go:281-316 | after a round that finds a device open it waits one backoff from the start of the last round that tried it |
| Availability.VisibleAfterStore | internal/state/rvblob.go:85-110 | a stored blob is visible until its expiry whatever else is stored or cleaned up |
| Availability.NextRegistration | cmd/owner.go:299-315 | the next registration starts at most one TTL plus one round gap after the last |
| Availability.RefreshMatchesExpiry | internal/handlers/rendezvous/handler.go:170-193 | the owner waits exactly the granted TTL if and only if the maximum is positive and the minimum at most 300 |
| Availability.BlobGapBounded | cmd/owner.go:273-318 | while sequential rounds find a device open its blob is never invisible for longer than the round gap plus the round length |
| Availability.OpenRoundFinds | cmd/owner.go:282-316 | a round of the owner system finds a device open if it is pending at the start, its voucher decodes, and each check of it works and finds it open |
| Availability.OwnerRunIsScheduler | cmd/owner.go:273-318 | a run of the owner system with such rounds registers the device exactly in the rounds in which the sequential scheduler does |
| Availability.OwnerBlobGapBounded | cmd/owner.go:273-318 | the same bound for runs of the owner system, from its tables, with requests interleaved anywhere |
| Availability.VisibleExactly | internal/state/rvblob.go:85-110 | in any run the device is visible exactly until the expiry of the blob stored last |
| Availability.SomeStoredLast | internal/state/rvblob.go:63-82 | a blob was stored last for a device as soon as any was |
| RvSessions.SessionStore.constructor | internal/state/token.go:40-54 | the session tables start empty |
| RvSessions.SessionStore.NewToken | internal/state/token.go:57-78 | a session is created with its creation time, never over an existing one |
| RvSessions.SessionStore.InvalidateToken | internal/state/token.go:81-101 | the session goes, and its nonce rows if the connection enforces foreign keys; an unknown session is reported |
| RvSessions.SessionStore.GetSessionId | internal/state/token.go:115-136 | the identifier is returned exactly for a live session |
| RvSessions.SessionStore.Save | internal/state/to0.go:69-81 | a nonce is written exactly if the session still exists or the connection does not enforce foreign keys |
| RvSessions.SessionStore.ReadNonce | internal/state/to1.go:85-102 | the stored nonce, not found, or an invalid session |
| RvSessions.SessionStore.CleanupExpiredSessions | internal/state/token.go:140-150 | exactly the sessions created before the cutoff go, with their nonce rows if foreign keys are enforced, and the count is theirs |
| RvSessions.RunCleanup | internal/handlers/rendezvous/handler.go:77-124 | both cleanups run even if one fails; sessions are kept when the maximum age is not positive; counts add up |
| RvSessions.IntegrityStep | internal/state/to0.go:25-29 | a step leaves a nonce without its session exactly when it is an unenforced delete of a session with a nonce, or an unenforced save after the session went |
| RvSessions.NoOrphansExactly | internal/state/to1.go:25-30 | a run keeps every nonce with its session throughout if and only if none of its steps is such a step |
| RvSessions.NoOrphanNonces | internal/state/to0.go:69-81 | with split nonce writes, cleanups and invalidations interleaved, every nonce row has a live session if writes and deletes are enforced |
| RvSessions.UnenforcedDelete | internal/state/token.go:94-101 | a delete on a connection without foreign keys leaves the nonce behind |
| RvSessions.UnenforcedWrite | internal/state/to0.go:69-81 | a session invalidated between check and save gets an orphan nonce if the save is not enforced |
| RvSessions.IntegrityExactly | cmd/config.go:105-115 | every run keeps its nonces with their sessions if and only if every connection enforces foreign keys |
| RvSessions.SessionAgeBounded | internal/state/token.go:138-150 | at time t after a cleanup at c no session is older than the maximum age plus t minus c |
| RvSessions.CleanupExactly | internal/state/token.go:138-150 | a session at most the maximum age old survives a cleanup with its nonces; an older one goes, with its nonces if foreign keys are enforced |
| RvSessions.InvalidateExactly | internal/state/token.go:81-101 | the same for an invalidation: the session alone goes |
| RvSessions.NewExactly | internal/state/token.go:57-78 | a session is created with its protocol and time, never over an existing one, and nothing else changes |
| RvSessions.WriteExactly | internal/state/to0.go:69-81 | which nonce a write stores and for whom, every other row kept; a check changes no table and passes exactly for a live session |
| RvSessions.NonceKept | internal/state/to1.go:85-102 | in every run a nonce keeps its value as long as its session is neither invalidated nor too old at a cleanup and it is not written again |
| DeviceCa.CaState.constructor | internal/state/deviceca.go:46-60 | the state starts with the stored table and no pool |
| DeviceCa.CaState.ImportDeviceCACertificates | internal/state/deviceca.go:151-249 | table and statistics after the loop; it ends in an error exactly when a failing statement is reached, and keeps the rows inserted before |
| DeviceCa.CaState.DeleteDeviceCACertificate | internal/state/deviceca.go:281-290 | the row goes and an unknown fingerprint is reported, or on failure nothing changes |
| DeviceCa.CaState.LoadTrustedDeviceCAs | internal/state/deviceca.go:295-326 | the pool becomes the certificates of the table, or stays if any row does not parse |
| DeviceCa.CaState.HandleImport | internal/handlers/deviceca/handler.go:196-220 | after a successful import the pool equals the table if it did before or anything was imported; a failed one keeps the old pool |
| DeviceCa.CaState.HandleDelete | internal/handlers/deviceca/handler.go:292-323 | after a successful delete the pool equals the table if it did before or a row went; a failed one keeps the old pool |
| DeviceCa.ServeSerially | internal/handlers/deviceca/handler.go:196-323 | from start-up, in every serial run without storage failures the pool equals the table between any two requests |
| DeviceCa.ImportBalanced | internal/state/deviceca.go:136-144 | detected = imported + skipped, one message per detected or malformed certificate, one reported certificate per import |
| DeviceCa.AfterGrowth | internal/state/deviceca.go:213-246 | the table grows by the imported count and no existing row changes |
| DeviceCa.AfterLoadable | internal/state/deviceca.go:213-217 | every row an import writes can be loaded into the pool |
| DeviceCa.WantedStored | internal/state/deviceca.go:160-246 | every well-formed unexpired certificate of the bundle is in the table afterwards |
| DeviceCa.NewRowsDescribed | internal/state/deviceca.go:219-227 | every new row describes a well-formed unexpired certificate of the bundle, names, dates and PEM |
| DeviceCa.ReimportNothing | internal/state/deviceca.go:199-211 | importing a bundle again later, other imports between, imports nothing and changes nothing |
| DeviceCa.EarlierClockImports | internal/state/deviceca.go:187-193 | a clock that goes back imports what was skipped as expired |
| DeviceCa.ImportConcat | internal/state/deviceca.go:160-246 | importing a concatenation leaves the same table as importing its parts in order, by the same clock |
| DeviceCa.MessagesExactly | internal/state/deviceca.go:160-246 | one message for each certificate block, in order and numbered from 1: malformed, expired, already there, or imported |
| DeviceCa.CountsExactly | internal/state/deviceca.go:160-246 | malformed, detected and skipped are the numbers of such blocks, and imported the rest |
| DeviceCa.ReportedExactly | internal/state/deviceca.go:229-246 | the reported fingerprints are those of the new rows, each once |
| DeviceCa.TrustedExactly | internal/state/deviceca.go:295-326 | the pool of a table holds exactly the certificates its rows' PEM parses to, and loads exactly if every row parses |
| DeviceCa.ImportedTrusted | internal/state/deviceca.go:160-326 | a well-formed, unexpired certificate that was not in the table is trusted once the pool is loaded after its import |
| DeviceCa.StoredRow | internal/state/deviceca.go:202-217 | the row of a new fingerprint, field by field, comes from the first unexpired certificate of the bundle that has it |
| CaConcurrency.ConservedRun | internal/state/deviceca.go:199-246 | conservation holds after every step of every interleaving |
| CaConcurrency.ImportsConserve | internal/state/deviceca.go:151-249 | for concurrent imports in any interleaving the imported counts sum to the growth of the table and each new row is reported once, to one import |
| CaConcurrency.PoolIsSnapshot | internal/state/deviceca.go:295-326 | in every interleaving of the steps of imports and deletes, failures included, the pool is the table that the reload which swapped last had read, at or after start-up |
| CaConcurrency.PoolFreshExactly | internal/handlers/deviceca/handler.go:209-220 | the snapshot result as a condition: the pool equals the table if and only if the reload that swapped last read the certificates the table has now |
| CaConcurrency.TableIsLastRead | internal/handlers/deviceca/handler.go:209-220 | without failures, the table holds what was read last unless some request still owes a reload |
| CaConcurrency.QuiescentExactly | internal/handlers/deviceca/handler.go:311-319 | once all requests have finished without failure, the pool equals the table if and only if the last swap installs what the last read saw |
| CaConcurrency.SlowReloadLeavesStalePool | internal/state/deviceca.go:299-323 | two deletes of which the first is overtaken between read and swap leave a deleted certificate in the pool with both finished |
| CaConcurrency.AloneIsSequential | internal/state/deviceca.go:151-249 | an import whose statements nothing comes between is the sequential import, table, statistics and messages |
| CaConcurrency.OvertakenIsSkipped | internal/state/deviceca.go:219-236 | a certificate inserted by another import after the check is skipped with its own message, and nothing else changes |
| CaConcurrency.AddingTurns | internal/handlers/deviceca/handler.go:196-220 | an import request takes its bundle block by block and goes on to a reload exactly if something was imported |
| CaConcurrency.RemovingTurn | internal/handlers/deviceca/handler.go:292-323 | a delete request takes its row alone and goes on to a reload, or is finished if there is none |
| CaConcurrency.ReloadTurns | internal/state/deviceca.go:295-326 | a reload installs the table it read, whatever the table is when it swaps, or keeps the pool if a row does not parse |
| CaConcurrency.FailedTurn | internal/handlers/deviceca/handler.go:196-323 | a failing statement ends its request and changes neither table nor pool |
| ServiceInfo.DefaultDirUnique | cmd/config.go:254-261 | with no duplicate defaults the default directory is that of the only entry |
| ServiceInfo.Config.constructor | cmd/config.go:203-206 | the configuration as read |
| ServiceInfo.Config.GetDefaultDir | cmd/config.go:254-261 | the directory of the first matching default, or the empty string |
| ServiceInfo.Config.ValidateDefaults | cmd/config.go:269-301 | defaults pass exactly when each is valid and no FSIM occurs twice |
| ServiceInfo.Config.UnmarshalParams | cmd/config.go:210-251 | the typed field of the operation's FSIM is filled and the raw parameters dropped, or nothing changes |
| ServiceInfo.Config.FillDir | cmd/config.go:314-328 | an empty directory becomes the default of the operation's FSIM |
| ServiceInfo.Config.CheckUploads | cmd/config.go:344-355 | the loop passes exactly when there are files, each with a source and no absolute destination |
| ServiceInfo.Config.CheckDownloads | cmd/config.go:361-382 | the loop passes exactly when there are files, each with source, destination and an accessible source path |
| ServiceInfo.Config.CheckWgets | cmd/config.go:388-417 | the loop passes exactly when there are files, each with an http or https URL with host and no or a 48-byte checksum |
| ServiceInfo.Config.CheckOp | cmd/config.go:330-421 | the switch passes exactly the operations whose FSIM is known and whose parameters are valid |
| ServiceInfo.Config.Validate | cmd/config.go:264-424 | every operation is resolved in place and passes, or the first that fails stops the loop and later ones are untouched |
| ServiceInfo.ValidatedOpUsable | cmd/owner.go:400-531 | after validation the generator meets no nil pointer, drops no file, opens the path that was checked, and every checksum is 48 bytes |
| ServiceInfo.SecondValidationFails | cmd/config.go:210-251 | validating a validated operation again fails |
| ServiceInfo.DefaultDirFirst | cmd/config.go:254-261 | the default directory is that of the first entry for the FSIM, or empty |
| ServiceInfo.DefaultsExactly | cmd/config.go:269-301 | which defaults pass, by FSIM, absolute path and existing directory, and that no FSIM occurs twice |
| ServiceInfo.AcceptedExactly | cmd/config.go:303-424 | which operations pass, from the fields of the configuration as written |
| ServiceInfo.DownloadItemsExactly | cmd/owner.go:408-433 | item i of an accepted download has the path, name and must-download flag of file i |
| ServiceInfo.UploadItemsExactly | cmd/owner.go:434-477 | item i of an accepted upload has the directory, source and name of file i |
| ServiceInfo.WgetItemsExactly | cmd/owner.go:478-533 | item i of an accepted wget has the name, URL, length and checksum of file i |
| ServiceInfo.CommandItemExactly | cmd/owner.go:534-551 | an accepted command is one item with the parameters as configured |
| OwnerModules.ValidatedUsable | cmd/owner.go:72-74 | a configuration that passed validation meets the iterator's precondition: no operation has a nil parameter pointer |
| OwnerModules.StartOwner | cmd/owner.go:108-114 | the owner serves with exactly the operations that validation resolved, and not at all if it fails |
| OwnerModules.Resume | cmd/owner.go:393-555 | resuming the nested loops yields the next item of the flattened configuration that the outside world lets through, item by item |
| OwnerModules.ModuleStateMachines.constructor | cmd/owner.go:239-239 | no session has a machine at first |
| OwnerModules.ModuleStateMachines.NextModule | cmd/owner.go:355-378 | one pull on the token's own machine, created on first use; other tokens are untouched |
| OwnerModules.ModuleStateMachines.Current | cmd/owner.go:343-353 | the module the token's last NextModule returned |
| OwnerModules.ModuleStateMachines.CleanupModules | cmd/owner.go:380-391 | the token's machine goes, the others stay |
| OwnerModules.SessionsIndependent | cmd/owner.go:329-391 | in any interleaving a token gets the replies it would get alone |
| OwnerModules.ModulesFollowPlan | cmd/owner.go:393-555 | a session's modules are an in-order subsequence of the flattened configuration |
| OwnerModules.ModulesEqualPlan | cmd/owner.go:393-555 | when nothing fails call k returns item k, then nothing more |
| OwnerModules.DoneForever | cmd/owner.go:375-377 | once a call returns no module every later one does too |
| OwnerModules.SessionSeesPlan | cmd/owner.go:355-378 | in any interleaving a session's replies are the pulls from the flattened configuration |
| OwnerModules.PlanSupported | cmd/owner.go:402-405 | every item of the plan is of an FSIM that the device listed |
| OwnerModules.PlanInOrder | cmd/owner.go:400-555 | the items of each listed operation stand together, in order, after those of the earlier operations and before those of the later ones |
| OwnerModules.PlanLength | cmd/owner.go:400-555 | the plan is as long as the files of the listed operations, a command counting once |
| OwnerModules.RepliesSupported | cmd/owner.go:355-405 | in any interleaving every module a session is sent is in its plan and of an FSIM its device listed |
| OwnerModules.PullExactly | cmd/owner.go:416-475 | which item a call yields when files cannot be opened or directories cannot be made: the first that can, or none after an abort |
| OwnerModules.SessionEnds | cmd/owner.go:355-391 | after its cleanup a session has no machine, and a device that listed no modules gets none |
| OwnerModules.PlacesOf | cmd/owner.go:393-555 | the modules a session was sent have increasing places in its plan |
| To2Sessions.To2Store.constructor | internal/db/models.go:123-163 | the session tables start empty |
| To2Sessions.To2Store.NewToken | internal/db/state.go:183-203 | a session becomes live |
| To2Sessions.To2Store.InvalidateToken | internal/db/state.go:206-226 | the session row goes, the rows that refer to it stay; an unknown session is not found, an unreadable token an invalid session |
| To2Sessions.To2Store.GetSessionId | internal/db/state.go:240-261 | the check passes exactly for a readable token of a live session |
| To2Sessions.To2Store.Save | internal/db/state_to2.go:23-371 | the statement writes the column, or is lost if its row does not exist and the setter does not create it |
| To2Sessions.To2Store.Set | internal/db/state_to2.go:23-371 | an uninterrupted setter writes under a live session only, and nothing on failure |
| To2Sessions.To2Store.Get | internal/db/state_to2.go:40-407 | the column, not found, or an invalid session |
| To2Sessions.ReadsLastWrite | internal/db/state_to2.go:23-407 | in any interleaving of checks and saves, a session check passes exactly while the session is live, and a row read returns the last value saved since the creating setter, not found before |
| To2Sessions.WriteReadBack | internal/db/state_to2.go:23-407 | after the creating setter a save is read back until the next save of that field |
| To2Sessions.EarlyWriteLost | internal/db/state_to2.go:60-73 | a save before the creating setter succeeds and changes nothing |
| To2Sessions.SessionsIsolated | internal/db/state.go:240-261 | every read depends only on the steps under its own token |
| To2Sessions.InvalidForGood | internal/db/state.go:206-261 | after invalidation every later access reports an invalid session |
| To2Sessions.DeadRowsExactly | internal/db/state_to2.go:60-73 | the rows of an invalidated session stay as they are in every later run if and only if no setter had passed its check before |
| To2Sessions.SaveReadBack | internal/db/state_to2.go:23-407 | field by field, which saves of a live session are read back at once: the three opening ones always, the others once the opening one was saved, and without it nothing changes |
| To2Sessions.UnopenedReads | internal/db/state_to2.go:40-407 | field by field, what is not found as long as the opening field was not saved |
| To2Sessions.UnsavedReads | internal/db/state_to2.go:40-407 | what the read of a field that was never saved returns |

## Left out

- RvInfoV1.V2GetPutOnV1: the V2 handlers also pass the document through generated structures that keep each object as raw JSON; they are not part of this model.
- RvInstruction.StoredRoundTrip: the CBOR form of an instruction belongs to the go-fdo library, which is not part of this model; it is taken as the array of variable and byte string, with an absent value written as the empty byte string.
- Availability.OwnerBlobGapBounded: one rendezvous server, a clock shared by owner and server, and every attempt on the device answered with the TTL that was granted; lost registrations are not bounded.
- ServiceInfo.Config.Validate: reports that a configuration is refused, not the text of the error.
- OwnerModules.Resume: does not compute the per-device upload directory or hold open files; creating the directory and looking up its GUID appear only as outcomes.
- HTTP routing, TLS, rate and body limits, content negotiation, health endpoints and command-line flags.
- Cryptography, X.509 and COSE internals, key storage and voucher signature checks, which appear only as predicates.
- JSON, PEM, IP, URL and base64 text parsing, which appear only as library functions with laws.
- The go-fdo protocol servers and their message handling; only their calls into the stores are modelled.
- OwnerSystem.QuietAttempts: an attempt is one call of RegisterRvBlob, which may contact several servers; the contacts of one call are ordered in RvRegistration and not interleaved with requests.
- Database timestamp truncation, SQL ordering, and the Go memory model of the unsynchronised module map; each call is one atomic step.
- Listing and paging of CA certificates, the old_guid filter of the device listing, owner redirect records and the rvinfo row's insert, update and delete: they would only add easy members.
- The device-initialisation session state, which has the same shape as the TO2 session state.
