# HPX core pieces, modelled and proved in Dafny

This project models several self-contained parts of HPX, the C++ runtime system for parallel and distributed applications, and proves properties of them:

- **Global identifiers.** A `gid_type` is two 64-bit words. The model covers its 128-bit arithmetic, ordering, locality prefix, and the 15-bit credit field with its was-split flag (`NamingGid`).
- **Reference-counted handles.** `id_type` and `id_type_impl` are modelled with their deleter dispatch and handle equality (`NamingId`).
- **Migration from storage.** The pipeline that recreates a stored component and migrates it is a sequence of side effects. The AGAS marks are a multiset of GIDs (`MigrateFromStorage`).
- **Serialization input.** `input_container` is modelled as a cursor with chunk bookkeeping (`InputContainer`).
- **Program options.**
  - Value validation (`ValueSemantic`).
  - The message building of `error_with_option_name` (`OptionErrors`).
  - `collect_unrecognized` (`Parsers`).
- **The distributed barrier.** Only its generation rule is modelled (`Barrier`).
- **Resiliency.** The retry logic of `async_replay` (`AsyncReplay`).
- **PBS batch environment.** Host-name de-duplication (`BatchEnvironments`).
- **Algorithms.** `generate` and `generate_n` under the sequenced policy (`Generate`).

Every module is self-contained apart from imports of `Wrappers` (Option, Result, Outcome) and `NamingGid`.

Modelling choices:

- **Machine words.** Words are integers in `[0, 2^64)`. Masks and shifts are written as division and remainder by powers of two. Wrap-around of `std::size_t`, `uint32_t` and `uint16_t` is written out explicitly wherever the source has it.
- **Collaborators.** Anything the code calls but does not define becomes a parameter: remote actions, `getenv`, file contents, the string parser, the function `async_replay` launches. This includes collaborator results, exceptions and "attempt outcomes".
- **Classes.** Objects whose fields the source updates in place are Dafny classes. Each method's postcondition ties the new state to a specification function, and lemmas state the properties of those functions.

## Model

| member | source | states |
|---|---|---|
| NamingGid.FromLsb | hpx/runtime/naming/name.hpp:50-52 | a GID built from one word has a zero high word and that low word |
| NamingGid.IsValid | hpx/runtime/naming/name.hpp:65-68 | a GID is valid exactly when it is not the all-zero GID |
| NamingGid.ValueInjective | hpx/runtime/naming/name.hpp:137-140 | the 128-bit value is below 2^128, and two GIDs are equal exactly when their values are |
| NamingGid.Add | hpx/runtime/naming/name.hpp:96-103 | the sum's value is the two values added modulo 2^128; a carry out of the low word adds one to the high word |
| NamingGid.Sub | hpx/runtime/naming/name.hpp:114-121 | the difference's value is the two values subtracted modulo 2^128, with the borrow taken from the high word |
| NamingGid.AddWord | hpx/runtime/naming/name.hpp:108-109 | adding a word adds its value modulo 2^128 |
| NamingGid.SubWord | hpx/runtime/naming/name.hpp:126-127 | subtracting a word subtracts its value modulo 2^128 |
| NamingGid.SubUndoesAdd | hpx/runtime/naming/name.hpp:96-121 | `(a + b) - b == a` for all GIDs |
| NamingGid.CarryIntoMsb | hpx/runtime/naming/name.hpp:96-103 | `(0, 2^64-1) + 1 == (1, 0)` |
| NamingGid.AndLsb | hpx/runtime/naming/name.hpp:131-134 | `gid & w` keeps the high word; bit i of the new low word is set exactly when bit i is set in both the old low word and w |
| NamingGid.AndLsbMasks | hpx/runtime/naming/name.hpp:131-134 | masking with all ones keeps the GID, masking with 0 clears the low word, masking with 2^k - 1 keeps the low word modulo 2^k, and `lsb & w == w & lsb` |
| NamingGid.Less | hpx/runtime/naming/name.hpp:146-153 | `<` holds exactly when the 128-bit value is smaller, i.e. ordering is lexicographic on (msb, lsb) |
| NamingGid.LessEq | hpx/runtime/naming/name.hpp:155-162 | `<=` is `<` or equality |
| NamingGid.Greater | hpx/runtime/naming/name.hpp:164-171 | `>` is `<` with the operands swapped |
| NamingGid.GreaterEq | hpx/runtime/naming/name.hpp:173-180 | `>=` is `<=` with the operands swapped |
| NamingGid.LessIsTotalOrder | hpx/runtime/naming/name.hpp:137-180 | `<` is irreflexive, transitive and total, and `<=` is `<` or `==` |
| NamingGid.GidFromPrefix | hpx/runtime/naming/name.hpp:239-242 | the GID of a prefix has prefix + 1 (in 32 bits) in the top half of msb, and zero credit, flag and lsb |
| NamingGid.PrefixFromGid | hpx/runtime/naming/name.hpp:246-249 | the prefix is `(msb >> 32) - 1` computed in 32 bits |
| NamingGid.PrefixRoundTrip | hpx/runtime/naming/name.hpp:239-249 | `get_prefix_from_gid(get_gid_from_prefix(p)) == p` for every 32-bit p |
| NamingGid.LocalityFromGid | hpx/runtime/naming/name.hpp:251-254 | the locality GID keeps the GID's prefix and clears every other bit |
| NamingGid.Credit | hpx/runtime/naming/name.hpp:259-262 | the credit is bits 16-30 of msb, a value below 0x8000 |
| NamingGid.WithCredit | hpx/runtime/naming/name.hpp:307-312 | the credit read back is the one set; the other msb bits, including was-split, and the low word are unchanged |
| NamingGid.WithOwnCredit | hpx/runtime/naming/name.hpp:307-312 | setting the credit a GID already has changes nothing |
| NamingGid.WithCreditTwice | hpx/runtime/naming/name.hpp:307-312 | of two credit updates, the later one wins |
| NamingGid.AddedCredit | hpx/runtime/naming/name.hpp:265-275 | when the sum fits in 15 bits, the result carries the sum and returns it as the total, and only the credit field changes |
| NamingGid.StripMsb | hpx/runtime/naming/name.hpp:279-282 | stripping clears bits 16-31 of a high word and keeps all the others |
| NamingGid.Strip | hpx/runtime/naming/name.hpp:291-296 | stripping clears credit and was-split and keeps the low word |
| NamingGid.StripIdempotent | hpx/runtime/naming/name.hpp:279-296 | stripping twice is stripping once |
| NamingGid.StripEqualIff | hpx/runtime/naming/name.hpp:279-296 | two stripped GIDs are equal exactly when all their bits outside credit and was-split are |
| NamingGid.StripIgnoresCredit | hpx/runtime/naming/name.hpp:279-296 | two credit values on the same GID strip to the same address |
| NamingGid.SplitShares | hpx/runtime/naming/name.hpp:316-321 | with a positive fraction, the two stored shares are `c - c/f` and `c/f`, and they sum to c |
| NamingGid.Split | hpx/runtime/naming/name.hpp:314-325 | both GIDs get was-split set, keep the other msb bits and lsb, and carry `c - c/f` and `c/f` respectively |
| NamingGid.SplitConservesCredit | hpx/runtime/naming/name.hpp:314-325 | with f >= 1 the two credits add up to the original credit |
| NamingGid.WasSplit | hpx/runtime/naming/name.hpp:327-330 | a GID was split exactly when bit 31 of its msb is set, i.e. the msb's low 32 bits are at least 2^31 |
| NamingGid.IsLocalAddress | hpx/runtime/naming/name.hpp:335-338 | a GID is local to a prefix GID exactly when bits 32-63 and 0-15 of their msbs agree and the prefix's msb carries no credit and no was-split flag |
| NamingGid.IsLocalAddressOfPrefix | hpx/runtime/naming/name.hpp:335-338 | against a locality's prefix GID, a GID is local exactly when its prefix matches and bits 0-15 of its msb are zero |
| NamingGid.IsLocalAddressIgnoresOwnership | hpx/runtime/naming/name.hpp:335-338 | credit and was-split never change whether a GID is local |
| NamingGid.GidObject.constructor | hpx/runtime/naming/name.hpp:54-56 | the object holds exactly the two given words |
| NamingGid.GidObject.AssignLsb | hpx/runtime/naming/name.hpp:58-63 | assigning a word clears msb and stores the word as lsb |
| NamingGid.GidObject.AddAssign | hpx/runtime/naming/name.hpp:104-107 | `+=` stores the sum and returns it |
| NamingGid.GidObject.SubAssign | hpx/runtime/naming/name.hpp:122-125 | `-=` stores the difference and returns it |
| NamingGid.GidObject.PreIncrement | hpx/runtime/naming/name.hpp:71-75 | `++g` adds one |
| NamingGid.GidObject.PostIncrement | hpx/runtime/naming/name.hpp:76-81 | `g++` adds one and returns the old value |
| NamingGid.GidObject.PreDecrement | hpx/runtime/naming/name.hpp:83-87 | `--g` subtracts one |
| NamingGid.GidObject.PostDecrement | hpx/runtime/naming/name.hpp:88-93 | as written, `g--` returns the old value and ADDS one |
| NamingGid.PostDecrementAsWrittenIncrements | hpx/runtime/naming/name.hpp:88-93 | on (0,5), `g--` leaves (0,6) behind |
| NamingGid.GidObject.PostDecrementCorrected | hpx/runtime/naming/name.hpp:83-93 | the corrected `g--` returns the old value and subtracts one |
| NamingGid.DecrementUndoesIncrement | hpx/runtime/naming/name.hpp:71-93 | the corrected decrement undoes an increment |
| NamingGid.GidObject.AddCredit | hpx/runtime/naming/name.hpp:265-275 | `add_credit_to_gid` updates the GID as AddedCredit says and returns the new total |
| NamingGid.GidObject.SetCredit | hpx/runtime/naming/name.hpp:307-312 | `set_credit_for_gid` stores WithCredit |
| NamingGid.GidObject.StripCredit | hpx/runtime/naming/name.hpp:284-287 | the in-place strip stores Strip |
| NamingGid.GidObject.SplitCredits | hpx/runtime/naming/name.hpp:314-325 | `split_credits_for_gid` keeps one share in place and returns the other, as Split says |
| NamingId.GetDeleter | hpx/runtime/naming/name.hpp:369-383 | the result is the unmanaged, managed or transmission deleter for those modes; an unknown mode falls back to the unmanaged deleter |
| NamingId.SplitOfOneCreditNeedsExemption | hpx/runtime/naming/name.hpp:501-502 | the exemption in the constructor's assertion is needed: halving a GID with one credit keeps that credit and gives away a share of 0, which the transmission handle of split_credits accepts and a managed handle would refuse |
| NamingId.IdTypeImpl.constructor | hpx/runtime/naming/name.hpp:386-397 | a new impl has count 0 and the given GID and management mode |
| NamingId.IntrusivePtrAddRef | hpx/runtime/naming/name.hpp:464-467 | the count goes up by one |
| NamingId.IntrusivePtrRelease | hpx/runtime/naming/name.hpp:469-473 | the count goes down by one, and the mode's deleter runs exactly when it reaches zero |
| NamingId.IdType.Invalid | hpx/runtime/naming/name.hpp:490 | the default handle holds no impl |
| NamingId.IdType.FromLsb | hpx/runtime/naming/name.hpp:492-495 | a fresh impl with count 1 and GID (0, lsb) |
| NamingId.IdType.FromGid | hpx/runtime/naming/name.hpp:497-503 | a fresh impl with count 1 holding the GID; requires that it carries credit unless unmanaged or transmission, so a managed handle starts with non-zero credit |
| NamingId.IdType.FromWords | hpx/runtime/naming/name.hpp:505-512 | the same as FromGid for the GID (msb, lsb), including non-zero credit for a managed handle |
| NamingId.IdType.Copy | hpx/runtime/naming/name.hpp:681 | a copy shares the impl and adds one to its count |
| NamingId.IdType.Destroy | hpx/runtime/naming/name.hpp:469-473 | dropping a handle on an impl releases one count and names the deleter when it reaches 0, as IntrusivePtrRelease says; dropping a null handle releases nothing and runs no deleter |
| NamingId.IdType.PreIncrement | hpx/runtime/naming/name.hpp:529-533 | `++id` increments the shared GID |
| NamingId.IdType.PostIncrement | hpx/runtime/naming/name.hpp:534-538 | `id++` increments the shared GID and returns a handle to the same impl, i.e. the value AFTER the increment |
| NamingId.IdType.GetCredit | hpx/runtime/naming/name.hpp:602-606 | returns the shared GID's credit |
| NamingId.IdType.StripCredit | hpx/runtime/naming/name.hpp:607-611 | strips the shared GID |
| NamingId.IdType.AddCredit | hpx/runtime/naming/name.hpp:612-616 | adds to the shared GID's credit and returns the total |
| NamingId.IdType.SetCredit | hpx/runtime/naming/name.hpp:617-621 | sets the shared GID's credit, although the method is const |
| NamingId.IdType.SplitCredits | hpx/runtime/naming/name.hpp:622-626 | the shared GID keeps one share; the other goes to a new transmission handle with count 1 |
| NamingId.IdType.WasSplit | hpx/runtime/naming/name.hpp:627-631 | reports the shared GID's was-split flag |
| NamingId.Equal | hpx/runtime/naming/name.hpp:546-554 | two invalid handles are equal, an invalid and a valid handle are not, and two valid handles are equal when their GIDs are |
| NamingId.Less | hpx/runtime/naming/name.hpp:560-563 | `<` on handles is irreflexive, puts the null handle below every handle on an impl and above none, and orders two handles on impls by impl address |
| NamingId.LessEq | hpx/runtime/naming/name.hpp:565-568 | `<=` holds exactly when the reversed `<` does not, so any two handles are comparable; it holds for the same impl and from the null handle |
| NamingId.Greater | hpx/runtime/naming/name.hpp:570-573 | `>` is `<` with the operands swapped, and excludes `<=` |
| NamingId.GreaterEq | hpx/runtime/naming/name.hpp:575-578 | `>=` is the complement of `<` and equals `<=` with the operands swapped |
| NamingId.OrderingIgnoresGid | hpx/runtime/naming/name.hpp:560-568 | handle `<` and `<=` depend only on impl identity: two handles with the same GID on different impls are `==` yet ordered by impl address, and both are above the null handle |
| NamingId.InvalidHandleEqualsNull | hpx/runtime/naming/name.hpp:546-568 | a handle whose impl holds the zero GID is invalid and `==` the null handle, yet strictly above it in `<` and `<=` |
| NamingId.CopiesShareCredit | hpx/runtime/naming/name.hpp:617-621 | a credit set through a copy is read back through the original |
| NamingId.GetIdFromPrefix | hpx/runtime/naming/name.hpp:695-698 | a fresh unmanaged handle on `get_gid_from_prefix(prefix)`, holding the only reference to an impl at the given address |
| NamingId.PrefixFromId | hpx/runtime/naming/name.hpp:702-705 | returns the prefix of the handle's GID, so it inverts GetIdFromPrefix |
| NamingId.IsLocalAddressId | hpx/runtime/naming/name.hpp:715-718 | against a handle on the GID of locality prefix p, a handle is local exactly when its GID has prefix p and bits 0-15 of its msb are zero |
| MigrateFromStorage.StatusChecksComeFirst | components/component_storage/include/hpx/components/component_storage/server/migrate_from_storage.hpp:129-145 | a component without migration support fails with invalid_status before any step; on a locality other than the owner it fails with invalid_status, after the support check and before begin_migration |
| MigrateFromStorage.HereTouchesNoMarks | components/component_storage/include/hpx/components/component_storage/server/migrate_from_storage.hpp:90-119 | the recreation stage never begins or ends a migration |
| MigrateFromStorage.EndMigrationExactlyOnce | components/component_storage/include/hpx/components/component_storage/server/migrate_from_storage.hpp:147-159 | once begin_migration has answered, end_migration runs exactly once, as the last step, whatever fetch, deserialization and migration do |
| MigrateFromStorage.ResultIsFirstFailure | components/component_storage/include/hpx/components/component_storage/server/migrate_from_storage.hpp:97-159 | the result is the first failure among fetch, deserialization and migrate_component, otherwise the migrated id |
| MigrateFromStorage.PinBeforeMigrateThenMark | components/component_storage/include/hpx/components/component_storage/server/migrate_from_storage.hpp:63-119 | the object is pinned before migrate_component, and mark_as_migrated comes right after migrate_component |
| MigrateFromStorage.DefaultTargetIsLastLocality | components/component_storage/include/hpx/components/component_storage/server/migrate_from_storage.hpp:78-118 | an invalid target resurrects on the locality begin_migration reported, and any other target is used as given |
| MigrateFromStorage.Component.constructor | components/component_storage/include/hpx/components/component_storage/server/migrate_from_storage.hpp:95-102 | a recreated object is unpinned and not migrated |
| MigrateFromStorage.Component.PinComponent | components/component_storage/include/hpx/components/component_storage/server/migrate_from_storage.hpp:105 | the pin count goes up by one |
| MigrateFromStorage.Component.MarkMigrated | components/component_storage/include/hpx/components/component_storage/server/migrate_from_storage.hpp:73 | the object is marked as migrated |
| MigrateFromStorage.Runtime.constructor | components/component_storage/include/hpx/components/component_storage/server/migrate_from_storage.hpp:37-43 | no GID is marked and nothing has happened |
| MigrateFromStorage.Runtime.Record | components/component_storage/include/hpx/components/component_storage/server/migrate_from_storage.hpp:147-159 | appends one step and leaves the marks alone |
| MigrateFromStorage.Runtime.Begin | components/component_storage/include/hpx/components/component_storage/server/migrate_from_storage.hpp:147 | a successful begin_migration adds one mark for the GID; a failed one changes nothing |
| MigrateFromStorage.Runtime.End | components/component_storage/include/hpx/components/component_storage/server/migrate_from_storage.hpp:155-159 | end_migration removes one mark for the GID |
| MigrateFromStorage.MigrateFromStorageHereId | components/component_storage/include/hpx/components/component_storage/server/migrate_from_storage.hpp:63-76 | the trace grows by HereId's steps, the object is marked as migrated, and the marks are untouched |
| MigrateFromStorage.MigrateFromStorageHereAddress | components/component_storage/include/hpx/components/component_storage/server/migrate_from_storage.hpp:79-86 | the same, with the target taken from the address's locality |
| MigrateFromStorage.MigrateFromStorageHere | components/component_storage/include/hpx/components/component_storage/server/migrate_from_storage.hpp:90-119 | the trace grows by Here's steps and the result is Here's, with the marks untouched |
| MigrateFromStorage.TriggerMigrateFromStorageHere | components/component_storage/include/hpx/components/component_storage/server/migrate_from_storage.hpp:126-160 | the trace grows by Trigger's steps, the result is Trigger's, and the AGAS marks end as they began |
| InputContainer.ReadsPastEndAsWritten | libs/core/serialization/include/hpx/serialization/input_container.hpp:125-126 | the bounds check with `current_ + count` wrapping in std::size_t |
| InputContainer.WrappedCheckAdmitsOverrun | libs/core/serialization/include/hpx/serialization/input_container.hpp:125-131 | with current 4, count 2^64-2 and size 8, the check as written passes although the read runs far past the end |
| InputContainer.ChecksAgreeWithoutWrap | libs/core/serialization/include/hpx/serialization/input_container.hpp:125-131 | whenever the sum does not wrap, the check as written and the exact check agree |
| InputContainer.LoadMovesCursorByCount | libs/core/serialization/include/hpx/serialization/input_container.hpp:125-135 | a read past the end throws "archive data bstream is too short" and leaves the cursor unchanged; any other read advances current_ by exactly count |
| InputContainer.LoadChunkBookkeeping | libs/core/serialization/include/hpx/serialization/input_container.hpp:137-157 | with chunks, the accumulator grows by count; on reaching a non-zero chunk size, the chunk index advances and the accumulator resets; overshooting raises "structure mismatch"; a chunk of size 0 never switches |
| InputContainer.LoadKeepsWithinChunks | libs/core/serialization/include/hpx/serialization/input_container.hpp:137-157 | a successful read keeps the accumulator strictly below the current non-zero chunk size |
| InputContainer.LoadChunk | libs/core/serialization/include/hpx/serialization/input_container.hpp:179-192 | a chunk size other than count throws "data chunk size mismatch"; otherwise the chunk index moves on and current_ stays |
| InputContainer.InputContainer.constructor | libs/core/serialization/include/hpx/serialization/input_container.hpp:56-67 | current_ is 0, there are no chunks, and the chunk index is size_t(-1) |
| InputContainer.InputContainer.WithChunks | libs/core/serialization/include/hpx/serialization/input_container.hpp:69-86 | a null or empty chunk list gives no chunks and index size_t(-1); otherwise the index is 0 |
| InputContainer.InputContainer.SetFilter | libs/core/serialization/include/hpx/serialization/input_container.hpp:88-103 | with a filter, the new current_ comes from the filter and must not exceed the decompressed size ("too short") |
| InputContainer.InputContainer.SetZeroCopyThreshold | libs/core/serialization/include/hpx/serialization/input_container.hpp:105-115 | the threshold becomes the given value, and 0 restores the default |
| InputContainer.InputContainer.LoadBinary | libs/core/serialization/include/hpx/serialization/input_container.hpp:117-160 | without a filter the cursor moves as Load says, using the exact bounds check; with a filter the cursor is untouched |
| InputContainer.InputContainer.LoadBinaryChunk | libs/core/serialization/include/hpx/serialization/input_container.hpp:162-193 | with no chunks, a count below the threshold, or a filter, it behaves as LoadBinary; otherwise as LoadChunk |
| ValueSemantic.StripPrefixes | libs/core/program_options/src/value_semantic.cpp:22-31 | a text made only of '-' and '/' is returned unchanged; otherwise the result is the suffix left after the maximal leading run of those characters, and it starts with another character |
| ValueSemantic.StripPrefixesIdempotent | libs/core/program_options/src/value_semantic.cpp:22-31 | stripping twice is stripping once |
| ValueSemantic.CheckFirstOccurrence | libs/core/program_options/src/value_semantic.cpp:203-207 | passes exactly when no value is stored, else multiple_occurrences |
| ValueSemantic.GetSingleString | libs/core/program_options/src/value_semantic.cpp:149 | more than one token gives multiple_values_not_allowed; none, when not allowed, gives at_least_one_value_required; otherwise the single token, or "" |
| ValueSemantic.UntypedValue.constructor | libs/core/program_options/src/value_semantic.cpp:102-108 | keeps the zero_tokens flag that min_tokens reads at these lines; the constructor itself is declared in a header that is not part of this model |
| ValueSemantic.UntypedValue.Name | libs/core/program_options/src/value_semantic.cpp:95-100 | every untyped value is named "arg" |
| ValueSemantic.UntypedValue.MinTokens | libs/core/program_options/src/value_semantic.cpp:102-108 | at most one token; none exactly when zero_tokens is set |
| ValueSemantic.UntypedValue.MaxTokens | libs/core/program_options/src/value_semantic.cpp:110-113 | equal to min_tokens, so at most one token and none exactly when zero_tokens is set |
| ValueSemantic.UntypedTokenCounts | libs/core/program_options/src/value_semantic.cpp:102-113 | min_tokens == max_tokens; they are 0 exactly when zero_tokens is set, and 1 otherwise |
| ValueSemantic.UntypedValue.Xparse | libs/core/program_options/src/value_semantic.cpp:115-123 | a stored value gives multiple_occurrences; more than one token gives multiple_values; otherwise the first token, or "", is stored |
| ValueSemantic.ToLower | libs/core/program_options/src/value_semantic.cpp:151-152 | upper-case ASCII letters move down by 32; every other character is kept |
| ValueSemantic.Lowercase | libs/core/program_options/src/value_semantic.cpp:151-152 | the loop yields LowerAll of its input: same length, each character lower-cased |
| ValueSemantic.LowerAllUnique | libs/core/program_options/src/value_semantic.cpp:151-152 | any character-wise lower-casing equals LowerAll |
| ValueSemantic.LowerAllIdempotent | libs/core/program_options/src/value_semantic.cpp:151-152 | lower-casing twice is lower-casing once |
| ValueSemantic.ValidateBool | libs/core/program_options/src/value_semantic.cpp:145-160 | the store receives BoolValidation's value, or stays unchanged and the error is reported |
| ValueSemantic.BoolValidationTable | libs/core/program_options/src/value_semantic.cpp:154-159 | true exactly for empty, on, yes, 1 or true after lower-casing; false exactly for off, no, 0 or false; anything else is invalid_bool_value of the lower-cased text; no token means true |
| ValueSemantic.BoolValidationIgnoresCase | libs/core/program_options/src/value_semantic.cpp:151-159 | two tokens equal up to case validate alike |
| ValueSemantic.BoolValidationChecksOccurrenceFirst | libs/core/program_options/src/value_semantic.cpp:148 | a prior value is reported before anything about the tokens |
| ValueSemantic.ValidateString | libs/core/program_options/src/value_semantic.cpp:185-190 | checks the first occurrence, then stores the single token or reports GetSingleString's error |
| ValueSemantic.TypedBoolValue.constructor | libs/core/program_options/src/value_semantic.cpp:132 | no default and tokens expected |
| ValueSemantic.TypedBoolValue.DefaultValue | libs/core/program_options/src/value_semantic.cpp:133 | stores the default |
| ValueSemantic.TypedBoolValue.ZeroTokens | libs/core/program_options/src/value_semantic.cpp:134 | takes no token |
| ValueSemantic.BoolSwitch | libs/core/program_options/src/value_semantic.cpp:125-137 | a fresh bool value that writes to the given variable, defaults to false and takes zero tokens |
| OptionErrors.StrLessTotal | libs/core/program_options/src/value_semantic.cpp:322-345 | std::string's `<` is a strict total order (also StrLessIrreflexive and StrLessTransitive), giving the maps' iteration order |
| OptionErrors.Lookup | libs/core/program_options/src/value_semantic.cpp:289-290 | a key is found exactly when it is present |
| OptionErrors.Put | libs/core/program_options/src/value_semantic.cpp:322-324 | `m[k] = v` keeps the keys sorted, adds k, and afterwards k maps to v with every other key unchanged |
| OptionErrors.Find | libs/core/program_options/src/value_semantic.cpp:258 | `find` returns the first position at or after the start where the text occurs, or npos when there is none |
| OptionErrors.ReplaceRoundsSelfDiverges | libs/core/program_options/src/value_semantic.cpp:253-264 | replace_token as written never ends when `to == from` and `from` occurs |
| OptionErrors.InvalidBoolValueMessageHangs | libs/core/program_options/src/value_semantic.cpp:222-226 | the message of invalid_bool_value for the token "%value%" never finishes substituting |
| OptionErrors.ReplaceRoundsMayDivergeWithoutSelfReference | libs/core/program_options/src/value_semantic.cpp:253-264 | replace_token as written also loops for ever when `to` does not contain `from`: "aab" with "ab" replaced by "bbaa" |
| OptionErrors.GrownDiverges | libs/core/program_options/src/value_semantic.cpp:253-264 | every restart on the family the example grows into finds another occurrence |
| OptionErrors.ReplaceAllSkips | libs/core/program_options/src/value_semantic.cpp:253-264 | the corrected replacement copies a stretch without occurrences unchanged |
| OptionErrors.ReplaceAllBySelf | libs/core/program_options/src/value_semantic.cpp:253-264 | corrected, replacing a placeholder by itself leaves the message unchanged, and terminates |
| OptionErrors.ReplaceAllWithoutPercent | libs/core/program_options/src/value_semantic.cpp:344-345 | a message without '%' is not changed by replacing any text that contains '%' |
| OptionErrors.CanonicalOptionPrefix | libs/core/program_options/src/value_semantic.cpp:266-285 | any failure is the logic_error message |
| OptionErrors.CanonicalOptionPrefixTable | libs/core/program_options/src/value_semantic.cpp:266-285 | allow_dash_for_short and allow_long_disguise give "-", allow_slash_for_short gives "/", allow_long gives "--", 0 gives "", and every other style is a logic_error |
| OptionErrors.CanonicalOptionName | libs/core/program_options/src/value_semantic.cpp:287-316 | the only failure is the prefix's logic_error message; it never fails for style 0 or one of the four known styles, nor without an original token or with an empty option name |
| OptionErrors.CanonicalOptionNameCases | libs/core/program_options/src/value_semantic.cpp:287-316 | an empty option name gives the original token; long styles give prefix + stripped name; a short style with a non-empty token gives prefix + the stripped token's first character; otherwise the stripped name |
| OptionErrors.Placeholder | libs/core/program_options/src/value_semantic.cpp:345 | `'%' + name + '%'` is non-empty and contains '%' |
| OptionErrors.DefaultsLeaveTemplateWithoutPercent | libs/core/program_options/src/value_semantic.cpp:329-338 | the defaults pass leaves a template without '%' unchanged, since every default phrase contains '%' |
| OptionErrors.SubstitutionsLeaveTemplateWithoutPercent | libs/core/program_options/src/value_semantic.cpp:344-345 | the values pass leaves a template without '%' unchanged |
| OptionErrors.GetTemplate | libs/core/program_options/src/value_semantic.cpp:388-418 | a template holds a '%' exactly when its kind is one of the five named kinds; every other kind gets a text with no placeholder |
| OptionErrors.InvalidBoolValueMessage | libs/core/program_options/src/value_semantic.cpp:318-346 | with the constructor's defaults and substitutions holding a non-empty, '%'-free canonical name and value, the invalid_bool_value template becomes exactly "the argument ('<value>') for option '<name>' is invalid. Valid choices are ...", with no placeholder left |
| OptionErrors.TemplatesNameTheOption | libs/core/program_options/src/value_semantic.cpp:388-418 | the value templates hold `%value%` at 15 and `%canonical_option%` at 37; the other named kinds hold `%canonical_option%` at 8; any other kind gives "unknown error" |
| OptionErrors.ErrorWithOptionName.constructor | libs/core/program_options/src/value_semantic.cpp:228-243 | the three defaults and the two substitutions are exactly those the constructor installs, sorted, with an empty message |
| OptionErrors.ErrorWithOptionName.SetSubstitute | libs/core/program_options/src/value_semantic.cpp:213 | `m_substitutions[name] = value`; the defaults and the message are untouched |
| OptionErrors.ErrorWithOptionName.SetSubstituteDefault | libs/core/program_options/src/value_semantic.cpp:237-240 | `m_substitution_defaults[name] = (from, to)`; the substitutions and the message are untouched |
| OptionErrors.ErrorWithOptionName.ReplaceTokenAsWritten | libs/core/program_options/src/value_semantic.cpp:253-264 | replace_token as written, bounded by fuel: it finishes exactly when ReplaceRounds does, with ReplaceRounds' message, in which `from` no longer occurs |
| OptionErrors.ReplaceRoundsAllReplaced | libs/core/program_options/src/value_semantic.cpp:253-264 | whenever replace_token as written ends, no occurrence of `from` is left in the message |
| OptionErrors.CorrectedDiffersOnTerminatingInput | libs/core/program_options/src/value_semantic.cpp:253-264 | on "aab" with "ab" replaced by "b", replace_token as written ends with "b", while the corrected replacement leaves "ab", which still contains "ab" |
| OptionErrors.ErrorWithOptionName.ReplaceToken | libs/core/program_options/src/value_semantic.cpp:253-264 | the corrected replace_token always terminates and leaves ReplaceAll of the message |
| OptionErrors.ErrorWithOptionName.ReplaceDefaults | libs/core/program_options/src/value_semantic.cpp:329-338 | the defaults loop leaves ApplyDefaults of the message, built on the corrected replace_token |
| OptionErrors.ErrorWithOptionName.ReplacePlaceholders | libs/core/program_options/src/value_semantic.cpp:344-345 | the values loop leaves ApplySubstitutions of the message, built on the corrected replace_token |
| OptionErrors.ErrorWithOptionName.SubstitutePlaceholders | libs/core/program_options/src/value_semantic.cpp:318-346 | the message becomes Substituted(template), built on the corrected replace_token, or the logic_error is reported with the message left at the template |
| OptionErrors.ErrorWithOptionName.What | libs/core/program_options/src/value_semantic.cpp:245-251 | what() yields Substituted of the stored template, built on the corrected replace_token |
| Parsers.CollectUnrecognized | libs/core/program_options/include/hpx/program_options/detail/parsers.hpp:118-135 | the loop returns Collected(options, mode) |
| Parsers.CollectedIsFlattenedSelection | libs/core/program_options/include/hpx/program_options/detail/parsers.hpp:123-134 | the result is the concatenation, in input order, of the original tokens of exactly the options that are unregistered or (in include_positional) positional |
| Parsers.CollectedAppend | libs/core/program_options/include/hpx/program_options/detail/parsers.hpp:124-133 | collecting over a concatenation collects each part in turn |
| Parsers.CollectedLength | libs/core/program_options/include/hpx/program_options/detail/parsers.hpp:128-131 | the result's length is the total token count of the selected options |
| Parsers.ExcludeIgnoresPositions | libs/core/program_options/include/hpx/program_options/detail/parsers.hpp:126-127 | outside include_positional the position keys are irrelevant: the result is include_positional's on the options with positions cleared |
| Parsers.RegisteredNonPositionalIgnored | libs/core/program_options/include/hpx/program_options/detail/parsers.hpp:126-127 | a registered option without a position contributes nothing in either mode |
| Parsers.ExcludedTokensAreUnregistered | libs/core/program_options/include/hpx/program_options/detail/parsers.hpp:126-131 | in exclude_positional every collected token comes from an unregistered option |
| Parsers.SelectedTokensCollected | libs/core/program_options/include/hpx/program_options/detail/parsers.hpp:126-131 | every token of a selected option appears in the result |
| Barrier.Barrier.constructor | libs/full/collectives/src/barrier.cpp:56-58 | the generation starts at 0 |
| Barrier.Barrier.WithSites | libs/full/collectives/src/barrier.cpp:78-80 | the generation starts at 0, with the given number of sites |
| Barrier.Barrier.WithRank | libs/full/collectives/src/barrier.cpp:100-103 | the generation starts at 0, with the given number of sites and rank |
| Barrier.Barrier.FromRanks | libs/full/collectives/src/barrier.cpp:130-135 | as many sites as ranks, this site at the first index of rank in ranks, generation 0 |
| Barrier.FindRank | libs/full/collectives/src/barrier.cpp:121-128 | the index of the first occurrence of rank; its presence is required, as the source asserts it |
| Barrier.Barrier.Detach | libs/full/collectives/src/barrier.cpp:139-145 | the generation returns to 0 |
| Barrier.Barrier.Wait | libs/full/collectives/src/barrier.cpp:152-177 | the new generation and the result are WaitStep's |
| Barrier.ZeroGenerationRejected | libs/full/collectives/src/barrier.cpp:155-160 | generation 0 gives bad_parameter and leaves the generation unchanged |
| Barrier.ExplicitGeneration | libs/full/collectives/src/barrier.cpp:162-171 | an explicit generation replaces the stored one even when refused; it is accepted exactly when it exceeds the previous one, and refused with bad_parameter otherwise |
| Barrier.NextGenerationIncrements | libs/full/collectives/src/barrier.cpp:173-177 | the sentinel size_t(-1) uses and stores the previous generation + 1, wrapping to 0 after size_t(-1) |
| Barrier.SuccessRecordsGeneration | libs/full/collectives/src/barrier.cpp:162-177 | an accepted wait leaves the barrier at the generation it used, which exceeds the previous one unless that was size_t(-1) |
| Barrier.AsWrittenAcceptsGenerationTwice | libs/full/collectives/src/barrier.cpp:162-171 | waits with 5, 3, 5 from a new barrier go ahead under 5 twice |
| Barrier.WaitStepChecked | libs/full/collectives/src/barrier.cpp:162-171 | with the check done before the exchange, a refused wait leaves the generation as it was, and an accepted one stores the generation it used |
| Barrier.CheckedGenerationsIncrease | libs/full/collectives/src/barrier.cpp:162-177 | with the check done first and no wrap, the generations that go ahead strictly increase and exceed the starting one |
| AsyncReplay.RethrowOnAbortReplay | libs/resiliency/include/hpx/resiliency/async_replay.hpp:50-67 | abort_replay_exception is rethrown; any other exception is captured and returned |
| AsyncReplay.Call | libs/resiliency/include/hpx/resiliency/async_replay.hpp:90-145 | call(n) as written launches f at least once and at most n+1 times |
| AsyncReplay.AbortIsRethrown | libs/resiliency/include/hpx/resiliency/async_replay.hpp:102-105 | an abort from f ends the replay at once, after one launch |
| AsyncReplay.FailureRelaunches | libs/resiliency/include/hpx/resiliency/async_replay.hpp:107-128 | with n != 0, another exception or a rejected result relaunches as call(n-1) |
| AsyncReplay.LastAttemptFailure | libs/resiliency/include/hpx/resiliency/async_replay.hpp:114-132 | at n == 0, another exception is rethrown and a rejected result throws abort_replay_exception |
| AsyncReplay.AsWrittenNeverReturnsLastAttempt | libs/resiliency/include/hpx/resiliency/async_replay.hpp:135-143 | a result is returned only when fewer than n+1 launches were made |
| AsyncReplay.AsWrittenZeroReplaysAborts | libs/resiliency/include/hpx/resiliency/async_replay.hpp:135-143 | async_replay(0, f) with f returning 42 fails with abort_replay_exception |
| AsyncReplay.CallCorrected | libs/resiliency/include/hpx/resiliency/async_replay.hpp:90-145 | the corrected call(n) also launches between 1 and n+1 times |
| AsyncReplay.CorrectedStopsAtFirstDecisive | libs/resiliency/include/hpx/resiliency/async_replay.hpp:90-145 | the corrected replay stops at the first launch that aborts or yields an accepted result, or after n+1 launches, and yields what that launch produced |
| AsyncReplay.CallDiffersOnlyAtLastAttempt | libs/resiliency/include/hpx/resiliency/async_replay.hpp:135-143 | as written and corrected make the same launches and agree, except that an accepted result on launch n+1 becomes abort_replay_exception as written |
| AsyncReplay.CorrectedZeroReplaysReturns | libs/resiliency/include/hpx/resiliency/async_replay.hpp:135-143 | corrected, with no replays allowed, a returned 42 is the result |
| AsyncReplay.AsyncReplayValidate | libs/resiliency/include/hpx/resiliency/async_replay.hpp:176-186 | f is launched between 1 and n+1 times; with replays left, an accepted first result is returned after one launch; with none left, any first result fails with abort_replay_exception; a first abort is rethrown at once |
| AsyncReplay.AsyncReplay | libs/resiliency/include/hpx/resiliency/async_replay.hpp:191-198 | async_replay launches f between 1 and n+1 times; with replays left, a first launch that returns is the result, and a first launch that aborts is rethrown |
| AsyncReplay.ValidatorAcceptsFirstResult | libs/resiliency/include/hpx/resiliency/async_replay.hpp:40-47 | with that validator, after j failures that are not aborts (j <= n), the corrected replay yields the first returned value after j+1 launches |
| BatchEnvironments.FromString | libs/core/batch_environments/src/pbs_environment.cpp:34 | the parsed value, or the default when parsing fails |
| BatchEnvironments.FirstOccurrencesAreHosts | libs/core/batch_environments/src/pbs_environment.cpp:80-96 | the filled node list has no duplicates and exactly the non-empty lines, so its length is the number of distinct non-empty lines |
| BatchEnvironments.FirstOccurrencesInOrder | libs/core/batch_environments/src/pbs_environment.cpp:85-93 | the hosts appear in the order of their first occurrence |
| BatchEnvironments.PbsEnvironment.constructor | libs/core/batch_environments/src/pbs_environment.cpp:24-27 | node number, locality count and thread count start at size_t(-1), and valid_ starts false |
| BatchEnvironments.PbsEnvironment.Initialize | libs/core/batch_environments/src/pbs_environment.cpp:28-56 | the fields, the node list and the outcome are Configure's |
| BatchEnvironments.PbsEnvironment.ReadNodefile | libs/core/batch_environments/src/pbs_environment.cpp:59-113 | the fields, the node list and the outcome are ReadNodefileSpec's |
| BatchEnvironments.PbsEnvironment.ReadNodelist | libs/core/batch_environments/src/pbs_environment.cpp:115-142 | the fields are ReadNodelistSpec's |
| BatchEnvironments.NoNodeNumber | libs/core/batch_environments/src/pbs_environment.cpp:24-31 | without PBS_NODENUM, valid_ is false, the three counts stay size_t(-1), and the node list is untouched |
| BatchEnvironments.EmptyNodelistInvalid | libs/core/batch_environments/src/pbs_environment.cpp:118-122 | an empty node list only clears valid_ |
| BatchEnvironments.GivenNodelistCounted | libs/core/batch_environments/src/pbs_environment.cpp:124-141 | a caller's node list is kept, and the locality count is its number of distinct non-empty entries |
| BatchEnvironments.NodefileFillsNodelist | libs/core/batch_environments/src/pbs_environment.cpp:75-96 | with an empty node list and a readable node file, the list receives each distinct non-empty line once, and the count is their number |
| BatchEnvironments.NodefileMissing | libs/core/batch_environments/src/pbs_environment.cpp:62-112 | a missing PBS_NODEFILE clears valid_; an unopenable file is an error ("Could not open nodefile: '…'") exactly when MPI is not active |
| Generate.Generator.Invoke | libs/core/algorithms/include/hpx/parallel/algorithms/generate.hpp:182 | the k-th invocation yields the k-th output |
| Generate.Generated | libs/core/algorithms/include/hpx/parallel/algorithms/generate.hpp:49-51 | n values, the i-th being output start+i |
| Generate.GeneratedSplit | libs/core/algorithms/include/hpx/parallel/algorithms/generate.hpp:49-51 | generating a range in two pieces gives the same values as generating it at once |
| Generate.Generate | libs/core/algorithms/include/hpx/parallel/algorithms/generate.hpp:174-184 | element first+i receives the i-th generator output, with exactly last-first invocations; nothing outside the range changes, and last is returned |
| Generate.GenerateN | libs/core/algorithms/include/hpx/parallel/algorithms/generate.hpp:264-276 | a negative count returns first and changes nothing; otherwise the generate of [first, first+count) is done and first+count returned |

## Left out

- **Concurrency.** The spinlock pool guarding the `id_type` credit methods, the atomicity of `count_`, futures and continuations (`.then`, `launch::sync`), and `hpx::async`. Every operation is a sequential update.
- **Impl addresses.** An impl's pointer value is a constructor parameter (`Address`). The model takes live impls to have distinct addresses, but nothing in it ties the address to object identity. So an `operator<` tie between two handles on different impls, which the allocator rules out, is not excluded by NamingId.Less.
- **Deleters.** The bodies of the three `id_type_impl` deleters are outside this model; the release returns which deleter would run.
- **Printing and Boost.Serialization.** The `ostream` operators and Boost.Serialization of `gid_type` and `id_type` are I/O.
- **NamingId.IdType.Copy:** objects are cited by the `intrusive_ptr` member. Its copy constructor comes from Boost's header, which is not part of this model.
- **Commented-out code.** The commented-out `id_type_impl` address members in name.hpp are dead code.
- **`get_locality_from_id`.** Handles use the same prefix encoding, so it is not modelled separately.
- **Migration collaborators.** The remote actions (`begin_migration`, `end_migration`, `migrate_component_async`, the storage's `migrate_from_here` action) and `input_archive` deserialization are `Scenario` parameters.
  - `get_locality_id_from_id` is taken to be the name.hpp prefix encoding.
  - The behaviour of a second `begin_migration` on an already marked GID is not defined in migrate_from_storage.hpp. The marks only count how many migrations are outstanding.
- **InputContainer byte contents.** The `binary_filter` decompression and the byte copies of `input_container` are not modelled: `access_traits::read`, `memcpy` and `init_data`. `set_filter` takes the cursor position the filter reports. `HPX_ZERO_COPY_SERIALIZATION_THRESHOLD` is a build setting, so it is a constructor parameter.
- **Wide-string and UTF-8 program-options code.** `from_utf8`, `to_local_8_bit`, `convert_value`, the `wchar_t` validators and `value_semantic_codecvt_helper::parse` are left out, since Dafny strings have no encoding.
- **`ambiguous_option::substitute_placeholders`.** It is a separate error class that builds its template and then calls the base method. Only the base method is modelled.
- **Boost header details.** `get_single_string`, the `command_line_style` values (allow_long = 1, allow_dash_for_short = 4, allow_slash_for_short = 8, allow_long_disguise = 4096) and `validation_error::kind_t` come from headers that are not part of this model.
  - The values follow Boost.Program_options.
  - `set_substitute` and `set_substitute_default` are modelled as `std::map` assignments.
  - The constructors of `typed_value<bool>` and `untyped_value` are assumed to start with no default and with tokens expected.
- **`what()` is noexcept.** When the logic_error escapes, C++ terminates the program. The model reports the error instead.
- ReplaceDefaults: the defaults loop uses the corrected replace_token, which resumes after the inserted text. Where the source's loop ends, the two can give different messages. For example, "aab" with "ab" replaced by "b" gives "b" in the source and "ab" in the model (CorrectedDiffersOnTerminatingInput).
- ReplacePlaceholders: the values loop uses the corrected replace_token. On inputs where the source's loop ends, it can give a different message. For example, "'%value%e%'" with `%value%` replaced by `%valu` is "'%valu'" in the source and "'%value%'" in the model.
- SubstitutePlaceholders: it runs both loops with the corrected replace_token, so it inherits the two differences above. Its message can still contain a placeholder that the source would have replaced.
- What: what() is Substituted, built on the corrected replace_token. It returns on inputs where the source loops for ever, and it can differ from the source's message on inputs where the source's loop ends.
- SetSubstituteDefault: requires a non-empty `from`. The source accepts any string there; an empty one would make its replace_token loop for ever.
- SplitCredits: the default argument `fraction = 2` of `split_credits` and `split_credits_for_gid` is not modelled. Callers of NamingGid.GidObject.SplitCredits and NamingId.IdType.SplitCredits pass the fraction explicitly. A zero fraction, a division by zero in C++, is excluded.
- LoadChunk: LoadChunk, LoadChunkBookkeeping and LoadKeepsWithinChunks require `currentChunk < |cs|`. The source indexes `chunks_[current_chunk_]` without a check, and reading past the chunk list is undefined behaviour, so the model leaves it out.
- **OptionErrors.ErrorWithOptionName.ReplaceToken:** requires a non-empty `from`, which every call in value_semantic.cpp satisfies. As written, an empty `from` matches at position 0 for ever.
- **Command-line parser builders.** The builders in parsers.hpp (`parse_command_line` and the `basic_command_line_parser` methods) wrap `detail::cmdline`, which is not part of this model.
- **Barrier communication.** Its communicator creation, the `set_info` callback, the communication action and `create_global_barrier` or `get_global_barrier` are remote plumbing. `get_global_barrier` uses the default-constructed barrier, whose header is not part of this model.
- **Barrier generation arguments.** The `generation_arg` and `root_site_arg` passed to `create_communicator` are not stored by the barrier.
- **PBS side channels.** The `debug` output of `pbs_environment` is I/O.
  - `getenv` becomes an `Environment` value, and the node file becomes its list of lines, or None when it cannot be opened.
  - `from_string` is not part of this model and is a parameter.
  - Counts are naturals; `nodes.size()` is assumed to fit in `std::size_t`.
- **Generate policies.** Parallel and unsequenced execution (`for_each_n` partitioning), and the asynchronous policies' futures, are left out; only the sequenced semantics is modelled. `sequential_generate` is not part of this model, so `generate` follows its documented semantics.

## Findings

| source | as written | input that shows it | evidently intended | confidence | as-written member | corrected member |
|---|---|---|---|---|---|---|
| hpx/runtime/naming/name.hpp:88-93 | the post-decrement operator calls `++(*this)` | a GID (0,5) after `g--` is (0,6) | `--(*this)`, leaving (0,4) | high, not executed | NamingGid.GidObject.PostDecrement, NamingGid.PostDecrementAsWrittenIncrements | NamingGid.GidObject.PostDecrementCorrected, NamingGid.DecrementUndoesIncrement |
| libs/core/serialization/include/hpx/serialization/input_container.hpp:125-126 | the bounds check computes `current_ + count` in std::size_t, which can wrap | current_ 4, count 2^64-2, container size 8: the sum wraps to 2 and the check passes | a check that cannot wrap, such as `count > size - current_` | medium, not executed | InputContainer.ReadsPastEndAsWritten, InputContainer.WrappedCheckAdmitsOverrun | InputContainer.InputContainer.LoadBinary, InputContainer.ChecksAgreeWithoutWrap |
| libs/core/program_options/src/value_semantic.cpp:253-264 | replace_token searches again from the start after every replacement | an invalid bool value "%value%" (the replacement contains the placeholder); also "aab" with "ab" replaced by "bbaa" | continue the search after the inserted text, so the loop always ends; this also changes some results where the source's loop ends (CorrectedDiffersOnTerminatingInput) | high, not executed | OptionErrors.ErrorWithOptionName.ReplaceTokenAsWritten, OptionErrors.InvalidBoolValueMessageHangs, OptionErrors.ReplaceRoundsMayDivergeWithoutSelfReference | OptionErrors.ErrorWithOptionName.ReplaceToken, OptionErrors.ReplaceAllBySelf |
| libs/resiliency/include/hpx/resiliency/async_replay.hpp:135-143 | an accepted result on the last allowed attempt (n == 0) throws abort_replay_exception | async_replay(0, f) with f returning 42 fails; so does an f that fails once and then succeeds under async_replay(1, f) | return the accepted result whatever n is | high, not executed | AsyncReplay.Call, AsyncReplay.AsWrittenZeroReplaysAborts | AsyncReplay.CallCorrected, AsyncReplay.CorrectedStopsAtFirstDecisive |
| libs/full/collectives/src/barrier.cpp:162-171 | the new generation is stored by `std::exchange` before it is checked | waits with 5, 3, 5 on a new barrier: 3 is refused but lowers the generation, and 5 goes ahead a second time | leave the generation unchanged when a generation is refused | medium, not executed | Barrier.Barrier.Wait, Barrier.AsWrittenAcceptsGenerationTwice | Barrier.WaitStepChecked, Barrier.CheckedGenerationsIncrease |

The `replace_token` loop as written can run for ever even when the replacement does not contain the searched text. `OptionErrors.ReplaceRoundsMayDivergeWithoutSelfReference` proves this with "aab", replacing "ab" by "bbaa". So "`to` does not contain `from`" is not enough for termination.
