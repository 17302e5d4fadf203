# ZCM in Dafny

A model of the parts of ZCM whose correctness is hard to see from the code, with machine-checked
proofs of what they promise. `dafny verify dfyconfig.toml` checks everything.

* **Message codec.** `zcm-gen` turns a struct schema into C and C++ encoders, decoders, size and hash
  functions. `Schema.dfy` holds the schemas the parser accepts, the values they describe and the wire
  format as one bit sequence per value. `CBackend.dfy`, `CppBackend.dfy` and `CDecoder.dfy` give the
  meaning of the emitted code as loops over a byte buffer, with sizes in the C types; `BitPacker.dfy`
  and `PrimArrays.dfy` are the bit and byte codecs underneath, `Binary.dfy` the shifts, masks and bit
  sequences they use. `Decoding.dfy` reads a buffer by recursion; `Blocks.dfy` is the memory that the
  decoder allocates and stores to; `MessageTrip.dfy` joins encoder and decoder; `DecodeSafety.dfy` says on
  which messages and for which schemas the decoder stays inside its bytes and its blocks, `Refusals.dfy`
  which messages it refuses.
  `EncoderSteps.dfy` and `Writing.dfy` hold the proof steps that both encoders share.
* **Fingerprints.** `TypeHash.dfy` is the hash of one struct, `RecursiveHash.dfy` the hash over a
  possibly cyclic graph of types, `SchemaHash.dfy` derives both from the schema of the codec, and
  `SignVersions.dfy` is what two versions of a schema with one hash read from each other's messages.
* **Event log.** `LogFormat.dfy` is the file format, `EventLog.dfy` the cursor with its two
  resynchronisers, `LogRuns.dfy` whole passes over a log, `LogSeek.dfy` the bisection by time.
* **Blocking engine.** `Sender.dfy` and `Lifecycle.dfy` are step systems: each step is what one
  thread does under one mutex, and the theorems quantify over every interleaving. `Threads.dfy` and
  `Options.dfy` hold the types they share.
* **Subscriptions.** `Channels.dfy` has the two matching rules, `Subscriptions.dfy` the table of the
  non-blocking engine, the lists of the blocking engine and their agreement.
* **Message tracker and synchronizer.** `MessageTracker.dfy` and `Synchronizer.dfy`.
* **Serial ring buffer.** `RingBuffer.dfy`.

Where the code and its comments disagree the model follows the code: a bit field declared with a
negative width is the sign-extended one (gen/emit/EmitC.cpp:614-617), although the comment at
gen/ZCMGen.hpp:25-28 shows the opposite.

Parameters stand for what lies outside: the bytes a device offers or takes in one call, the
transport's answer to a request, the regular expression library's answer, the type's hash, and the
sizes that the C compiler gives to pointers and structs.

Some results go against a first reading of the code; each has an input and an exact condition.

* A count from a message is multiplied by an element's size in `uint32_t` twice: in the size test of an
  array decoder, which can then pass, and in the allocation of the block that the elements are stored in,
  which is then too small. `DecodeSafety.UndefinedExactly` says on which counts that takes a call behind
  its bytes or its block, `DecodeSafety.RecordsExactly` and `DecodeSafety.OuterExactly` do so for arrays of
  structs and for the pointers of outer dimensions. `DecodeSafety.WildMessage` and `DecodeSafety.WildStrings`
  are messages that do it, and `DecodeSafety.NeverUndefined` names the schemas for which no message can.
* The allocation can even fail a proper message: `Decoding.RoundTrip` gives a value back if and only if no
  block for it has a size that wraps, and `DecodeSafety.WildRows` is a value with a message of 16 bytes
  for which one does.
* The length of a message does not bound its counts: `CppBackend.HollowRecord` is a record of eight bytes
  with 2^32 elements, which the two back ends would handle differently. `CppBackend.SameTurns` says for
  every dimension on which counts their loops handle the same elements; well-typed values are among them.
* `CBackend.MessageSize` is less than the message takes exactly when a run of bit fields has 2^32 bits or
  more; `CBackend.RunWraps` is such a value.
* The fingerprint does not cover sign extension (`SchemaHash.SignNotHashed`). Of two versions of a schema
  that differ only in it, one reads what the other wrote if and only if the top bit of the field is clear
  wherever the value holds it (`SignVersions.OtherVersionAgrees`). If the field counts no array, it ends on
  every buffer as the other does and reads the same record apart from that field
  (`SignVersions.OtherVersionReads`; `SignVersions.ReadAsMinusOne` is an input). If it counts one, messages
  can be refused as well (`SignVersions.CountRefused`).
* One changed character of a struct's description always changes its hash (`TypeHash.OneCharacterMatters`);
  two in a row do so unless the first differ by an even number and the second by one
  (`TypeHash.PairMatters`, `TypeHash.PairCollides`). A nested struct's hash counts once for each member of
  its type, so that a change of it is lost exactly when their number times the change is a multiple of 2^64
  (`RecursiveHash.NestedExactly`).
* The synchronizer compares with the newest arrival of the second stream only. That is the rule its comment
  gives, that any message no earlier will do, if that stream is in order (`Synchronizer.NoEarlier`), and not
  otherwise (`Synchronizer.OutOfOrderWaits`).
* A stop disables the send queue, and only a flush enables it again (or a change of the queue's size, which
  is not modelled). `Sender.HandedOverExactly` says when accepted messages are handed over,
  `Sender.StrandedRun` when nothing is, and
  `Sender.PublishedAfterStop` is a run whose messages stay in the queue.
* `LogSeek.SeekToTimestamp` succeeds exactly when a probe at 1/2, 3/4, 7/8, ... of the file meets a record
  at or after the target. So it fails for every target later than the last record
  (`LogSeek.PastTheEnd`), for every target when the last record starts in the first half of the file
  (`LogSeek.LongLastRecord`), and always on a log of one record (`LogSeek.OneRecordFails`).
* `RingBuffer.SizeAcrossPopAndPush`: `cb_size` is safe against one push or one pop; when a pop and
  then a push fall between its two loads it returns a size the buffer never had, except in the two
  cases stated (`RingBuffer.SizeNeverHeld` is such an input).
* `Channels.MatchersAgree`: the prefix test of the non-blocking engine and the full match of the
  blocking engine differ exactly on channels that continue a matching pattern with a line terminator,
  or a plain name of full length with more characters.
* A channel name of more than 32 characters is not enabled under the name the table keeps
  (`Subscriptions.LongNameNotEnabled`) and cannot be unsubscribed from the lists
  (`Subscriptions.LongNameNotRemoved`).

## Model

| member | source | states |
|---|---|---|
| `BitPacker.Advance` | zcm/zcm_coretypes.h:47-59 | the new byte and bit offsets denote the old position plus the number of bits, with the bit offset below eight |
| `BitPacker.EncodedSize` | zcm/zcm_coretypes.h:39-44 | the least number of bytes that covers the bits |
| `BitPacker.EncodeElementBits` | zcm/zcm_coretypes.h:76-95 | one element appends exactly the low numbits bits, most significant first, to the stream of bits already written, and touches no byte outside the span |
| `BitPacker.EncodeArrayBits` | zcm/zcm_coretypes.h:62-104 | for arrays whose bits can be counted by an int: fails exactly when maxbytes does not cover the bits and then writes nothing; otherwise the stream grows by the concatenation of every element's bits, from any clean bit offset, and the bytes before and behind the span keep their values |
| `BitPacker.DecodeElementBits` | zcm/zcm_coretypes.h:125-149 | the byte-wise assembly with its one sign-extended first chunk equals the unsigned or signed reading of the bit slice, converted to the storage type |
| `BitPacker.DecodeArrayBits` | zcm/zcm_coretypes.h:107-160 | for every number of elements: leaves the bytes it may read or the block it may fill exactly when the size test passes and OverrunsBits holds or the block is too small; otherwise fails exactly when maxbytes is below the size computed in uint32_t, and else element i is the reading of the i-th slice of the bit stream and the count is returned as an int |
| `BitPacker.UnpackFields` | zcm/zcm_coretypes.h:123-151 | the loop over elements stays before `end` and in its block exactly when all slices and elements do, and then reads consecutive slices from any bit offset |
| `BitPacker.OverrunsBitsWhen` | zcm/zcm_coretypes.h:114-115 | the unpacker goes behind its bytes only if the bit count passes 2^32 and what is left of it is covered; below 2^29 bytes exactly then |
| `BitPacker.FieldReading` | zcm/zcm_coretypes.h:151-159 | the unsigned unpacker recovers an element modulo 2^numbits, the sign-extending one its numbits-wide two's complement value |
| `BitPacker.FieldRoundTrip` | zcm/zcm_coretypes.h:62-160 | a number in the range of the field and of its type survives packing and unpacking |
| `BitPacker.FieldsRoundTrip` | zcm/zcm_coretypes.h:62-160 | a whole array survives, wherever it lies in the bit stream |
| `Blocks.Malloc` | zcm/zcm_coretypes.h:21-25 | the size of an allocated block is the product of element size and count modulo 2^32, for any count, negative ones too |
| `Blocks.BlockHolds` | gen/emit/EmitC.cpp:419-440 | a block has room for all elements of its dimension if and only if the member lies in its struct or the product of size and count is below 2^32 |
| `Blocks.ConstantAlloc` | gen/ZCMGen.cpp:988-998 | in a schema without variable array sizes no value needs a block, so that the round trip holds for every value |
| `PrimArrays.WordRoundTrip` | zcm/zcm_coretypes.h:382-462 | the bytes of a word, in either byte order, denote the word modulo 2^(8n) |
| `PrimArrays.PutWord` | zcm/zcm_coretypes.h:382-401 | the shift-and-mask stores of one word put exactly its bytes and nothing else |
| `PrimArrays.EncodeFixedArray` | zcm/zcm_coretypes.h:483-557 | fails exactly when maxlen is short and then writes nothing; otherwise the span holds the words' bytes in the byte order and the rest of the buffer is unchanged |
| `PrimArrays.EncodeString` | zcm/zcm_coretypes.h:861-869 | one string is its length with terminator, its characters and a zero byte |
| `PrimArrays.EncodeStrings` | zcm/zcm_coretypes.h:856-911 | fails exactly when the strings do not fit, and even then writes nothing outside the span; otherwise the span holds them one behind the other |
| `PrimArrays.OverrunsWhen` | zcm/zcm_coretypes.h:477-515 | a word decoder goes behind its bytes if and only if the size passes 2^32 and what is left of it is covered |
| `PrimArrays.OverrunInputs` | zcm/zcm_coretypes.h:508-515 | 0x2000_0001 words of eight bytes pass with eight bytes, and a count of -0x2000_0000 with none |
| `PrimArrays.OverrunBitsInput` | zcm/zcm_coretypes.h:114-115 | a count of -1 one-bit fields passes with one byte when the field starts one bit into it |
| `Schema.WholeBytes` | gen/emit/EmitC.cpp:484-501 | everything that is not a bit field occupies whole bytes, so a member after a run of bit fields starts where its padding ends |
| `CBackend.EncodeBatch` | gen/emit/EmitC.cpp:507-526 | the call for the elements behind the last dimension writes the wire bits of those elements or reports that they do not fit |
| `CBackend.EncodeDims` | gen/emit/EmitC.cpp:503-529 | one member with all its dimensions writes its wire bits and moves the byte and bit offsets past them |
| `CBackend.EncodeOuter` | gen/emit/EmitC.cpp:411-463 | the nested loops over outer dimensions write the elements in order, bit fields without gaps |
| `CBackend.EncodeRecord` | gen/emit/EmitC.cpp:484-535 | for records of up to INT_MAX bytes: member after member, with the bit-mode flag and the padding at the end of each run, writes the record's wire bits, a whole number of bytes |
| `CBackend.EncodeRecords` | gen/emit/EmitC.cpp:465-540 | an array of records, up to INT_MAX bytes, writes their wire bits; it succeeds exactly when they fit |
| `CBackend.BatchSize` | gen/emit/EmitC.cpp:729-742 | the size term of the elements behind the last dimension: for bit fields the length of their wire bits; otherwise bytes, never more than the wire bits take, and exactly as many if and only if every run of bit fields in them has a bit count below 2^32 |
| `CBackend.DimsSize` | gen/emit/EmitC.cpp:727-746 | the size loops over dimensions add up to the same for a member with any number of dimensions, under the same exact condition |
| `CBackend.RecordSize` | gen/emit/EmitC.cpp:715-749 | the size computed with one uint32_t bit count per run never exceeds the length of the record's wire bits with all its padding, and equals it if and only if every run, here and in nested records, has a bit count below 2^32 |
| `CBackend.RecordsSize` | gen/emit/EmitC.cpp:700-754 | the same for an array of records |
| `CBackend.MessageSize` | gen/emit/EmitC.cpp:756-765 | for messages up to INT_MAX bytes: T_encoded_size never exceeds the length of the message that T_encode writes, and equals it if and only if every run of bit fields has fewer than 2^32 bits |
| `CBackend.RunWraps` | gen/emit/EmitC.cpp:736-749 | a well-typed record of bit fields in a run of 2^32 bits, on which the size is too small |
| `CBackend.Encode` | gen/emit/EmitC.cpp:542-561 | for messages up to INT_MAX bytes: succeeds exactly when maxlen is at least the message's size, returns that size, leaves hash and record at the offset and every other byte unchanged; a failing call writes only between offset and offset + maxlen |
| `CppBackend.EncodePrims` | gen/emit/EmitCpp.cpp:457-481 | a row of primitives or bit fields is written in one call, with the same bits as the C call |
| `CppBackend.EncodeText` | gen/emit/EmitCpp.cpp:483-489 | the length and characters of one string are the wire form that the C string array has for it |
| `CppBackend.EncodeRecursive` | gen/emit/EmitCpp.cpp:452-506 | the recursion over dimensions writes the member's wire bits |
| `CppBackend.EncodeLoop` | gen/emit/EmitCpp.cpp:499-505 | one dimension's loop writes its elements one by one with no gap |
| `CppBackend.EmptyLastDim` | gen/emit/EmitCpp.cpp:584-592 | an array whose last dimension is empty has no wire bits, so the emitted test that skips it changes nothing |
| `CppBackend.EncodeMember` | gen/emit/EmitCpp.cpp:549-596 | every way of emitting a member (scalar, string, nested, array, skipped array) writes its wire bits |
| `CppBackend.EncodeNoHash` | gen/emit/EmitCpp.cpp:508-608 | the record's wire bits, with the padding of every run; succeeds exactly when they fit |
| `CppBackend.Encode` | gen/emit/EmitCpp.cpp:331-349 | the same message, under the same condition, as the C encoder |
| `CppBackend.BothBackends` | gen/emit/EmitCpp.cpp:452-608 | given equal buffers, the C and the C++ encoder fail together or return the same size and leave the same bytes, for every legal schema and every value whose counts and bit counts are ints and whose message is at most INT_MAX bytes |
| `CppBackend.SameTurns` | gen/emit/EmitCpp.cpp:452-505 | the counts that direct the loops and calls of the two encoders agree for a dimension if and only if it is an outer one, or its count is not negative and, unless primitives are passed in one call, at most INT_MAX, or C's conversion of a negative count gives zero |
| `EncoderSteps.TurnsFit` | gen/emit/EmitC.cpp:411-441 | on a well-typed value both encoders' counts are the number of elements, in every dimension |
| `CppBackend.HollowRecord` | gen/emit/EmitC.cpp:507-515 | with an empty struct as element type a record takes eight bytes whatever its count is; at 2^32 elements the C encoder's count is zero and the C++ encoder's loop overflows |
| `Decoding.RecordBack` | gen/emit/EmitC.cpp:563-637 | wherever a record's wire bits stand, up to INT_MAX bytes of them: decoding gives the record back and ends behind its padding if no block for its arrays has a size that wraps, and is undefined otherwise |
| `Decoding.MemberBack` | gen/ZCMGen.cpp:619-677 | because a variable dimension names an earlier scalar integer member, the dimensions are known when the member is read, and the member decodes to its value, or is undefined if one of its blocks has a size that wraps |
| `Decoding.RoundTrip` | gen/emit/EmitC.cpp:666-687 | a message of up to INT_MAX bytes, whatever surrounds it in the buffer: if no block for its arrays has a size that wraps it decodes to its value and consumes exactly its bytes, otherwise decoding it is undefined |
| `CDecoder.DecodeFixedArray` | zcm/zcm_coretypes.h:508-583 | for every number of elements: leaves the bytes it may read or the block it may fill exactly when the size test passes and Overruns holds or the block is too small; otherwise fails exactly when maxlen is below the size computed in uint32_t, and else every element is the two's complement reading of its bytes |
| `CDecoder.DecodeStrings` | zcm/zcm_coretypes.h:874-932 | on every buffer it agrees with the recursive reading, the store of a pointer behind the block after its length was read included; it never goes past maxlen; what that reading accepts is said by `Refusals.TextExactly` |
| `CDecoder.DecodeElements` | gen/emit/EmitC.cpp:603-623 | with the count converted to uint32_t as the call does, it returns, fails or is undefined exactly as the recursive reading, and a successful call consumes what that consumes, never more than maxlen |
| `CDecoder.DecodeMember` | gen/emit/EmitC.cpp:599-626 | the outcome, and the byte and bit offsets after a member, are those of the recursive reading |
| `CDecoder.DecodeOuterDim` | gen/emit/EmitC.cpp:411-441 | the loop over an outer dimension agrees with the recursive reading, the store of a pointer behind the allocated block and the overflow of its int variable behind INT_MAX included |
| `CDecoder.DecodeOneRecord` | gen/emit/EmitC.cpp:580-632 | the bit-mode flag and the two offsets reproduce the positions of the recursive reading, on short buffers and wild counts too |
| `CDecoder.DecodeRecordArray` | gen/emit/EmitC.cpp:563-637 | on every buffer it returns, fails, is undefined or runs out of stack exactly as the recursive reading, records behind their block included |
| `CDecoder.Decode` | gen/emit/EmitC.cpp:666-687 | on every buffer the same: a value and the bytes consumed, a negative number, undefined behaviour or an exhausted stack, exactly as the recursive reading with sizes and allocations in the C types |
| `DecodeSafety.UndefinedExactly` | gen/emit/EmitC.cpp:601-623 | the counts on which a decoder call is undefined: words if and only if element size times converted count passes 2^32 and what is left of it is covered by the bytes that remain; bit fields (below 2^29 bytes) if and only if their size test passes and the bits or the block's size pass 2^32; strings if and only if the size of the block for their pointers passes 2^32 and the message holds the strings that fit what is left of it and the length of one more |
| `DecodeSafety.TextsExactly` | zcm/zcm_coretypes.h:874-892 | strings in any block: those that fit are read as without a block; one more is undefined if and only if its length can be read |
| `DecodeSafety.RecordsExactly` | gen/emit/EmitC.cpp:563-637 | structs in any block: those that fit are read as without a block, and going on behind them is undefined |
| `DecodeSafety.OuterExactly` | gen/emit/EmitC.cpp:419-431 | the pointers of an outer dimension: the turns whose pointers fit their block are read, and going on behind them is undefined |
| `DecodeSafety.NeverUndefined` | gen/emit/EmitC.cpp:563-687 | on every buffer, whatever a message says, decoding neither reads behind its bytes nor stores behind a block nor overflows a loop variable, for schemas in which each count is a constant whose sizes do not wrap or an 8- or 16-bit member; bit-field arrays have constant last dimensions; counted strings and structs take at least a byte each and their size times the buffer's length, with room for a 16-bit count, stays within 2^32 |
| `DecodeSafety.TameInput` | gen/emit/EmitC.cpp:600-623 | a schema with counted strings and a two-dimensional array meets that condition for buffers of up to 2^28 bytes |
| `DecodeSafety.WildMessage` | gen/emit/EmitC.cpp:604-612 | a message of 20 bytes, of a struct with an int32_t count of int64_t words, on which decoding is undefined |
| `DecodeSafety.WildStrings` | zcm/zcm_coretypes.h:879-886 | a message of 16 bytes, of a struct with an int32_t count of strings, on which a pointer is stored in a block without bytes |
| `DecodeSafety.WildRows` | gen/emit/EmitC.cpp:419-431 | a well-typed value of int8_t a[n][m] with a record of eight bytes on whose message decoding is undefined |
| `MessageTrip.EncodeThenDecode` | gen/emit/EmitC.cpp:542-687 | whatever the buffer held, for messages up to INT_MAX bytes: if no block for its arrays has a size that wraps, T_decode after a successful T_encode returns the value and consumes exactly the bytes that T_encode reported; otherwise it is undefined |
| `MessageTrip.EncodeThenDecodeCut` | gen/emit/EmitC.cpp:542-687 | T_decode of any proper prefix of what T_encode wrote, put anywhere into other bytes, returns a negative number |
| `Refusals.CutRefused` | gen/emit/EmitC.cpp:666-687 | for every legal schema and every well-typed value whose blocks can be allocated: a buffer that holds a proper prefix of the message's bytes is refused, whatever stands behind it |
| `Refusals.TextExactly` | zcm/zcm_coretypes.h:874-892 | a string ends at a position if and only if its four length bytes say so, that many bytes are there, and it is what stands before their first zero byte; everything else is refused |
| `Refusals.NegativeCountRefused` | gen/emit/EmitC.cpp:603-612 | an array of words or strings whose count is a negative int32_t is never returned |
| `Refusals.NegativeOuterEmpty` | gen/emit/EmitC.cpp:430-431 | a negative count of an outer dimension gives an empty array and takes no bits |
| `TypeHash.MixForm` | gen/ZCMGen.cpp:117-129 | shift and exclusive or with the sign-extended top bits, spelled out on the parts of a state |
| `TypeHash.HashBijective` | gen/ZCMGen.cpp:125-129 | for a fixed character hashUpdate has an inverse on both sides |
| `TypeHash.ComputeHash` | gen/ZCMGen.cpp:190-226 | the accumulator loops over members and dimensions hash exactly the character sequence StructInput |
| `TypeHash.OneCharacterMatters` | gen/ZCMGen.cpp:125-138 | inputs of equal length that differ at one position have different hashes from every state |
| `TypeHash.PairMatters` | gen/ZCMGen.cpp:125-138 | from every state, two pairs of characters with different first ones lead to different states, unless those differ by an even number and the second ones by one |
| `TypeHash.PairCollides` | gen/ZCMGen.cpp:125-138 | in that case there is a state from which they lead to the same |
| `TypeHash.TypeNameMatters` | gen/ZCMGen.cpp:209-210 | changing one character of the type name of a primitive member, bit field or not, changes the struct's hash |
| `TypeHash.TypePairMatters` | gen/ZCMGen.cpp:209-210 | so does changing two characters in a row, under the condition of `TypeHash.PairMatters` |
| `TypeHash.CompoundNameIgnored` | gen/ZCMGen.cpp:205-209 | the type name of a compound member does not enter the hash |
| `TypeHash.MembersInOrder` | gen/ZCMGen.cpp:198-223 | members enter the hash one behind the other in their order |
| `TypeHash.WidthMatters` | gen/ZCMGen.cpp:209-215 | changing one bit-field width changes the struct's hash |
| `TypeHash.DigitMatters` | gen/ZCMGen.cpp:218-222 | changing one digit of one array size changes the struct's hash |
| `TypeHash.ModeMatters` | gen/ZCMGen.cpp:219-222 | changing one array size from constant to variable or back changes the struct's hash |
| `RecursiveHash.Descend` | gen/emit/EmitC.cpp:378-391 | each descent to a type not on the parent chain leaves fewer types off the chain, so the recursion ends on every closed graph, cyclic ones too |
| `RecursiveHash.WalkChain` | gen/emit/EmitC.cpp:378-381 | the walk up the parents finds a type exactly when it is on the chain |
| `RecursiveHash.BackendsAgree` | gen/emit/EmitCpp.cpp:403-450 | the C form, which checks the chain for every type, equals the C++ form, which skips the check for types without struct members, on every chain that can arise |
| `RecursiveHash.FingerprintsAgree` | gen/emit/EmitC.cpp:399-407 | both back ends put the same fingerprint on the wire |
| `RecursiveHash.OwnHashMatters` | gen/emit/EmitC.cpp:388-395 | two versions of a type whose own hashes differ have different fingerprints, whatever cycles lead back to the type |
| `RecursiveHash.NestedExactly` | gen/emit/EmitC.cpp:388-395 | changing the hash of a type changes the fingerprint of a struct that has members of it, and does not lead to it otherwise, if and only if the number of those members times the change of their term is not a multiple of 2^64 |
| `RecursiveHash.NestedHashMatters` | gen/emit/EmitC.cpp:388-395 | with one such member every change of the type's hash changes the fingerprint |
| `RecursiveHash.WidthChangesFingerprint` | gen/emit/EmitC.cpp:368-409 | changing one bit-field width of a type changes its fingerprint on the wire |
| `SchemaHash.WidthChangesHash` | gen/ZCMGen.cpp:190-226 | two versions of a schema that differ in one bit-field width of a struct have different hashes on the wire for it |
| `SchemaHash.OtherVersionRefused` | gen/emit/EmitC.cpp:674-679 | so a message written under one version is refused by the decoder of the other, whatever it holds |
| `SchemaHash.TypeChangesHash` | gen/ZCMGen.cpp:209-210 | two versions of a schema in which a member has two different types of int16_t, int32_t and int64_t have different hashes on the wire for the struct |
| `SchemaHash.OtherTypeRefused` | gen/emit/EmitC.cpp:674-679 | so the decoder of one refuses every message of the other |
| `SchemaHash.OtherHashRefused` | gen/emit/EmitC.cpp:674-679 | a message under any other hash is refused, whatever it holds |
| `SchemaHash.SignNotHashed` | gen/ZCMGen.cpp:209-215 | switching the sign extension of a bit field leaves the hash on the wire unchanged, for every type of the schema |
| `SignVersions.SameReading` | zcm/zcm_coretypes.h:107-160 | the unsigned and the sign-extended reading of a field narrower than its type are equal if and only if its top bit is clear |
| `SignVersions.OtherVersionReads` | gen/emit/EmitC.cpp:614-617 | if the field counts no array, then on every buffer the decoder of the other version fails, is undefined or runs out of stack as this one does, or reads the same record from the same bytes, apart from that field |
| `SignVersions.OtherVersionAgrees` | gen/emit/EmitC.cpp:614-617 | for every schema, whether the field counts arrays or not: the other version decodes the message of a value to that value if and only if the top bit of the field is clear wherever the value holds it |
| `SignVersions.ReadAsMinusOne` | gen/ZCMGen.cpp:209-215 | 15 in an unsigned field of four bits is taken by the other version and read as -1 |
| `SignVersions.CountRefused` | gen/emit/EmitC.cpp:603-612 | 15 elements counted by such a field are refused by the other version, which asks for 2^32 - 1 bytes |
| `LogFormat.Get64Put64` | zcm/util/ioutils.h:22-55 | a 64-bit number survives the two 32-bit halves, negative numbers included |
| `LogFormat.LogParses` | zcm/eventlog.c:126-212 | in a log of valid events the event reader accepts record i and ends at the start of record i + 1, even when payloads contain MAGIC |
| `LogFormat.ParseExactly` | zcm/eventlog.c:126-212 | for any bytes: the event reader accepts an event and ends at a position if and only if the bytes are its header, channel and data, its numbers are of their types, its channel has 1 to 999 characters, and MAGIC follows, or the file ends before four more bytes |
| `LogFormat.TornRecord` | zcm/eventlog.c:190-199 | a record followed by four other bytes than MAGIC is no event |
| `EventLog.Log.SyncStream` | zcm/eventlog.c:46-57 | stops behind the first MAGIC at or after the cursor, or fails exactly when there is none |
| `EventLog.Log.SyncStreamBackwards` | zcm/eventlog.c:59-72 | stops behind the last MAGIC that ends before the byte in front of the cursor; fails with the cursor below 2 when there is none |
| `EventLog.Log.ReadHelper` | zcm/eventlog.c:126-212 | returns the event that stands at the cursor as `LogFormat.ParseExactly` says, or null; the cursor goes to its end, back to the start, or 4 bytes before it |
| `EventLog.Log.ReadNext` | zcm/eventlog.c:214-222 | ends on arbitrary bytes; returns the first complete event whose MAGIC is at or after the cursor, or nothing exactly when there is none |
| `EventLog.Log.ReadAtOffset` | zcm/eventlog.c:234-243 | the same from any offset |
| `EventLog.Log.ReadPrev` | zcm/eventlog.c:224-232 | ends on arbitrary bytes because every failed attempt moves the cursor down; returns the last complete event in reach and leaves the cursor on its start |
| `EventLog.Log.WriteEvent` | zcm/eventlog.c:253-271 | appends one record with the running number |
| `LogRuns.WriteThenRead` | zcm/eventlog.c:214-271 | any sequence of valid events, with payloads below INT_MAX bytes, written to an empty log is read back exactly, numbered from 0, and then nothing, even when payloads contain MAGIC |
| `LogRuns.ReadFrom` | zcm/eventlog.c:234-243 | on an unambiguous log, read_event_at_offset returns the first record that starts at or after the offset |
| `LogRuns.StepBack` | zcm/eventlog.c:224-232 | on an unambiguous log, read_prev at the start of record i returns record i - 1 and stands on its start |
| `LogRuns.ReadBackwards` | zcm/eventlog.c:224-232 | read_prev from the end yields all records in reverse order, then nothing |
| `LogRuns.BackAndForth` | zcm/eventlog.c:214-232 | read_prev and then read_next return the same event and restore the cursor |
| `LogSeek.GetNextEventTime` | zcm/eventlog.c:74-87 | the time of the first record at or after the cursor, on whose start the cursor is left |
| `LogSeek.SeekToTimestamp` | zcm/eventlog.c:89-124 | ends; on success the cursor is on an exact match, the last record before the target or the first after it; it succeeds if and only if some probe at 1 - 2^-k of the file meets a record at or after the target |
| `LogSeek.Converged` | zcm/eventlog.c:111-113 | when the bracket is narrower than 1e-12, under 10^12 bytes, the record found is the nearest one |
| `LogSeek.NeverOvershoots` | zcm/eventlog.c:100-121 | a probe that meets a record at or after the target rules out failure |
| `LogSeek.ReachesOrOvershoots` | zcm/eventlog.c:100-121 | no probe meets such a record if and only if the probes run behind the start of the last record, all earlier ones having met records before the target |
| `LogSeek.PastTheEnd` | zcm/eventlog.c:100-106 | seeking a time later than every record fails |
| `LogSeek.LongLastRecord` | zcm/eventlog.c:100-106 | when the middle of the file lies behind the start of the last record every seek fails, even for the time of a record |
| `LogSeek.OneRecordFails` | zcm/eventlog.c:100-106 | on a log of one record every seek fails, that for its own time included |
| `Sender.StepInv` | zcm/blocking.cpp:541-582 | every step of every thread keeps the queue bounded, its head equal to the message in flight, the mutex owner unique and handed-over plus pending equal to accepted |
| `Sender.DeliveredInOrder` | zcm/blocking.cpp:430-463 | in every interleaving of publishers, sender, flushers, pause, resume and stop, what was handed to the transport followed by what is pending is what publish accepted, in order, nothing twice |
| `Sender.PausedSendsAtMostOne` | zcm/blocking.cpp:808-825 | between pause and resume the sender thread hands over at most one message, and only if it had looked at the flag before |
| `Sender.PauseHolds` | zcm/blocking.cpp:411-416 | in every run, behind a pause that no resume follows the sender thread hands over at most one message |
| `Sender.ResumeDelivers` | zcm/blocking.cpp:418-428 | after a resume, with the queue enabled and no flush or stop under way, a sender thread that runs as long as it can has handed over every accepted message |
| `Sender.StopHolds` | zcm/blocking.cpp:316-330 | in every run, between the start of a stop and its join the sender thread hands over at most one message, and only if it was about to when the stop began |
| `Sender.DisabledSendsAtMostOne` | zcm/util/threadsafe_queue.hpp:85-95 | while the queue is disabled at most one more message is handed over by all threads, one that was taken from the queue before |
| `Sender.NoneRefused` | zcm/blocking.cpp:446-450 | as many publishes as the queue can hold are all accepted, in order, whatever the other threads do |
| `Sender.FlushLeavesEnabled` | zcm/blocking.cpp:545-558 | in every run without a stop the queue is enabled whenever no flush is under way, flushes that gave up included |
| `Sender.FlushDrains` | zcm/blocking.cpp:541-560 | a flush that no other flush or stop disturbs ends with exactly the messages accepted before it counted the queue handed over |
| `Sender.HandedOverExactly` | zcm/blocking.cpp:626-645 | with messages pending and neither flush nor stop under way, a waiting sender thread that runs as long as it can hands over every accepted message if and only if the queue is enabled and the engine not paused |
| `Sender.ActiveRun` | zcm/blocking.cpp:626-645 | alone, such a thread stops after a bounded number of steps |
| `Sender.StrandedRun` | zcm/blocking.cpp:430-445 | once the queue is disabled and nobody flushes or sends, no run without a flush hands anything over, whatever is published, resumed, stopped or started |
| `Sender.StopStrands` | zcm/blocking.cpp:315-330 | a stop that returns, with no flush since it began, leaves the engine in that state |
| `Sender.PublishedAfterStop` | zcm/blocking.cpp:437-445 | publish, stop, publish: both messages are accepted, a sender thread runs, and neither message is handed over |
| `Lifecycle.StepInv` | zcm/blocking.cpp:265-400 | every step of a user, handler, receiver or sender thread keeps the relation between receive mode, mutex owners, thread states, thread objects, running threads and enabled queues |
| `Lifecycle.ThreadSafety` | zcm/blocking.cpp:265-392 | in every run at most one handler, one receiver and one sender thread exist, no joinable thread object is overwritten, none without a thread is joined, and mode NONE means no handler and no receiver |
| `Lifecycle.StartAndStopReturn` | zcm/blocking.cpp:265-337 | no deadlock: from every reachable state, with the waits on queues ending only when the queue is disabled or holds a message, there is a continuation without new calls and without arriving messages in which every start and stop has returned and every handle has returned or waits for a message |
| `Lifecycle.StopReleasesEverybody` | zcm/blocking.cpp:282-337 | with a stop in progress there is such a continuation in which every call has returned, the handle calls that waited included |
| `Lifecycle.StartStarts` | zcm/blocking.cpp:265-280 | in every run, behind a start that no stop follows, once nobody is about to spawn a thread, the handler thread exists and runs, unless handle calls had taken the engine before |
| `Lifecycle.HandleStarts` | zcm/blocking.cpp:366-400 | the same for handle and the receiver thread |
| `Lifecycle.PublishStarts` | zcm/blocking.cpp:437-443 | in every run, behind a publish with no stop under way then or later the sender thread exists and runs |
| `Lifecycle.StopStops` | zcm/blocking.cpp:282-337 | when a stop returns the mode is NONE and there is neither a handler nor a receiver thread |
| `Lifecycle.StopStopsSender` | zcm/blocking.cpp:316-330 | and no sender thread, unless a publish came during the stop |
| `Lifecycle.PauseKeepsMessages` | zcm/blocking.cpp:411-416 | in every run, behind a pause that no resume follows no message is taken from the receive queue |
| `Lifecycle.ResumeDispatches` | zcm/blocking.cpp:418-428 | after a resume a waiting handler thread takes a message that is there in its next three steps |
| `Lifecycle.HandleReceives` | zcm/blocking.cpp:394-400 | a message that arrives is queued if there is room, and a waiting handle call takes it and returns, unless the engine is paused |
| `Channels.IsRegexChannel` | zcm/nonblocking.c:24-33 | true exactly when one of the six pattern characters occurs |
| `Channels.IsSupportedRegex` | zcm/nonblocking.c:35-53 | true exactly for plain names and for word characters followed by a dot and a star |
| `Channels.SupportedMeaning` | zcm/blocking.cpp:497-500 | as a regular expression such a pattern matches exactly the texts that start with its word and go on without a line terminator |
| `Channels.MatchersAgree` | zcm/nonblocking.c:175-186 | the exact condition under which the prefix test and the full match agree on one subscription and one message |
| `Channels.LineTerminatorTellsApart` | zcm/nonblocking.c:175-182 | a channel with a line terminator on which they differ |
| `Subscriptions.Table.Subscribe` | zcm/nonblocking.c:94-126 | succeeds exactly when the transport accepts, the stored name is supported and a slot is free; adds one subscription, touches no other, keeps subInUseEnd tight; all live channels stay enabled if and only if the name is not cut short or its stored form is enabled already |
| `Subscriptions.Table.Unsubscribe` | zcm/nonblocking.c:128-158 | refuses exactly the handles that are not live; removes one subscription, keeps subInUseEnd tight, and disables the channel exactly when no other live subscription has it |
| `Subscriptions.Table.Dispatch` | zcm/nonblocking.c:165-199 | calls each matching live subscription once for each time it is live, and no other |
| `Subscriptions.Engine.Subscribe` | zcm/blocking.cpp:468-507 | adds one subscription under its channel; every live channel stays enabled |
| `Subscriptions.Engine.Unsubscribe` | zcm/blocking.cpp:512-539 | removes a live subscription exactly when its channel was not cut to 32 characters; disables the channel exactly when nobody is left on it |
| `Subscriptions.DeleteFromSubList` | zcm/blocking.cpp:840-853 | moving the last entry into the gap removes one occurrence and keeps the others |
| `Subscriptions.Engine.Dispatch` | zcm/blocking.cpp:738-773 | whatever the regular expression library answers, each subscription with that name or a matching pattern is called once for each time it is live |
| `Subscriptions.SameCalls` | zcm/nonblocking.c:165-199 | with the same live subscriptions both dispatch rules call the same ones equally often |
| `Subscriptions.BothRun` | zcm/nonblocking.c:94-199 | after any run of subscribes and unsubscribes made on both engines every live channel is enabled and a message reaches the same subscribers through both |
| `Subscriptions.LongNameNotEnabled` | zcm/nonblocking.c:98-110 | with a name of 33 characters the channel of a live subscription is not enabled |
| `Subscriptions.LongNameNotRemoved` | zcm/blocking.cpp:492-529 | with a name of 33 characters unsubscribing is refused and the subscription stays |
| `MessageTracker.Tracker.Get` | zcm/message_tracker.hpp:297-362 | null exactly when no buffered message lies within maxTimeErr, else the message at minimal distance; of two equally near the later, of several with its time the first in the buffer |
| `MessageTracker.ChosenUnique` | zcm/message_tracker.hpp:51-56 | that description leaves no choice |
| `MessageTracker.Tracker.GetRange` | zcm/message_tracker.hpp:364-377 | exactly the messages in the closed range, in buffer order |
| `MessageTracker.Tracker.ExpireBefore` | zcm/message_tracker.hpp:379-403 | drops exactly the older messages wherever they are, keeps the order of the others, counts the dropped |
| `MessageTracker.Tracker.NewMsg` | zcm/message_tracker.hpp:408-446 | appends, after dropping the front of a full buffer |
| `Synchronizer.Synchronizer.Process` | zcm/message_tracker.hpp:642-664 | from the given position on hands over exactly the messages that can be dispatched, in order, each with the message get chooses, and leaves the others in place |
| `Synchronizer.Synchronizer.Handle1` | zcm/message_tracker.hpp:597-605 | looking at the new message alone is enough: afterwards no buffered message can be dispatched; received equals buffered plus dispatched plus evicted |
| `Synchronizer.Synchronizer.Handle2` | zcm/message_tracker.hpp:624-630 | a new message of the second stream dispatches exactly the waiting messages it completes, and the same invariant holds |
| `Synchronizer.Synchronizer.Run` | zcm/message_tracker.hpp:591-664 | over any interleaving of arrivals a buffered message waits only while the newest arrival of the second stream is earlier or no buffered one is near enough, every message of the first stream reaches the callback at most once, is evicted or still waits, and all pairs are within the allowed error |
| `Synchronizer.NoEarlier` | zcm/message_tracker.hpp:549-555 | if the second stream is in order, a message is dispatched if and only if some buffered message of that stream is no earlier and some is near enough |
| `Synchronizer.OutOfOrderWaits` | zcm/message_tracker.hpp:642-652 | with a second stream out of order a message waits although a later one is there |
| `Synchronizer.LaterNoNearer` | zcm/message_tracker.hpp:549-555 | if the second stream is in order, nothing that arrives after a pair was handed over is nearer than what it was paired with |
| `RingBuffer.Ring.PushBack` | zcm/transport/generic_serial_circ_buff.c:46-53 | with room, appends the byte across the wrap |
| `RingBuffer.Ring.Front` | zcm/transport/generic_serial_circ_buff.c:55-61 | the byte at the offset from the oldest one |
| `RingBuffer.Ring.PopFront` | zcm/transport/generic_serial_circ_buff.c:63-68 | drops the oldest bytes |
| `RingBuffer.Ring.PopBack` | zcm/transport/generic_serial_circ_buff.c:70-75 | drops the newest bytes |
| `RingBuffer.Ring.Size` | zcm/transport/generic_serial_circ_buff.c:28-39 | the number of bytes held, at most capacity - 1 |
| `RingBuffer.Ring.FlushOut` | zcm/transport/generic_serial_circ_buff.c:78-103 | for any two partial writes, what is handed over is a prefix of the contents and exactly the rest stays; everything goes when both writes take all they are offered; a second write comes only behind the end of the array; a device that takes so many bytes over both writes gets them as far as they are there |
| `RingBuffer.Ring.FlushIn` | zcm/transport/generic_serial_circ_buff.c:105-143 | for any two partial reads, what is appended is a part of the first followed by a part of the second; a second read comes only behind the end of the array; two full reads leave capacity - 1 bytes; of a stream that the device serves over both reads exactly what has room is appended |
| `RingBuffer.Ring.Perform` | zcm/transport/generic_serial_circ_buff.c:46-143 | any run of operations is a run of a bounded sequence |
| `RingBuffer.FirstInFirstOut` | zcm/transport/generic_serial_circ_buff.c:46-143 | over every run, what left followed by what is held is what was held at first followed by what entered and was not popped from the back |
| `RingBuffer.SizeDuringPush` | zcm/transport/generic_serial_circ_buff.c:28-53 | with the loads of cb_size at any two moments of a push, the transient back == capacity included, the result is the size before or after |
| `RingBuffer.SizeDuringPop` | zcm/transport/generic_serial_circ_buff.c:28-68 | the same for a pop of any length with its transient front >= capacity |
| `RingBuffer.SizeAcrossPopAndPush` | zcm/transport/generic_serial_circ_buff.c:30-37 | a pop and then a push between the loads give a size the buffer had if and only if the pop took nothing or emptied a full buffer |
| `RingBuffer.SizeNeverHeld` | zcm/transport/generic_serial_circ_buff.c:30-37 | capacity 4 and two bytes: a pop of one and a push between the loads show three bytes, which were never held |

## Left out

- CBackend.Encode: messages of more than INT_MAX bytes, and arrays of more than INT_MAX elements or bit-field bits, whose lengths the codec's int results cannot report.
- CDecoder.Decode: what happens once C leaves the behaviour undefined; the model only says when that point is reached. Positions in a buffer fit uint32_t.
- Depth of nested records: the decoders take the depth that the call stack allows as a parameter, and the round trip holds for every depth that covers the value.
- Memory: calls of malloc succeed and size_t has 64 bits; free, decode cleanup and reuse of memory are not modelled, decoded values are fresh values. A string of wire length zero leaves a null pointer, which is the empty string here.
- DecodeSafety.NeverUndefined: schemas outside its condition are not all undefined on some message; which counts are is said call by call.
- BitPacker.EncodeArrayBits: arrays of more than INT_MAX bits, which the packer writes while it returns a negative number.
- C++ decoder and C++ size function: they repeat the C ones over `std::vector`.
- Meaning of floating point payloads: a float or double is carried as its 32-bit or 64-bit word.
- The other emitters (Java, Python, Node, Julia), constants, field accessors, type information and publish or subscribe stubs: text around the same codec.
- Tokenizer, options and error reporting of zcm-gen: the model starts from the schemas the parser accepts.
- LogFormat.ParseExactly: a payload of exactly INT_MAX bytes, for which the reader's allocation size overflows, counts as accepted.
- File errors: the log is a byte sequence and a cursor; reads fail only at the end of the file, writes always succeed, and a log is written at its end.
- LogSeek.SeekToTimestamp: fractions are exact rationals instead of doubles, so the exit for a fraction outside the bracket is never taken.
- LogRuns.ReadBackwards: stated for logs in which MAGIC stands only at record starts, since elsewhere a backward scan cannot tell records from payload.
- Sender.DeliveredInOrder: does not model a change of the queue's capacity; the queue is a bounded FIFO with an enabled flag.
- Sender.FlushDrains: the receiving half of flush is not modelled; it has the same shape.
- publish's checks of payload size and channel length, traffic topology and drop counters: easy guards and counters.
- Lifecycle.ThreadSafety: does not model run() and stop(false), whose mixture with stop(true) the code does not make safe: a blocking stop joins only a thread that is still RUNNING and does not wait for run().
- Lifecycle.StartAndStopReturn: covers start, stop(true) and handle; does not model flush and handle_nonblock. A call begins when it takes recvModeMutex; callbacks return, and the transport's receive call returns by its timeout.
- Subscriptions.Engine.Unsubscribe: subscriptions alike in channel, callback and user pointer are interchangeable, so which of two equal entries leaves a list is not modelled; the locks around the lists are not modelled.
- Subscriptions.BothRun: names of at most 32 characters, since longer ones are cut differently by the two engines.
- Regular expressions beyond literals, dot and star: the blocking engine's dispatch is proved for any answer of the library, its meaning only for supported patterns.
- Synchronizer.Synchronizer.Run: does not model a user who expires messages of the second stream between arrivals, nor the lock and the separate callback thread of a tracker.
- Frequency and jitter filters of the tracker: floating point.
- RingBuffer.Ring.PushBack, PopFront and PopBack: misuse (no room, too few bytes) is outside the contract, as the header says.
- Transports, URL parsing, the API wrappers, the checksum of the serial framing: thin or not part of this model.
