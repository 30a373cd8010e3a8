# Chancery reference clients, verified

A Dafny model of the code that the TypeScript and Python reference clients write by hand, without
dependencies: the Solana message compiler, the schema-driven binary codec and instruction data, the
instruction-account resolver, Base58, program-derived addresses, Ed25519 signing, settlement quotes,
usage limits and the Token-2022 extension parser. Both languages carry the same algorithms; where
they differ the model says which one it follows.

Each component is specified by pure functions. Where the source updates state step by step, a method
or class does the same and is proved equal to the function; the theorems are then about the
function, for all inputs.

Automatic induction is switched off for every lemma: what a lemma states is proved by its body.

## Reading order

| files | content |
|---|---|
| `Wrappers`, `Bytes`, `LittleEndian` | results, bytes, positional notation |
| `Base58`, `Base58Codec` | the encoding as a bijection; the digit-array and big-number algorithms |
| `Base58Text` | which text denotes which bytes, without reference to how it is computed |
| `ShortVector`, `Message` | the wire format, written and parsed |
| `AccountMetas`, `KeyTable`, `HeaderOrder`, `Compiler` | the compiler as functions |
| `CompiledMessages`, `KeyOrder` | every field of a compiled message, the order of its keys, its lookups, and every error, from the instructions and tables alone |
| `Denotation`, `CompilerCorrect`, `ManySigners` | what bytes mean, decided from the format alone; that compilation preserves it |
| `CompilerLoops`, `PlacementLoops`, `MessageLoops` | the compiler step by step |
| `Transaction` | signatures around a message; lookup-table accounts |
| `BinaryCodec`, `BinaryCodecCorrect`, `BinaryCodecCanonical`, `BinaryCodecPadding`, `BinaryReader`, `InstructionData` | the codec, its round trips, exactly when it is canonical, the stateful reader, instruction data |
| `BinaryFormats` | widths, ranges, tags, counts, order of parts and errors of every type, spelled out |
| `AccountResolver`, `ResolverLoops` | the least fixed point of address derivation; the passes that reach it |
| `ModularArithmetic`, `FermatTheorem`, `TwoNotASquare` | square-and-multiply, and the number theory the curve test rests on |
| `EdwardsCurve`, `ProgramAddress` | which 32 bytes are points; the search for an address off the curve |
| `InstructionAddresses` | the resolver over the real address search: what it derives is off the curve |
| `Groups`, `EdwardsPoints`, `Ed25519` | point formulas, double-and-add, the verification equation |
| `SignedTransactions` | transactions whose signatures verify under their signers' addresses |
| `TransferFees`, `Settlement`, `SettlementCorrect` | the chain of fees and roundings |
| `QuoteFields` | every field of a quote and every error |
| `Limits`, `LimitRuns` | usage windows, one operation and whole runs |
| `TokenExtensions`, `MintFields` | the extension list of a mint; what it holds, offset by offset |

## What came out

- A legacy message with 128 or more signers compiles, but its signature count then reads as a version
  prefix: it cannot be decoded as what it is (`CompilerCorrect.UnversionedPreservesMeaning`,
  `ManySigners.ManySignersMisread`). No transaction within the packet limit is affected
  (`Transaction.SignedTransactionsDecode`).
- The codec is canonical exactly when no option directly holds an option; a present absent option
  loses its tag (`BinaryCodecCanonical.CanonicalExactly`).
- The received amount is monotone for every rebate. What breaks it is a percentage above 10,000 basis
  points, and only that: for each larger percentage some policy, quoted without an observation at both
  inputs, pays less for more (`SettlementCorrect.ReceiptBoundExact`).
- The usage caps hold for every sequence of clock readings: a period that has been left admits nothing
  again, so no assumption on the clock is needed (`LimitRuns.CapHolds`).
- The resolver's verification pass can reject only addresses that were given, never one that the
  passes derived (`AccountResolver.DerivedNeverRejected`).
- Given only that 2^255 - 19 is prime, the curve test accepts exactly the canonical encodings of curve
  points, so that nothing can sign for a derived address (`ProgramAddress.Ed25519Curve`,
  `EdwardsCurve.AcceptsExactlyEncodings`, `ProgramAddress.DerivedAddressHasNoPoint`).

## Hypotheses

Mathematical facts about constants stand as hypotheses, never as facts taken for granted:
`FermatTheorem.Prime` for the field modulus; `EdwardsPoints.EdwardsGroup` for the group laws of the
affine addition law (closed, associative, neutral element, denominators that do not vanish);
`Ed25519.Sound` for the base point and its order. SHA-256 and SHA-512 are arbitrary functions.
`EdwardsCurve.Suitable` collects what the curve test needs, and `ProgramAddress.Ed25519Curve` derives
it from primality.
`CompilerCorrect.Agree` says that each lookup table passed to the compiler is a prefix of the table on
chain, since tables only grow.

## Model

| member | source | states |
|---|---|---|
| `CompilerCorrect.VersionZeroPreservesMeaning` | typescript/src/SolanaTransaction.ts:123-145 | for every input the version-zero compiler accepts, the independent decoder run on the bytes and the on-chain tables returns the fee payer, the blockhash, every program, ordered account list and data, with merged privileges, and consumes all bytes |
| `CompiledMessages.DecodesAsAsked` | typescript/src/SolanaTransaction.ts:466-593 | the bytes of either form, decoded with the tables on chain, give back the fee payer, the blockhash and each instruction as asked for, every account with the privileges that some mention of it asks for |
| `CompiledMessages.HeaderExactly` | typescript/src/SolanaTransaction.ts:580-592 | the returned counts are the numbers of distinct keys that sign, that sign and are never written, and that are written out, never sign and are never written; the signer addresses are that many first keys |
| `CompiledMessages.MessageExactly` | typescript/src/SolanaTransaction.ts:513-592 | the bytes are those of a message with the returned version, counts and lookups and the first of the returned keys, and read back as it except for legacy messages of 128 signers and more |
| `CompiledMessages.LoadedKeysExactly` | typescript/src/SolanaTransaction.ts:586 | behind the keys written out come the keys the returned lookups load from the tables on chain, the writable ones first |
| `CompiledMessages.FailsExactly` | typescript/src/SolanaTransaction.ts:476-511 | which error the compiler reports, by the numbers of distinct keys and the order of its checks |
| `KeyOrder.KeysOrdered` | typescript/src/SolanaTransaction.ts:331-464 | the returned keys are ordered by privileges, loaded keys then by the first table that lists them, then by first mention in the instructions: the order leaves no choice |
| `KeyOrder.LookupsExactly` | typescript/src/SolanaTransaction.ts:357-455 | there is one lookup for each table that is used, in the order of the tables, and each key is taken from the first place at which any table lists it |
| `CompilerCorrect.UnversionedPreservesMeaning` | typescript/src/SolanaTransaction.ts:104-121 | the same for the legacy form, if and only if fewer than 128 keys sign; from 128 on nothing the bytes decode to is what was asked for |
| `ManySigners.ManySignersMisread` | typescript/src/SolanaTransaction.ts:479-521 | concrete inputs with 128 signers and more that compile and do not decode to what was asked for |
| `CompilerCorrect.CompilesExactlyWithinLimits` | typescript/src/SolanaTransaction.ts:476-511 | each form compiles exactly when at most 256 distinct keys occur and at most 255 of them sign; version zero also needs at least one table and none longer than 256 addresses |
| `CompilerCorrect.LookupTablesAreTransparent` | python/chancery_reference/solana_transaction.py:104-151 | with usable tables both forms compile together and denote the same instructions and the same accounts with the same privileges |
| `CompilerCorrect.LoadedExactly` | python/chancery_reference/solana_transaction.py:342-413 | a key leaves the static list exactly when it neither signs nor is a program and some table lists it |
| `CompilerCorrect.LoadLookups` | typescript/src/SolanaTransaction.ts:389-455 | every emitted table index points at the address it replaces, table by table, in both loaded lists |
| `CompilerCorrect.CompiledKeyTable` | python/chancery_reference/solana_transaction.py:426-497 | no key occurs twice, the keys are exactly those used, the fee payer is key zero, the signer addresses are exactly the signer prefix, at most 256 keys |
| `CompilerCorrect.AccountsAreMerged` | typescript/src/SolanaTransaction.ts:260-329 | the accounts a message denotes are decided by the uses alone: each key once, signer and writable exactly when some use is, the fee payer and the programs included |
| `CompilerCorrect.ProgramStatic` | python/chancery_reference/solana_transaction.py:368-371 | every program is a static key |
| `CompilerCorrect.FeePayerFirst` | typescript/src/SolanaTransaction.ts:331-355 | the fee payer comes first in the static order, as a writable signer |
| `CompilerCorrect.SignatureCount` | typescript/src/SolanaTransaction.ts:479 | the first header count is the number of distinct keys that some use marks as signer, the fee payer included |
| `KeyTable.EntriesWellFormed` | python/chancery_reference/solana_transaction.py:434-444 | the static, loaded writable and loaded readonly parts together hold each aggregated entry exactly once |
| `AccountMetas.AggregateCorrect` | typescript/src/SolanaTransaction.ts:260-329 | each key has one entry whose flags are the OR over all its uses and whose position is that of its first use; nothing is missing, nothing is added |
| `HeaderOrder.OrderIsTheSort` | typescript/src/SolanaTransaction.ts:331-355 | the four privilege groups in order of first use are a permutation of the entries, and their only sorted one, whatever sorting algorithm produced it |
| `HeaderOrder.HeaderCounts` | typescript/src/SolanaTransaction.ts:479-484 | the three header counts are the sizes of the privilege groups they speak of |
| `CompilerCorrect.HeaderIsSane` | typescript/src/SolanaTransaction.ts:479-484 | the header counts fit the static keys and leave the fee payer, a writable signer, in front |
| `HeaderOrder.StaticPrivileges` | typescript/src/SolanaTransaction.ts:331-355 | position and header counts give every static key exactly its own signer and writable flags |
| `HeaderOrder.LoadedPrivileges` | typescript/src/SolanaTransaction.ts:394-421 | a loaded key never signs, and is writable exactly in the writable part |
| `CompilerLoops.AccountMetaTable.Merge` | typescript/src/SolanaTransaction.ts:307-329 | updating the flags of a known key in place, or adding a new one, is one step of the aggregation |
| `CompilerLoops.AggregateAccountMetas` | typescript/src/SolanaTransaction.ts:260-305 | the loop over a mutable map computes the aggregation of all uses |
| `PlacementLoops.PlaceAccountsInLookupTables` | typescript/src/SolanaTransaction.ts:357-464 | the loops over tables and index arrays compute the static entries, the loaded keys and the lookups |
| `MessageLoops.CountMatching` | typescript/src/SolanaTransaction.ts:595-607 | the counting loop computes the count that the header needs |
| `MessageLoops.CompileMessageBytes` | typescript/src/SolanaTransaction.ts:466-593 | numbering the keys and appending to the byte buffer step by step computes the specified message or error; the returned counts are the numbers of keys they speak of |
| `MessageLoops.CompileUnversionedMessage` | typescript/src/SolanaTransaction.ts:104-121 | the running compiler is the specified one, errors included, and its counts are those of the instructions |
| `MessageLoops.CompileVersionZeroMessage` | typescript/src/SolanaTransaction.ts:123-145 | the running compiler is the specified one, errors included, and its counts are those of the instructions and tables |
| `Message.ParseSerialize` | typescript/src/SolanaTransaction.ts:513-576 | a serialised message is read back in full exactly when its first byte cannot be taken for the other version |
| `Message.SerializeParse` | typescript/src/SolanaTransaction.ts:513-576 | whatever the parser accepts is the serialisation of what it returns: one byte form for each message |
| `Message.LayoutOfMessage` | typescript/src/SolanaTransaction.ts:513-529 | the prefix if there is one, the three counts, the number of keys, and behind the keys the blockhash |
| `Message.KeysInMessage` | typescript/src/SolanaTransaction.ts:522-528 | each key stands at its 32 bytes |
| `ShortVector.DecodeEncode` | typescript/src/SolanaTransaction.ts:87-102 | short-vector lengths are a prefix code for every natural number |
| `ShortVector.EncodeDecode` | typescript/src/SolanaTransaction.ts:87-102 | what is accepted starts with the one encoding of its length |
| `ShortVector.EncodeIsMinimal` | typescript/src/SolanaTransaction.ts:87-102 | k bytes are used exactly for the lengths below 128 to the k |
| `ShortVector.EncodedBytes` | typescript/src/SolanaTransaction.ts:87-102 | the bytes hold the number's seven-bit digits, least significant first, and all but the last have the top bit set |
| `ShortVector.EncodeShortVectorLength` | typescript/src/SolanaTransaction.ts:87-102 | the do-while loop writes that encoding |
| `Transaction.SplitsUniquely` | typescript/src/SolanaTransaction.ts:638-649 | a byte string splits into signatures and message exactly in the way it was put together |
| `Transaction.SerializeTransaction` | typescript/src/SolanaTransaction.ts:638-649 | the loop writes the signatures after their count, or reports the first of a wrong length |
| `Transaction.LayoutOfTransaction` | typescript/src/SolanaTransaction.ts:638-649 | the number of signatures, each at its 64 bytes in order, then the message |
| `Transaction.CreateUnsignedTransaction` | typescript/src/SolanaTransaction.ts:147-153 | an unsigned transaction of a compiled message carries one zero signature for each signer address |
| `Transaction.SignOneExactly` | typescript/src/SolanaTransaction.ts:155-180 | each signer's signature is made with the last keypair of its key; a missing keypair and a mismatched seed are told apart |
| `Transaction.SignSolanaTransaction` | typescript/src/SolanaTransaction.ts:155-199 | on success the bytes fit a packet and split into one signature per required signer, in order, and the message; otherwise the first signer without a signature, or the length, is reported |
| `Transaction.SignedTransactionsDecode` | typescript/src/SolanaTransaction.ts:182-188 | a legacy transaction that fits a packet always decodes to what was asked for: the packet limit excludes 128 signatures |
| `Transaction.ParseAddressLookupTableAccount` | typescript/src/SolanaTransaction.ts:238-258 | accepted exactly for an initialised account of whole addresses, which are then returned in order |
| `Base58.DecodeEncode` | typescript/src/Base58Codec.ts:13-91 | decoding inverts encoding for every byte string |
| `Base58.EncodeDecode` | typescript/src/Base58Codec.ts:13-91 | encoding inverts decoding for every accepted string |
| `Base58.NormalizeIsIdentity` | typescript/src/Base58Codec.ts:93-103 | normalising is the identity on every accepted key |
| `Base58.AddressEqualityIsByteEquality` | python/chancery_reference/base58_codec.py:63-71 | comparing addresses as strings is comparing their bytes |
| `Base58Text.CharIndexIs` | typescript/src/Base58Codec.ts:1 | the characters that count are the digits and letters without 0, I, O and l, each for its position among them |
| `Base58Text.EncodesWhatDenotes` | typescript/src/Base58Codec.ts:13-91 | each byte string is encoded as the one text that denotes its number, with a 1 for each leading zero byte, and each text is decoded to exactly that |
| `Base58Text.RefusedExactly` | typescript/src/Base58Codec.ts:48-103 | a text is refused exactly at its first character that does not count, and a key also unless it has 32 bytes |
| `Base58Codec.MultiplyAddInPlace` | typescript/src/Base58Codec.ts:28-39 | one pass over the digits with its carry multiplies the number by the old base and adds the new digit, in the list form the specification gives |
| `Base58Codec.MultiplyAddValue` | typescript/src/Base58Codec.ts:28-39 | that pass multiplies the value of the digit list and adds the carry |
| `Base58Codec.EncodeBase58` | typescript/src/Base58Codec.ts:13-46 | the encoder on digit arrays computes the specified string |
| `Base58Codec.DecodeBase58` | typescript/src/Base58Codec.ts:48-91 | the decoder starting from the digit list [0] computes the specified bytes, or reports the first invalid character |
| `Base58Codec.DecodeBase58FromEmpty` | integration/typescript/src/base58.ts:8-42 | the decoder starting from the empty list does the same on every nonempty string |
| `Base58Codec.DecodeBase58BigInteger` | integration/python/chancery_integration/base58_codec.py:8-25 | the decoder by one big number does the same on every nonempty string: all three refine one another |
| `Base58Codec.MinimalBytes` | integration/python/chancery_integration/base58_codec.py:19-23 | writing a number in as many bytes as its bit length needs gives its digits to base 256 without leading zeros |
| `BinaryCodecCorrect.TypeRoundTrip` | python/chancery_reference/binary_codec.py:124-169 | for every acyclic schema and every value of a type, decoding the encoding followed by any suffix returns the value and leaves the suffix |
| `BinaryCodecCorrect.PrefixFree` | python/chancery_reference/binary_codec.py:124-169 | encodings are prefix-free and injective |
| `BinaryCodecCorrect.FieldsRoundTrip` | python/chancery_reference/binary_codec.py:207-230 | the same for the fields of a struct |
| `BinaryFormats.UnsignedFormat` | python/chancery_reference/binary_codec.py:97-107 | u8, u16, u32, u64 and u128 are written, in 1, 2, 4, 8 and 16 little-endian bytes, exactly for 0 up to 256 to that power; exactly these bytes are read; each error has one reason |
| `BinaryFormats.SignedFormat` | python/chancery_reference/binary_codec.py:108-111 | i64 and i128 the same, in two's complement |
| `BinaryFormats.BooleanFormat` | python/chancery_reference/binary_codec.py:112-115 | a boolean is the byte 0 or 1, and every other byte is refused |
| `BinaryFormats.KeyFormat` | python/chancery_reference/binary_codec.py:116-120 | a key is its 32 bytes, given as text or bytes and read as text |
| `BinaryFormats.ItemsFormat` | python/chancery_reference/binary_codec.py:147-161 | items are written in order, and the first that cannot be decides the error |
| `BinaryFormats.ListFormat` | python/chancery_reference/binary_codec.py:133-161 | an array is its items and nothing else, a vector counts them first in four bytes |
| `BinaryFormats.ByteListFormat` | python/chancery_reference/binary_codec.py:138-155 | byte items are written as they are |
| `BinaryFormats.FieldsFormat` | python/chancery_reference/binary_codec.py:207-230 | fields are written in the order of the schema, a missing reserved one as its zero value when padding is allowed, a missing option as the byte 0, and the first that cannot be written decides the error |
| `BinaryFormats.ItemsRead` | python/chancery_reference/binary_codec.py:295-314 | items are read one behind the other, and the first that cannot be read decides the error |
| `BinaryFormats.FieldsRead` | python/chancery_reference/binary_codec.py:323-337 | fields are read in the order of the schema into a record in which the last field of a name decides |
| `BinaryCodecCanonical.TypeExact` | python/chancery_reference/binary_codec.py:258-320 | whatever is decoded is a value of the type, and without nested options the bytes consumed are its encoding |
| `BinaryCodecCanonical.FieldsExact` | python/chancery_reference/binary_codec.py:323-337 | the same for structs, whose decoded names are exactly the schema's |
| `BinaryCodecCanonical.DecodeThenEncode` | python/chancery_reference/binary_codec.py:283-320 | decoding all bytes and encoding again gives the same bytes |
| `BinaryCodecCanonical.CanonicalExactly` | python/chancery_reference/binary_codec.py:129-132 | for complete schemas, a type has one encoding for each value exactly when no option directly holds an option wherever decoding can get to |
| `BinaryCodecCanonical.NestedOptionLosesItsTag` | python/chancery_reference/binary_codec.py:129-132 | two bytes that decode to an absent option and encode to one byte |
| `BinaryCodecPadding.ZeroValueEncodesToZeros` | python/chancery_reference/binary_codec.py:172-204 | the zero value of a type exists and encodes to zero bytes only |
| `BinaryCodecPadding.PaddingDefaults` | python/chancery_reference/binary_codec.py:207-230 | of a single field that is left out: a reserved one becomes zero bytes when padding is allowed, and without padding only an option may be left out, as its absent tag |
| `BinaryCodecPadding.PaddingIsZeroFields` | python/chancery_reference/binary_codec.py:207-230 | for every struct, encoding with padding is encoding without it of the record extended by the zero values of the reserved fields it leaves out, and fails exactly when that does; those fields are zero bytes, all others unchanged |
| `BinaryCodec.SignedRoundTrip` | python/chancery_reference/binary_codec.py:31-38 | signed integers in range are read back, in two's complement of any width |
| `LittleEndianIntegers.DecodeUnsignedInteger` | typescript/src/BinaryCodec.ts:290-296 | the shifting loop computes the little-endian number; the curve test reads its coordinate the same way |
| `BinaryReading.EncodeUnsignedInteger` | typescript/src/BinaryCodec.ts:38-50 | the shifting loop over a byte buffer writes it, or reports a number out of range |
| `BinaryReading.BinaryReader.ReadBytes` | python/chancery_reference/binary_codec.py:233-255 | the reader returns the next bytes and moves its offset past them, or fails and stays |
| `BinaryReading.ReadType` | python/chancery_reference/binary_codec.py:283-320 | decoding with the stateful reader gives the specified value and leaves the reader at the specified rest |
| `BinaryReading.ReadStruct` | python/chancery_reference/binary_codec.py:323-337 | the same for structs |
| `BinaryReading.EncodeStruct` | python/chancery_reference/binary_codec.py:207-230 | the loop over the fields writes the specified bytes or reports the first error |
| `InstructionData.DecodesExactly` | python/chancery_reference/instruction.py:205-231 | for a catalogue of canonical types with distinct discriminators, instruction data decodes to an instruction and arguments exactly when it is their encoding |
| `InstructionData.RefusedExactly` | python/chancery_reference/instruction.py:218-231 | data is refused as too short, or as unknown, exactly when it is shorter than a discriminator, or no instruction has its discriminator |
| `InstructionData.SelectedReads` | python/chancery_reference/instruction.py:218-231 | the first instruction with the discriminator reads the arguments behind it, and nothing may be left over |
| `InstructionData.EncodingsDistinct` | python/chancery_reference/instruction.py:205-215 | no byte string encodes two instructions, or one with two argument records |
| `InstructionData.SelectedExactly` | python/chancery_reference/instruction.py:90-103 | an instruction can be reached by its discriminator exactly when no earlier one shares it |
| `InstructionData.DecodeInstructionData` | python/chancery_reference/instruction.py:218-231 | the loop over instructions, the reader and the trailing-bytes test compute the specified result |
| `AccountResolver.ResolvedIsLeastFixedPoint` | python/chancery_reference/instruction.py:296-320 | as many passes as accounts reach the least set of addresses that holds the given ones and is closed under derivation; nothing is left to derive |
| `AccountResolver.SweepProgress` | python/chancery_reference/instruction.py:296-320 | a pass that changes anything leaves fewer accounts without an address |
| `AccountResolver.OrderIndependent` | python/chancery_reference/instruction.py:296-320 | the result does not depend on the order of the accounts in the schema |
| `AccountResolver.ResolutionOrderIndependent` | python/chancery_reference/instruction.py:274-354 | reordering the schema changes no address and not whether resolution succeeds |
| `AccountResolver.DerivedNeverRejected` | python/chancery_reference/instruction.py:322-354 | the verification pass never rejects an address the passes derived |
| `AccountResolver.DeriveMonotone` | python/chancery_reference/instruction.py:178-202 | knowing more accounts changes a derivation only if it was waiting for one |
| `AccountResolver.SeedsExactly` | python/chancery_reference/instruction.py:132-202 | the seeds give these parts exactly when each gives its own, in place: the constant, the encoded argument of at most 32 bytes, or the known address |
| `AccountResolver.SeedErrorExactly` | python/chancery_reference/instruction.py:132-202 | otherwise the error is that of the first seed that cannot be had |
| `AccountResolver.DeriveExactly` | python/chancery_reference/instruction.py:178-202 | an address is derived exactly from those parts, and each failure has one reason |
| `AccountResolver.GivenAre` | python/chancery_reference/instruction.py:284-294 | an input goes before a default, and an account with neither starts without an address |
| `ResolverLoops.RunPass` | python/chancery_reference/instruction.py:297-320 | one pass updates the map in place; without a change everything still open is waiting; an error is one that fails for good |
| `ResolverLoops.RunPasses` | python/chancery_reference/instruction.py:296-320 | the loop with its changed flag ends in the least fixed point, or reports a derivation that fails there too |
| `ResolverLoops.ChecksMeanSuccess` | python/chancery_reference/instruction.py:322-354 | all checks pass exactly when every account is known and every given address with seeds is the one derived |
| `ResolverLoops.ResolveInstructionAccounts` | python/chancery_reference/instruction.py:274-354 | resolution returns exactly in that case, with each account's address and flags in schema order |
| `ModularArithmetic.ModularPower` | typescript/src/ProgramAddress.ts:21-33 | square-and-multiply computes the power modulo any modulus above one, for every exponent |
| `ModularArithmetic.ModuloIsResidue` | typescript/src/ProgramAddress.ts:16-19 | correcting the truncating remainder gives the residue, also for negative numbers |
| `ModularArithmetic.ModularInverse` | typescript/src/ProgramAddress.ts:35-40 | fails exactly for multiples of the modulus, and inverts modulo a prime |
| `FermatTheorem.PrimeIsFermat` | typescript/src/ProgramAddress.ts:35-40 | Fermat's little theorem, on which the inverse rests, for every prime |
| `TwoNotASquare.HalfPowerOfTwo` | typescript/src/ProgramAddress.ts:9 | two raised to half of p - 1 is minus one for primes that are five modulo eight, so the constant is a square root of minus one |
| `EdwardsCurve.RootComplete` | typescript/src/ProgramAddress.ts:74-84 | the two candidates find a root of every square |
| `EdwardsCurve.RecoverXExactly` | typescript/src/ProgramAddress.ts:63-84 | an x is found exactly for the y coordinates of curve points |
| `EdwardsCurve.AcceptsExactlyEncodings` | typescript/src/ProgramAddress.ts:50-89 | the curve test accepts exactly the canonical encodings of curve points |
| `EdwardsCurve.EncodingDeterminesPoint` | python/chancery_reference/solana_transaction.py:581-588 | two curve points with one encoding are the same point |
| `EdwardsCurve.EncodingIs` | python/chancery_reference/solana_transaction.py:581-588 | the 32 bytes of a point are those of one number: y in the low 255 bits, the parity of x above them |
| `ProgramAddress.Ed25519Curve` | typescript/src/ProgramAddress.ts:7-9 | the computed constants are what the curve test needs, given only that 2^255 - 19 is prime |
| `ProgramAddress.IsEd25519CurvePoint` | typescript/src/ProgramAddress.ts:50-89 | the running test computes the specified one, hence accepts exactly the encodings of points |
| `ProgramAddress.ValidateSeeds` | typescript/src/ProgramAddress.ts:112-122 | accepts exactly a permitted number of seeds of at most 32 bytes, and otherwise names the first fault |
| `ProgramAddress.CreateProgramAddress` | typescript/src/ProgramAddress.ts:124-136 | succeeds exactly for fitting seeds, a valid program and a digest off the curve; each error is characterised |
| `ProgramAddress.FindProgramAddress` | typescript/src/ProgramAddress.ts:138-156 | returns the highest bump whose address is off the curve, and fails only if there is none or the input is faulty |
| `ProgramAddress.FindBumpExactly` | typescript/src/ProgramAddress.ts:138-156 | the search function finds a bump exactly when the seeds fit and it is the highest off the curve |
| `ProgramAddress.DigestIs` | typescript/src/ProgramAddress.ts:124-136 | an address is the hash of the seeds one after the other, the bump if there is one, the program, and the text ProgramDerivedAddress |
| `ProgramAddress.FlattenFirst` | typescript/src/ProgramAddress.ts:91-106 | seeds are joined in their order |
| `InstructionAddresses.PassesDeriveOffCurve` | python/chancery_reference/instruction.py:178-202 | with the real address search, every address the resolver derives is found at the highest bump, off the curve, from the parts its seeds stand for, each in its place |
| `InstructionAddresses.SeedsOfVerified` | python/chancery_reference/instruction.py:322-354 | after a verified resolution the same holds of every account with seeds, given or derived |
| `InstructionAddresses.DerivedHasNoPoint` | python/chancery_reference/program_address.py:66-79 | with the real curve test such an address encodes no point of the curve |
| `InstructionAddresses.ResolveAccounts` | python/chancery_reference/instruction.py:274-354 | resolution with schema-encoded arguments and the real search returns inputs as given and, when verified, for each account with seeds the address found from its constants, arguments and accounts in order |
| `ProgramAddress.DerivedAddressHasNoPoint` | python/chancery_reference/program_address.py:66-79 | a derived address decodes to bytes that encode no point of the curve |
| `ProgramAddress.SeedBoundariesInvisible` | typescript/src/ProgramAddress.ts:130 | moving bytes between neighbouring seeds does not change the address |
| `EdwardsPoints.AddCorrect` | python/chancery_reference/solana_transaction.py:529-548 | the addition formula in extended coordinates computes the affine addition law |
| `EdwardsPoints.DoubleCorrect` | python/chancery_reference/solana_transaction.py:551-566 | the doubling formula computes the sum of a curve point with itself, by the curve equation |
| `EdwardsPoints.ScalarMultiply` | python/chancery_reference/solana_transaction.py:569-578 | double-and-add computes repeated addition, for every scalar |
| `Groups.DoubleAndAdd` | python/chancery_reference/solana_transaction.py:573-577 | one turn of the loop keeps the result plus what is still to be added, in any group |
| `Ed25519.RecoverSignedInverts` | python/chancery_reference/solana_transaction.py:514-526 | each curve point is recovered from its y coordinate and the parity of its x |
| `Ed25519.EncodeRepresented` | python/chancery_reference/solana_transaction.py:581-588 | the encoding depends on the point alone, not on its coordinates |
| `Ed25519.ClampedScalar` | python/chancery_reference/solana_transaction.py:221-225 | a clamped scalar is a multiple of eight with its highest bit in a fixed place |
| `Ed25519.ClampIs` | python/chancery_reference/solana_transaction.py:221-225 | the clamped number has bit 254 as its highest, the lower bits of the digest's first half below it, and the low three bits cleared |
| `Ed25519.BaseIs` | python/chancery_reference/solana_transaction.py:508-526 | five times the base point's y is four, and its x is even |
| `Ed25519.PublicKeyBytesFromSeed` | python/chancery_reference/solana_transaction.py:216-226 | the public key encodes the secret multiple of the base point |
| `Ed25519.ResponseVerifies` | python/chancery_reference/solana_transaction.py:245-252 | S B = R + k A for every nonce, challenge and secret |
| `Ed25519.SignExactly` | python/chancery_reference/solana_transaction.py:229-252 | signing succeeds exactly when the seed belongs to the public key, and the signature then satisfies the verification equation |
| `Ed25519.SignatureIs` | python/chancery_reference/solana_transaction.py:237-252 | the signature is that of section 5.1.6 of RFC 8032: the nonce is the hash of the seed's second half and the message, the first half encodes its multiple of the base point, the second is nonce plus challenge times secret modulo the order |
| `Ed25519.SignMessageWithKeypair` | python/chancery_reference/solana_transaction.py:229-252 | the running routine computes the specified signature or error: nonce, challenge and response are those of section 5.1.6 of RFC 8032, and the verification equation holds |
| `SignedTransactions.SignedByVerifies` | python/chancery_reference/solana_transaction.py:159-179 | signatures made by keypairs for a list of signers verify, each under the point its signer's address encodes |
| `SignedTransactions.SignWithKeypairs` | python/chancery_reference/solana_transaction.py:159-190 | on success the packet splits into the message and one signature per required signer, in order, each verifying under that signer's address |
| `SettlementCorrect.ReceiptMonotone` | python/chancery_reference/client.py:1426-1488 | for fixed rates, transfer fees and policy, of two inputs that are both quoted the larger never receives less, through every fee, rounding, cap and rebate; only a percentage above 10,000 basis points is excluded, and neither rebates nor transfer fees need a bound |
| `QuoteFields.QuoteIs` | python/chancery_reference/client.py:1426-1536 | every field of a quote: which side pays the transfer fee, the two outputs at the configured rate, the receipts, the reduction, and each ratio rounded down or absent |
| `QuoteFields.FeeQuoteFields` | python/chancery_reference/chancery_protocol.py:521-605 | every field of a fee quote: flat fee before percentage, cap below minimum, flat rebate before percentage and its cap, zero floor, flags, times, routing, and each observation for its reason and in order |
| `QuoteFields.QuoteErrors` | python/chancery_reference/client.py:1435-1490 | which errors a quote reports, in the order of its checks |
| `SettlementCorrect.AcceptedMintMonotone` | python/chancery_reference/client.py:1426-1488 | for a mint whose extensions the decoder accepts, the larger input is also quoted whenever the smaller is |
| `SettlementCorrect.ReceiptBoundExact` | python/chancery_reference/client.py:1436-1488 | among quotes without observations, receipts are monotone for every policy of a percentage without flat fee exactly up to 10,000 basis points |
| `SettlementCorrect.QuoteSucceedsExactly` | python/chancery_reference/client.py:1426-1487 | a quote succeeds exactly for non-negative input and epoch, a rounding mode that is supported or unused, and transferred amounts that cover the transfer fee |
| `SettlementCorrect.SafeQuoteSucceeds` | python/chancery_reference/client.py:1426-1487 | with transfer fees of at most 10,000 basis points or capped at one, success does not depend on the amount |
| `SettlementCorrect.ReceiptBounded` | python/chancery_reference/client.py:1436-1488 | receipt, net output, gross output and configured gross output never exceed the next |
| `SettlementCorrect.RatiosBounded` | python/chancery_reference/client.py:1488-1528 | the all-in reduction is never clipped and at most 10,000 basis points; the effective rate never exceeds the configured one |
| `SettlementCorrect.ReductionExplained` | python/chancery_reference/client.py:1488-1492 | the reduction is the input fee's share, the protocol fee and the output fee, exactly when the protocol fee is within the gross output |
| `SettlementCorrect.ReserveBounded` | python/chancery_reference/client.py:708-713 | the required reserve is within the gross output exactly unless a larger fee is routed |
| `SettlementCorrect.LargerInputsPass` | python/chancery_reference/client.py:1646-1666 | after an accepted input all larger ones that are quoted, up to the maximum, are accepted |
| `SettlementCorrect.AmountIssuesExactly` | python/chancery_reference/client.py:1646-1666 | each amount issue is raised for its reason, and none exactly within the limits |
| `Settlement.GrossConserved` | python/chancery_reference/chancery_protocol.py:583-586 | gross output is net output plus net fee exactly when the fee is within it, always if no zero output is observed |
| `Settlement.FeeConserved` | python/chancery_reference/chancery_protocol.py:579-583 | the assessed fee is net fee plus rebate exactly when no excessive rebate is observed |
| `Settlement.FloorIrrelevant` | python/chancery_reference/chancery_protocol.py:579-583 | the zero-floor flag never changes the net fee |
| `Settlement.NetOutputMonotone` | python/chancery_reference/chancery_protocol.py:521-605 | net output never falls as gross output grows |
| `Settlement.PercentBoundExact` | python/chancery_reference/chancery_protocol.py:562-573 | with a percentage and no flat fee, net output is monotone for every policy, among quotes without observations, exactly up to 10,000 basis points |
| `Settlement.PaysLessForMore` | python/chancery_reference/chancery_protocol.py:562-584 | for each larger percentage, a policy and two gross outputs, both quoted without an observation, where more pays less |
| `Settlement.RoundingMeans` | python/chancery_reference/chancery_protocol.py:796-805 | floor, ceiling and nearest rounding with halves up, against the exact product |
| `TransferFees.NeverFailsExactly` | python/chancery_reference/spl_token.py:197-204 | no amount makes the calculation fail exactly when the active fee is at most 10,000 basis points or capped at one |
| `TransferFees.SucceedsExactly` | python/chancery_reference/spl_token.py:179-213 | the calculation succeeds exactly for non-negative amount and epoch if the fee is safe, the amount is zero, or it covers the maximum fee |
| `TransferFees.ActiveFeeExactly` | python/chancery_reference/spl_token.py:168-213 | from the newer fee's epoch on it decides and the older one has no effect, before that the reverse; the fee is the lesser of the maximum and the least whole number not below the percentage |
| `TransferFees.TransferErrors` | python/chancery_reference/spl_token.py:179-207 | which error is reported, and that without a configuration nothing is charged |
| `TransferFees.TransferSteps` | python/chancery_reference/spl_token.py:179-213 | of two amounts that can be transferred the larger never receives less, nor gains more than the difference |
| `TransferFees.UncappedIsCeiling` | python/chancery_reference/spl_token.py:197-202 | the uncapped fee is the least whole number no smaller than the exact fee |
| `LimitRuns.CapHolds` | python/chancery_reference/chancery_protocol.py:608-704 | over any run and any clock readings, what is admitted within an aligned period never exceeds its allowance, for mints, redemptions and numbers of operations |
| `LimitRuns.EveryCapHolds` | python/chancery_reference/chancery_protocol.py:608-718 | the six caps in their own terms: volumes of each hour, day, seven days and thirty days, and operations of each hour and day, for every run and all clock readings |
| `LimitRuns.AdmitsExactly` | python/chancery_reference/chancery_protocol.py:608-704 | an operation is admitted exactly within the limit on one operation and by each of the four windows, whose periods and maxima are spelled out |
| `LimitRuns.CounterExact` | python/chancery_reference/chancery_protocol.py:639-657 | the stored counter is what it held at first plus all that was admitted since in its period |
| `LimitRuns.AdvanceStoresProjection` | python/chancery_reference/chancery_protocol.py:656-657 | storing an admitted operation stores what was projected |
| `LimitRuns.FutureWindowAdmitsNothing` | python/chancery_reference/chancery_protocol.py:644-645 | a window that starts after the canonical start of the current period admits nothing |
| `LimitRuns.RemainderExact` | python/chancery_reference/chancery_protocol.py:656-681 | unless already exceeded, the reported remainder is exactly what may still be proposed |
| `LimitRuns.NoIssuesExactly` | python/chancery_reference/client.py:1786-1808 | a dimension raises no issue exactly when its policy has none and its limits admit the operation |
| `LimitRuns.NoLimitIssues` | python/chancery_reference/client.py:1786-1808 | no issue is logged exactly when no dimension raises one |
| `Limits.PeriodOfTime` | python/chancery_reference/chancery_protocol.py:707-718 | each time lies in exactly one aligned period, the one of its canonical start, also before the epoch |
| `Limits.CanonicalExactly` | python/chancery_reference/chancery_protocol.py:707-718 | the canonical start of each kind is that of the aligned hour, day, seven days or thirty days, and there are no other kinds |
| `Limits.WordsExactly` | python/chancery_reference/chancery_protocol.py:755-758 | two words make each 128-bit number in exactly one way |
| `Limits.ObserveLimitPolicy` | python/chancery_reference/chancery_protocol.py:608-704 | the loop over the four periods observes each window as specified, with its own length and maxima; negative amounts are refused |
| `Limits.WindowIssuesExactly` | python/chancery_reference/client.py:1794-1808 | each issue of a window is raised for its reason, and a window that starts later is reported as that instead of as exceeded |
| `Limits.DimensionIssuesExactly` | python/chancery_reference/client.py:1786-1793 | policy issues come first, each by its text, then an exceeded transaction limit, then the windows |
| `Limits.WindowsInOrder` | python/chancery_reference/client.py:1794-1808 | issues are logged window by window |
| `Limits.DimensionsInOrder` | python/chancery_reference/client.py:1786-1808 | issues are logged dimension by dimension |
| `Limits.ValidateLimits` | python/chancery_reference/client.py:1786-1808 | the nested loops append the specified issues, in order, to the shared list |
| `TokenExtensions.ParseExactly` | python/chancery_reference/spl_token.py:254-312 | the parser returns a list of entries exactly for the regions that hold it, well formed and with at most one fee configuration, and then end |
| `TokenExtensions.PaddedRoundTrip` | python/chancery_reference/spl_token.py:273-305 | any amount of zero padding after valid entries is accepted |
| `TokenExtensions.ParsedTiles` | python/chancery_reference/spl_token.py:273-303 | the entries tile the region up to its end |
| `TokenExtensions.FindingsExactly` | python/chancery_reference/spl_token.py:287-302 | the flag is set exactly for a nonzero hook or a confidential fee entry; the fee configuration is that of its one entry |
| `MintFields.DecodedExactly` | python/chancery_reference/spl_token.py:254-312 | a mint is decoded exactly when it is bare, or has the account type 1 at byte 165 and acceptable entries from byte 166 on; which errors come before the entries |
| `MintFields.HeldIsDecoded` | python/chancery_reference/spl_token.py:270-312 | from the entries follow the fee configuration field by field, the hook of the last hook entry, and whether transfers do more than is modelled |
| `MintFields.ConfigHeld` | python/chancery_reference/spl_token.py:315-343 | a fee configuration is what the value holds at its offsets, with at most 10,000 basis points in both fees |
| `MintFields.EntryErrors` | python/chancery_reference/spl_token.py:287-302 | why one entry is refused |
| `MintFields.RegionErrors` | python/chancery_reference/spl_token.py:273-305 | behind acceptable entries, an entry that is cut off and stray bytes are told apart |
| `TokenExtensions.AbsorbExactly` | python/chancery_reference/spl_token.py:287-302 | entries are accepted exactly when each has its shape and at most one is a fee configuration |
| `TokenExtensions.DecodeFeeConfigExactly` | python/chancery_reference/spl_token.py:315-343 | a fee configuration is decoded from exactly one value, the one that holds its fields in order |
| `TokenExtensions.AcceptedFeesSafe` | python/chancery_reference/spl_token.py:335-338 | an accepted mint never has a transfer fee that exceeds its amount, in any epoch |
| `TokenExtensions.DecodeMintExtensions` | python/chancery_reference/spl_token.py:254-312 | the cursor loop computes the specified findings or the first error, and the remaining length falls each turn |

## Left out

- Addresses inside the compiler are 32-byte keys, not Base58 text: by `Base58.AddressEqualityIsByteEquality` comparing texts is comparing keys; the errors for malformed address text are not modelled there.
- The map of placements in the compiler only feeds an error text; that error and the one for a missing program cannot occur and have no counterpart (`Compiler.AllCovered`).
- The library sort is `HeaderOrder.OrderStatic`; `HeaderOrder.OrderIsTheSort` shows that every sort gives the same list.
- Entries of the account table are values in a map, replaced whole where the source assigns their fields; sharing of one entry object is not visible in the source either.
- Message parts are appended to one sequence of bytes where the source collects parts and joins them once.
- Digit lists in Base58 are sequences that the methods reassign; the growth of the buffers is not modelled.
- Value forms of the codec that the languages add (decimal strings, hexadecimal, base64, byte arrays for keys, booleans against integers) are not modelled; values are a typed datatype.
- Recursion through type names ends by a depth that the schema gives each type, which says that no type contains itself; a cyclic schema, on which the source would not end, is not modelled.
- The contents of the protocol schema (instructions, accounts, events) are not transcribed; everything holds for all schemas.
- Default addresses of accounts are part of the account schema in the model; the lookup of named program addresses is not.
- The texts of errors and observations, and their labels, are constructors without text.
- The hash and the curve test of the address search are arbitrary functions; the program's own default address is a parameter.
- The signing routine is the Python one; the TypeScript one calls the platform's signing function, which is not part of this model.
- Group laws of the curve, primality of the field modulus and the order of the base point are hypotheses, not proved.
- Fields of fee and limit policies that the wire format makes unsigned are natural numbers; the checks that a field is present and an integer are not modelled.
- The recipient's key in a fee quote is passed through unchanged and left out.
- The on-chain update of usage windows is the one the repository describes in README.md lines 315 to 330; overflow of the 128-bit counters is not part of this model.
- The selection of limit dimensions and their policy checks, settlement gates, pauses, token-account checks and pathway selection are each a reading of one branch.
- Of a mint, the extension region is modelled; its own fixed fields and token accounts are fixed-offset reads.
- Remote calls, JSON, polling, key files, command lines and examples are input and output.
- The settlement account builders, operation loaders and Squads builders are long but straight-line; the Squads message compiler is not part of this model.
- Discovery, oracle formatting and event logs are not modelled; the order of keys that event decoding uses is that of `KeyTable.Entries`.
- Of a signed transaction, the bytes are modelled; the record of signatures by address and the text of the first one, which are returned beside them, only name parts of the bytes.
