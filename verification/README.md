# ZSSZ in Dafny

A model of ZSSZ, the Go implementation of SimpleSerialize (SSZ v0.8), with proofs of what it promises: the codec,
the dry check, fuzz mode, streaming merkleization, merkle branches and hash tree roots.

`dafny verify dfyconfig.toml` checks the project.

## How the model is laid out

| files | what they hold |
|---|---|
| `outcomes`, `bits`, `bytes`, `bitfields` | panics and errors, shifts and bit counts, little-endian numbers, bitlists and bitvectors |
| `merkle_tree`, `merkleize` | the recursive tree that defines a root; `GetDepth`, `Merkleize` and `ConstructProof` proved against it |
| `grammar`, `serialization`, `grammar_laws` | SSZ types and values; the serialized form as the SSZ specification defines it; what these recursive definitions say of every part and every byte |
| `encoding_writer`, `encoder`, `part_lemmas`, `offsets` | the writer class and the encoder; where every offset points |
| `parsing`, `canonical`, `round_trip` | what decoding delivers, as a function of the bytes, and its two laws |
| `decoding_reader`, `decode_loops`, `decoder`, `reader_runs` | the reader class and the decoder; runs of nested scopes |
| `unlimited`, `dry_checker` | the dry check, which does not see the limits of byte strings |
| `lengths` | minimum and maximum lengths |
| `fuzzing`, `fuzz_decoder`, `fuzz_laws` | decoding in fuzz mode, and what it makes of its input |
| `chunking`, `hash_tree_root`, `root_laws`, `root_leaves` | leaves, zero hashes, roots over the whole type grammar, what a root tells, and what it is made of |
| `zssz` | the entry points and the laws that connect them |

Each file declares one module.  Vectors, lists and containers are treated alike, as parts with a type each; so the
proofs about them are one mutual induction over a type and its parts.  What the Go code does step by step is a method,
on a class where the Go code has an object, and is proved to compute a function of its inputs; the laws are lemmas about
these functions.

A value is what the memory behind the Go pointer can hold (`Typed`).  `Legal` is what SSZ asks beyond that: limits,
well-formed bitfields, and no list of elements of no length.  `Encodable` says that no offset that has to be written
reaches 2^32.  Chunks and hash functions are parameters.  A theorem about roots holds for every hash function, or, where
it says so, unless the computations that it speaks of hit upon a collision: two of the finitely many pairs that they hash,
at the same position, differ and have the same hash.  The terms of a free algebra have no collisions at all.

## Main results

- Encoding and decoding are inverse to each other: decoding delivers `v` from `s` if and only if `v` is legal, `s` is its
  serialized form, and encoding it does not panic (`Zssz.DecodedExactly`).  So there is no slack byte, no overlap and no
  second encoding.
- Without parts, the bytes that are decoded and the value they hold are known byte by byte (`Zssz.LeafDecodedExactly`); with
  parts, so is the place of each (`OffsetPrediction.OffsetsArePredicted`).
- The dry check accepts just what decoding accepts when the limits of byte strings are not looked at
  (`Zssz.DecodeIsDryCheckWithLimits`): the serialized forms of values that are legal but for the length of their byte
  strings (`Zssz.DryCheckedExactly`).
- Whatever is done in a scope of a reader, with scopes of its own: once it is closed, all that remains is a read of as many
  bytes (`ReaderRuns.ScopeIsOneRead`).
- `Merkleize` computes the root of the padded tree for every number of leaves, limit and hash function, with a known number of
  hash calls; its loop, which has no bound in the source, ends.
- Unless there is a collision on the way, a constructed branch verifies if and only if every sibling on its path is full, ends
  at the leaf after the last, or has only zero leaves (`Merkleize.ProofVerifiesExactly`); the "if" holds for every hash
  function (`Merkleize.ProofVerifies`).
- For every hash function, hash tree roots are those of the SSZ specification if no bitlist has its delimiter in a full last
  leaf (`RootLaws.RootAsSpecified`).  Unless there is a collision, they are only then, for every value that has room in its
  tree (`RootLaws.RootAsSpecifiedExactly`), and two legal values of a type never have the same root
  (`RootLaws.RootIsBinding`).
- Every byte of every leaf of a root, the depth of its tree, the order of its nodes and the length mixed in are stated
  without the functions that compute them (module `RootLeaves`).
- In fuzz mode, with the minimum length available, lengths are never under-estimated, whatever the type
  (`Fuzzing.ParseBudget`), and reads never fail if and only if decoding cannot come to a list of basic elements
  (`Fuzzing.NoReadFailsExactly`).  What is decoded is legal if and only if its lists are within their limits
  (`FuzzLaws.ParseIsOrderly`), and `FuzzLaws.LimitKeptExactly` says which lists always are.

## Where the code differs from what one expects

Each of these is modelled as the code has it, with the exact condition under which the expected property holds.

- `SSZBytes.DryCheck` does not check the limit (types/ssz_bytes.go:94-97): `Zssz.DryCheckMissesLimit`,
  `Zssz.DryCheckedExactly`, `Zssz.DecodeIsDryCheckWithLimits`.
- The maximum length of a list of variable-size elements leaves out their offsets (types/ssz_list.go:44-47):
  `Lengths.FullListExceedsMaxLen`, `Lengths.MaxLenExactly`.
- A bitlist of 249 to 255 bits modulo 256 keeps its delimiter in its last leaf (types/ssz_bitlist.go:151-166):
  `RootLaws.DelimiterInRoot`, `Chunking.BitlistChunksExactly`.
- `ConstructProof` leaves the zero hash for a sibling that is partially filled (merkle/merkleize.go:156), which is wrong
  if one of its leaves is not zero:
  `Merkleize.FiveOfEightFails`, `Merkleize.ProofVerifiesExactly`.
- A list with elements of no length is never decoded (types/elem_fixed_size_series.go:46-48), though it can be
  encoded: `Zssz.EmptyElementsAreEncoded`, `Zssz.EmptyElementsAreRefused`; what is encoded is decoded exactly if it is
  legal (`Zssz.EncodeThenDecode`).
- In fuzz mode a list of basic elements may ask for more bytes than there are, or than its limit allows
  (types/ssz_list_basic.go:99-102): `Fuzzing.BasicListBeyondScope`; exactly when, for every input, is
  `Fuzzing.BasicListExactly`, and for which types, `Fuzzing.NoReadFailsExactly`.
- In fuzz mode a list may get more elements than its limit: the draw is bounded by the limit times the maximum length of
  an element, and divided by the minimum length (types/ssz_list.go:113-122).  `FuzzLaws.LimitKeptExactly` says exactly for
  which element types and limits it never does.
- The maximum length in fuzz mode of a bitlist with a limit of 0 is 8 (types/ssz_bitlist.go:50-54), though it always takes
  9 bytes: `FuzzLaws.NoBitsExceedMaxLen`.

## Model

| member | source | states |
|---|---|---|
| Merkleize.GetDepth | merkle/merkleize.go:25-60 | 0 for 0, 1 for 1, and from 2 on the least depth whose tree has room for `v` leaves; at most 64 for every uint64 |
| Merkleize.DepthMonotone | merkle/merkleize.go:76-78 | the depth of the count is at most that of the limit, so the slots suffice |
| Merkleize.ClimbOne | merkle/merkleize.go:86-101 | one round of the loop either stops where nothing is left to merge or yields the next ancestor of leaf `i` |
| Merkleize.Climb | merkle/merkleize.go:84-101 | the loop without a bound ends at or below `depth`, with the ancestor of leaf `i` at that height |
| Merkleize.Merge | merkle/merkleize.go:84-104 | after leaf `i`, the slot of every bit set in `i+1` holds the root of its block of leaves; the number of hash calls is what the population counts lose |
| Merkleize.MergeLeaves | merkle/merkleize.go:106-116 | the slot at `depth` holds the root of all leaves padded with zeroes |
| Merkleize.Extend | merkle/merkleize.go:118-124 | the slot at the limit's depth holds the root of the tree of the virtual size |
| Merkleize.Merkleize | merkle/merkleize.go:63-125 | panics if and only if there are more leaves than the limit, and otherwise returns the recursively defined root, with the exact number of hash calls |
| Merkleize.CombiCallsBound | merkle/merkleize.go:84-122 | the number of hash calls is at most the count plus the depth of the limit |
| MerkleTree.PaddedTree.EmptyIsZero | htr/hash_tree_root.go:24-33 | a subtree beyond all leaves has the zero hash of its height |
| MerkleTree.PaddedTree.RaisedLimit | merkle/merkleize.go:118-124 | raising the limit folds the old root with successive zero hashes |
| MerkleTree.PaddedTree.RootIsBalanced | merkle/merkleize.go:62-63 | a root is that of the balanced tree, left half hashed with right half, over the leaves in order, padded with zeroes to a power of two |
| MerkleTree.PaddedTree.ExplicitZeroes | merkle/merkleize.go:112-116 | appending zero leaves changes no node of the tree |
| MerkleTree.PaddedTree.FoldSound | merkle/merkleize.go:127-129 | a branch of true siblings folds to the root |
| MerkleTree.PaddedTree.FoldComplete | merkle/merkleize.go:127-129 | unless folding hits upon a collision, no other leaf or branch folds to the root |
| MerkleTree.PaddedTree.RootIsBinding | merkle/merkleize.go:62-63 | unless the two trees have a collision at the same position, a root determines every leaf |
| MerkleTree.PaddedTree.ZeroIsAllZero | merkle/merkleize.go:141 | unless there is a collision below, only a node whose leaves are all zero has the zero hash |
| Merkleize.ClimbProof | merkle/merkleize.go:149-174 | as `Climb`; every sibling of the path that is complete at leaf `i` has been put in the branch |
| Merkleize.MergeProof | merkle/merkleize.go:149-177 | all siblings that end at or before leaf `i` are in the branch, and the slots are as after `Merge` |
| Merkleize.ConstructProof | merkle/merkleize.go:129-192 | panics if and only if count or index are over the limit; the branch is empty for a limit of 1, and else has one entry for each level of the least sufficient depth: the sibling if it is full or ends at leaf `count`, and otherwise the zero hash |
| Merkleize.BranchEntryIsSibling | merkle/merkleize.go:152-159 | an entry is the true sibling where that is full, ends at leaf `count` or has only zero leaves |
| Merkleize.ProofVerifies | merkle/merkleize.go:129-192 | for every hash function, the branch folds from the leaf to the root that `Merkleize` returns if every partially filled sibling on the path has only zero leaves |
| Merkleize.ProofVerifiesExactly | merkle/merkleize.go:129-192 | unless there is a collision among the pairs hashed, it does so only then |
| Merkleize.PowerOfTwoIsProvable | merkle/merkleize.go:185-189 | with `2^k` or `2^k - 1` leaves, every position below `2^k` can be proved |
| Merkleize.FiveOfEightFails | merkle/merkleize.go:156-159 | the branch of leaf 0 among 5 leaves with a limit of 8 does not verify |
| Bitfields.BitIndex | bitfields/bitfield.go:27-42 | the index of the top bit of a byte, below 8 |
| Bitfields.SetBit | bitfields/bitfield.go:52-58 | sets the addressed bit and changes no other |
| Bitfields.IsZeroBitlist | bitfields/bitfield.go:61-83 | true exactly if no bit below the delimiter is set |
| Bitfields.BitlistCheckMeaning | bitfields/bitlist.go:40-69 | the two checks accept exactly the non-empty strings with a non-zero last byte and at most `limit` bits; the subtraction does not wrap once the byte length is checked |
| Bitfields.BitlistRoundTrip | bitfields/bitlist.go:26-47 | every bit sequence comes back from its delimited bytes, which are accepted exactly if it is within the limit |
| Bitfields.BitlistCanonical | bitfields/bitlist.go:26-47 | every accepted string is the delimited form of the bits read from it |
| Bitfields.BitvectorCheckMeaning | bitfields/bitvector.go:19-52 | accepted are exactly the strings of `ceil(n/8)` bytes whose bits from `n` on are zero |
| Bytes.LEByteAt | enc/encoder.go:54 | byte `i` of a little-endian number is the number shifted right by `8 * i` bits, modulo 256 |
| Bytes.PackOfUnpack | types/basic_series.go:32-36 | every memory image is that of the numbers read from it, which fit their width |
| Bytes.UnpackOfPack | types/basic_series.go:39-47 | numbers that fit their width come back from their memory image |
| Bytes.PackByteAt | types/basic_series.go:32-36 | byte `j` of element `i` of a memory image lies at `size * i + j`, and is the element shifted right by `8 * j` bits, modulo 256 |
| Bytes.UnpackByteAt | types/basic_series.go:39-47 | element `i` is read from the `size` bytes at `size * i`, least significant byte first |
| GrammarLaws.KindRanges | types/basic_series.go:14-29 | the values of every basic kind, as numbers |
| GrammarLaws.TypedMeans | types/ssz_container.go:56-65 | a value of a vector, list or container has its number of parts, each of the type that belongs in its place |
| GrammarLaws.LegalMeans | types/ssz_list.go:130-137 | it is legal exactly if all its parts are, and a list is within its limit and has no elements of no length |
| GrammarLaws.FixedMeans | types/ssz_container.go:120-138 | of fixed size are exactly the types that contain no list, byte string or bitlist |
| GrammarLaws.LeafHolds | types/basic_series.go:32-36 | the serialized form of a value without parts, byte by byte |
| EncodingWriting.EncodingWriter.Write | enc/encoder.go:30-34 | appends to the output and counts it |
| EncodingWriting.EncodingWriter.WriteOffset | enc/encoder.go:43-57 | writes the sum as four little-endian bytes, or panics if it does not fit, without writing |
| Encoder.SizeOf | types/ssz_container.go:166-174 | the length of the serialized form, without encoding |
| Encoder.SizeOfElems | types/ssz_list.go:84-98 | the start and the total length of all variable-size elements |
| Encoder.EncodeOffsets | types/elem_var_size_series.go:14-31 | writes the offset of every element as its distance from the start of the series; panics exactly if one does not fit |
| Encoder.EncodePayloads | types/elem_var_size_series.go:33-43 | writes all elements in order |
| Encoder.EncodeSeries | types/elem_var_size_series.go:12-44 | the offsets and the elements of a series, with no byte between |
| Encoder.EncodeFixedSeries | types/elem_fixed_size_series.go:12-22 | fixed-size elements in order |
| Encoder.EncodeContainer | types/ssz_container.go:176-218 | the fixed-size section, then the variable-size fields |
| Encoder.EncodeFixedPart | types/ssz_container.go:187-205 | fixed-size fields in place, and the distance from the start of the container for each other |
| Encoder.Encode | types/ssz_container.go:176-218 | appends exactly the serialized form; panics if and only if some offset does not fit |
| Serialization.SerializeLen | types/ssz_vector.go:81-102 | a value of a fixed-size type has just the fixed length, any other at least that |
| OffsetPrediction.OffsetsArePredicted | types/elem_var_size_series.go:12-44 | every part is found at its place in the fixed-size section, or the offset there is exactly the number of bytes before the part, which lies there |
| OffsetPrediction.NoSlack | types/ssz_container.go:176-218 | the parts lie one after the other, with nothing between them, before the first, or behind the last |
| OffsetPrediction.OffsetIsStart | types/elem_var_size_series.go:14-31 | the running sum of the previous offset and the previous size is the number of bytes before the part |
| OffsetPrediction.OffsetFits | types/ssz_container.go:187-205 | the number of bytes before a variable-size part of an encodable value is below 2^32 |
| OffsetPrediction.EncodableExactly | enc/encoder.go:43-57 | a value can be encoded exactly if all its parts can, and each of variable size starts below 2^32 |
| DecodingReading.DecodingReader.Scope | dec/decoder.go:27-32 | a reader of just the next bytes, unless these go beyond the scope |
| DecodingReading.DecodingReader.CheckedIndexUpdate | dec/decoder.go:54-61 | advances if the uint64 sum is within the scope and leaves the index as it is otherwise; for lengths below 2^63 that is whether the sum itself is |
| DecodingReading.DecodingReader.Read | dec/decoder.go:77-93 | the next bytes of the scope, or nothing if there are not as many; the scope itself stays the same |
| DecodingReading.DecodingReader.Skip | dec/decoder.go:63-75 | as reading, without the bytes; a count that is negative as an int64 drops none |
| DecodingReading.DecodingReader.UpdateIndexFromScoped | dec/decoder.go:38-40 | adds what was read in a scope, in uint64 |
| DecodingReading.DecodingReader.ReadOffset | dec/decoder.go:121-124 | the next four bytes as a little-endian number |
| ReaderRuns.TakeExactly | dec/decoder.go:54-93 | a read succeeds exactly if it fits in the innermost scope and in the input; the limited readers around it never cut it short, unless a scope of 2^63 bytes or more was opened |
| ReaderRuns.WideIsRefused | dec/decoder.go:27-32 | in a scope below 2^63 bytes no scope of 2^63 bytes or more is opened, so a difference that has wrapped around is refused |
| ReaderRuns.OpenExactly | dec/decoder.go:27-32 | a scope is opened exactly if it fits in what is left of the one around it; it starts at 0 with just its number of bytes, and nothing else changes |
| ReaderRuns.TakeMoves | dec/decoder.go:54-93 | a read moves the index of the innermost scope and the position in the input by the same number |
| ReaderRuns.CloseExactly | dec/decoder.go:38-40 | a scope is closed exactly if there is one around it, of which just the index moves, by that of the scope |
| ReaderRuns.ScopedRead | dec/decoder.go:27-93 | opening a scope, reading it in full and closing it is the same as just reading, and fails exactly if that does |
| ReaderRuns.ScopeIsOneRead | dec/decoder.go:27-93 | whatever is done in a scope, closing it leaves the state that one read of as many bytes leaves, at most those of the scope |
| ReaderRuns.StepKeepsInv | dec/decoder.go:27-61 | every operation, as `OpenExactly`, `TakeMoves` and `CloseExactly` state it, keeps: indices within their scopes, scopes within what their parents have left, and the sum of the indices equal to the position in the input |
| ReaderRuns.RunKeepsInv | dec/decoder.go:27-93 | so does every sequence of operations |
| Decoder.DecodeLeaf | types/ssz_bytes.go:68-92 | what parsing the bytes in scope delivers, for types without parts |
| Decoder.DecodeBasicSeries | types/basic_series.go:39-65 | the numbers of a memory image; rejected exactly if it is too short or a boolean is out of range |
| Decoder.DecodeFixedSeries | types/elem_fixed_size_series.go:24-34 | the elements in order, each of its fixed length |
| Decoder.ReadVarSeriesOffsets | types/elem_var_size_series.go:122-154 | all offsets of a series of known length; rejects nothing that could still be decoded |
| Decoder.ReadVarSliceOffsets | types/elem_var_size_series.go:194-243 | as many offsets as the first one tells; a product that wraps around rejects nothing that could be decoded |
| Decoder.ElemScope | types/elem_var_size_series.go:84-102 | a scope up to the next offset or the end, exactly if the element is where reading has come to |
| Decoder.DecodeFromOffsets | types/elem_var_size_series.go:79-112 | the elements, if they are where their offsets say and use up the scope |
| Decoder.FieldScope | types/ssz_container.go:251-274 | the same scope as `ElemScope` from checks in another order; a wrapped difference is never accepted |
| Decoder.ProcessFixedPart | types/ssz_container.go:286-318 | the fixed-size section of a container: values and offsets in order, of exactly its length |
| Decoder.DecodeDynamicPart | types/ssz_container.go:244-284 | the variable-size fields, if they are where their offsets say |
| Decoder.DecodeList | types/ssz_list.go:130-137 | the elements of a list within its limit |
| Decoder.DecodeContainer | types/ssz_container.go:320-330 | the fields of a container |
| Decoder.Decode | types/ssz_container.go:332-338 | delivers exactly what parsing the bytes in scope delivers, and reads exactly as much |
| Canonical.ParseSound | types/elem_var_size_series.go:79-112 | whatever is accepted is well-formed and legal, can be encoded, and the bytes read are exactly its serialized form |
| Canonical.HeadsSound | types/ssz_container.go:286-318 | an accepted fixed-size section is exactly that of the values and offsets read from it |
| Canonical.TailsSound | types/ssz_container.go:244-284 | accepted parts leave no gap between them, and their offsets are the predicted ones |
| RoundTrip.ParseComplete | types/ssz_container.go:286-330 | the serialized form of any encodable value is parsed to that value if it is legal, and rejected if not |
| RoundTrip.TailsComplete | types/elem_var_size_series.go:194-243 | the parts of a serialized value are found at their offsets |
| Zssz.Decode | zssz.go:18-37 | an object of exactly the given number of bytes, or nothing |
| Zssz.LeafDecodedExactly | types/basic_series.go:39-65 | for types without parts: exactly which bytes are decoded, and what the value is, byte by byte |
| Zssz.DryCheck | zssz.go:39-55 | accepts exactly what can be decoded once the limits of byte strings are lifted |
| Zssz.Encode | zssz.go:87-97 | the serialized form and its length; without parts, every byte of it; panics exactly if some offset does not fit |
| Zssz.DecodedExactly | zssz.go:18-37 | decoding delivers `v` from `s` if and only if `v` is legal, `s` is its serialized form and encoding it does not panic |
| Zssz.EncodeThenDecode | zssz.go:87-97 | the encoding of a value is decoded to that value if it is legal, and refused if not |
| Zssz.EmptyElementsAreRefused | types/elem_fixed_size_series.go:45-48 | no byte string is decoded to a list with elements of no length |
| Zssz.EmptyElementsAreEncoded | types/ssz_list.go:100-107 | the empty list of empty containers is encoded, and its encoding is refused |
| Zssz.EncodeIsInjective | zssz.go:87-97 | no other value has the encoding of a legal value |
| Zssz.DecodeIsInjective | zssz.go:18-37 | no two byte strings are decoded to the same value |
| Zssz.SmallIsEncodable | enc/encoder.go:43-53 | no value of less than 2^32 bytes makes the encoder panic |
| Zssz.SmallRoundTrip | zssz.go:87-97 | every legal value of less than 2^32 bytes is encoded and comes back |
| DryChecker.DryCheckBitvector | types/ssz_bitvector.go:93-108 | accepts exactly what decoding accepts, from the last byte alone |
| DryChecker.DryCheckBitlist | types/ssz_bitlist.go:125-139 | accepts exactly what decoding accepts, from the length and the last byte |
| DryChecker.DryCheckSeries | types/basic_series.go:134-152 | accepts exactly what decoding accepts |
| DryChecker.DryCheckFromOffsets | types/elem_var_size_series.go:46-76 | accepts exactly what decoding from these offsets accepts, with limits of byte strings lifted |
| DryChecker.DryCheckContainer | types/ssz_container.go:340-350 | as for decoding containers, with limits of byte strings lifted |
| DryChecker.DryCheck | types/ssz_bytes.go:94-97 | accepts exactly what decoding accepts once the limits of byte strings are lifted, and reads as much |
| Unlimited.LiftLegal | types/ssz_bytes.go:85-97 | lifting those limits gives up nothing but that byte strings are within them |
| Unlimited.LiftIsDryLegal | types/ssz_bytes.go:85-97 | a value is legal with those limits lifted exactly if it is legal with no condition on byte strings at all |
| Unlimited.NothingToLift | types/ssz_bytes.go:94-97 | lifting changes exactly the types with a byte string below the greatest limit |
| Zssz.DecodeIsDryCheckWithLimits | zssz.go:39-55 | what can be decoded is exactly what passes the dry check with all byte strings within their limits |
| Zssz.DecodedPassesDryCheck | zssz.go:39-55 | whatever can be decoded passes the dry check |
| Zssz.DryCheckIsExact | zssz.go:39-55 | for types whose byte strings all have the greatest limit the dry check tells exactly what can be decoded |
| Zssz.DryCheckMissesLimit | types/ssz_bytes.go:94-97 | whatever the limit, every byte string passes the dry check; it is decoded exactly if it is within the limit |
| Zssz.DryCheckedExactly | zssz.go:39-55 | what passes the dry check is exactly the serialized form of a value that is legal except that byte strings may be of any length |
| Lengths.NewContainerLengths | types/ssz_container.go:120-138 | the loop of the constructor adds up all lengths of the fields, those for fuzz mode too, never fails, and finds whether all fields are of fixed size |
| Lengths.OffsetsCounted | types/ssz_container.go:129-134 | the count of offsets is the number of offsets in the serialized form |
| Lengths.FixedLengths | types/ssz_vector.go:37-61 | fixed, minimum and maximum length of a fixed-size type agree, so no constructor fails on it |
| Lengths.MinLenBound | types/ssz_vector.go:37-61 | no legal value is shorter than the minimum length |
| Lengths.MinLenIsLeast | types/ssz_container.go:120-138 | the minimum length is the least length of any legal value, and some legal value has it |
| Lengths.ExtremeAttains | types/ssz_container.go:120-138 | the value with every list full has just the maximum length that also counts offsets, and the one with every list empty the minimum length |
| Lengths.SizeWithinBound | types/ssz_list.go:40-47 | no legal value is longer than the maximum length that also counts offsets |
| Lengths.MaxLenExactly | types/ssz_list.go:40-47 | the maximum length bounds all legal values exactly if no list has variable-size elements |
| Lengths.FullListExceedsMaxLen | types/ssz_list.go:44-47 | a full list of variable-size elements exceeds the maximum length by its offsets |
| Fuzzing.ListDrawn | types/ssz_list.go:109-122 | drawing the number of elements never divides by zero, and all of them fit in what is left |
| Fuzzing.ParseFits | types/elem_var_size_series.go:165-192 | what is decoded in fuzz mode fits the type, lies in the scope, and takes at least the minimum length; fixed-size values take just their length |
| Fuzzing.ParseBudget | types/elem_var_size_series.go:165-192 | with the minimum length available, no estimate is too low in any scope and nothing panics; a read only fails if decoding can come to a basic list |
| Fuzzing.ZeroParse | types/elem_var_size_series.go:165-192 | zeroes are always decoded, and take exactly the minimum length |
| Fuzzing.BasicListExactly | types/ssz_list_basic.go:94-116 | for every input: which of the two ways of drawing too many elements a list of basic elements fails in, if any |
| Fuzzing.NoReadFailsExactly | types/ssz_list.go:109-128 | no input of the minimum length makes a read fail if and only if decoding cannot come to a basic list |
| Fuzzing.AmpleScope | types/ssz_container.go:220-242 | every part is handed a scope of at least its own minimum length |
| Fuzzing.BasicListBeyondScope | types/ssz_list_basic.go:94-116 | a list of basic elements may ask for more than there is |
| FuzzLaws.FuzzedLeaf | types/ssz_bitlist.go:87-123 | for types without parts: how many bytes are drawn, where they are taken from, and what becomes of each of them |
| FuzzLaws.FuzzedCount | types/ssz_list.go:113-122 | a list has as many elements as the drawn number of bytes holds of minimum length |
| FuzzLaws.FuzzedParts | types/elem_var_size_series.go:165-192 | every part is decoded from the bytes that the parts before have left, less what the parts behind need at least |
| FuzzLaws.CompositeOutcome | types/ssz_list.go:109-128 | vectors, lists and containers are decoded as their parts are, and fail as they do; of a list, the number of parts is drawn first |
| FuzzLaws.PartsFail | types/ssz_container.go:220-242 | parts are not decoded only if one of them fails in its place, in the same way, or its place is too short |
| FuzzLaws.LeafOutcome | types/ssz_bitvector.go:83-91 | for types without parts: exactly when they are decoded, and how they fail |
| FuzzLaws.BitlistExactly | types/ssz_bitlist.go:113-122 | a bitlist is decoded exactly if, with its last byte masked, it is within its limit; otherwise it is malformed |
| FuzzLaws.ParseTakes | zssz.go:59-77 | the bytes read are 8 for every length, and those of the leaves |
| FuzzLaws.FilledTakes | types/ssz_list.go:55 | the maximum length is what a value with everything at its limit takes |
| FuzzLaws.ParseIsOrderly | types/ssz_bytes.go:68-92 | what is decoded is legal exactly if its lists of parts are within their limits, and then takes at most the maximum length, unless there is a bitlist with a limit of 0 |
| FuzzLaws.LimitKeptExactly | types/ssz_list.go:109-128 | the limit of a list is kept on every input exactly if as many elements of maximum length leave no room for one more of minimum length, or so many cannot be drawn |
| FuzzLaws.NoBitsExceedMaxLen | types/ssz_bitlist.go:44-54 | a bitlist with a limit of 0 takes one byte more than its maximum length |
| FuzzDecoder.ReadBitlist | types/ssz_bitlist.go:87-123 | a bitlist of a drawn number of bytes, with its last byte masked |
| FuzzDecoder.ReadBasicList | types/ssz_list_basic.go:94-116 | a list of as many whole elements as the drawn number of bytes holds |
| FuzzDecoder.DecodeVarSeriesFuzzMode | types/elem_var_size_series.go:165-192 | the elements, each in a scope that keeps what the others need |
| FuzzDecoder.DecodeVarSizeFuzzMode | types/ssz_container.go:220-242 | the fields, each in a scope that keeps what the others need |
| FuzzDecoder.Decode | types/ssz_list.go:109-128 | delivers exactly what the fuzz-mode function of the bytes in scope says |
| FuzzDecoder.DecodeFuzzBytes | zssz.go:59-77 | refuses less than the minimum length; otherwise no under-estimate, no panic, and a value that fits the type |
| Chunking.ChunkAt | types/basic_series.go:72-81 | the leaf closure gives the chunks of the padded bytes |
| Chunking.LeafByteAt | types/ssz_bytes.go:105-115 | byte `j` of leaf `i` is byte `32 * i + j` of the data, or zero beyond its end |
| Chunking.ChunkByteAt | types/basic_series.go:72-82 | so it is for the chunks |
| Chunking.PackedBitlist | types/ssz_bitlist.go:144-168 | clearing the delimiter leaves exactly the packed bits |
| Chunking.BitlistLeafIs | types/ssz_bitlist.go:147-167 | a leaf is the chunk of the packed bits unless it is the last one, full, and holds the delimiter |
| Chunking.BitlistChunksExactly | types/ssz_bitlist.go:141-169 | the leaves are those of the specification exactly if the length is a multiple of 8 or the last leaf is not full |
| Chunking.DelimiterKept | types/ssz_bitlist.go:151-166 | concerned are exactly the bit lengths of 249 to 255 modulo 256 |
| HashTreeRoots.InitZeroHashes | htr/hash_tree_root.go:25-33 | the table holds the root of the zero tree of every depth from 0 to 64 |
| HashTreeRoots.MixInLength | htr/hash_tree_root.go:46-52 | what is mixed in is the length as a little-endian number of 256 bits |
| HashTreeRoots.MerkleizeBytes | types/basic_series.go:68-86 | the root of the chunks of a byte string, or a panic exactly if there are too many |
| HashTreeRoots.MerkleizeBitlist | types/ssz_bitlist.go:141-169 | the root of the leaves of a bitlist, or a panic exactly if there are too many |
| HashTreeRoots.BitChunks | types/ssz_bitlist.go:35-40 | rounding bits up to bytes and these to chunks is rounding bits up to chunks |
| HashTreeRoots.HashTreeRoot | types/ssz_container.go:352-360 | the recursively defined root of every type, or a panic exactly if some list has more leaves than its limit allows |
| HashTreeRoots.LegalFits | types/ssz_list.go:155-164 | no legal value makes it panic |
| RootLeaves.LeavesHoldBytes | types/ssz_bytes_n.go:80-91 | except for bitlists, the leaves of a value without parts are the bytes of its serialized form, 32 to a leaf, and zeroes behind them |
| RootLeaves.LeavesHoldBits | types/ssz_bitlist.go:147-167 | by the specification, the leaves of a bitlist are its bits, 256 to a leaf, and zeroes behind them |
| RootLeaves.LeavesWritten | types/ssz_bitlist.go:147-167 | as written, they are its bits too, or its bytes with the delimiter if the last leaf is full |
| RootLeaves.RoomIsNeeded | types/ssz_bytes.go:103-104 | the limit of leaves is the number that some legal value has, and none has more |
| RootLeaves.MixedLengthMeans | types/ssz_list_basic.go:153-158 | mixed in is the number of bytes, bits, numbers or parts of what has a limit, and nothing for other types |
| RootLeaves.LeavesAreRoots | types/ssz_list.go:159-163 | leaf `i` of a vector, list or container is the root of part `i` |
| RootLeaves.RootIsAbove | types/ssz_list.go:163 | a root is that of the balanced tree of least sufficient depth over the leaves, with the length mixed in |
| RootLeaves.RootOfOneChunk | types/ssz_bytes_n.go:77-93 | the root of at most 32 bytes is these bytes, padded with zeroes |
| RootLeaves.RootOfTwoChunks | htr/hash_tree_root.go:39-44 | the root of 33 to 64 bytes is the hash of these bytes, padded with zeroes |
| RootLaws.RootAsSpecified | types/ssz_bitlist.go:141-169 | for every hash function, the root is that of the specification if no bitlist has its delimiter in a full last leaf |
| RootLaws.RootAsSpecifiedExactly | types/ssz_bitlist.go:141-169 | unless the two roots are computed with a collision, only then |
| RootLaws.DelimiterInRoot | types/ssz_bitlist.go:151-166 | the root of 255 zero bits is not that of the specification |
| RootLaws.RootIsBinding | types/ssz_container.go:352-360 | unless the two roots are computed with a collision, no two legal values of a type have the same root, with the leaves as written or as specified |

## Left out

- Building types from Go types by reflection (types/factory.go, types/limit.go, util/tags, squashed fields): types are taken as built, and `Sized`, `Countable` and `FuzzSized` say that their lengths do not wrap around in uint64 and sizes fit in int64.
- Pointers, allocation and slice headers (util/ptrutil, types/ssz_ptr.go): values are plain data, and decoding returns the value instead of filling the destination.
- Errors and partial reads of `io.Reader` and `io.Writer`, and seeking: the input is a byte sequence with a position and the output a byte sequence.
- Zssz.Open: refuses an input with fewer bytes than announced up front, where the code fails at the read that comes to the end; both end in an error, as all bytes announced have to be read.
- Zssz.Decode: takes lengths below 2^63, those that an int64 can hold.
- Zssz.DryCheck: takes lengths below 2^63, those that an int64 can hold.
- Decoder.Decode: takes a reader at the start of its scope for a variable-size type, as dec/decoder.go:47-49 asks of the parent; all its callers keep to that.
- The limited readers between scopes are not part of the reader class; `ReaderRuns` proves that they never make a difference.
- Error values and their texts: a failed decoding is just `None`; fuzz mode tells errors apart as far as its budget is concerned.
- The four callbacks of containers and series (decode or dry check a field or an element): the loops that take them are modelled once for decoding and once for the dry check.
- Big-endian machines (types/basic_series.go:88-123 and the branches for them): a shuffle of 32 bytes.
- SHA-256: the hash function is a parameter, and the zero hashes are taken to be those of the hash function in use.
- `SigningRoot` (types/ssz_container.go:362-374): the root of a container without its last field.
- Pretty printing (pretty/pretty.go and the Pretty methods).
- FuzzLaws.FuzzedLeaf: takes scopes below 2^64 bytes, those that a reader can have.
- FuzzDecoder.DecodeFuzzBytes: takes an input that has as many bytes as announced; an input that ends early fails at the read. The count of bytes read before a failure is not stated.
- FuzzDecoder.ReadBasicList: an empty span leaves the destination as it was, which is taken to be an empty list.
- HashTreeRoots.PartRoots: the roots of all parts are computed before they are merkleized, where the code computes each when its turn comes; the outcome is the same, as no leaf is skipped unless there is a panic.
