# Verification of the 12C transfer system

12C splits a file into encrypted wire blocks that are stored on relays under tokens derived from a
credential. This project models the parts whose correctness is not visible from any one function,
and proves that they fit together.

* **The codec** (C++). A sender pads, encrypts and splits a file; a receiver collects, checks and
  decrypts. Each exists as a batch form and as a session that takes and gives bytes in arbitrary
  pieces. The sessions are classes with the fields of the original, and are proved to do what the
  batch forms do, for every run. Below them: the segment lengths and their searched inverse, the
  wire-layout solver with its padding search, the Merkle tree, and the 345-byte metadata block.
* **The registry** (Python). Stripe and replica sizing, the token-to-relay plan, the degrade search
  for the time to live, and the placement table as a state machine.
* **The download loop** (TypeScript). The sliding window over tokens with its cancellations and its
  memory bound, feeding the streaming receiver, and the fixed buffer the plaintext goes into.

## How to read it

Cryptographic operations are values of function type, collected in `Cryptography.Crypto`. `Ideal`
says what is asked of them: sealing and opening are inverse, records are 28 bytes longer than their
plaintext, digests and derived keys have 32 bytes. No injectivity is assumed of the hash; where the
original relies on it, the theorem produces two different strings with one hash, and says that the
computations at hand have hashed them. `UploadRun.AssumptionsAreMet` shows that the assumptions of
the round trips can be met for every request with a layout. Random bytes come from one tape that
batch and streaming sender read in the same order: salt, file key, segment nonces, key-wrap nonce,
metadata nonce (`WhatIsSealed` gives the byte ranges). An exception is `None` or a null session. Where a method of the original loops or
edits in place, the model has the loop or the class, proved against a function that says what comes
out; the theorems are about those functions, and say what they mean in terms of the inputs.

A check of the original that can never fire is kept as a condition in the model, and proved
constant. Where the code departs from its description the model follows the code:

* `resolve_placement_with_ttl` announces that the request is granted when enough relays support it;
  the code grants it as soon as one relay does (`GrantedOnTooFew`, with a pool in `GrantedOnOneOfTwo`).
* The streaming receiver leaves the leaf of an empty last block empty, while the batch receiver
  hashes the empty block. The two agree on every other map (`StreamedIsBatch`, `EmptyLastBlock`). It
  happens exactly for wire blocks of 373 bytes (`LastBlockEmptyExactly`, `EmptyLastAgreement`, `ReceiversDoPart`).
* A whole-file name longer than 120 bytes runs into the place where the reader expects a segment
  code (`ParsePrint`, `ReceiveMisread`).
* The streaming sender cannot complete an empty whole file without padding, nor a run that never
  feeds although padding is due (`Streamable`, `EmptyWholeFileNeverStreams`, `PaddingNeedsFeed`).
* A wire size above the announced relay ceiling can cancel needed tokens (`CancelsNeeded`), and the
  large-file download cannot drain a whole file (`NeededTokensCanBeLost`, `LargeWholeFileFails`,
  `DownloadExact`).

Removing a relay can leave a token without a primary (`RemovalBreaksCoherence`); it does so exactly when
the relay holds the primary of a token that has a row elsewhere (`RemovalExact`). A segmented upload can
be without a wire layout (`LayoutCanFail`), under an exact condition on its length (`LayoutExact`).

## Model

| member | source | states |
|---|---|---|
| `UploadRun.RunUpload` | client/core/12c_file_transfer_scheme/12c_cryptography/src/upload_prepare_session.cpp:195-303 | For every declared file size and every list of `feed` and `take_ready_blocks` calls that then finalizes: it succeeds if and only if exactly the declared number of bytes is fed, the batch sender accepts the fed file and the run is `Streamable` (no empty whole file, and padding has met a feed); then the blocks taken and the last block are, in order, tokens 1, 2, ..., 0 of exactly the batch upload on the same random tape |
| `UploadRun.StreamedMap` | client/core/12c_file_transfer_scheme/12c_cryptography/src/sender.cpp:54-77 | With distinct tokens, entering the streamed blocks under their tokens gives the very map `build_upload_map` returns |
| `UploadRun.NonEmptyFileStreams` | client/core/12c_file_transfer_scheme/12c_cryptography/src/upload_prepare_session.cpp:228-241 | Every run that feeds a non-empty file is `Streamable`, so none of the finalizing checks can fire for it |
| `UploadRun.EmptyWholeFileNeverStreams` | client/core/12c_file_transfer_scheme/12c_cryptography/src/upload_prepare_session.cpp:228-262 | An empty whole file is not `Streamable`, while the batch sender accepts it under every cap from 401 bytes |
| `UploadRun.PaddingNeedsFeed` | client/core/12c_file_transfer_scheme/12c_cryptography/src/upload_prepare_session.cpp:195-241 | Under a cap of 373 bytes an empty whole file has padding, and a run is `Streamable` exactly when it feeds at least once, while the batch sender accepts the file |
| `UploadRun.EncodeExists` | client/core/12c_file_transfer_scheme/12c_cryptography/src/sender.cpp:106-184 | The batch sender fails only for a credential of the wrong length, an unknown segment code or a missing layout; every later size check passes |
| `ReceiveRun.RunReceive` | client/core/12c_file_transfer_scheme/12c_cryptography/src/receive_decrypt_session.cpp:221-388 | Feeding tokens 1, 2, ... of any stored map and finalizing returns `ReceiveStreamed`, failures included: the batch decoding of the map with the empty-leaf rule of the streaming receiver |
| `ReceiveRun.StreamedIsBatch` | client/core/12c_file_transfer_scheme/12c_cryptography/src/receiver.cpp:45-177 | On every map whose metadata does not announce an empty last block, streaming and batch receive return the same bytes or both fail |
| `ReceiveRun.BothReceivers` | client/core/12c_file_transfer_scheme/12c_cryptography/src/receiver.cpp:45-177 | On every map both receivers decrypt the same blocks with the same outcome, each after comparing the announced root with its own |
| `ReceiveRun.EmptyLastAgreement` | client/core/12c_file_transfer_scheme/12c_cryptography/src/receive_decrypt_session.cpp:243-255 | With an announced empty last block they agree if and only if both fail or the two roots coincide |
| `ReceiveRun.EmptyLastBlock` | client/core/12c_file_transfer_scheme/12c_cryptography/src/receive_decrypt_session.cpp:243-255 | With an announced empty last block the two receivers cannot both succeed, unless two different strings with one hash come out, one hashed by the streaming root check on this map and one by the batch root check |
| `ReceiveRun.ReceiversPart` | client/core/12c_file_transfer_scheme/12c_cryptography/src/receive_decrypt_session.cpp:243-255 | Of every receivable upload in wire blocks of 373 bytes the batch receiver gives the file back, and the streaming receiver fails, unless the two root checks on it hash different strings to one digest |
| `ReceiveRun.ReceiversDoPart` | client/core/12c_file_transfer_scheme/12c_cryptography/src/receive_decrypt_session.cpp:243-255 | Under a concrete hash the streaming receiver fails on every such upload, while the batch receiver gives the file back |
| `ReceiveRun.ReceiversPartSomewhere` | client/core/12c_file_transfer_scheme/12c_cryptography/src/receive_decrypt_session.cpp:243-255 | Such uploads exist: every whole file with a short name, sent under a cap of 373 bytes, is one |
| `ReceiveRun.RunDrain` | client/core/12c_file_transfer_scheme/12c_cryptography/src/receive_decrypt_session.cpp:107-147 | For every interleaving of tokens and partial exports: it completes exactly when the uninterrupted run does, and what was taken on the way followed by the rest is the same file |
| `ReceiveRun.StreamPrepared` | client/core/12c_file_transfer_scheme/12c_cryptography/src/receive_decrypt_session.cpp:243-330 | Streaming receive of a batch upload gives back exactly the file when the last block is not empty; when it is, it fails unless a collision can be read off the two root checks on the map |
| `RoundTrip.ReceivePrepared` | client/core/12c_file_transfer_scheme/12c_cryptography/src/receiver.cpp:113-177 | Batch receive of a batch upload is exactly the file if a whole-file name has at most 120 bytes and a segmented file is not empty; otherwise it fails, except for the names of `ReceiveMisread` |
| `RoundTrip.ReceiveMisread` | client/core/12c_file_transfer_scheme/12c_cryptography/src/smb.cpp:162-224 | A whole-file name of 121 bytes ending in a segment code is taken for a segmented upload: the file still comes back if it is at most one segment, an empty one is refused, and a longer one is refused unless the front of its record opens as a record of its own |
| `RoundTrip.UpToOneTebibyte` | client/core/12c_file_transfer_scheme/12c_cryptography/src/sender.cpp:106-184 | The widths of the metadata integers are no restriction for files up to 1 TiB |
| `LayoutTotality.LayoutExact` | client/core/12c_file_transfer_scheme/12c_cryptography/src/wire_layout.cpp:264-296 | The layout search succeeds if and only if the code is at most 5, the cap between 373 bytes and 32 MiB and, in segmented mode, the alignment padding survives; for whole files it always succeeds |
| `LayoutTotality.TokenCountExactly` | client/core/12c_file_transfer_scheme/12c_cryptography/src/wire_layout.cpp:46-142 | The token count is the least m of equal blocks within the cap, each at least 373 bytes and an eighth of the total (or the cap), with at most 4 MiB of ciphertext per token unless no count of such blocks gets that low |
| `LayoutTotality.BlocksNearReference` | client/core/12c_file_transfer_scheme/12c_cryptography/src/wire_layout.cpp:72-90 | Every layout with at most 32 MiB of ciphertext has wire blocks of at most 4 MiB and 373 bytes |
| `LayoutTotality.OneTokenExactly` | client/core/12c_file_transfer_scheme/12c_cryptography/src/wire_layout.cpp:72-141 | A layout has one token if and only if its total is within the cap and its ciphertext within 4 MiB |
| `LayoutTotality.SmallCapsAlwaysFit` | client/core/12c_file_transfer_scheme/12c_cryptography/src/wire_layout.cpp:264-296 | Segmented uploads of every length have a layout for every cap up to 8 MiB |
| `LayoutTotality.BelowEightBlocksAlwaysFits` | client/core/12c_file_transfer_scheme/12c_cryptography/src/wire_layout.cpp:264-296 | Segmented uploads that stay 64 bytes below eight full blocks have a layout for every cap |
| `LayoutTotality.LayoutExists` | client/core/12c_file_transfer_scheme/12c_cryptography/src/wire_layout.cpp:264-296 | The padding of the layout found is below one block, and at most 16 bytes up to seven blocks of more than 2984: for every length and cap in whole-file mode, and in segmented mode where padding below one block keeps the number of records |
| `LayoutTotality.LargeFilesHaveSeveralTokens` | client/core/12c_file_transfer_scheme/12c_cryptography/src/wire_layout.cpp:72-141 | A file of more than 16 MiB has at least two tokens in every layout |
| `LayoutTotality.SmallWholeFilesStaySmall` | client/core/12c_file_transfer_scheme/12c_cryptography/src/wire_layout.cpp:264-296 | A whole file of at most 16 MiB takes at most 32 MiB of wire blocks under every valid cap |
| `LayoutTotality.SegmentedLayoutExact` | client/core/12c_file_transfer_scheme/12c_cryptography/src/wire_layout.cpp:264-296 | In segmented mode, for every length and valid cap, the search succeeds if and only if the upload has at most seven blocks, or the alignment padding starts no segment, or what it adds stays within eight blocks, or the padding up to the next multiple of the cap is within the limit and starts no further segment |
| `LayoutTotality.LayoutCanFail` | client/core/12c_file_transfer_scheme/12c_cryptography/src/wire_layout.cpp:258-296 | A concrete length, 268,434,636 bytes in 16 MiB segments with a 32 MiB cap, for which the search finds no layout |
| `LayoutTotality.LastBlockNeverEmpty` | client/core/12c_file_transfer_scheme/12c_cryptography/src/wire_layout.cpp:46-141 | With caps of at least 8 * (373 + 1) bytes and any ciphertext, the last block of every layout is non-empty |
| `LayoutTotality.LastBlockEmptyExactly` | client/core/12c_file_transfer_scheme/12c_cryptography/src/wire_layout.cpp:144-189 | The last block of a layout is empty if and only if its wire blocks have 373 bytes |
| `LayoutTotality.EmptyLastBlockOccurs` | client/core/12c_file_transfer_scheme/12c_cryptography/src/wire_layout.cpp:144-189 | Under a cap of 373 bytes every whole file has a layout, with an empty last block |
| `LayoutTotality.TokenCountFits` | client/core/12c_file_transfer_scheme/12c_cryptography/src/wire_layout.cpp:144-189 | Up to 1 TiB the token count of every layout fits 32 bits and the ciphertext length 64 bits |
| `WireLayouts.ChooseNumTokens` | client/core/12c_file_transfer_scheme/12c_cryptography/src/wire_layout.cpp:92-142 | Returns the least token count in `[min_m, max_m]` that divides the total and keeps both size bounds, and fails exactly when none does |
| `WireLayouts.ExactLayoutPartitions` | client/core/12c_file_transfer_scheme/12c_cryptography/src/wire_layout.cpp:144-189 | In every exact layout: total = m * wire, 373 + last = wire, 373 <= wire <= cap, and the leading blocks and the last one add up to the ciphertext |
| `WireLayouts.ComputeWireLayoutExact` | client/core/12c_file_transfer_scheme/12c_cryptography/src/wire_layout.cpp:144-189 | Fails only where no token count can be chosen: all later checks are dead; the result partitions the ciphertext |
| `WireLayouts.FailedStep` | client/core/12c_file_transfer_scheme/12c_cryptography/src/wire_layout.cpp:191-235 | Where no token count fits, the next padding step is at least 1; it aligns to the cap when the range of counts is empty and to the least count otherwise |
| `WireLayouts.NextLayoutPadding` | client/core/12c_file_transfer_scheme/12c_cryptography/src/wire_layout.cpp:191-235 | Returns the step the progress lemmas are about, for every input |
| `WireLayouts.SearchIsExact` | client/core/12c_file_transfer_scheme/12c_cryptography/src/wire_layout.cpp:264-296 | A layout the padding search returns is the exact layout of the padded length, with padding within the limit |
| `WireLayouts.ComputeWireLayout` | client/core/12c_file_transfer_scheme/12c_cryptography/src/wire_layout.cpp:264-296 | The search loop terminates without its zero-step break and returns what `Search` says, or fails for a bad code or cap; `SearchIsExact`, `TokenCountExactly` and `LayoutExact` say what that is |
| `WireLayouts.MaxTokensBounds` | client/core/12c_file_transfer_scheme/12c_cryptography/src/wire_layout.cpp:54-70 | The upper token bound is at least 1, leaves room for a metadata block per token, and admits every count whose blocks fill the cap |
| `WireLayouts.MinTokensBounds` | client/core/12c_file_transfer_scheme/12c_cryptography/src/wire_layout.cpp:72-90 | The lower token bound has enough blocks of cap size for the total |
| `Segment.LengthInverse` | client/core/12c_file_transfer_scheme/12c_cryptography/src/segment.cpp:133-162 | The searched inverse returns the padded length from its ciphertext length (positive in segmented mode) |
| `Segment.LengthInverseExact` | client/core/12c_file_transfer_scheme/12c_cryptography/src/segment.cpp:133-162 | It returns p if and only if p is admissible and has that ciphertext length; so it fails exactly on lengths nothing produces |
| `Segment.CiphertextLengthStrict` | client/core/12c_file_transfer_scheme/12c_cryptography/src/segment.cpp:56-79 | The ciphertext length grows strictly with the plaintext length, so it has one preimage at most |
| `Segment.CiphertextLengthIs` | client/core/12c_file_transfer_scheme/12c_cryptography/src/segment.cpp:37-79 | 28 bytes per record; a whole file is one record, and codes 1 to 5 cut it into records of 16, 32, 64, 128 and 256 MiB and a rest |
| `Segment.PaddedPlaintextLengthFromCiphertext` | client/core/12c_file_transfer_scheme/12c_cryptography/src/segment.cpp:133-162 | The counting loop computes the inverse that the two lemmas above characterise |
| `Segment.PayloadLength` | client/core/12c_file_transfer_scheme/12c_cryptography/src/segment.cpp:56-79 | The forward length function gives the size of the encrypted payload in both modes |
| `Segment.EncryptPayloadV21Segmented` | client/core/12c_file_transfer_scheme/12c_cryptography/src/segment.cpp:87-120 | The offset loop seals exactly the segments in order with nonces in tape order; its final length check never fires |
| `Segment.DecryptPayloadV21Segmented` | client/core/12c_file_transfer_scheme/12c_cryptography/src/segment.cpp:164-215 | The offset loop returns what record-by-record opening returns, failures included |
| `Segment.PayloadRoundTrip` | client/core/12c_file_transfer_scheme/12c_cryptography/src/segment.cpp:81-131 | Decrypting an encrypted payload gives the padded plaintext back in both modes |
| `Segment.OpenAfter` | client/core/12c_file_transfer_scheme/12c_cryptography/src/segment.cpp:164-215 | A stream that starts with opened records decodes to their plaintexts followed by the decoding of the rest, or fails with it |
| `Merkle.BuildMerkleTree` | client/core/12c_file_transfer_scheme/12c_cryptography/src/merkle.cpp:11-58 | The level loop over block hashes builds the tree of the leaf hashes: the same tree as the other builder |
| `Merkle.BuildMerkleTreeFromLeafHashes` | client/core/12c_file_transfer_scheme/12c_cryptography/src/merkle.cpp:84-128 | The level loop builds the tree of the given leaves |
| `Merkle.HashLevel` | client/core/12c_file_transfer_scheme/12c_cryptography/src/merkle.cpp:11-58 | The loop over a level computes the next one, which `NextLevelAt` describes |
| `Merkle.NextLevelAt` | client/core/12c_file_transfer_scheme/12c_cryptography/src/merkle.cpp:11-58 | Node i of the next level hashes nodes 2i and 2i + 1, an odd last node with itself |
| `Merkle.TreeIs` | client/core/12c_file_transfer_scheme/12c_cryptography/src/merkle.cpp:84-128 | The levels lead from the leaves, each the pass over the one below, to a single node, the root; without leaves the root hashes the empty string |
| `Merkle.VerifyMerkleRoot` | client/core/12c_file_transfer_scheme/12c_cryptography/src/merkle.cpp:77-82 | True exactly when the root of the blocks is the expected one |
| `Merkle.VerifyMerkleRootFromLeafHashes` | client/core/12c_file_transfer_scheme/12c_cryptography/src/merkle.cpp:130-135 | True exactly when the root of the leaves is the expected one |
| `Merkle.RootBinding` | client/core/12c_file_transfer_scheme/12c_cryptography/src/merkle.cpp:84-128 | Two leaf lists of one length with one root are equal, or two different strings with one hash come out, one hashed while computing each root |
| `Merkle.BlockBinding` | client/core/12c_file_transfer_scheme/12c_cryptography/src/merkle.cpp:11-58 | Two block lists of one length with one root are equal, or two different strings with one hash come out, each a block of its list or hashed in its tree |
| `Merkle.LengthMatters` | client/core/12c_file_transfer_scheme/12c_cryptography/src/merkle.cpp:11-58 | Equal lengths are needed: repeating the last of three blocks keeps the root |
| `Merkle.EmptyLeafBinding` | client/core/12c_file_transfer_scheme/12c_cryptography/src/merkle.cpp:84-128 | An empty last leaf gives the root of a digest in its place only if two different strings with one hash come out, one hashed while computing each root |
| `Merkle.EmptyLeafShows` | client/core/12c_file_transfer_scheme/12c_cryptography/src/merkle.cpp:84-128 | For a concrete hash the two roots differ at every number of leaves |
| `Smb.SerializeSmb` | client/core/12c_file_transfer_scheme/12c_cryptography/src/smb.cpp:246-259 | The buffer-appending writer produces the printed form of the record |
| `Smb.AppendU32` | client/core/12c_file_transfer_scheme/12c_cryptography/src/smb.cpp:38-43 | Appends the four big-endian bytes |
| `Smb.AppendU64` | client/core/12c_file_transfer_scheme/12c_cryptography/src/smb.cpp:76-80 | Appends the eight big-endian bytes |
| `Smb.AppendFixedFileNameField` | client/core/12c_file_transfer_scheme/12c_cryptography/src/smb.cpp:102-138 | Appends the 128-byte name field of the mode, with the segment code at byte 120 in segmented mode |
| `Smb.DeserializeSmb` | client/core/12c_file_transfer_scheme/12c_cryptography/src/smb.cpp:261-320 | The offset-advancing reader returns what `Parse` says on every input, failures included |
| `Smb.TakeBody` | client/core/12c_file_transfer_scheme/12c_cryptography/src/smb.cpp:261-320 | Reads the body fields in order, or fails where one is truncated or malformed |
| `Smb.TakeNameField` | client/core/12c_file_transfer_scheme/12c_cryptography/src/smb.cpp:140-224 | Reads name and segment code by loops over the field, or refuses an unknown code or stray reserved bytes |
| `Smb.ReadSegmentCodeFromField` | client/core/12c_file_transfer_scheme/12c_cryptography/src/smb.cpp:162-184 | The loop over the reserved bytes accepts a code of segmented mode exactly when all of them are zero |
| `FileNames.ReadUntilNul` | client/core/12c_file_transfer_scheme/12c_cryptography/src/smb.cpp:140-160 | The terminator search returns the bytes in front of the first NUL; the trimming loop behind it has nothing to trim |
| `Smb.TakeU64` | client/core/12c_file_transfer_scheme/12c_cryptography/src/smb.cpp:82-92 | The shifting loop reads the big-endian value |
| `SmbRoundTrip.ParsePrint` | client/core/12c_file_transfer_scheme/12c_cryptography/src/smb.cpp:246-320 | Reading what was written restores every field but the Merkle levels if and only if a whole-file name has at most 120 bytes; longer names are misread in one exactly described way or rejected |
| `SmbRoundTrip.PrintedLength` | client/core/12c_file_transfer_scheme/12c_cryptography/src/smb.cpp:241-259 | The written form always has 345 bytes |
| `SmbRoundTrip.PrintedFields` | client/core/12c_file_transfer_scheme/12c_cryptography/src/smb.cpp:226-259 | The 345 bytes by offset: magic and version, length-prefixed root, wrapped key and salt, four big-endian numbers, the name field, the hash of the body and the hash of everything before it |
| `SmbRoundTrip.NameFieldBytes` | client/core/12c_file_transfer_scheme/12c_cryptography/src/smb.cpp:102-138 | The name field byte by byte: at most 128 or 120 bytes of the name, the segment code little-endian at byte 120 in segmented mode, zeros elsewhere |
| `SmbRoundTrip.ParseChecks` | client/core/12c_file_transfer_scheme/12c_cryptography/src/smb.cpp:261-320 | Nothing is read that lacks the magic, the version or one of the two matching hashes |
| `SmbRoundTrip.ReadNameFieldAt` | client/core/12c_file_transfer_scheme/12c_cryptography/src/smb.cpp:162-224 | What the name field reads back as: name and code, a misread name and code, or a refusal |
| `FileNames.NormalizeOriginalFileName` | client/core/12c_file_transfer_scheme/12c_cryptography/src/smb.cpp:14-34 | The in-place edits compute the normalised name |
| `FileNames.NormalizeFixedPoint` | client/core/12c_file_transfer_scheme/12c_cryptography/src/smb.cpp:14-34 | The fixed points of normalisation are exactly the names of at most 128 bytes without separators and NULs |
| `FileNames.NormalizeIdempotent` | client/core/12c_file_transfer_scheme/12c_cryptography/src/smb.cpp:14-34 | Normalising twice is normalising once |
| `FileNames.NormalizedNameIs` | client/core/12c_file_transfer_scheme/12c_cryptography/src/smb.cpp:14-34 | A normalised name is what follows the last slash or backslash, without its NULs, cut to 128 bytes less the continuation bytes the cut leaves at the end |
| `FileNames.NulsVanish` | client/core/12c_file_transfer_scheme/12c_cryptography/src/smb.cpp:21 | Removing NULs works part by part and keeps every other byte in place |
| `FileNames.TruncatedIs` | client/core/12c_file_transfer_scheme/12c_cryptography/src/smb.cpp:26-31 | The cut keeps everything within the limit, and of a longer name the first bytes up to the limit, less the continuation bytes they end in |
| `Sender.PrepareUpload` | client/core/12c_file_transfer_scheme/12c_cryptography/src/sender.cpp:106-184 | Returns the map of the encoded blobs, each under the token of its index and the first six bytes of the credential; fails exactly for a credential of the wrong length, an unknown code or a missing layout: all its consistency checks are dead |
| `Sender.WhatIsSealed` | client/core/12c_file_transfer_scheme/12c_cryptography/src/sender.cpp:106-184 | Over the blobs of every upload, in bytes of the random tape: the salt is 0..16 and the file key 16..48; record k seals segment k of the padded file under the file key with nonce 48 + 12k; the metadata carries salt, file key wrapped under the KDF of the key code and salt with the next nonce, root, sizes, lengths and name; the first 373 bytes of blob 0 seal it under the KDF of the key code and the fixed salt with the nonce after that; what follows them and the other blobs are the records, cut into equal blocks |
| `Sender.MapStores` | client/core/12c_file_transfer_scheme/12c_cryptography/src/sender.cpp:54-77 | The map holds under each token the first blob that has it, and nothing else |
| `Sender.SplitCiphertext` | client/core/12c_file_transfer_scheme/12c_cryptography/src/sender.cpp:16-44 | The block loop yields the one split into full blocks and a rest |
| `Sender.SplitUnique` | client/core/12c_file_transfer_scheme/12c_cryptography/src/sender.cpp:16-44 | Full blocks followed by a rest are the only way to split their concatenation |
| `Sender.SplitCovers` | client/core/12c_file_transfer_scheme/12c_cryptography/src/sender.cpp:16-44 | The blocks have the right sizes and their concatenation is the ciphertext |
| `Sender.BuildUploadMap` | client/core/12c_file_transfer_scheme/12c_cryptography/src/sender.cpp:54-77 | The insertion loop enters each blob under its token, the first blob winning |
| `Sender.MapOfDistinct` | client/core/12c_file_transfer_scheme/12c_cryptography/src/sender.cpp:54-77 | With distinct tokens the map holds exactly the blobs, each under its own token |
| `Sender.BlocksFit` | client/core/12c_file_transfer_scheme/12c_cryptography/src/sender.cpp:131-163 | For any layout found: the ciphertext has the announced length and splits into the announced blocks |
| `Sender.Token0Length` | client/core/12c_file_transfer_scheme/12c_cryptography/src/sender.cpp:46-52 | The metadata block has 345 bytes, 373 encrypted |
| `Sender.NormalizeFileNameForSegmentCode` | client/core/12c_file_transfer_scheme/12c_cryptography/src/sender.cpp:89-102 | The normalised name, cut to 120 bytes in segmented mode |
| `Sender.EncryptPayloadForCode` | client/core/12c_file_transfer_scheme/12c_cryptography/src/sender.cpp:79-87 | Both modes produce the payload and advance the tape by one nonce per record |
| `UploadSession.UploadPrepareSession.constructor` | client/core/12c_file_transfer_scheme/12c_cryptography/src/upload_prepare_session.cpp:31-66 | A new session satisfies the invariant that ties buffer, sealed segments and cut blocks to the input fed so far |
| `UploadSession.UploadPrepareSession.TryEmitLeadingBlocks` | client/core/12c_file_transfer_scheme/12c_cryptography/src/upload_prepare_session.cpp:166-193 | Cuts leading blocks while a full one is pending: cut blocks and remainder still make up the ciphertext |
| `UploadSession.UploadPrepareSession.FlushSegmentBufferIfReady` | client/core/12c_file_transfer_scheme/12c_cryptography/src/upload_prepare_session.cpp:130-159 | Seals the buffered segment when it is full or forced, and nothing else; the whole new state is stated |
| `UploadSession.UploadPrepareSession.AppendPlaintextBytes` | client/core/12c_file_transfer_scheme/12c_cryptography/src/upload_prepare_session.cpp:68-102 | Appends exactly the bytes to the input, whatever the chunk boundaries |
| `UploadSession.UploadPrepareSession.AppendPaddingZeros` | client/core/12c_file_transfer_scheme/12c_cryptography/src/upload_prepare_session.cpp:104-128 | Appends exactly that many zero bytes to the input |
| `UploadSession.UploadPrepareSession.Feed` | client/core/12c_file_transfer_scheme/12c_cryptography/src/upload_prepare_session.cpp:195-220 | Accepts a chunk if and only if the session is live and the file stays within its size; a refused chunk changes nothing, padding is appended before the first byte |
| `UploadSession.UploadPrepareSession.TakeReadyBlocks` | client/core/12c_file_transfer_scheme/12c_cryptography/src/upload_prepare_session.cpp:222-226 | Hands out exactly the blocks cut since the last call, with their tokens |
| `UploadSession.UploadPrepareSession.Finalize` | client/core/12c_file_transfer_scheme/12c_cryptography/src/upload_prepare_session.cpp:228-303 | Succeeds if and only if the feed is complete, its padding is in and the file is not an empty whole file; then token 0 and the cut blocks are the batch encoding of the fed bytes |
| `UploadSession.StreamedBlocks` | client/core/12c_file_transfer_scheme/12c_cryptography/src/upload_prepare_session.cpp:228-262 | At the end of the feed the cut blocks and the remainder are the logical blocks of the batch sender |
| `Receiver.ParseSmb` | client/core/12c_file_transfer_scheme/12c_cryptography/src/smb_parser.cpp:14-38 | Returns the metadata the head of token 0 decrypts to, or fails |
| `Receiver.CollectBlocksFromUploads` | client/core/12c_file_transfer_scheme/12c_cryptography/src/receiver.cpp:45-93 | Returns leading blobs and last block exactly when all are there, sized right, and have the announced root |
| `Receiver.CollectedExactly` | client/core/12c_file_transfer_scheme/12c_cryptography/src/receiver.cpp:45-93 | Blocks are collected if and only if they are blobs 1, 2, ... of one wire block each and the end of token 0 behind its metadata, in that order, with the announced number, total length and root |
| `Receiver.WrapAroundAgrees` | client/core/12c_file_transfer_scheme/12c_cryptography/src/receiver.cpp:57-67 | The 64-bit wrap-around in the last block length does not change which metadata is accepted |
| `Receiver.DecryptFile` | client/core/12c_file_transfer_scheme/12c_cryptography/src/receiver.cpp:113-158 | Concatenates, decrypts, checks lengths and strips the padding in front, or fails |
| `Receiver.ReceiveFromUploadMap` | client/core/12c_file_transfer_scheme/12c_cryptography/src/receiver.cpp:162-177 | The composition of the three, for every map |
| `ReceiveRun.OpenReceive` | client/core/12c_file_transfer_scheme/12c_cryptography/src/receive_decrypt_session.cpp:15-58 | A session opens if and only if the metadata parses, has a token, matches token 0 and has an invertible ciphertext length that holds the file |
| `ReceiveSession.ReceiveDecryptSession.constructor` | client/core/12c_file_transfer_scheme/12c_cryptography/src/receive_decrypt_session.cpp:15-58 | A new session satisfies the invariant that ties queue, buffers and counters to the bytes fed so far |
| `ReceiveSession.ReceiveDecryptSession.EnqueuePlaintext` | client/core/12c_file_transfer_scheme/12c_cryptography/src/receive_decrypt_session.cpp:60-63 | Adds one opened segment to the queue and to the produced plaintext |
| `ReceiveSession.ReceiveDecryptSession.ReadyPlaintextAvailable` | client/core/12c_file_transfer_scheme/12c_cryptography/src/receive_decrypt_session.cpp:65-82 | The summing loop returns the number of queued bytes |
| `ReceiveSession.ReceiveDecryptSession.ReadyFileBytesAvailable` | client/core/12c_file_transfer_scheme/12c_cryptography/src/receive_decrypt_session.cpp:84-90 | The number of file bytes in the queue, behind the padding still to skip |
| `ReceiveSession.ReceiveDecryptSession.AdvanceReadyFront` | client/core/12c_file_transfer_scheme/12c_cryptography/src/receive_decrypt_session.cpp:92-105 | Drops exactly `count` bytes from the front of the queue, across parts |
| `ReceiveSession.ReceiveDecryptSession.DrainReadyQueue` | client/core/12c_file_transfer_scheme/12c_cryptography/src/receive_decrypt_session.cpp:107-147 | Returns the next file bytes, as many as asked for or there are, skipping padding first; the rest stays in order |
| `ReceiveSession.ReceiveDecryptSession.FeedCiphertext` | client/core/12c_file_transfer_scheme/12c_cryptography/src/receive_decrypt_session.cpp:168-219 | Either everything fed is decoded up to an incomplete record, or no continuation of the stream decodes |
| `ReceiveSession.ReceiveDecryptSession.AddWireToken` | client/core/12c_file_transfer_scheme/12c_cryptography/src/receive_decrypt_session.cpp:221-241 | Out-of-order, surplus or missized tokens are refused unchanged; otherwise the block is added, or the whole upload is undecodable |
| `ReceiveSession.ReceiveDecryptSession.FeedLastLogicalBlock` | client/core/12c_file_transfer_scheme/12c_cryptography/src/receive_decrypt_session.cpp:243-255 | Feeds the last block and its leaf; an empty one keeps its empty leaf |
| `ReceiveSession.ReceiveDecryptSession.CheckSegmented` | client/core/12c_file_transfer_scheme/12c_cryptography/src/receive_decrypt_session.cpp:306-326 | None of the accounting checks can fire once the stream is fed, and exported and ready bytes are the file of the batch receiver |
| `ReceiveSession.ReceiveDecryptSession.CompleteFinalize` | client/core/12c_file_transfer_scheme/12c_cryptography/src/receive_decrypt_session.cpp:257-330 | Succeeds if and only if all tokens are in, the leaf hashes give the root, and the batch receiver could decrypt; the session then holds the rest of that file |
| `ReceiveSession.ReceiveDecryptSession.TakePlaintextChunk` | client/core/12c_file_transfer_scheme/12c_cryptography/src/receive_decrypt_session.cpp:351-360 | Takes the next `limit` bytes of what remains, in either mode; whole files only after finalizing |
| `ReceiveSession.ReceiveDecryptSession.Finalize` | client/core/12c_file_transfer_scheme/12c_cryptography/src/receive_decrypt_session.cpp:362-388 | Returns exactly the batch decoding of what was fed, under the root check; fails when finalized before, when tokens are missing, and when bytes have been exported on the way |
| `ReceiveSession.ReceiveDecryptSession.ExportedIsPrefix` | client/core/12c_file_transfer_scheme/12c_cryptography/src/receive_decrypt_session.cpp:107-147 | Exported bytes followed by ready file bytes are the produced plaintext without its padding |
| `ReceiveSession.ReceiveDecryptSession.ExportedOfAccepted` | client/core/12c_file_transfer_scheme/12c_cryptography/src/receive_decrypt_session.cpp:107-147 | At any moment, what has been exported is a prefix of the file of every accepted completion of the stream |
| `Placement.ChooseStripeReplica` | server/registry/registry_server/scheduling/placement.py:31-62 | Of all S up to block count, target and pool size and all R up to the maximum with S * (1 + R) relays in the pool, the downward scan returns the pair that uses the most relays, with the largest such S; (1, 0) when there is none |
| `Placement.ChoiceIsBestExactly` | server/registry/registry_server/scheduling/placement.py:31-62 | A choice is the one returned if and only if it is the best within those limits; without block, relay, target or with a negative maximum it is (1, 0) |
| `Placement.BestUpTo` | server/registry/registry_server/scheduling/placement.py:31-62 | The counting-up definition is optimal in the same sense; with `OptimalIsUnique` this fixes the choice |
| `Placement.OptimalIsUnique` | server/registry/registry_server/scheduling/placement.py:40-45 | There is one optimal choice only |
| `Placement.ChoiceFits` | server/registry/registry_server/scheduling/placement.py:117-120 | S * (1 + R) relays exist: S primaries and exactly S * R replicas |
| `Placement.PlanTokenPlacements` | server/registry/registry_server/scheduling/placement.py:90-151 | The nested loops produce the planned rows; fails exactly for tokens without a relay |
| `Placement.PlanIsSound` | server/registry/registry_server/scheduling/placement.py:129-149 | In the whole plan every token has one primary and exactly min(R, max - 1) replicas (none if that is negative), all on distinct relays of the pool, with its own hash |
| `Placement.PlanRotates` | server/registry/registry_server/scheduling/placement.py:129-149 | In the whole plan the primary of token i is on relay i mod S, and its k-th replica on relay S + (i + k - 1) mod (S * R) |
| `Placement.PlanStaysInPool` | server/registry/registry_server/scheduling/placement.py:129-149 | Every row, whatever the tokens, is on a relay of the pool, under its URL without trailing slashes |
| `Placement.StripSlashes` | server/registry/registry_server/scheduling/placement.py:134 | A prefix of the URL that does not end in a slash, cut off from slashes only |
| `Placement.PlanHasNoStrays` | server/registry/registry_server/scheduling/placement.py:129-149 | No rows for tokens that were not asked for |
| `Placement.PrimaryLoads` | server/registry/registry_server/scheduling/placement.py:129-139 | Relay q of the S primaries carries n / S tokens, one more if q < n % S; no other relay carries any |
| `Placement.PlanIsBalanced` | server/registry/registry_server/scheduling/placement.py:129-139 | Primary loads of two primary relays differ by at most one |
| `PlacementTtl.MaxThresholdForCount` | server/registry/registry_server/scheduling/placement_ttl.py:60-76 | Returns the highest cap that leaves the needed relays, and None exactly when no cap does |
| `PlacementTtl.HighestIsNthLargest` | server/registry/registry_server/scheduling/placement_ttl.py:60-76 | That cap is the need-th largest of all caps, and no number above it leaves as many relays |
| `PlacementTtl.GrantedCountInRange` | server/registry/registry_server/scheduling/placement_ttl.py:115-131 | n*, the largest count up to the ideal with that many relays at or above the floor, is between 1 and the pool size |
| `PlacementTtl.IdealExactly` | server/registry/registry_server/scheduling/placement_ttl.py:79-100 | The ideal number is the largest n that some S and R within the limits use and the blocks have copies for, and at least 1 |
| `PlacementTtl.FindGrantedTtlWithTopology` | server/registry/registry_server/scheduling/placement_ttl.py:103-143 | On a non-empty pool never fails and returns the n*-th largest cap, at or above the floor; no higher threshold keeps n* relays |
| `PlacementTtl.GrantNeverExceeds` | server/registry/registry_server/scheduling/placement_ttl.py:176-217 | The grant never exceeds the clamped request nor the largest cap, so some relay can honour it |
| `PlacementTtl.ResolvePlacementWithTtl` | server/registry/registry_server/scheduling/placement_ttl.py:159-229 | Clamps the request to 1 and the maximum, grants it in full if and only if some healthy relay keeps blocks that long with the clock skew to spare, and otherwise the best degraded value; plans on exactly the relays that keep the grant, so every row is on one; reports degradation |
| `PlacementTtl.GrantedInFullExactly` | server/registry/registry_server/scheduling/placement_ttl.py:25-38 | A request above one second is granted in full if and only if some relay has request + clock skew within its maximum block age |
| `PlacementTtl.DegradedGrant` | server/registry/registry_server/scheduling/placement_ttl.py:103-143 | Otherwise the grant is the longest time that n relays keep blocks, where n is the ideal number or as many as keep the floor: the minimum of the policy, or one step below the longest time any relay keeps where the step is not above that minimum |
| `PlacementTtl.RowsKeepTheGrant` | server/registry/registry_server/scheduling/placement_ttl.py:176-217 | Every row of a resolved placement is on a relay whose maximum block age covers grant and clock skew |
| `PlacementTtl.ResolutionIsSound` | server/registry/registry_server/scheduling/placement_ttl.py:159-229 | Every resolved token has one primary and exactly min(R, max - 1) replicas (none if that is negative) on distinct relays that keep blocks for the granted time |
| `PlacementTtl.GrantedOnTooFew` | server/registry/registry_server/scheduling/placement_ttl.py:169-198 | The request is granted in full if and only if some relay supports it; with fewer relays than the ideal exactly when at least one and fewer than the ideal number do |
| `PlacementTtl.GrantedOnOneOfTwo` | server/registry/registry_server/scheduling/placement_ttl.py:169-198 | A concrete pool where one of two relays supports the request, two are ideal, and the request is granted |
| `ReservationTable.RunsKeepOnePrimary` | server/registry/registry_server/persistence/repository.py:1241-1330 | Over every run of purge, reserve, abandon and relay removal, a token has at most one primary row |
| `ReservationTable.RunsKeepCoherence` | server/registry/registry_server/persistence/repository.py:1241-1330 | Over every run whose removals are safe when their turn comes (in particular without removals), each token in the table has exactly one primary and one hash and expiry throughout |
| `ReservationTable.RunsWithoutRemovalAreSafe` | server/registry/registry_server/persistence/repository.py:1241-1330 | A run without relay removals is safe |
| `ReservationTable.CoherentThroughoutExactly` | server/registry/registry_server/persistence/repository.py:1241-1330 | A table stays coherent at every moment of a run if and only if all its removals are safe |
| `ReservationTable.StepExact` | server/registry/registry_server/persistence/repository.py:1241-1330 | Purge, reserve and abandon always keep a table coherent, a relay removal exactly when it is safe |
| `ReservationTable.RemovalExact` | server/registry/registry_server/persistence/repository.py:584-611 | Removing a relay keeps coherence if and only if no token whose primary is on it has a row elsewhere |
| `ReservationTable.RemovingPrimaryBreaks` | server/registry/registry_server/persistence/repository.py:584-611 | After every granted request with replicas, removing the relay of a primary breaks coherence |
| `ReservationTable.RemovalBreaksCoherence` | server/registry/registry_server/persistence/repository.py:584-611 | From the empty table, one concrete reservation and one removal lead to a token without a primary |
| `ReservationTable.LivePrimaryStays` | server/registry/registry_server/persistence/repository.py:1241-1330 | A live primary row stays unchanged and the only primary of its token until it expires, as long as its relay is not removed |
| `ReservationTable.ReserveInsertsExactly` | server/registry/registry_server/persistence/repository.py:1268-1330 | A reserve request enters or changes a row if and only if it is granted; a refused one, for an occupied token or any other reason, leaves exactly the live rows, as they were |
| `ReservationTable.ReserveTakesEffect` | server/registry/registry_server/persistence/repository.py:1282-1330 | A granted request leaves each of its tokens with a live primary carrying the requested hash and the granted expiry |
| `ReservationTable.GrantedRequestWrites` | server/registry/registry_server/persistence/repository.py:1293-1330 | Under the planned keys a granted request writes rows with the requested hash, the granted expiry and the normalised URL of a healthy relay that keeps the grant; under all other keys exactly the live rows are left, unchanged |
| `ReservationTable.LastStepRemovesExactly` | server/registry/registry_server/persistence/repository.py:1410-1457 | After any run, a purge removes exactly the expired rows, an abandon exactly the named replica rows and a relay removal exactly the rows of that relay; all others stay unchanged |
| `ReservationTable.RegistryRepository.PurgeExpiredTokens` | server/registry/registry_server/persistence/repository.py:1047-1055 | Removes exactly the rows expired now and reports how many |
| `ReservationTable.RegistryRepository.LockTokensWithBlockHashes` | server/registry/registry_server/persistence/repository.py:1241-1330 | Refuses duplicates, then occupied tokens (naming exactly those), then a missing relay, and a refusal leaves exactly the live rows, as they were; otherwise the table becomes the purged table with the planned rows upserted, and grant, layout numbers and the degraded flag are reported |
| `ReservationTable.RegistryRepository.AbandonReplicaPlacements` | server/registry/registry_server/persistence/repository.py:1410-1457 | A row stays, unchanged, if and only if it is not a named replica row; exactly the named replica rows that were there are reported, each once |
| `ReservationTable.RegistryRepository.DeleteAllowlistEntry` | server/registry/registry_server/persistence/repository.py:584-611 | An unknown relay changes nothing; a known one loses its entry and exactly its rows |
| `ReservationTable.RegistryRepository.GetPrimaryPlacement` | server/registry/registry_server/persistence/repository.py:1184-1186 | The primary row of a token, or None exactly when it has none |
| `ReservationTable.RegistryRepository.FindOccupied` | server/registry/registry_server/persistence/repository.py:1268-1281 | Lists exactly the tokens that have a primary row expiring later than now, in request order |
| `ReceivePlan.WindowOnlyWidens` | client/transfer/src/protocol/receive-prefetch-policy.ts:102-149 | With a wire size within the relay ceiling, the window after the metadata is at least the window before it |
| `ReceivePlan.WindowFitsBudget` | client/transfer/src/protocol/receive-prefetch-policy.ts:102-127 | A derived window times the wire size is at most max(budget, 2 * wire) |
| `ReceivePlan.WindowExactly` | client/transfer/src/protocol/receive-prefetch-policy.ts:102-127 | A derived window is the largest number of blocks within the budget, but at least 2 and at most 64 |
| `ReceivePlan.DeriveIndexTokens` | client/transfer/src/protocol/receive-plan.ts:11-26 | The tokens of the range in order, or a failure for an inverted range |
| `ReceivePlan.ComputeReceiveDownloadPlan` | client/transfer/src/protocol/receive-plan.ts:28-62 | Prefetch, fetch and cancel lists are the index ranges around window and token count |
| `ReceivePlan.PlanCoversNeeded` | client/transfer/src/protocol/receive-plan.ts:28-62 | With distinct tokens an index is needed exactly when the plan fetches it, or prefetches it without cancelling it |
| `DownloadSession.DownloadAdaptive` | client/transfer/src/session/download-session.ts:372-587 | Returns exactly what the receivers make of the blobs the relays deliver, unless the narrower window cancels a needed token, and then fails; after the metadata a browser download never has more wire bytes pending than max(budget, 2 * wire), or the whole upload for files of at most 16 MiB |
| `DownloadSession.ClientUploadsStayInBudget` | client/transfer/src/segment-policy.ts:27-42 | For the uploads the client makes, whole files up to 16 MiB and segmented ones above, that bound is max(budget, 2 * wire) for every budget from 32 MiB |
| `DownloadSession.LostBlobsOnlyFail` | client/transfer/src/session/download-session.ts:372-587 | Blobs that are stored but not delivered, however many, make a download fail or leave its result unchanged |
| `DownloadSession.DecryptDownloadedLargeFile` | client/transfer/src/session/download-session.ts:151-222 | Pending tokens never exceed the window, every needed token is consumed once and in order, and the blob is the streaming result; whole-file uploads of two or more tokens fail |
| `DownloadSession.FetchInWindow` | client/transfer/src/session/download-session.ts:184-205 | One turn keeps the pending tokens within the window and consumes the oldest index |
| `DownloadSession.DownloadSmallFile` | client/transfer/src/session/download-session.ts:543-582 | Collects every needed token and returns what the batch receiver makes of the delivered blobs, with at most the token count pending |
| `DownloadSession.WithinCeilingLosesNothing` | client/transfer/src/session/download-session.ts:492-512 | A wire size within the relay ceiling never cancels a needed token |
| `DownloadSession.NeededTokensCanBeLost` | client/transfer/src/session/download-session.ts:492-512 | For every receivable upload of at least three tokens there are settings, with a ceiling below its wire size, under which the download fails, although the batch receiver gives the file back |
| `DownloadSession.LargeWholeFileFails` | client/transfer/src/session/download-session.ts:517-541 | A whole file above 16 MiB cannot be downloaded under any cap or settings, although the batch receiver gives it back |
| `DownloadSession.DownloadExact` | client/transfer/src/session/download-session.ts:372-587 | Of an upload made under the relay ceiling the download returns the file if and only if it has at most 16 MiB or is segmented (large files: with a non-empty last block) |
| `DownloadSession.CancelsNeeded` | client/transfer/src/session/download-session.ts:492-512 | A needed token is cancelled if and only if the new window is narrower than the first and than the token count |
| `DownloadSession.CancelSurplus` | client/transfer/src/session/download-session.ts:499-512 | After the cancellations only indices within window and token count are pending; exactly the surplus ranges are cancelled |
| `DownloadSession.DownloadPrepared` | client/transfer/src/session/download-session.ts:372-587 | Of an upload made under the relay ceiling the download returns exactly the file (large files: segmented, with a non-empty last block) |
| `DownloadSession.ReceivePlaintextAccumulator.DrainSession` | client/transfer/src/session/finalize-receive-decrypt.ts:28-55 | Appends everything the session has ready to the fixed buffer, and fails exactly on overflow or a refused export |
| `DownloadSession.ReceivePlaintextAccumulator.ToBlob` | client/transfer/src/session/finalize-receive-decrypt.ts:57-65 | Returns the buffer exactly when it has been filled |
| `DownloadSession.FinalizeReceiveDecryptToBlob` | client/transfer/src/session/finalize-receive-decrypt.ts:132-147 | The accumulated blob is the streaming result, failures included: the buffer ends filled with exactly the file |
| `DownloadSession.ReceiveTransport.Get` | client/transfer/src/transport/fetch-receive-transport.ts:180-253 | A cancelled token is never delivered; for any other the blob that gets through in the end, or a failure when none does (not stored, or retries exhausted); a delivered token leaves the pending set |
| `DownloadSession.ReceiveTransport.CancelPending` | client/transfer/src/transport/fetch-receive-transport.ts:165-178 | Cancelled tokens leave the pending set and stay cancelled |

## Left out

- AES-256-GCM, SHA-256, PBKDF2 (RFC 8018) and HKDF (RFC 5869) themselves: idealised as described above.
- Integer widths of the C++ code: sizes are unbounded naturals; `FitsIntegers` is where the metadata fields need a bound, `WrapAroundAgrees` covers the one wrap-around that matters.
- Further use of a C++ session after one of its calls has thrown: the contracts of failing calls say what the failure means, not what state is left.
- The check of the metadata block size at start-up (`verify_sm_schema_size`): it is the constant fact of `PrintedLength`.
- `verify_merkle_path`: it compares one stored leaf and follows no path.
- ReceiveMisread: whether the front of a longer record opens by itself depends on the cipher, which the idealisation leaves open.
- ReceivePrepared: needs distinct upload tokens, which the derivation provides only up to hash collisions.
- `storage_rate` and the sweep interval of a relay: not used by the placement functions; the pool order is an input.
- SQL, ISO timestamps and the event log: the table is a map and time an integer; a reserve step reads the clock once, while the code reads it for the purge, the occupancy check and the expiry.
- The answer to a reserve request with live relay URLs, `update_token_block_hash` and the generic admin row operations: outside the reservation protocol.
- Concurrent reserve requests: each step of the table is taken as atomic.
- Device memory probing: the memory budget is a parameter that stays fixed during a download.
- DownloadAdaptive: the transport is modelled by which tokens are pending, cancelled and served; timing of resolves, retries, timeouts and HTTP are not.
- Progress reporting, status high-water marks and yielding to the browser: no effect on the result.
- WebAssembly bindings, user interfaces, the upload scheduler and the relay's block service: not modelled.
