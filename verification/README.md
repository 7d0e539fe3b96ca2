# A verified model of the archive filesystem

The program mounts the packed archives of a family of games as a read-only filesystem. An archive is a
header file, RSA-encoded block by block, and a data file; the header lists entries by the hash of their
path, with offset, sizes and, for some, an AES key and the ranges of the entry that are encrypted. This
project models what the program computes between those files and a read of the mounted filesystem, and
proves that it is what it should be, or exactly when it is.

Four parts, each a chain of modules:

| part | modules |
|---|---|
| reads of encrypted files | `Bytes`, `BlockCipher` (reference: decrypt the whole file), `WindowDecryptor`, `WindowTheorem`, `CiphertextRing`, `AlignedStream`, `Mount`, `ReadTheorem`, `ReadWitness`, `ReadExact`, `EmptyReads`, `ReadEnds`; the archive's entries and records behind them: `Bhd5`, `Unaligned`, `Sorting`, `EncryptionRecords`, `StoredRanges`, `Archive`, `HeaderEntries`; reads from the header's fields on: `PlainReads`, `EncryptedReads`; and the buffers under them: `Allocator` |
| the filesystem index | `Paths`, `Trie`, `Merge`, `Object`, `Regrouping`, `Eytzinger`, `Flatten`, `Index`, `NodePaths`, `Lookup`, `Descent`, `Spelling`, `Finish` |
| RSA decoding | `Octets`, `Rsa`, `RsaReader`, `Der` |
| path hashes | `MadHash`, `HashVectors` |

The AES block function is any function on 16-octet blocks, and every statement holds for all of them.
A string is its UTF-8 octets. The window size, 64 on
Unix and 512 on Windows, is a parameter.

## What the proofs found

Each of these is a theorem below, with its exact condition and an input that shows it.

- After a block cut at the start of a buffer, whole blocks resume at `file_offset + left_len`
  (src/dvdbnd/filesystem/encryption.rs:417), where the value is used as an index into the buffer like the
  one in the other arm; the octets between keep their ciphertext. Also, the head of a second body buffer is
  taken from a buffer that is already decrypted (src/dvdbnd/mount.rs:266-268), and its tail from a next
  buffer that may be shorter than a block. `ReadExact.EncryptedReadRightIff`: a read is right for every
  archive and every cipher if and only if no range has a block cut at an inner buffer boundary, and a
  block cut at the start of the request is the last of its range's part of the first buffer. Requests
  aligned with their ranges always meet this (`ReadExact.AlignedRequestIsRight`);
  `ReadExact.MisalignedReadFails` is one that does not.
- Two repairs, labelled as such (type `Version`) and specified over the items of the stream. With
  resumption right behind the cut block and ciphertext kept for the head, a read is still wrong if a block
  cut at an inner boundary reaches beyond what the request has left for the next buffer, and right
  otherwise (`ReadExact.ShortTailFails`, and the same if-and-only-if). If the tail also reaches over all
  short buffers ahead, every request at every alignment is right (`ReadExact.FullyRepairedReadIsRight`).
- A read of an encrypted, empty entry that starts less than a window from the archive's start panics
  (`EmptyReads.PanicsIff`); an entry that is accepted and gets an id does so in `Archive.EmptyEntryPanics`,
  and there is one in either byte order (`Archive.EmptyEntryOf`).
- The bounds of an encryption range are compared with a saturating difference, so a range at offset 0 that
  is longer than its file is stored; every other accepted range is stored faithfully
  (`EncryptionRecords.StoredFaithfullyIff`, `EncryptionRecords.OversizedRangeAccepted`).
- Merging objects, which a parallel reduction groups as it likes, is associative exactly when no path of
  a third object is kept out only by paths of a second that the first keeps out
  (`Object.MergeObjectsAssociativeIff`, `Merge.GroupingCanMatter`). Over any number of objects in a given
  order, all groupings have the same result if and only if every path that an earlier object blocks is also
  blocked by what is kept of the earlier ones, merged from the left (`Regrouping.AllGroupingsAgreeIff`). And
  every grouping serves at each path the file of the first object that holds it if and only if no
  path held anywhere is a proper prefix of another (`Object.ReductionResolvesFirstIff`); archives may share
  paths. A name that is a file in one archive and a directory in another breaks it.
- `read` of the RSA reader fails at the end of input instead of coming up short, and a failure with less
  than a block of room left also rewinds its output buffer, so that octets already handed over come again
  (`RsaReader.RsaDecryptor.Read`, `RsaReader.FailedReadRepeats`).

## Model

| member | source | states |
|---|---|---|
| BlockCipher.WholeFileAt | src/dvdbnd/filesystem/encryption.rs:428-436 | the reference: in the whole-file decryption each octet of a range is its octet of the decryption of the one 16-octet block, counted from the range's start, that holds it; other octets are the file's |
| WindowDecryptor.Decrypt | src/dvdbnd/filesystem/encryption.rs:369-453 | the in-place loop over the sorted ranges, from the first that ends behind the buffer's start, with its early exit, turns the buffer into `DecryptWindow` of it; what comes before the first such range is specified, not how it is searched |
| WindowDecryptor.DecryptCutBlock | src/dvdbnd/filesystem/encryption.rs:399-417 | the block that straddles the buffer's start is put together from head, buffer and tail, also when the buffer ends inside it, and only the buffer's part is written back |
| WindowDecryptor.DecryptSlice | src/dvdbnd/filesystem/encryption.rs:428-449 | whole blocks in place, a last partial block with its missing octets from the tail, nothing else changed |
| WindowTheorem.WindowIsWholeFileSlice | src/dvdbnd/filesystem/encryption.rs:379-450 | for any buffer of any length, any number of disjoint sorted ranges and correct context, one call gives that slice of the whole-file decryption if no range goes on after a block cut at the buffer's start; and with the repaired index always |
| WindowTheorem.WindowInside | src/dvdbnd/filesystem/encryption.rs:395-424 | octet by octet without that premise: every octet of a range, up to the end of a cut block too, becomes plaintext unless it lies behind a block cut at the buffer's start |
| WindowTheorem.WindowMissed | src/dvdbnd/filesystem/encryption.rs:417-436 | the octets between such a block and the resumption index keep their ciphertext, whatever the contexts |
| WindowTheorem.WindowOutside | src/dvdbnd/filesystem/encryption.rs:388-393 | octets outside all ranges never change, whatever the context |
| WindowTheorem.FromInside | src/dvdbnd/filesystem/encryption.rs:388-450 | the loop's invariant: what earlier ranges did leaves a later range's ciphertext alone, and later turns leave its plaintext alone |
| WindowTheorem.UncleanStartMisses | src/dvdbnd/filesystem/encryption.rs:417 | the premise is exact: wherever it fails, a concrete cipher and a file of zeros are decrypted wrongly, whatever the head and the tail |
| CiphertextRing.CiphertextBuffer.DoPush | src/dvdbnd/filesystem/encryption.rs:146-150 | the three slots go on showing the last three elements of the unbounded list of everything pushed |
| CiphertextRing.CiphertextBuffer.Curr | src/dvdbnd/filesystem/encryption.rs:132-140 | the current buffer is the one before the last push, or the last one when nothing is before it |
| CiphertextRing.RingShowsNeighbours | src/dvdbnd/filesystem/encryption.rs:123-195 | after two or more pushes the ring shows elements n-2, n-1 and n of the list, and after the end n-1, n and nothing |
| CiphertextRing.ContextOf | src/dvdbnd/filesystem/encryption.rs:94-120 | head and tail are the last 16 octets of the previous buffer, right-aligned, and the first 16 of the next, left-aligned, zeros elsewhere |
| AlignedStream.OneWindowItems | src/dvdbnd/filesystem/aligned.rs:130-181 | one read, split in three: window, request and what the file has behind it, at their own offsets |
| AlignedStream.ManyBufferItems | src/dvdbnd/filesystem/aligned.rs:75-110 | otherwise a head clamped to the file's start, bodies of at most 32768 octets, and a tail clamped to the file's end, empty ones left out |
| AlignedStream.WindowItems | src/dvdbnd/filesystem/aligned.rs:75-181 | both, with every octet's place: one read in three parts if and only if the request and its two windows fit 32768 octets and a window lies in front of it |
| AlignedStream.WindowsEndInFile | src/dvdbnd/filesystem/aligned.rs:112-128 | no buffer of a stream ends beyond the file, so that the loop's 32-bit arithmetic on offsets does not overflow |
| ReadTheorem.WindowsShape | src/dvdbnd/filesystem/aligned.rs:75-181 | on both paths the stream is context, then exactly the bodies of the request, then context, and the context is the file's octets on either side, or the archive's before the file |
| Mount.ProcessCurrent | src/dvdbnd/mount.rs:252-272 | one turn on the current buffer: skip it, cut what was read beyond the request but for the rest of a block, decrypt it in place between its neighbours |
| Mount.ReadAndDecryptFile | src/dvdbnd/mount.rs:219-276 | driving the ring over the stream calls the closure with what the specification over the list of buffers says, up to the first call that fails; failed reads, bad ids and the empty stream included |
| Mount.ReadFile | src/dvdbnd/mount.rs:152-217 | clips the request to the unpadded length, reads on either path, drops what lies outside the request, and stops at the first call of the callback that fails; the assertions on its bounds hold. `PlainReads.PlainRead`, `EncryptedReads.EncryptedRead` and `ReadEnds.FailsFirst` say what the octets are, in the header entry's own fields |
| Mount.ForwardClipped | src/dvdbnd/mount.rs:180-214 | the plain loop hands over each buffer, clipped, up to the first failed read or call |
| Mount.ClippedCalls | src/dvdbnd/mount.rs:179-194 | calling the callback through the clipping closure is calling it with the clipped chunks: the same calls, the same failure |
| ReadTheorem.UnencryptedRead | src/dvdbnd/mount.rs:170-216 | the requested octets, clipped to the unpadded length or, where that is zero, to the length, in order in chunks of at most one buffer |
| ReadTheorem.BodyOutIsPlain | src/dvdbnd/filesystem/encryption.rs:379-450 | a body buffer on a right layout comes out as its slice of the whole-file decryption, for the source and its repairs |
| ReadTheorem.BodiesDelivered | src/dvdbnd/mount.rs:239-273 | from any body on, the loop delivers the rest of the request in order and ends without error |
| ReadTheorem.EncryptedReadIsPlain | src/dvdbnd/mount.rs:219-276 | for every archive, file, cipher, list of disjoint in-file ranges and non-empty request on a right layout, the chunks are the requested slice of the whole-file decryption; for the source and its repairs |
| ReadTheorem.CoversConcat | src/dvdbnd/mount.rs:270-272 | chunks that cover a request, put together, are the slice |
| ReadExact.EncryptedReadRightIff | src/dvdbnd/mount.rs:219-276 | a read is right for every archive and every cipher if and only if the layout is right, for the source and for both repairs |
| ReadWitness.RightDeliveryNeedsRightLayout | src/dvdbnd/mount.rs:266-268 | if the read of a file of zeros under one concrete cipher is right, then no block is cut at an inner boundary and none is followed by missed octets |
| ReadWitness.RightDeliveryReaches | src/dvdbnd/filesystem/encryption.rs:104-107 | with the repaired head only: if the read of a file of ones under one concrete cipher is right, then every block cut at an inner boundary ends within what the request has left for the next buffer |
| ReadExact.MisalignedReadFails | src/dvdbnd/filesystem/encryption.rs:417 | for a file of 64 octets and a range of two blocks at 8, some cipher and archive make the read of 16 octets at 16 wrong |
| ReadExact.ShortTailFails | src/dvdbnd/filesystem/encryption.rs:104-107 | with the repaired head only: a request that ends two octets into its second buffer is read wrongly |
| ReadExact.FullyRepairedReadIsRight | src/dvdbnd/mount.rs:239-273 | a specification, over the list of the stream's items, of what the loop would have to do, not a loop over the ring: with `left_len` as the index, ciphertext for the head and the tail taken over all short buffers ahead, a read is right for every request at every alignment |
| ReadExact.AlignedRequestIsRight | src/dvdbnd/mount.rs:254-264 | a request whose ranges all start at a multiple of 16 from its start has a right layout |
| EmptyReads.PanicsIff | src/dvdbnd/filesystem/encryption.rs:132-140 | an encrypted read panics if and only if the entry is empty and less than a window from the archive's start |
| EmptyReads.EmptyRequest | src/dvdbnd/mount.rs:170-177 | an encrypted request that is clipped to nothing delivers nothing and ends without error, but for that panic |
| Unaligned.New | src/unaligned.rs:39-52 | the loop keeps the low octets of the word, in either byte order and for every width |
| Unaligned.Get | src/unaligned.rs:54-67 | the loop pads the octets at the right end and reads their value, in either byte order |
| Unaligned.WordRoundTrip | src/unaligned.rs:39-67 | octets written and read back in either order give the value modulo what their width holds |
| Unaligned.FourOctets | src/unaligned.rs:54-67 | four octets as a value, digit by digit, in either order |
| Unaligned.EightOctets | src/unaligned.rs:54-67 | eight octets as two halves of four, in either order |
| EncryptionRecords.RecordRoundTrip | src/dvdbnd/filesystem/encryption.rs:265-269 | a record reads back as its own key and ranges, whatever follows it |
| EncryptionRecords.AppendKeepsRecords | src/dvdbnd/filesystem/encryption.rs:198-212 | an id that finds a record finds the same one after anything is appended |
| EncryptionRecords.RecordStore.StoreEncryption | src/dvdbnd/filesystem/encryption.rs:215-272 | returns an id if and only if every non-empty range has its start before its end, whole blocks, and either its end inside the file or its start at 0, at most 0xFFFFFF ranges are not empty and fewer than 0xFFFFFFFF octets are stored already; a refusal names the first range that is not in order, and what is wrong with it. The id is 0xFFFFFFFF less the octets stored before; it finds the key and the non-empty ranges, sorted by end, and every id handed out goes on finding its own |
| EncryptionRecords.StoredIff | src/dvdbnd/filesystem/encryption.rs:229-266 | that condition is exact |
| EncryptionRecords.FirstBadIsNamed | src/dvdbnd/filesystem/encryption.rs:237-248 | the first range out of order is refused: for its ends or its length before its place |
| EncryptionRecords.StoredContents | src/dvdbnd/filesystem/encryption.rs:250-262 | which ranges are stored, how many, and in which order |
| EncryptionRecords.RecordOctets | src/dvdbnd/filesystem/encryption.rs:265-269 | a record's octets: a zero tag, 16 of key, the number of ranges in three, and the ranges |
| EncryptionRecords.RangeOctets | src/dvdbnd/filesystem/encryption.rs:312-330 | each range's: its start and its number of blocks in four octets each |
| EncryptionRecords.SortIsStable | src/dvdbnd/filesystem/encryption.rs:258 | ranges that end at the same place keep their order |
| EncryptionRecords.SortContents | src/dvdbnd/filesystem/encryption.rs:258 | sorting by end is a permutation, and sorted |
| EncryptionRecords.ConvertedContents | src/dvdbnd/filesystem/encryption.rs:229-256 | an accepted list is stored as exactly its non-empty ranges, each of which passed the bounds |
| EncryptionRecords.StoredFaithfullyIff | src/dvdbnd/filesystem/encryption.rs:241-250 | an accepted range is stored with its own end inside the file if and only if it is no longer than the file; the exceptions start at 0 |
| EncryptionRecords.OversizedRangeAccepted | src/dvdbnd/filesystem/encryption.rs:241 | 32 octets at offset 0 of a file of 16 are accepted |
| EncryptionRecords.XorAllOnes | src/dvdbnd/filesystem/encryption.rs:83-90 | the exclusive-or that makes ids is subtraction from all ones |
| StoredRanges.StoredRangesWellPlaced | src/dvdbnd/filesystem/encryption.rs:229-269 | from disjoint ranges no longer than the file, what is stored is the archive's own ranges: non-empty, sorted, disjoint and in the file, as decryption needs them |
| Bhd5.FileEntryValidator.IsValid | src/dvdbnd/bhd5/format.rs:402-417 | accepts an entry exactly when it and all accepted before are valid together |
| Bhd5.ValidateBuckets | src/dvdbnd/bhd5/format.rs:211-225 | over all buckets: accepted if and only if each lies in the file, every entry is valid on its own and at most one of all of them starts at offset 0 |
| Bhd5.EncryptionRoundTrip | src/dvdbnd/bhd5/format.rs:248-268 | encryption data is read back as written, in either byte order, wherever it stands in the file |
| Bhd5.TryRefEncryption | src/dvdbnd/bhd5/format.rs:232-278 | every entry's encryption is the one at its offset, and the whole fails exactly when one does |
| HeaderEntries.EntryFields | src/dvdbnd/bhd5/format.rs:419-550 | per layout of entries: which are valid on their own, which have an unpadded size, and which have encryption |
| HeaderEntries.AcceptedIff | src/dvdbnd/bhd5/format.rs:211-225 | a header is accepted if and only if every bucket is there, every entry, wherever it stands, is in order, and no two entries at different places start at offset 0 |
| HeaderEntries.EncryptionOctets | src/dvdbnd/bhd5/format.rs:248-268 | encryption data at an offset: 16 octets of key, a signed count in four, and start and end of each range in eight each |
| HeaderEntries.EncryptionFails | src/dvdbnd/bhd5/format.rs:253-265 | reading it fails if and only if the header ends before its end or the count is negative |
| HeaderEntries.EntryEncryption | src/dvdbnd/bhd5/format.rs:248-268 | an entry has none if and only if it is of the first layout or its offset is zero; otherwise it is that at its offset |
| Archive.ProcessFiles | src/dvdbnd/filesystem.rs:182-251 | succeeds if and only if each entry's encryption, if it has one, is in order for a file of its size behind the records of the entries before it; every entry then becomes a file with its place and sizes, whose id finds its own record in the finished store. A failure is the refusal of one entry's encryption at the end of the store, with all entries before it filed |
| Archive.AcceptedIsReadable | src/dvdbnd/bhd5/format.rs:536-550 | an accepted entry's unpadded length is at most its length, so that the bounds of its reads hold |
| Archive.StoredIsUsable | src/dvdbnd/filesystem/encryption.rs:229-269 | whatever record the store accepts, with ranges that overlap or are longer than their file too, is sorted by end and has no end that overflows 32 bits |
| Archive.FiledIsUsable | src/dvdbnd/filesystem/encryption.rs:343-345 | so every file of `process_files` meets what `Mount.ReadFile` asks of its ranges |
| Archive.PlainEntryRead | src/dvdbnd/mount.rs:152-217 | a read of an accepted unencrypted entry delivers the requested octets of the archive, clipped to the unpadded size that the last two layouts of entries may state, and to the size otherwise |
| PlainReads.PlainRead | src/dvdbnd/mount.rs:152-214 | for archives of any length: a read of an unencrypted entry gives octets `offset` to `offset + len`, clipped as said, in buffers of exactly 32768 octets and a shorter last one, each with its offset; if the archive ends before them, the whole buffers before its end and then the failure |
| Archive.ReadThroughStore | src/dvdbnd/filesystem/encryption.rs:198-212 | a read through the finished store is the read with the entry's own key and ranges, whatever other entries were stored |
| Archive.EncryptedEntryRightIff | src/dvdbnd/mount.rs:198-203 | a non-empty read of an accepted encrypted entry is right for every cipher and archive, under the entry's own key in the entry's own ranges, if and only if the layout of the stored ranges is right; `EncryptedReads.EncryptedRead` says it in the header's own numbers |
| EncryptedReads.EncryptedRead | src/dvdbnd/mount.rs:198-276 | the same in the header's own numbers: the requested octets of the plaintext come, for every archive and cipher, if and only if no range of the header has a block cut at a multiple of 32768 octets behind the start of the request, and a block cut at its start is the last of its range in the first 32768 octets |
| EncryptedReads.ReferenceIsDecrypted | src/dvdbnd/filesystem/encryption.rs:428-436 | the plaintext meant: octet p of a range is octet (p - start) mod 16 of the decryption of its own block, counted from the range's start, and other octets are the archive's; there is exactly one such |
| EncryptedReads.LayoutIff | src/dvdbnd/filesystem/encryption.rs:399-417 | the condition on stored ranges is that on the header's |
| EncryptedReads.FiledRecord | src/dvdbnd/filesystem/encryption.rs:198-212 | a filed entry's id finds the entry's key and its non-empty ranges, with start and number of blocks, as many, sorted by end |
| EncryptedReads.EncryptedEntryEnds | src/dvdbnd/filesystem/aligned.rs:55-128 | whatever the layout, a non-empty read succeeds if and only if the archive holds the request and, as far as the entry goes, the window behind it; otherwise it fails at the archive's end |
| ReadEnds.UnknownIdFails | src/dvdbnd/filesystem/encryption.rs:198-208 | a non-empty read whose id finds no record delivers nothing and fails for that reason |
| ReadEnds.ClippedChunk | src/dvdbnd/mount.rs:179-194 | what the closure passes on: nothing that does not start in the file and before the request's end, nothing empty, and else what lies before that end |
| ReadEnds.CutBeforeDecryption | src/dvdbnd/mount.rs:261-264 | a buffer that goes on behind the request keeps 15 octets behind it for decryption, and no more |
| ReadEnds.OneReadOf | src/dvdbnd/filesystem/aligned.rs:183-205 | one read of the archive: nothing, the octets, or which failure |
| ReadEnds.NeverFails | src/dvdbnd/mount.rs:179-214 | a callback that fails on no prefix of the chunks is given all of them, and the read ends as it would |
| ReadEnds.FailsFirst | src/dvdbnd/mount.rs:179-214 | one that fails first on n chunks is given these n, and the read fails |
| Archive.EmptyEntryPanics | src/dvdbnd/filesystem/encryption.rs:132-140 | any empty entry at the start of the archive, whose encryption, as parsed from the header at the entry's offset, has only an empty range, is accepted and gets an id, and every read of it panics |
| Archive.EmptyEntryOf | src/dvdbnd/bhd5/format.rs:248-268 | in either byte order there is a header that holds such an entry |
| Allocator.AlignedBufferAllocator.Alloc | src/dvdbnd/filesystem/aligned.rs:272-287 | returns the least free buffer, fails exactly when all 64 are live, and keeps the set bits of the mask exactly the buffers that are not live |
| Allocator.AlignedBufferAllocator.Free | src/dvdbnd/filesystem/aligned.rs:289-304 | the address of any buffer of the pool passes the assertions, whose upper bound reaches eight times too far, and gives its index; afterwards just that buffer is free, whether or not it was live |
| Allocator.ClearedBits | src/dvdbnd/filesystem/aligned.rs:275-281 | `a & (a - 1)` has the bits of `a` but the lowest, for every number |
| Allocator.BuffersDisjoint | src/dvdbnd/filesystem/aligned.rs:306-308 | no address lies in two buffers, and all lie in the pool's array |
| Paths.NormalizePath | src/filesystem.rs:249-275 | the shortcuts and the component stack give the normalised path |
| Paths.NormalizedComponents | src/filesystem.rs:203-275 | whichever shortcut was taken, the components of the normalised path are the resolved components of the path |
| Paths.JoinThenComponents | src/filesystem.rs:203-207 | proper components joined and split again are the same components |
| Paths.CanonicalAtSeparator | src/filesystem.rs:261-271 | resolving continues at 0x2F, and under the archives' configuration at 0x5C, where the part before it ended |
| Paths.SkippedComponent | src/filesystem.rs:261-263 | an empty or `.` component between separators changes nothing |
| Paths.OuterSeparator | src/filesystem.rs:203-207 | neither does a separator before or behind the path |
| Paths.ParentUndoesComponent | src/filesystem.rs:264-266 | a resolvable `..` takes back the component before it |
| Paths.CanonicalLower | src/filesystem.rs:132-139 | folding ASCII case commutes with resolving |
| Spelling.ResolvedPiece | src/filesystem.rs:249-271 | resolving, octet by octet and piece by piece, for every path: an empty piece and `.` are dropped, `..` takes the last component away where there is one, any other piece is a component |
| Spelling.UnresolvedPiece | src/filesystem.rs:203-207 | likewise splitting into components |
| Spelling.LastPiece | src/filesystem.rs:203-207 | every path is a piece, or one behind a separator behind a shorter path, so that these equations cover all |
| Spelling.NormalizedOctets | src/filesystem.rs:249-275 | `.` for the empty path; a path without two dots in a row as it is; the resolved components joined by 0x2F otherwise |
| Spelling.KeyOctets | src/filesystem.rs:131-139 | the key's octets: those of the resolved components, A to Z raised by 32 and no others |
| Spelling.CaseMakesNoDifference | src/filesystem.rs:131-139 | paths that differ in the case of ASCII letters only have one key and lead to one inode, from any parent |
| Spelling.BackslashIsSlash | src/dvdbnd/filesystem.rs:295-300 | under the archives' configuration 0x5C and 0x2F give one key and one inode |
| Spelling.BackslashInName | src/filesystem.rs:203-207 | under the other a name that holds 0x5C is one component |
| Spelling.PlainName | src/filesystem.rs:203-207 | a non-empty name without either, other than `.` and `..`, is one component under both |
| Trie.BlockedIff | src/filesystem/object.rs:77-96 | the walk can add nothing at a path exactly when the path equals, extends or is a prefix of the path of some file |
| Trie.InsertFileAt | src/filesystem/object.rs:66-98 | one walk adds its own file if nothing blocks it, and changes no other |
| Trie.BuildIsGreedy | src/filesystem/object.rs:66-98 | a built trie holds exactly the greedy prefix-free choice of its paths in input order, each with its own file index |
| Trie.SameFilesIsEqual | src/filesystem/object.rs:33-45 | tries that can be built are equal when they have the same files |
| Object.New | src/filesystem/object.rs:48-107 | builds that trie from the normalised, lowercased paths, with the files in input order; what it asks of names is what its assertion checks on the components its walks visit |
| Object.ShortNamesFit | src/filesystem/object.rs:66-98 | names of at most 255 octets satisfy what `new` asks, and a single path's have to |
| Object.BuiltObjectResolves | src/filesystem/object.rs:48-107 | every path of a built object resolves to its own file, and no other path to any |
| Object.AdjustFiles | src/filesystem/object.rs:196-203 | adds the offset to every file index, in whatever order the map is walked |
| Object.MergeBranch | src/filesystem/object.rs:205-224 | merges name by name, in whatever order the map is walked |
| Object.MergeInto | src/filesystem/object.rs:109-126 | merges two objects, either of which may be empty |
| Merge.MergedFileAt | src/filesystem/object.rs:205-224 | a merge keeps every file of the first side, and of the second exactly those that nothing in the first blocks |
| Merge.MergedBlocks | src/filesystem/object.rs:205-224 | a merge blocks what the first side blocks and what the files kept of the second conflict with |
| Merge.MergeAssociativeIff | src/filesystem/object.rs:205-224 | merging tries is associative if and only if no file of the third is blocked only by files of the second that the first blocks |
| Merge.GroupingCanMatter | src/filesystem/object.rs:205-224 | with `d/f` in the first trie, `d` in the second and `d/e` in the third, `d/e` is there when merged from the left and not when merged from the right |
| Merge.MergeIsBuildOfConcat | src/filesystem/object.rs:48-126 | merging two built tries is building the concatenated list when no path of the second list is a proper prefix of another of it; the first list is unrestricted |
| Object.MergedResolves | src/filesystem/object.rs:109-126 | after a merge every kept file still resolves to its own data |
| Object.MergeObjectsAssociativeIff | src/dvdbnd/filesystem.rs:149-153 | the exact condition for whole objects with their files and adjusted indices; the default object is the identity |
| Object.PrefixFreeObjectsAssociate | src/filesystem/object.rs:109-126 | objects merge associatively when no path of the second is a proper prefix of one of the third or the other way round |
| Object.ReductionResolvesFirst | src/dvdbnd/filesystem.rs:149-153 | any tree of merges over objects in a given order, identities anywhere, serves at each path the file of the first object that holds it, if no path held anywhere is a proper prefix of another; objects may share paths |
| Object.ReductionResolvesFirstIff | src/dvdbnd/filesystem.rs:149-153 | and only if: that premise is exact, for every grouping |
| Object.GroupingMakesNoDifference | src/dvdbnd/filesystem.rs:149-153 | under that premise, which is enough but not needed, two groupings of the same objects in the same order resolve every path alike |
| Regrouping.AllGroupingsAgreeIff | src/dvdbnd/filesystem.rs:149-153 | all reductions over the same sequence of objects, of any length, are equal if and only if each path of an object that an earlier one blocks is blocked by what merging from the left keeps of the earlier ones; and if and only if every cut of the sequence into three parts associates |
| Regrouping.AllGroupingsFold | src/dvdbnd/filesystem.rs:149-153 | under that condition each of them is the merge from the left |
| Regrouping.FreeIsUnblocked | src/filesystem/object.rs:109-126 | where all cuts associate, a path that is free behind the kept ones is blocked by no earlier object |
| Regrouping.PrefixFreeGroupingsAgree | src/dvdbnd/filesystem.rs:149-153 | they are equal, files and indices included, where no path held anywhere is a proper prefix of another |
| Object.ReductionIsOrderIndependent | src/dvdbnd/filesystem.rs:149-153 | where moreover no two objects hold the same path, the order of the objects makes no difference either |
| Eytzinger.InOrderIsSubtree | src/filesystem/object.rs:170 | reading children at 2i+1 and 2i+2 left to right visits every index of the subtree exactly once |
| Eytzinger.LayoutReadsInOrder | src/filesystem/object.rs:170 | the layout read left to right is the sorted sequence, so the two are permutations of each other |
| Eytzinger.SortIsRight | src/filesystem/object.rs:163-168 | sorting by name permutes, and orders strictly when no name repeats |
| Eytzinger.LessIff | src/filesystem/object.rs:163-168 | the order of names: a proper prefix first, and otherwise the smaller octet where they first differ |
| Eytzinger.SearchIsRight | src/filesystem.rs:169-171 | on a layout the search finds a name exactly when it is there, at its place |
| Flatten.Intern | src/filesystem/object.rs:141-146 | an interned name is found behind its length and names are only ever appended; it fails only where 32 bits do not hold the index |
| Flatten.EmitDir | src/filesystem/object.rs:149-156 | emitting a directory keeps the books: the next child index is the nodes emitted before this directory, all of its own, and the sizes of all queued directories |
| Flatten.EmitBranch | src/filesystem/object.rs:137-161 | in whatever order the map is walked, each entry gets one node, and each directory the place where its children will be |
| Flatten.BatchBecomesSegment | src/filesystem/object.rs:163-170 | sorting and laying out what was emitted for a directory gives its segment: every entry once, as a layout |
| Flatten.EmissionCompletes | src/filesystem/object.rs:137-171 | the queue loop's invariant after each directory: everything emitted stands in its place, and the child index is the nodes emitted and the sizes of all queued directories |
| Flatten.IntoRofs | src/filesystem/object.rs:128-180 | the loop ends with one node for each of the trie's, in segments that follow each other and stand for their directories |
| Index.InodeByPath | src/filesystem.rs:142-177 | the loop over components, each searched in its directory's segment, is the recursive lookup over the arrays |
| Index.FlatFindIsFind | src/filesystem.rs:142-177 | lookup over the arrays finds a node exactly when the trie has one, and one of the same kind, with the same file or the same children |
| Index.SegmentsPartition | src/filesystem/object.rs:131-171 | the directories' child segments partition every node but the root, and each lies strictly after its directory |
| Index.ListingIsComplete | src/filesystem.rs:81-111 | listing a directory gives every entry of it exactly once, under its name and with its kind |
| NodePaths.FoundNode | src/filesystem.rs:142-177 | the node found at a path bears its last component as its name and lies in the child segment of the node found at the path before it |
| NodePaths.FoundOnce | src/filesystem.rs:142-177 | from the root no node is found at two different paths |
| NodePaths.EveryNodeIsFound | src/filesystem.rs:142-177 | and each is found at one: paths and nodes are in bijection |
| Lookup.LookupInDir | src/filesystem.rs:132-240 | normalises, looks up as typed, then in lower case only if that differs |
| Lookup.LookupFindsKey | src/filesystem.rs:131-240 | from any parent, the index a lookup returns is the one the arrays have under the lowercased resolved components, as numbers |
| Lookup.LookupIsFind | src/filesystem.rs:131-240 | that node exists exactly when the trie below the parent has one under those components, and stands for it |
| Lookup.IndexResolvesObject | src/filesystem.rs:209-246 | the mounted index resolves every path as the object it was made from does |
| Lookup.IndexOfPaths | src/filesystem/object.rs:48-180 | from a list of paths to a lookup: a path finds exactly the file whose resolved, lowercased components the greedy choice keeps |
| Lookup.SameKeySameInode | src/filesystem.rs:231-240 | two spellings with the same key, the resolved components up to ASCII case, lead to the same inode from any parent, file or directory, or both to none |
| Lookup.SameInodeSameKey | src/filesystem.rs:213-240 | only those do, from the root: an inode is found under one key only, and its name is the last component of that key |
| Lookup.RespellingKeepsKey | src/filesystem.rs:231-275 | a change in ASCII case, in the kind of a separator, by an empty or `.` component, by a separator at either end, or by a component and the `..` that takes it back, keeps the key |
| Lookup.RespellingsFindSameInode | src/filesystem.rs:231-240 | paths with any number of such changes between them lead to the same inode, file or directory, from any parent |
| Descent.LookupFromRoot | src/filesystem.rs:226-240 | a lookup from inode 1 finds inode i + 1 exactly when node i stands under the key |
| Descent.LookupsCompose | src/filesystem.rs:231-240 | a lookup from an inode that a lookup has found finds what one lookup under both keys, one behind the other, finds |
| Descent.LookupOfJoined | src/filesystem.rs:231-240 | in paths: that of `p/q`, when `q` has no `..` |
| Descent.NothingFindsItself | src/filesystem.rs:231-240 | the empty path and `.` find inode 1 from inode 1, and any inode from itself |
| Descent.ParentWraps | src/filesystem.rs:233 | a parent inode counts modulo 2^32 |
| Descent.NoNodeFindsNothing | src/filesystem.rs:233 | from inode 0 and from beyond the nodes no path with a component finds anything |
| Descent.NameOfFound | src/filesystem.rs:213-217 | the name of what a lookup finds is the last component of the key, and empty for the root directory |
| Finish.MountedIndexFinds | src/dvdbnd/filesystem.rs:117-159 | however the reduction is grouped, a path finds in the mounted index the file of the first archive, in order, that lists its resolved, lowercased components, and nothing if none does; archives may share paths |
| Finish.MountedIndexFindsIff | src/dvdbnd/filesystem.rs:117-159 | the premise is exact: every path finds the first archive's file if and only if no key of an archive is a proper prefix of another |
| Finish.IndexFindsResult | src/dvdbnd/filesystem.rs:149-158 | without any premise, the index finds what the reduction's result resolves |
| Finish.GroupingExists | src/dvdbnd/filesystem.rs:149-153 | there is a grouping for any number of archives |
| Finish.FinishAll | src/dvdbnd/filesystem.rs:139-153 | building, reducing in any grouping and flattening all archives gives an index with that property, and fails at most where 32 bits do not hold the names |
| Octets.FromBytesBe | src/crypto/rsa.rs:240-265 | the limbs taken in chunks of eight octets from the end, and the rest, have the base-256 value of the octets (section 4.2 of RFC 8017) |
| Octets.ToBytesBeIn | src/crypto/rsa.rs:268-279 | filling from the end, limb by limb, writes the low octets of the value and nothing else (section 4.1 of RFC 8017) |
| Octets.BeValueOfToBe | src/crypto/rsa.rs:268-279 | a value written in L octets reads back modulo 256^L |
| Octets.ToBeOfBeValue | src/crypto/rsa.rs:240-279 | writing a value in as many octets as it was read from gives the octets back |
| Rsa.DecryptBlockIn | src/crypto/rsa.rs:84-102 | one block into room of any length, as many low octets as fit, with its two errors, which write nothing |
| Rsa.DecryptBlocksInPlace | src/crypto/rsa.rs:104-136 | for any number of blocks and on success and failure alike the buffer holds the separate decryptions of the original blocks before the first bad one, packed at the front, and is otherwise unchanged; the length returned is blocks times k - 1 |
| Rsa.UnreadBlock | src/crypto/rsa.rs:117-133 | no block is written over before it is read |
| Rsa.EveryBlockDecoded | src/crypto/rsa.rs:117-133 | the i-th k - 1 octets of output are the decryption of the i-th k octets of input alone |
| Rsa.AllReadableIff | src/crypto/rsa.rs:120-122 | all blocks are decoded if and only if each is below the modulus |
| Rsa.ModPowIs | src/crypto/rsa.rs:97 | the number a block is decoded to is the remainder of the whole power |
| Rsa.InverseIff | src/crypto/rsa.rs:84-102 | the exponents undo each other exactly when raising to their product brings every residue back |
| Rsa.DecodingUndoesSigning | src/crypto/rsa.rs:104-136 | whole blocks of text signed with an exponent that the key's undoes come back |
| RsaReader.RsaDecryptor.Read | src/crypto/rsa.rs:154-188 | a read of any size succeeds if and only if the plaintext lasts, hands over its next octets and leaves the rest pending; on failure the contract gives the error and the whole state left behind; either way the input left begins at a block boundary of the input before |
| RsaReader.RsaDecryptor.ReadToEnd | src/crypto/rsa.rs:190-200 | appends all pending plaintext, or fails exactly when some input is unreadable; the buffer it leaves is stated for success and both failures |
| RsaReader.ReadInParts | src/crypto/rsa.rs:154-200 | any sequence of reads within the plaintext, then a read to the end, yields what one read to the end yields |
| RsaReader.FailedReadRepeats | src/crypto/rsa.rs:172-182 | after one octet of a single block is read and then more than there is, the octets the failing read handed over are pending again |
| Der.DecodeDerLength | src/crypto/rsa.rs:209-222 | short and long lengths, the latter wrapped to a machine word |
| Der.DecodeDerInteger | src/crypto/rsa.rs:224-236 | an integer's octets without one leading zero |
| Der.DecodeFromDer | src/crypto/rsa.rs:67-82 | modulus, exponent and the modulus's octet length, or a failure |
| Der.KeyRoundTrip | src/crypto/rsa.rs:67-82 | for all positive n and e whose lengths fit a word, the DER encoding (appendix A.1.1 of RFC 8017, sections 8.1.3 and 8.3 of X.690) decodes to n, e and the minimal octet length of n, whatever follows |
| Der.KeyOctets | src/crypto/rsa.rs:67-82 | that encoding octet by octet: 0x30, a length, and for modulus and exponent 0x02, a length, a zero where the first octet is 0x80 or more, and the octets without leading zeros |
| Der.LengthOctets | src/crypto/rsa.rs:209-222 | a length octet by octet: below 0x80, or a count of octets from 0x80 on, none for 0x80 itself, or a failure |
| Der.IntegerOctetsRead | src/crypto/rsa.rs:224-236 | an integer octet by octet: tag, length, one leading zero dropped, or a failure |
| Der.TagsNeeded | src/crypto/rsa.rs:67-70 | what does not begin with 0x30, a length and 0x02 is refused |
| Der.AcceptedKeyFits | src/crypto/rsa.rs:76-81 | any key that is accepted has a block length above zero that holds its modulus |
| Der.SignedTextComesBack | src/crypto/rsa.rs:67-136 | through the encoded public key and the block decoder, text signed with the private exponent comes back |
| MadHash.ImplPowers | src/hash/mad.rs:83-93 | the table holds the powers of the prime from N - 1 down to 0, wrapped |
| MadHash.MadHash | src/hash/mad.rs:11-34 | for every N above zero and below 2^32, initial value and octets, the unrolled hash is the byte-at-a-time hash |
| MadHash.MadHashEach | src/hash/mad.rs:36-60 | the byte-at-a-time loops |
| MadHash.HashIsPoly | src/hash/mad.rs:36-60 | the byte-at-a-time hash is the polynomial in the prime, modulo the word |
| MadHash.HashPath | src/hash.rs:5-32 | the hash of a path is that of its suffix behind a slash, and there is none for fewer than two octets behind the root |
| MadHash.HashPath32 | src/hash.rs:5-10 | that hash at 32 bits |
| MadHash.HashPath64 | src/hash.rs:12-17 | that hash at 64 bits |
| MadHash.LowerCaseBit | src/hash/mad.rs:63-69 | setting bit 5 of an upper-case letter adds 32 |
| MadHash.PathHashIgnoresSpelling | src/hash/mad.rs:62-69 | paths that differ, octet by octet, in the case of ASCII letters or in 0x5C for 0x2F hash alike, or both have no hash |
| MadHash.PathHashIgnoresRoot | src/hash.rs:19-32 | neither a root before a colon nor a slash of either kind in front changes the hash |
| HashVectors.OneMoreOctet | src/hash/mad.rs:36-69 | one octet more multiplies by 37 at 32 bits and by 133 at 64 and adds what the octet counts for, wrapped |
| HashVectors.HashedOctets | src/hash.rs:19-32 | what is hashed: what follows the first colon, behind one slash; a path has no hash exactly when fewer than two octets follow |
| HashVectors.SourceVector | src/hash.rs:39-44 | `/action/eventnameid.txt` hashes to 0xec09d5de at 32 bits and to 0x800c9074f004323e at 64 |

Premises that recur: the ranges of a file are non-empty, disjoint, sorted by end and inside it, which
`Archive` derives from the archive's own ranges being disjoint and no longer than the file; the archive
holds the whole file; offsets stay below 2^64.

## Left out

- Flatten.IntoRofs: its precondition bounds the number of nodes by 2^32, beyond which the source panics.
- Allocator.AlignedBufferAllocator.Free: only addresses of buffers of the pool; what the source does with others is undefined there. Memory is addresses, not contents.
- RsaReader.RsaDecryptor.ReadToEnd: the inner reader does not fail.
- RsaReader.RsaDecryptor.Read: the inner reader does not fail and gives a whole block whenever one is left.
- Der.DecodeDerInteger: where the length underflows, a build with overflow checks panics; the model fails as one without them does.
- PlainReads.PlainRead: a read that begins at or behind the end of the archive fails like one that comes up short; the asynchronous library, which is not part of this model, may give no buffer there instead, which the streams would pass over. The same holds of `EncryptedReads.EncryptedEntryEnds`.
- Mount.ReadFile: lookup of the entry by inode and opening of the archive; a read of the archive gives exactly the octets asked for, or fails at its end.
- ReadExact.FullyRepairedReadIsRight: the repaired loop is not driven through the ring; reaching over any number of short buffers needs more than its three slots.
- Archive.EncryptedEntryRightIff: ranges that overlap, or that start at 0 and are longer than their file; the source stores them, and no single plaintext is meant by them.
- MadHash.MadHash: N of 2^32 and more, where the cast of N to 32 bits changes the power.
- Archive.ProcessFiles: naming of entries by dictionary or by hash, and the choice of formats.
- EncryptionRecords.RecordStore.StoreEncryption: records are laid out as on little-endian machines.
- Trie.InsertFileAt: the walk changes nested hash maps through a moving reference; the model computes the changed trie as a value, so that aliasing is not captured.
- Object.MergeBranch: likewise returns the merged branch as a value; the same holds of `Object.AdjustFiles`. Warnings about duplicate names are not part of the model.
- Octets.FromBytesBe: the limbs are not trimmed of leading zeros, which the big-integer library does; their value is the same.
- The AES block function: any function on blocks. That a key's exponents undo each other is a premise of the statements on signed text.
- The search of the Eytzinger library is modelled on its layout, by comparisons from the root; its branch-free form is not part of this model.
- The inode numbers of directory enumeration, which differ from those of lookup by twice the root's number.
- Asynchronous scheduling and shared buffers: a stream is the sequence of its items and splitting a buffer is slicing it.
- Header fields, bucket headers and the slices they delimit; the salt; the trial of formats one after the other.
- PEM and base64 text, caches, directory walking, dictionaries and key files.
- FUSE and ProjFS callbacks, the graphical and command-line interfaces, Steam detection and build scripts.
