# Chrome disk cache decoder, modelled in Dafny

This project models the decoding core of `scripts/chrome_cache.py`, a reader
for the Chrome browser's block-file disk cache. The cache directory holds:

- an `index` file: a 256-byte header, 112 bytes of LRU data, then the hash
  table, which is one little-endian 32-bit cache address per bucket;
- block files `data_N`: an 8192-byte header that ends in an allocation
  bitmap, followed by fixed-size blocks;
- separate files `f_XXXXXX` for large bodies.

The model covers these parts:

- The bit-field decoding of cache addresses, including the names of the
  files they point at (`f_` plus six hex digits, or `data_` plus a decimal
  selector) and the block number, size and offset.
- SuperFastHash, the key hash.
- The index file:
  - the header and LRU structs, with the signature and version checks;
  - the loop that reads the bucket table word by word.
- The block file:
  - its header, including the scan of the allocation bitmap for runs of
    used blocks;
  - the 256-byte entry record and the cut of the key at its first NUL byte.
- The walk along every bucket's hash chain. The walk follows each entry's
  `next` address and stops at a zero address, after 64 entries, at an
  address naming no opened block file, or at an unreadable record. The
  source raises at an unreadable record or an address with no block
  offset, and that ends the walk over the remaining buckets as well.

The index file and the block file are classes, because the source fills in
their fields as it opens them. A Python file object is modelled as the file's
bytes (`contents`) plus a cursor (`position`). Every method is proved against
a function of those bytes, and the properties are proved about those
functions:

- round trips between parsers and encoders;
- which error each malformed file gets;
- the meaning of each table bucket;
- that the bitmap ranges are exactly the closed runs of used blocks;
- that the chain walk is bounded and that every entry it reads is linked
  to the one before.

Python's unbounded integers become `int`/`nat`. `& 0xffffffff` is written
out as reduction modulo 2^32, and `<<`, `>>` and `^` as arithmetic on
non-negative integers. A buffer too short for a `construct` struct, on which
the source raises an exception, becomes `Err(Truncated)`. The signature and
version failures become `Err(BadSignature)` and `Err(UnsupportedVersion(v))`.

Modules:

- `Wrappers`: `Option` and `Result`.
- `Bytes`: little-endian fields and positioned reads.
- `Format`: the `{0:d}` and `{0:06x}` renderings and their inverse.
- `CacheAddresses`: address decoding.
- `KeyHash`: SuperFastHash.
- `IndexFiles`: the index file.
- `DataBlockFiles`: the block file.
- `AllocationBitmap`: the bitmap scan.
- `ChainWalk`: the chain walk.

## Model

| member | source | states |
|---|---|---|
| Bytes.ReadAt | scripts/chrome_cache.py:370 | `read(n)` at a cursor returns n bytes, fewer only when the end of the file is reached, and each byte is the file's byte at that position |
| Bytes.U16 | scripts/chrome_cache.py:205-206 | a `ULInt16` field: the two bytes at the offset, least significant first (definition; its round trip is U16OfEncoding) |
| Bytes.U32 | scripts/chrome_cache.py:204 | a `ULInt32` field: the four bytes at the offset, least significant first (definition; its round trip is U32OfEncoding) |
| Bytes.U64 | scripts/chrome_cache.py:215 | a `ULInt64` field: the eight bytes at the offset, least significant first (definition; its round trip is U64OfEncoding) |
| Bytes.U32Array | scripts/chrome_cache.py:222-224 | an `Array` of `ULInt32`: n words read back to back, word i being the field at offset + 4i (definition; its round trip is U32ArrayAt) |
| Bytes.U16OfEncoding | scripts/chrome_cache.py:205-206 | a little-endian 16-bit field reads back the value encoded into it |
| Bytes.U32OfEncoding | scripts/chrome_cache.py:204 | a little-endian 32-bit field reads back the value encoded into it |
| Bytes.U64OfEncoding | scripts/chrome_cache.py:215 | a little-endian 64-bit field reads back the value encoded into it |
| Bytes.U32ArrayAt | scripts/chrome_cache.py:222-224 | an array of 32-bit words encoded anywhere in a buffer reads back as the same words |
| Format.Digits | scripts/chrome_cache.py:132-136 | the minimal rendering of a number in a base, most significant digit first, is never empty (its inverse is ValueOfDigits) |
| Format.Decimal | scripts/chrome_cache.py:136 | `{0:d}`: the base-10 Digits (definition; ValueOfDecimal, DecimalInjective and DecimalHasOnlyDigits state its properties) |
| Format.Hex6 | scripts/chrome_cache.py:132 | the `{0:06x}` rendering is at least six characters long |
| Format.ValueOfDigits | scripts/chrome_cache.py:132-136 | reading a minimal rendering back in its base gives the number rendered |
| Format.ValueOfZeros | scripts/chrome_cache.py:132 | the zero padding does not change the value read back |
| Format.ValueOfHex6 | scripts/chrome_cache.py:132 | reading the six-digit hex rendering back gives the number |
| Format.Hex6Digits | scripts/chrome_cache.py:132 | the six-digit hex rendering uses only 0-9 and a-f, and is exactly six characters long exactly when the number is below 2^24 |
| Format.ValueOfDecimal | scripts/chrome_cache.py:136 | reading the decimal rendering back gives the number |
| Format.DecimalInjective | scripts/chrome_cache.py:136 | two numbers have the same decimal rendering if and only if they are equal |
| Format.Hex6Injective | scripts/chrome_cache.py:132 | two numbers have the same six-digit hex rendering if and only if they are equal |
| Format.DecimalHasOnlyDigits | scripts/chrome_cache.py:136 | a decimal rendering contains only '0' to '9' |
| Format.DecimalSmall | scripts/chrome_cache.py:272-274 | a number below 10 renders as one digit |
| Format.VersionString | scripts/chrome_cache.py:272-274 | `{0:d}.{1:d}` of major and minor version (definition; SupportedVersionIff states which versions it accepts) |
| Format.SupportedVersion | scripts/chrome_cache.py:276 | the version is one of the strings "2.0" and "2.1" (definition) |
| Format.SupportedVersionIff | scripts/chrome_cache.py:272-278 | the string `major.minor` is "2.0" or "2.1" exactly when major is 2 and minor is 0 or 1 |
| CacheAddresses.Decode | scripts/chrome_cache.py:117-142 | the decoded address keeps the raw value, and a block offset, when there is one, lies past the 8192-byte block file header (the full shape is DecodeShape) |
| CacheAddresses.FileTypeOf | scripts/chrome_cache.py:128 | the file type taken from bits 28-30 is below 8 (bound only) |
| CacheAddresses.DecodeShape | scripts/chrome_cache.py:117-142 | decoding keeps the raw value, sets the initialized flag exactly when bit 31 is set, gives no filename exactly for 0 and file types 5-7, and gives block number, size and offset together, exactly for non-zero block-file addresses |
| CacheAddresses.DecodeSeparate | scripts/chrome_cache.py:123-132 | a separate-file address decodes to its flag, type 0, the name `f_` plus six hex digits of bits 0-27, and no block fields |
| CacheAddresses.DecodeBlock | scripts/chrome_cache.py:123-142 | a block-file address decodes to its flag and type, `data_` plus the decimal selector, the block number, size = units times the type's block unit, and offset = 8192 + block number times the unit |
| CacheAddresses.SeparateAddressComplete | scripts/chrome_cache.py:128-132 | every non-zero value of type 0 is a separate-file address, rebuilt from its decoded flag and file number |
| CacheAddresses.BlockAddressComplete | scripts/chrome_cache.py:128-142 | every value of types 1-4 is a block-file address, rebuilt from its decoded fields and bits 26-27 |
| CacheAddresses.FilenameIdentifiesFile | scripts/chrome_cache.py:130-136 | two addresses with the same filename are of the same kind and have the same file number or selector |
| CacheAddresses.Hex6Of5 | scripts/chrome_cache.py:132 | file number 5 renders as "000005" |
| CacheAddresses.SeparateExample | scripts/chrome_cache.py:130-132 | 0x80000005 names `f_000005` |
| CacheAddresses.BlockExample | scripts/chrome_cache.py:134-142 | 0xA102000A is block 10 of `data_2`, 256 bytes long, at offset 10752 |
| KeyHash.MaskIsMod | scripts/chrome_cache.py:30 | `& 0xffffffff` on a non-negative integer is reduction modulo 2^32 |
| KeyHash.XorBound | scripts/chrome_cache.py:41-42 | xor of two values below 2^k stays below 2^k |
| KeyHash.XorOfWords | scripts/chrome_cache.py:41-42 | xor of two 32-bit values is a 32-bit value, so the unmasked `^` of masked operands at lines 41, 42, 52, 53, 60, 65, 69, 71 and 73 keeps the state within 32 bits |
| KeyHash.Round | scripts/chrome_cache.py:34-44 | one iteration of the loop over 4-byte groups, every `& 0xffffffff` as Mask (definition; GroupsShift and MixIsGroupsThenTail state how rounds compose) |
| KeyHash.Tail | scripts/chrome_cache.py:46-66 | the remainder branch for the last 3, 2, 1 or 0 bytes (definition) |
| KeyHash.Avalanche | scripts/chrome_cache.py:68-74 | the six final shift-and-mix steps (definition) |
| KeyHash.Groups | scripts/chrome_cache.py:34-44 | the loop state after the first g groups (definition; GroupsShift relates it to Mix) |
| KeyHash.Mix | scripts/chrome_cache.py:34-66 | the key read front to back, four bytes at a time while four remain, then the tail (definition; MixIsGroupsThenTail equates it with the loop) |
| KeyHash.Hash | scripts/chrome_cache.py:17-76 | the hash of the empty key is 0, and every hash is below 2^32 |
| KeyHash.GroupsShift | scripts/chrome_cache.py:34-44 | folding g + 1 groups is one round on the first group, then g groups of the rest |
| KeyHash.MixIsGroupsThenTail | scripts/chrome_cache.py:34-66 | the loop over whole groups followed by the remainder branch equals reading the key front to back |
| KeyHash.HashIsFrontToBack | scripts/chrome_cache.py:26-76 | the hash of a non-empty key is the avalanche of the key read front to back from the masked length |
| KeyHash.SuperFastHash | scripts/chrome_cache.py:17-76 | the loop and the remainder branch compute Hash(key), a value below 2^32 |
| IndexFiles.ParseIndexHeader | scripts/chrome_cache.py:202-216 | parsing the 256-byte header fails, with Truncated, exactly when fewer than 256 bytes were read |
| IndexFiles.EncodeIndexHeader | scripts/chrome_cache.py:202-216 | an encoded header is 256 bytes long |
| IndexFiles.ParseEncodedIndexHeader | scripts/chrome_cache.py:202-216 | every header is parsed back from its encoding, whatever the padding holds |
| IndexFiles.ParseLruData | scripts/chrome_cache.py:218-228 | parsing the LRU data fails, with Truncated, exactly when fewer than 112 bytes were read, and otherwise yields three 5-word lists |
| IndexFiles.EncodeLruData | scripts/chrome_cache.py:218-228 | encoded LRU data is 112 bytes long |
| IndexFiles.ParseEncodedLruData | scripts/chrome_cache.py:218-228 | all LRU data is parsed back from its encoding, whatever the padding holds |
| IndexFiles.HeaderVersion | scripts/chrome_cache.py:267-274 | the version string the header read stores: present whenever 256 bytes were read and the signature matches (definition) |
| IndexFiles.CheckIndexHeader | scripts/chrome_cache.py:261-278 | the header read: Truncated, then the signature check, then the version check, in the source's order (definition; OpenIndexOutcome states each case) |
| IndexFiles.OpenIndex | scripts/chrome_cache.py:404-418 | opening: the header checks, then the 112-byte LRU read (definition; OpenIndexOutcome states each case) |
| IndexFiles.OpenedAtTable | scripts/chrome_cache.py:404-406 | after a successful header and LRU read, the cursor stands at byte 368 |
| IndexFiles.OpenIndexOutcome | scripts/chrome_cache.py:261-278 | opening fails with Truncated for a file under 256 bytes, or under 368 bytes with a good header. It fails with BadSignature when the first word is not 0xc103cac3, and with UnsupportedVersion when the version is not 2.0 or 2.1; that error carries the version as `major.minor`. It succeeds exactly otherwise (each an if and only if) |
| IndexFiles.WordMapBuckets | scripts/chrome_cache.py:372-384 | after n words, key i is present exactly when word i exists and is non-zero, and it holds that word's image |
| IndexFiles.IndexTable | scripts/chrome_cache.py:367-385 | the table read from a cursor: the non-zero words to the end of the file, decoded, by position (definition; IndexTableBuckets states it bucket by bucket) |
| IndexFiles.IndexTableBuckets | scripts/chrome_cache.py:367-385 | bucket i is in the table exactly when the i-th complete word after byte 368 is non-zero, and it holds that word decoded |
| IndexFiles.IndexTableOfWords | scripts/chrome_cache.py:367-385 | a file made of 368 bytes, a list of words and a partial word has as its table the map of the non-zero words, decoded, by position |
| IndexFiles.ExtendTable | scripts/chrome_cache.py:373-384 | one loop step adds bucket n when word n is non-zero and leaves the table unchanged otherwise |
| IndexFiles.FirstWord | scripts/chrome_cache.py:369-370 | the first read leaves the cursor at the first word or at the end of the file |
| IndexFiles.NextWord | scripts/chrome_cache.py:372-385 | a full chunk is the next table word, and reading on moves the cursor one word further |
| IndexFiles.LastWord | scripts/chrome_cache.py:372 | a short chunk means every complete word was read and the cursor is at the end of the file |
| IndexFiles.IndexFile.constructor | scripts/chrome_cache.py:230-242 | a new index file has no creation time, no version and an empty table |
| IndexFiles.IndexFile.ReadFileHeader | scripts/chrome_cache.py:244-280 | the outcome is the header checks on the first 256 bytes. The version is stored whenever the signature matches, even if it is then rejected. The creation time is stored only on success |
| IndexFiles.IndexFile.ReadLruData | scripts/chrome_cache.py:320-332 | the outcome is the parse of the 112 bytes at the cursor, and the cursor moves past them |
| IndexFiles.IndexFile.ReadIndexTable | scripts/chrome_cache.py:367-385 | the table gains exactly the buckets of the words from the cursor to the end of the file, and the cursor ends at the end of the file |
| IndexFiles.IndexFile.Open | scripts/chrome_cache.py:408-418 | opening gives OpenIndex's outcome. Version and creation time are as the header read leaves them. The table is filled from byte 368 only when the header and LRU data were read. The cursor ends after the header read, after the LRU read, or at the end of the file, by where opening stopped |
| DataBlockFiles.ParseDataFileHeader | scripts/chrome_cache.py:427-441 | parsing the 8192-byte header fails, with Truncated, exactly when fewer bytes were read, and otherwise yields a 2028-word bitmap and the other arrays at their sizes |
| DataBlockFiles.EncodeDataFileHeader | scripts/chrome_cache.py:427-441 | an encoded block file header is 8192 bytes long |
| DataBlockFiles.ParseEncodedDataFileHeader | scripts/chrome_cache.py:427-441 | every block file header, bitmap included, is parsed back from its encoding |
| DataBlockFiles.DataHeaderVersion | scripts/chrome_cache.py:499-513 | the version string the header read stores: present whenever 8192 bytes were read and the signature matches (definition) |
| DataBlockFiles.CheckDataHeader | scripts/chrome_cache.py:493-516 | the header read: Truncated, then the signature check, then the version check, in the source's order (definition; CheckDataHeaderOutcome states each case) |
| DataBlockFiles.CheckDataHeaderOutcome | scripts/chrome_cache.py:493-516 | a short header gives Truncated, a first word other than 0xc104cac3 gives BadSignature, and a version other than 2.0 or 2.1 gives UnsupportedVersion carrying the version as `major.minor`; success is exactly the remaining case, and then the block size and entry count are the words at 12 and 16 |
| DataBlockFiles.ParseCacheEntryRecord | scripts/chrome_cache.py:443-459 | parsing the 256-byte entry record fails, with Truncated, exactly when fewer bytes were read, and otherwise yields 4-word stream tables and a 160-byte key field |
| DataBlockFiles.EncodeCacheEntryRecord | scripts/chrome_cache.py:443-459 | an encoded entry record is 256 bytes long |
| DataBlockFiles.ParseEncodedCacheEntryRecord | scripts/chrome_cache.py:443-459 | every entry record is parsed back from its encoding, whatever the padding holds |
| DataBlockFiles.KeyBeforeNul | scripts/chrome_cache.py:599-601 | the key is a prefix of the field with no NUL byte, ending at the field's end or at a NUL |
| DataBlockFiles.KeyBeforeNulUnique | scripts/chrome_cache.py:601 | exactly one prefix has those properties |
| DataBlockFiles.KeyOfTerminated | scripts/chrome_cache.py:601 | a NUL-terminated key is read back whatever follows its terminator |
| DataBlockFiles.EntryOf | scripts/chrome_cache.py:591-601 | the entry a record describes: its hash and creation time, its next and rankings addresses decoded, its key cut at the first NUL (definition) |
| DataBlockFiles.ReadCacheEntryAt | scripts/chrome_cache.py:575-601 | the 256 bytes at the block offset, parsed, then EntryOf (definition; ReadCacheEntryFields states each field) |
| DataBlockFiles.ReadCacheEntryFields | scripts/chrome_cache.py:575-601 | reading an entry fails exactly when fewer than 256 bytes follow the offset. Otherwise the hash, the decoded next and rankings addresses, the creation time and the key come from bytes 0, 4, 8, 24 and 96-255 |
| DataBlockFiles.ReadCacheEntryOfRecord | scripts/chrome_cache.py:575-601 | a record stored at a block offset is read back as the entry it describes |
| DataBlockFiles.DataBlockFile.constructor | scripts/chrome_cache.py:461-474 | a new block file has no creation time, block size, entry count or version |
| DataBlockFiles.DataBlockFile.ReadFileHeader | scripts/chrome_cache.py:476-516 | the outcome is the header checks on the first 8192 bytes. The version is stored whenever the signature matches. Block size and entry count are stored only on success |
| DataBlockFiles.DataBlockFile.ReadCacheEntry | scripts/chrome_cache.py:575-601 | the outcome is the entry read at the block offset, and the cursor ends after the bytes read |
| DataBlockFiles.DataBlockFile.Open | scripts/chrome_cache.py:676-684 | opening gives the header checks' outcome and their effect on the fields, never sets the creation time, and leaves the cursor after the bytes of the header read |
| AllocationBitmap.ScanStep | scripts/chrome_cache.py:545-562 | one bit of the scan: a used block opens or extends a range, a free block closes an open one (definition) |
| AllocationBitmap.Scan | scripts/chrome_cache.py:539-562 | the scan state after the first n blocks (definition; ScanInvHolds states what it holds) |
| AllocationBitmap.RunStartUnique | scripts/chrome_cache.py:545-551 | two maximal runs of used blocks closed by the same free block start at the same block |
| AllocationBitmap.StepClose | scripts/chrome_cache.py:553-554 | reaching a free block while in a range closes it and keeps the scan invariant |
| AllocationBitmap.StepOther | scripts/chrome_cache.py:545-551 | every other block keeps the scan invariant |
| AllocationBitmap.ScanInvHolds | scripts/chrome_cache.py:539-562 | after any number of blocks, the ranges reported are exactly the closed runs ending before that block, in increasing order, and the open range is the current run of used blocks |
| AllocationBitmap.BitOfWord | scripts/chrome_cache.py:543-545 | after k shifts, the low bit of word w is the bit of block 32w + k |
| AllocationBitmap.AllocationRanges | scripts/chrome_cache.py:539-562 | the reported ranges are exactly the maximal runs of used blocks closed by a free block, in increasing, non-overlapping order |
| ChainWalk.Chain | scripts/chrome_cache.py:746-787 | the walk of one chain from an address after `hops` entries: end of chain, hop limit, file lookup and block offset checked in the source's order, then the entry read and the walk from its `next` (definition; ChainBounded, ChainLinks and ChainStopReason state its properties) |
| ChainWalk.ChainBounded | scripts/chrome_cache.py:746-748 | a walk started after `hops` entries reads at most 64 - hops entries |
| ChainWalk.ChainLinks | scripts/chrome_cache.py:753-786 | each entry read was read at the address before it: the bucket first, then each entry's `next` |
| ChainWalk.ChainStopReason | scripts/chrome_cache.py:747-762 | the walk ends at the end of the chain exactly when the last address is 0. It ends at the hop limit exactly when that address is non-zero and the hop count has reached 64. The other stops hold only when that address names no opened file, has no block offset, or has an unreadable record |
| ChainWalk.ChainHalts | scripts/chrome_cache.py:747-762 | a walk stops at once, with no entries, for the first check that fails at its address |
| ChainWalk.SelfLoop | scripts/chrome_cache.py:747-787 | an entry that points back at its own address is read 64 times and the walk stops at the hop limit |
| ChainWalk.TrapHitsLimit | scripts/chrome_cache.py:747-787 | a walk inside a cycle of any length reads an entry on every remaining hop and stops at the hop limit |
| ChainWalk.ChainStep | scripts/chrome_cache.py:762-787 | one hop is the entry at the address followed by the walk from its `next` |
| ChainWalk.WalkChain | scripts/chrome_cache.py:746-787 | given the block files' bytes by filename, the loop over one chain returns the entries and stop reason of Chain over those bytes, at most 64 entries, and changes nothing but the block files' cursors |
| ChainWalk.AllChains | scripts/chrome_cache.py:745-787 | the walk over the buckets in the order given, ended by the first chain that stops where the source raises; when it ended so, the stop it reports is one that raises |
| ChainWalk.AllChainsBounded | scripts/chrome_cache.py:745-748 | the whole walk reads at most 64 entries per bucket |
| ChainWalk.AllChainsNoRaise | scripts/chrome_cache.py:745-787 | the walk reaches the last bucket exactly when no bucket's chain stops where the source raises |
| ChainWalk.AllChainsFirstRaise | scripts/chrome_cache.py:745-787 | a walk that ended early ended in the first bucket whose chain raises, with that chain's stop, holding the entries of every chain before it and those that chain read before raising |
| ChainWalk.RaisedStays | scripts/chrome_cache.py:745 | once a chain has raised, the buckets after it add nothing |
| ChainWalk.BucketsCoverTable | scripts/chrome_cache.py:745 | an order that lists each table key once walks as many buckets as the table holds, and each table entry's address at its key's position |
| ChainWalk.WalkAllChains | scripts/chrome_cache.py:745-787 | the bucket loop over the opened index file's table, in an order that lists every key once, returns the entries and the raising stop of AllChains, and changes nothing but the block files' cursors |

## Left out

- `Main`'s command-line handling, logging set-up, directory-versus-file
  dispatch and `Close` (scripts/chrome_cache.py:687-743, 789-823, 390-394,
  660-664). These are I/O plumbing.
  - The single-file branch calls `index_file.Read`, which the class does not
    define. That branch is not modelled.
  - `WalkAllChains` takes the opened block files as a map from filename to
    `DataBlockFile`. It does not look for the files on disk.
- The order of the bucket walk. The source iterates `index_table.values()` in
  dictionary order, so `WalkAllChains` takes the order as a sequence of
  bucket indices that lists every key of the table once.
- Debug output: `GetDebugString`, hexdumps, and the prints of header,
  LRU and entry fields. The bitmap scan in the block file header runs only
  in debug mode and only prints. `AllocationBitmap.AllocationRanges` models
  the ranges it prints as a returned sequence.
- Date conversion of creation times (lines 311-316, 621-625, 777-778) and
  the printed output line (784). The raw 64-bit counts are kept.
- ASCII decoding of keys with replacement (lines 643-652, 764-775). The key
  stays a byte sequence.
- `is_initialized`: the source stores the strings `u'True'` and `u'False'`;
  the model stores a `bool`.
- Exceptions in the walk. For an address that names a separate file found
  among the opened files, the source calls `ReadCacheEntry(None)`, which
  raises; an entry record that is too short raises too. Nothing in the
  bucket loop catches either, so no later bucket is walked. The model ends
  the whole walk with the stop `NoBlockOffset` or `ReadFailed`, returned as
  `raised`; it does not model which exception type is raised.
- WalkAllChains: does not model the exceptions the source can raise after an
  entry is read, from the date conversion at lines 777-778 (a creation time
  out of `datetime`'s range) and from formatting a key that is not ASCII at
  line 784. In the source either ends the walk; the model keeps walking.
- The `ReadCacheEntry` docstring (line 571) is closed with two quote
  characters instead of three, so the file does not parse as written. The
  model follows the evident body, lines 572-658.
- `DataBlockFile.creation_time` is declared but never assigned by the
  source, and the model keeps it at its initial value.
- The stored hash is not compared with SuperFastHash of the key, because the
  source leaves that as a TODO (line 654). Long keys stored outside the
  record are not followed; the source has no code for them either.
- The cursor a walk leaves in each block file. `WalkChain` and
  `WalkAllChains` state that only the block files' cursors change, but not
  where each cursor ends.
- Python's `construct` library is not part of this model. Its parsers are
  written out as little-endian field reads at the struct's offsets, and
  a short buffer is the only parse error.
