/**
  A cache block file (`data_N`): an 8192-byte header ending in the allocation
  bitmap, then fixed-size blocks. Entries of the entry file are 256-byte
  records read at the block offset a cache address gives.
*/
module DataBlockFiles {
  import opened Bytes
  import opened Format
  import opened Wrappers
  import opened CacheAddresses

  const DATA_SIGNATURE: u32 := 0xc104_cac3
  const DATA_HEADER_SIZE: nat := 8192
  /** Words in the allocation bitmap: one bit per block. */
  const BITMAP_WORDS: nat := 2028
  const CACHE_ENTRY_SIZE: nat := 256
  /** The key field closes the entry record. */
  const KEY_OFFSET: nat := 96
  const KEY_FIELD_SIZE: nat := 160

  /** The block file header fields, in file order. */
  datatype DataFileHeader = DataFileHeader(
    signature: u32,
    minorVersion: u16,
    majorVersion: u16,
    fileNumber: u16,
    nextFileNumber: u16,
    blockSize: u32,
    numberOfEntries: u32,
    maximumNumberOfEntries: u32,
    empty: seq<u32>,
    hints: seq<u32>,
    updating: u32,
    user: seq<u32>,
    allocationBitmap: seq<u32>)

  predicate WellFormedDataHeader(h: DataFileHeader)
  {
    |h.empty| == 4 && |h.hints| == 4 && |h.user| == 5 && |h.allocationBitmap| == BITMAP_WORDS
  }

  /** The header struct parsed from what `read(8192)` returned; short data is a parse error. */
  function ParseDataFileHeader(data: seq<byte>): (r: Result<DataFileHeader>)
    ensures r.Err? <==> |data| < DATA_HEADER_SIZE
    ensures r.Err? ==> r.error == Truncated
    ensures r.Ok? ==> WellFormedDataHeader(r.value)
  {
    if |data| < DATA_HEADER_SIZE then Err(Truncated)
    else Ok(DataFileHeader(U32(data, 0), U16(data, 4), U16(data, 6), U16(data, 8), U16(data, 10),
                           U32(data, 12), U32(data, 16), U32(data, 20), U32Array(data, 24, 4),
                           U32Array(data, 40, 4), U32(data, 56), U32Array(data, 60, 5),
                           U32Array(data, 80, BITMAP_WORDS)))
  }

  function EncodeDataFileHeader(h: DataFileHeader): (data: seq<byte>)
    requires WellFormedDataHeader(h)
    ensures |data| == DATA_HEADER_SIZE
  {
    EncodeU32(h.signature) + EncodeU16(h.minorVersion) + EncodeU16(h.majorVersion)
    + EncodeU16(h.fileNumber) + EncodeU16(h.nextFileNumber) + EncodeU32(h.blockSize)
    + EncodeU32(h.numberOfEntries) + EncodeU32(h.maximumNumberOfEntries) + EncodeU32Array(h.empty)
    + EncodeU32Array(h.hints) + EncodeU32(h.updating) + EncodeU32Array(h.user)
    + EncodeU32Array(h.allocationBitmap)
  }

  /** Every well-formed header, bitmap included, is parsed back from its encoding. */
  lemma ParseEncodedDataFileHeader(h: DataFileHeader)
    requires WellFormedDataHeader(h)
    ensures ParseDataFileHeader(EncodeDataFileHeader(h)) == Ok(h)
  {
    var d := EncodeDataFileHeader(h);
    U32In(d, 0, h.signature);
    U16In(d, 4, h.minorVersion);
    U16In(d, 6, h.majorVersion);
    U16In(d, 8, h.fileNumber);
    U16In(d, 10, h.nextFileNumber);
    U32In(d, 12, h.blockSize);
    U32In(d, 16, h.numberOfEntries);
    U32In(d, 20, h.maximumNumberOfEntries);
    U32ArrayIn(d, 24, h.empty);
    U32ArrayIn(d, 40, h.hints);
    U32In(d, 56, h.updating);
    U32ArrayIn(d, 60, h.user);
    U32ArrayIn(d, 80, h.allocationBitmap);
  }

  /** The version `_ReadFileHeader` stores: present once the header parses and has the block file signature. */
  function DataHeaderVersion(data: seq<byte>): Option<string>
  {
    match ParseDataFileHeader(ReadAt(data, 0, DATA_HEADER_SIZE))
    case Err(_) => None
    case Ok(h) =>
      if h.signature != DATA_SIGNATURE then None
      else Some(VersionString(h.majorVersion, h.minorVersion))
  }

  /** `_ReadFileHeader`'s checks, in order: the header parses, the signature, the version. */
  function CheckDataHeader(data: seq<byte>): (r: Result<DataFileHeader>)
  {
    match ParseDataFileHeader(ReadAt(data, 0, DATA_HEADER_SIZE))
    case Err(e) => Err(e)
    case Ok(h) =>
      if h.signature != DATA_SIGNATURE then Err(BadSignature)
      else
        var version := VersionString(h.majorVersion, h.minorVersion);
        if !SupportedVersion(version) then Err(UnsupportedVersion(version))
        else Ok(h)
  }

  /**
    Why opening a block file fails: fewer than 8192 header bytes, then a
    signature other than 0xc104cac3, then a version other than 2.0 and 2.1.
    On success the block size and entry count are the words at 12 and 16.
  */
  lemma CheckDataHeaderOutcome(data: seq<byte>)
    ensures CheckDataHeader(data) == Err(Truncated) <==> |data| < DATA_HEADER_SIZE
    ensures CheckDataHeader(data) == Err(BadSignature) <==>
      |data| >= DATA_HEADER_SIZE && U32(data, 0) != DATA_SIGNATURE
    ensures CheckDataHeader(data).Err? && CheckDataHeader(data).error.UnsupportedVersion? <==>
      |data| >= DATA_HEADER_SIZE && U32(data, 0) == DATA_SIGNATURE && !(U16(data, 6) == 2 && U16(data, 4) <= 1)
    ensures CheckDataHeader(data).Err? && CheckDataHeader(data).error.UnsupportedVersion? ==>
      CheckDataHeader(data).error == UnsupportedVersion(VersionString(U16(data, 6), U16(data, 4)))
    ensures CheckDataHeader(data).Ok? <==>
      |data| >= DATA_HEADER_SIZE && U32(data, 0) == DATA_SIGNATURE && U16(data, 6) == 2 && U16(data, 4) <= 1
    ensures CheckDataHeader(data).Ok? ==>
      CheckDataHeader(data).value.blockSize == U32(data, 12)
      && CheckDataHeader(data).value.numberOfEntries == U32(data, 16)
  {
    if |data| >= DATA_HEADER_SIZE {
      var hd := ReadAt(data, 0, DATA_HEADER_SIZE);
      assert hd == data[..DATA_HEADER_SIZE];
      U32Local(hd, 0, data, 0);
      U16Local(hd, 4, data, 4);
      U16Local(hd, 6, data, 6);
      U32Local(hd, 12, data, 12);
      U32Local(hd, 16, data, 16);
      SupportedVersionIff(U16(data, 6), U16(data, 4));
    }
  }

  /** The raw 256-byte entry record, in file order (the 16 padding bytes are not kept). */
  datatype CacheEntryRecord = CacheEntryRecord(
    hash: u32,
    nextAddress: u32,
    rankingsNodeAddress: u32,
    reuseCount: u32,
    refetchCount: u32,
    state: u32,
    creationTime: u64,
    keySize: u32,
    longKeyAddress: u32,
    dataStreamSizes: seq<u32>,
    dataStreamAddresses: seq<u32>,
    flags: u32,
    selfHash: u32,
    key: seq<byte>)

  predicate WellFormedRecord(e: CacheEntryRecord)
  {
    |e.dataStreamSizes| == 4 && |e.dataStreamAddresses| == 4 && |e.key| == KEY_FIELD_SIZE
  }

  /** The entry struct parsed from what `read(256)` returned; short data is a parse error. */
  function ParseCacheEntryRecord(data: seq<byte>): (r: Result<CacheEntryRecord>)
    ensures r.Err? <==> |data| < CACHE_ENTRY_SIZE
    ensures r.Err? ==> r.error == Truncated
    ensures r.Ok? ==> WellFormedRecord(r.value)
  {
    if |data| < CACHE_ENTRY_SIZE then Err(Truncated)
    else Ok(CacheEntryRecord(U32(data, 0), U32(data, 4), U32(data, 8), U32(data, 12), U32(data, 16),
                             U32(data, 20), U64(data, 24), U32(data, 32), U32(data, 36),
                             U32Array(data, 40, 4), U32Array(data, 56, 4), U32(data, 72), U32(data, 92),
                             data[KEY_OFFSET..CACHE_ENTRY_SIZE]))
  }

  function EncodeCacheEntryRecord(e: CacheEntryRecord, padding: seq<byte>): (data: seq<byte>)
    requires WellFormedRecord(e) && |padding| == 16
    ensures |data| == CACHE_ENTRY_SIZE
  {
    EncodeU32(e.hash) + EncodeU32(e.nextAddress) + EncodeU32(e.rankingsNodeAddress)
    + EncodeU32(e.reuseCount) + EncodeU32(e.refetchCount) + EncodeU32(e.state)
    + EncodeU64(e.creationTime) + EncodeU32(e.keySize) + EncodeU32(e.longKeyAddress)
    + EncodeU32Array(e.dataStreamSizes) + EncodeU32Array(e.dataStreamAddresses)
    + EncodeU32(e.flags) + padding + EncodeU32(e.selfHash) + e.key
  }

  /** Every well-formed record is parsed back from its encoding, whatever the padding holds. */
  lemma ParseEncodedCacheEntryRecord(e: CacheEntryRecord, padding: seq<byte>)
    requires WellFormedRecord(e) && |padding| == 16
    ensures ParseCacheEntryRecord(EncodeCacheEntryRecord(e, padding)) == Ok(e)
  {
    var d := EncodeCacheEntryRecord(e, padding);
    U32In(d, 0, e.hash);
    U32In(d, 4, e.nextAddress);
    U32In(d, 8, e.rankingsNodeAddress);
    U32In(d, 12, e.reuseCount);
    U32In(d, 16, e.refetchCount);
    U32In(d, 20, e.state);
    U64In(d, 24, e.creationTime);
    U32In(d, 32, e.keySize);
    U32In(d, 36, e.longKeyAddress);
    U32ArrayIn(d, 40, e.dataStreamSizes);
    U32ArrayIn(d, 56, e.dataStreamAddresses);
    U32In(d, 72, e.flags);
    U32In(d, 92, e.selfHash);
    assert d[KEY_OFFSET..CACHE_ENTRY_SIZE] == e.key;
  }

  /** `partition(b'\x00')[0]`: the bytes before the first NUL, or all of them when there is none. */
  function KeyBeforeNul(field: seq<byte>): (key: seq<byte>)
    ensures key <= field
    ensures forall i :: 0 <= i < |key| ==> key[i] != 0
    ensures |key| == |field| || field[|key|] == 0
  {
    if field == [] || field[0] == 0 then []
    else [field[0]] + KeyBeforeNul(field[1..])
  }

  /** The three properties above pin the key down: there is only one such prefix. */
  lemma KeyBeforeNulUnique(field: seq<byte>, key: seq<byte>)
    requires key <= field
    requires forall i :: 0 <= i < |key| ==> key[i] != 0
    requires |key| == |field| || field[|key|] == 0
    ensures key == KeyBeforeNul(field)
  {
    var k := KeyBeforeNul(field);
    if |key| < |k| {
      assert false;
    } else if |k| < |key| {
      assert false;
    }
  }

  /** A NUL-terminated key stored in the field is read back whatever follows the terminator. */
  lemma KeyOfTerminated(key: seq<byte>, rest: seq<byte>)
    requires forall i :: 0 <= i < |key| ==> key[i] != 0
    ensures KeyBeforeNul(key + [0] + rest) == key
  {
    KeyBeforeNulUnique(key + [0] + rest, key);
  }

  /** The `CacheEntry` object `ReadCacheEntry` fills in. */
  datatype CacheEntry = CacheEntry(
    hash: u32,
    key: seq<byte>,
    creationTime: u64,
    next: CacheAddress,
    rankingsNode: CacheAddress)

  /** The entry built from a parsed record: the two addresses decoded, the key cut at its NUL. */
  function EntryOf(e: CacheEntryRecord): CacheEntry
  {
    CacheEntry(e.hash, KeyBeforeNul(e.key), e.creationTime, Decode(e.nextAddress), Decode(e.rankingsNodeAddress))
  }

  /** The entry read at a block offset of a block file's bytes. */
  function ReadCacheEntryAt(data: seq<byte>, blockOffset: nat): Result<CacheEntry>
  {
    match ParseCacheEntryRecord(ReadAt(data, blockOffset, CACHE_ENTRY_SIZE))
    case Err(e) => Err(e)
    case Ok(record) => Ok(EntryOf(record))
  }

  /**
    Reading an entry fails exactly when fewer than 256 bytes follow the
    offset; otherwise the hash, the next and rankings addresses, the creation
    time and the key come from bytes 0, 4, 8, 24 and 96-255 of the record.
  */
  lemma ReadCacheEntryFields(data: seq<byte>, blockOffset: nat)
    ensures ReadCacheEntryAt(data, blockOffset).Err? <==> |data| < blockOffset + CACHE_ENTRY_SIZE
    ensures ReadCacheEntryAt(data, blockOffset).Err? ==> ReadCacheEntryAt(data, blockOffset).error == Truncated
    ensures blockOffset + CACHE_ENTRY_SIZE <= |data| ==>
      var entry := ReadCacheEntryAt(data, blockOffset).value;
      && entry.hash == U32(data, blockOffset)
      && entry.next == Decode(U32(data, blockOffset + 4))
      && entry.rankingsNode == Decode(U32(data, blockOffset + 8))
      && entry.creationTime == U64(data, blockOffset + 24)
      && entry.key == KeyBeforeNul(data[blockOffset + KEY_OFFSET..blockOffset + CACHE_ENTRY_SIZE])
  {
    if blockOffset + CACHE_ENTRY_SIZE <= |data| {
      var r := ReadAt(data, blockOffset, CACHE_ENTRY_SIZE);
      assert r == data[blockOffset..blockOffset + CACHE_ENTRY_SIZE];
      U32Local(r, 0, data, blockOffset);
      U32Local(r, 4, data, blockOffset + 4);
      U32Local(r, 8, data, blockOffset + 8);
      U64Local(r, 24, data, blockOffset + 24);
      assert r[KEY_OFFSET..CACHE_ENTRY_SIZE] == data[blockOffset + KEY_OFFSET..blockOffset + CACHE_ENTRY_SIZE];
    }
  }

  /** A record written at a block offset is read back as the entry it describes. */
  lemma ReadCacheEntryOfRecord(pre: seq<byte>, e: CacheEntryRecord, padding: seq<byte>, post: seq<byte>)
    requires WellFormedRecord(e) && |padding| == 16
    ensures ReadCacheEntryAt(pre + EncodeCacheEntryRecord(e, padding) + post, |pre|) == Ok(EntryOf(e))
  {
    var d := pre + EncodeCacheEntryRecord(e, padding) + post;
    assert ReadAt(d, |pre|, CACHE_ENTRY_SIZE) == EncodeCacheEntryRecord(e, padding);
    ParseEncodedCacheEntryRecord(e, padding);
  }

  /** An opened block file; the file object is its bytes and a cursor. */
  class DataBlockFile {
    var contents: seq<byte>
    var position: nat
    /** Declared by the source but never assigned by it. */
    var creationTime: Option<u64>
    var blockSize: Option<u32>
    var numberOfEntries: Option<u32>
    var version: Option<string>

    /** `__init__`: nothing read yet. */
    constructor ()
      ensures contents == [] && position == 0
      ensures creationTime == None && blockSize == None && numberOfEntries == None && version == None
    {
      contents := [];
      position := 0;
      creationTime := None;
      blockSize := None;
      numberOfEntries := None;
      version := None;
    }

    /**
      `_ReadFileHeader`: seek to 0 and read the 8192-byte header. The version
      is stored before it is checked (and stored again, with the same value,
      after); block size and entry count are stored only on success.
    */
    method ReadFileHeader() returns (outcome: Result<DataFileHeader>)
      modifies this`position, this`version, this`blockSize, this`numberOfEntries
      ensures outcome == CheckDataHeader(contents)
      ensures position == |ReadAt(contents, 0, DATA_HEADER_SIZE)|
      ensures version == if DataHeaderVersion(contents).Some? then DataHeaderVersion(contents) else old(version)
      ensures blockSize == if outcome.Ok? then Some(outcome.value.blockSize) else old(blockSize)
      ensures numberOfEntries == if outcome.Ok? then Some(outcome.value.numberOfEntries) else old(numberOfEntries)
    {
      position := 0;
      var fileHeaderData := ReadAt(contents, position, DATA_HEADER_SIZE);
      position := position + |fileHeaderData|;
      var parsed := ParseDataFileHeader(fileHeaderData);
      if parsed.Err? {
        return Err(parsed.error);
      }
      var fileHeader := parsed.value;
      if fileHeader.signature != DATA_SIGNATURE {
        return Err(BadSignature);
      }
      version := Some(VersionString(fileHeader.majorVersion, fileHeader.minorVersion));
      if !SupportedVersion(version.value) {
        return Err(UnsupportedVersion(version.value));
      }
      version := Some(VersionString(fileHeader.majorVersion, fileHeader.minorVersion));
      blockSize := Some(fileHeader.blockSize);
      numberOfEntries := Some(fileHeader.numberOfEntries);
      outcome := Ok(fileHeader);
    }

    /** `ReadCacheEntry`: seek to the block offset and read one 256-byte entry record. */
    method ReadCacheEntry(blockOffset: nat) returns (outcome: Result<CacheEntry>)
      modifies this`position
      ensures outcome == ReadCacheEntryAt(contents, blockOffset)
      ensures position == blockOffset + |ReadAt(contents, blockOffset, CACHE_ENTRY_SIZE)|
    {
      position := blockOffset;
      var cacheEntryData := ReadAt(contents, position, CACHE_ENTRY_SIZE);
      position := position + |cacheEntryData|;
      var parsed := ParseCacheEntryRecord(cacheEntryData);
      if parsed.Err? {
        return Err(parsed.error);
      }
      var record := parsed.value;
      var key := KeyBeforeNul(record.key);
      outcome := Ok(CacheEntry(record.hash, key, record.creationTime,
                               Decode(record.nextAddress), Decode(record.rankingsNodeAddress)));
    }

    /** `OpenFileObject`: attach the file and read its header. */
    method Open(data: seq<byte>) returns (outcome: Result<DataFileHeader>)
      modifies this
      ensures contents == data
      ensures outcome == CheckDataHeader(data)
      ensures version == if DataHeaderVersion(data).Some? then DataHeaderVersion(data) else old(version)
      ensures blockSize == if outcome.Ok? then Some(outcome.value.blockSize) else old(blockSize)
      ensures numberOfEntries == if outcome.Ok? then Some(outcome.value.numberOfEntries) else old(numberOfEntries)
      ensures creationTime == old(creationTime)
      ensures position == |ReadAt(data, 0, DATA_HEADER_SIZE)|
    {
      contents := data;
      position := 0;
      outcome := ReadFileHeader();
    }
  }
}
