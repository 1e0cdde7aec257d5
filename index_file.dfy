/**
  The cache's `index` file: a 256-byte header, 112 bytes of LRU data, and
  then the hash table itself, one little-endian 32-bit cache address per
  bucket until the end of the file.
*/
module IndexFiles {
  import opened Bytes
  import opened Format
  import opened Wrappers
  import opened CacheAddresses

  const INDEX_SIGNATURE: u32 := 0xc103_cac3
  const INDEX_HEADER_SIZE: nat := 256
  const LRU_DATA_SIZE: nat := 112
  /** The table starts right after the header and the LRU data. */
  const INDEX_TABLE_OFFSET: nat := 368

  /** The header fields, in file order; the 208 trailing padding bytes are not kept. */
  datatype IndexHeader = IndexHeader(
    signature: u32,
    minorVersion: u16,
    majorVersion: u16,
    numberOfEntries: u32,
    storedDataSize: u32,
    lastCreatedFileNumber: u32,
    unknown1: u32,
    unknown2: u32,
    tableSize: u32,
    unknown3: u32,
    unknown4: u32,
    creationTime: u64)

  /** The LRU block after the header (8 leading and 28 trailing padding bytes are not kept). */
  datatype LruData = LruData(
    filledFlag: u32,
    sizes: seq<u32>,
    headAddresses: seq<u32>,
    tailAddresses: seq<u32>,
    transactionAddress: u32,
    operation: u32,
    operationList: u32)

  /** The three address lists hold five words each. */
  predicate WellFormedLru(l: LruData)
  {
    |l.sizes| == 5 && |l.headAddresses| == 5 && |l.tailAddresses| == 5
  }

  /** The header struct parsed from what `read(256)` returned; short data is a parse error. */
  function ParseIndexHeader(data: seq<byte>): (r: Result<IndexHeader>)
    ensures r.Err? <==> |data| < INDEX_HEADER_SIZE
    ensures r.Err? ==> r.error == Truncated
  {
    if |data| < INDEX_HEADER_SIZE then Err(Truncated)
    else Ok(IndexHeader(U32(data, 0), U16(data, 4), U16(data, 6), U32(data, 8), U32(data, 12),
                        U32(data, 16), U32(data, 20), U32(data, 24), U32(data, 28), U32(data, 32),
                        U32(data, 36), U64(data, 40)))
  }

  function EncodeIndexHeader(h: IndexHeader, padding: seq<byte>): (data: seq<byte>)
    requires |padding| == 208
    ensures |data| == INDEX_HEADER_SIZE
  {
    EncodeU32(h.signature) + EncodeU16(h.minorVersion) + EncodeU16(h.majorVersion)
    + EncodeU32(h.numberOfEntries) + EncodeU32(h.storedDataSize) + EncodeU32(h.lastCreatedFileNumber)
    + EncodeU32(h.unknown1) + EncodeU32(h.unknown2) + EncodeU32(h.tableSize)
    + EncodeU32(h.unknown3) + EncodeU32(h.unknown4) + EncodeU64(h.creationTime) + padding
  }

  /** Every header is parsed back from its encoding, whatever the padding holds. */
  lemma ParseEncodedIndexHeader(h: IndexHeader, padding: seq<byte>)
    requires |padding| == 208
    ensures ParseIndexHeader(EncodeIndexHeader(h, padding)) == Ok(h)
  {
    var d := EncodeIndexHeader(h, padding);
    U32In(d, 0, h.signature);
    U16In(d, 4, h.minorVersion);
    U16In(d, 6, h.majorVersion);
    U32In(d, 8, h.numberOfEntries);
    U32In(d, 12, h.storedDataSize);
    U32In(d, 16, h.lastCreatedFileNumber);
    U32In(d, 20, h.unknown1);
    U32In(d, 24, h.unknown2);
    U32In(d, 28, h.tableSize);
    U32In(d, 32, h.unknown3);
    U32In(d, 36, h.unknown4);
    U64In(d, 40, h.creationTime);
  }

  /** The LRU struct parsed from what `read(112)` returned; short data is a parse error. */
  function ParseLruData(data: seq<byte>): (r: Result<LruData>)
    ensures r.Err? <==> |data| < LRU_DATA_SIZE
    ensures r.Err? ==> r.error == Truncated
    ensures r.Ok? ==> WellFormedLru(r.value)
  {
    if |data| < LRU_DATA_SIZE then Err(Truncated)
    else Ok(LruData(U32(data, 8), U32Array(data, 12, 5), U32Array(data, 32, 5), U32Array(data, 52, 5),
                    U32(data, 72), U32(data, 76), U32(data, 80)))
  }

  function EncodeLruData(l: LruData, lead: seq<byte>, trail: seq<byte>): (data: seq<byte>)
    requires WellFormedLru(l) && |lead| == 8 && |trail| == 28
    ensures |data| == LRU_DATA_SIZE
  {
    lead + EncodeU32(l.filledFlag) + EncodeU32Array(l.sizes) + EncodeU32Array(l.headAddresses)
    + EncodeU32Array(l.tailAddresses) + EncodeU32(l.transactionAddress) + EncodeU32(l.operation)
    + EncodeU32(l.operationList) + trail
  }

  lemma ParseEncodedLruData(l: LruData, lead: seq<byte>, trail: seq<byte>)
    requires WellFormedLru(l) && |lead| == 8 && |trail| == 28
    ensures ParseLruData(EncodeLruData(l, lead, trail)) == Ok(l)
  {
    var d := EncodeLruData(l, lead, trail);
    U32In(d, 8, l.filledFlag);
    U32ArrayIn(d, 12, l.sizes);
    U32ArrayIn(d, 32, l.headAddresses);
    U32ArrayIn(d, 52, l.tailAddresses);
    U32In(d, 72, l.transactionAddress);
    U32In(d, 76, l.operation);
    U32In(d, 80, l.operationList);
  }

  /**
    The version string `_ReadFileHeader` stores before it checks it: present
    once the header parses and carries the index signature.
  */
  function HeaderVersion(data: seq<byte>): Option<string>
  {
    match ParseIndexHeader(ReadAt(data, 0, INDEX_HEADER_SIZE))
    case Err(_) => None
    case Ok(h) =>
      if h.signature != INDEX_SIGNATURE then None
      else Some(VersionString(h.majorVersion, h.minorVersion))
  }

  /** `_ReadFileHeader`'s checks, in order: the header parses, the signature, the version. */
  function CheckIndexHeader(data: seq<byte>): (r: Result<IndexHeader>)
  {
    match ParseIndexHeader(ReadAt(data, 0, INDEX_HEADER_SIZE))
    case Err(e) => Err(e)
    case Ok(h) =>
      if h.signature != INDEX_SIGNATURE then Err(BadSignature)
      else
        var version := VersionString(h.majorVersion, h.minorVersion);
        if !SupportedVersion(version) then Err(UnsupportedVersion(version))
        else Ok(h)
  }

  /** Opening: the header checks, then the LRU data must be complete. */
  function OpenIndex(data: seq<byte>): (r: Result<IndexHeader>)
  {
    match CheckIndexHeader(data)
    case Err(e) => Err(e)
    case Ok(h) =>
      if |ReadAt(data, INDEX_HEADER_SIZE, LRU_DATA_SIZE)| < LRU_DATA_SIZE then Err(Truncated)
      else Ok(h)
  }

  /** After a successful open, the header and the LRU data were read in full and the table starts right after them. */
  lemma OpenedAtTable(data: seq<byte>)
    requires OpenIndex(data).Ok?
    ensures |ReadAt(data, 0, INDEX_HEADER_SIZE)| == INDEX_HEADER_SIZE
    ensures ParseLruData(ReadAt(data, INDEX_HEADER_SIZE, LRU_DATA_SIZE)).Ok?
    ensures INDEX_HEADER_SIZE + |ReadAt(data, INDEX_HEADER_SIZE, LRU_DATA_SIZE)| == INDEX_TABLE_OFFSET
  {
  }

  /**
    Why opening an index file fails: fewer than 256 header bytes, then a
    signature other than 0xc103cac3, then a version other than 2.0 and 2.1;
    a file that passes those but is shorter than 368 bytes has no complete
    LRU data.
  */
  lemma OpenIndexOutcome(data: seq<byte>)
    ensures OpenIndex(data) == Err(Truncated) <==>
      |data| < INDEX_HEADER_SIZE
      || (U32(data, 0) == INDEX_SIGNATURE && U16(data, 6) == 2 && U16(data, 4) <= 1 && |data| < INDEX_TABLE_OFFSET)
    ensures OpenIndex(data) == Err(BadSignature) <==> |data| >= INDEX_HEADER_SIZE && U32(data, 0) != INDEX_SIGNATURE
    ensures OpenIndex(data).Err? && OpenIndex(data).error.UnsupportedVersion? <==>
      |data| >= INDEX_HEADER_SIZE && U32(data, 0) == INDEX_SIGNATURE && !(U16(data, 6) == 2 && U16(data, 4) <= 1)
    ensures OpenIndex(data).Err? && OpenIndex(data).error.UnsupportedVersion? ==>
      OpenIndex(data).error == UnsupportedVersion(VersionString(U16(data, 6), U16(data, 4)))
    ensures OpenIndex(data).Ok? <==>
      |data| >= INDEX_TABLE_OFFSET && U32(data, 0) == INDEX_SIGNATURE && U16(data, 6) == 2 && U16(data, 4) <= 1
  {
    if |data| >= INDEX_HEADER_SIZE {
      var hd := ReadAt(data, 0, INDEX_HEADER_SIZE);
      assert hd == data[..INDEX_HEADER_SIZE];
      U32Local(hd, 0, data, 0);
      U16Local(hd, 4, data, 4);
      U16Local(hd, 6, data, 6);
      SupportedVersionIff(U16(data, 6), U16(data, 4));
    }
  }

  /** The bucket words of the table that starts at `start`, up to the end of the file. */
  function WordCount(data: seq<byte>, start: nat): nat
  {
    if start <= |data| then (|data| - start) / 4 else 0
  }

  /** What the first `n` words starting at `start` leave in a map, one word after the other: `f` of each non-zero word, by position. */
  function WordMap<V>(data: seq<byte>, start: nat, n: nat, f: u32 -> V): map<nat, V>
  {
    if n == 0 then map[]
    else
      var m := WordMap(data, start, n - 1, f);
      var at := start + 4 * (n - 1);
      if at + 4 <= |data| && U32(data, at) != 0 then m[n - 1 := f(U32(data, at))] else m
  }

  /** Key i of the map is present exactly when word i exists and is non-zero, and holds `f` of it. */
  lemma {:induction false} WordMapBuckets<V>(data: seq<byte>, start: nat, n: nat, f: u32 -> V, i: nat)
    ensures i in WordMap(data, start, n, f) <==>
      i < n && start + 4 * i + 4 <= |data| && U32(data, start + 4 * i) != 0
    ensures i in WordMap(data, start, n, f) ==> WordMap(data, start, n, f)[i] == f(U32(data, start + 4 * i))
  {
    if n > 0 {
      WordMapBuckets(data, start, n - 1, f, i);
    }
  }

  /** The table the first `n` words starting at `start` make: non-zero words, decoded, by position. */
  function TablePrefix(data: seq<byte>, start: nat, n: nat): map<nat, CacheAddress>
  {
    WordMap(data, start, n, Decode)
  }

  /** `index_table` as `_ReadIndexTable` fills it from the cursor position `start`. */
  function IndexTable(data: seq<byte>, start: nat): map<nat, CacheAddress>
  {
    TablePrefix(data, start, WordCount(data, start))
  }

  /**
    The table of an index file: bucket i is present exactly when the i-th
    complete word after the first 368 bytes is non-zero, and holds that
    word's decoding; zero words and a trailing partial word add nothing.
  */
  lemma IndexTableBuckets(data: seq<byte>, i: nat)
    ensures i in IndexTable(data, INDEX_TABLE_OFFSET) <==>
      INDEX_TABLE_OFFSET + 4 * i + 4 <= |data| && U32(data, INDEX_TABLE_OFFSET + 4 * i) != 0
    ensures i in IndexTable(data, INDEX_TABLE_OFFSET) ==>
      IndexTable(data, INDEX_TABLE_OFFSET)[i] == Decode(U32(data, INDEX_TABLE_OFFSET + 4 * i))
  {
    WordMapBuckets(data, INDEX_TABLE_OFFSET, WordCount(data, INDEX_TABLE_OFFSET), Decode, i);
    if INDEX_TABLE_OFFSET + 4 * i + 4 <= |data| {
      assert i < WordCount(data, INDEX_TABLE_OFFSET);
    }
  }

  /** The table read from a file laid out as a 368-byte prefix, words, and fewer than 4 extra bytes. */
  lemma IndexTableOfWords(prefix: seq<byte>, words: seq<u32>, extra: seq<byte>)
    requires |prefix| == INDEX_TABLE_OFFSET && |extra| < 4
    ensures IndexTable(prefix + EncodeU32Array(words) + extra, INDEX_TABLE_OFFSET) ==
      map i: nat | i < |words| && words[i] != 0 :: Decode(words[i])
  {
    WordsLayout(prefix, words, extra);
    TableOfWords(prefix + EncodeU32Array(words) + extra, INDEX_TABLE_OFFSET, words);
  }

  /** The words of such a file are read back as the table's words, and there are no more. */
  lemma WordsLayout(prefix: seq<byte>, words: seq<u32>, extra: seq<byte>)
    requires |prefix| == INDEX_TABLE_OFFSET && |extra| < 4
    ensures var data := prefix + EncodeU32Array(words) + extra;
      && INDEX_TABLE_OFFSET + 4 * |words| <= |data|
      && WordCount(data, INDEX_TABLE_OFFSET) == |words|
      && U32Array(data, INDEX_TABLE_OFFSET, |words|) == words
  {
    var data := prefix + EncodeU32Array(words) + extra;
    assert data[INDEX_TABLE_OFFSET..INDEX_TABLE_OFFSET + 4 * |words|] == EncodeU32Array(words);
    U32ArrayIn(data, INDEX_TABLE_OFFSET, words);
    WordCountOfWords(|data|, |words|, |extra|);
  }


  lemma WordCountOfWords(size: nat, n: nat, extra: nat)
    requires size == INDEX_TABLE_OFFSET + 4 * n + extra && extra < 4
    ensures (size - INDEX_TABLE_OFFSET) / 4 == n
  {
  }

  /** The table over words that are all present is the map of their non-zero entries. */
  lemma TableOfWords(data: seq<byte>, start: nat, words: seq<u32>)
    requires start + 4 * |words| <= |data| && WordCount(data, start) == |words|
    requires U32Array(data, start, |words|) == words
    ensures IndexTable(data, start) == map i: nat | i < |words| && words[i] != 0 :: Decode(words[i])
  {
    var table := IndexTable(data, start);
    var expected := map i: nat | i < |words| && words[i] != 0 :: Decode(words[i]);
    forall i: nat
      ensures i in table <==> i in expected
      ensures i in table ==> table[i] == expected[i]
    {
      WordMapBuckets(data, start, |words|, Decode, i);
      if i < |words| {
        assert U32(data, start + 4 * i) == U32Array(data, start, |words|)[i];
      }
    }
    assert table.Keys == expected.Keys;
  }

  /** The step of the table loop, on top of the buckets that were there before. */
  lemma ExtendTable(base: map<nat, CacheAddress>, data: seq<byte>, start: nat, n: nat,
                     table: map<nat, CacheAddress>, value: u32)
    requires start + 4 * n + 4 <= |data| && value == U32(data, start + 4 * n)
    requires table == base + TablePrefix(data, start, n)
    ensures value != 0 ==> table[n := Decode(value)] == base + TablePrefix(data, start, n + 1)
    ensures value == 0 ==> table == base + TablePrefix(data, start, n + 1)
  {
    if value != 0 {
      UpdateUnion(base, TablePrefix(data, start, n), n, Decode(value));
    }
  }


  /** Updating a union updates its right-hand side, which wins on common keys. */
  lemma UpdateUnion<K, V>(a: map<K, V>, b: map<K, V>, k: K, v: V)
    ensures (a + b)[k := v] == a + b[k := v]
  {
  }

  /**
    Where `_ReadIndexTable`'s cursor stands after `index` words have been
    taken: a full chunk holds the next word, a short one means the file is
    exhausted.
  */
  ghost predicate WordCursor(data: seq<byte>, start: nat, index: nat, cursor: nat, chunk: seq<byte>)
  {
    && (start + 4 * index <= |data| || index == 0)
    && (|chunk| == 4 ==>
          cursor == start + 4 * index + 4 <= |data| && chunk == data[cursor - 4..cursor])
    && (|chunk| != 4 ==> cursor == Max(start, |data|) && index == WordCount(data, start))
  }

  /** The first read leaves the cursor where `WordCursor` expects it. */
  lemma FirstWord(data: seq<byte>, start: nat)
    ensures var chunk := ReadAt(data, start, 4); WordCursor(data, start, 0, start + |chunk|, chunk)
  {
  }

  /** A full chunk is the next word, and reading on keeps `WordCursor`. */
  lemma NextWord(data: seq<byte>, start: nat, index: nat, cursor: nat, chunk: seq<byte>)
    requires WordCursor(data, start, index, cursor, chunk) && |chunk| == 4
    ensures start + 4 * index + 4 <= |data|
    ensures U32(chunk, 0) == U32(data, start + 4 * index)
    ensures var next := ReadAt(data, cursor, 4); WordCursor(data, start, index + 1, cursor + |next|, next)
  {
    U32Local(chunk, 0, data, cursor - 4);
  }

  /** A short chunk ends the table with every word read and the cursor at the end of the file. */
  lemma LastWord(data: seq<byte>, start: nat, index: nat, cursor: nat, chunk: seq<byte>)
    requires WordCursor(data, start, index, cursor, chunk) && |chunk| != 4
    ensures cursor == Max(start, |data|) && index == WordCount(data, start)
  {
  }

  function Max(a: nat, b: nat): nat
  {
    if a < b then b else a
  }

  /** An opened index file; the file object is its bytes and a cursor. */
  class IndexFile {
    var contents: seq<byte>
    var position: nat
    var creationTime: Option<u64>
    var version: Option<string>
    var indexTable: map<nat, CacheAddress>

    /** `__init__`: nothing read yet. */
    constructor ()
      ensures contents == [] && position == 0
      ensures creationTime == None && version == None && indexTable == map[]
    {
      contents := [];
      position := 0;
      creationTime := None;
      version := None;
      indexTable := map[];
    }

    /**
      `_ReadFileHeader`: seek to 0 and read the header. The version is
      stored before it is checked, so a file with an unsupported version
      still leaves it set; the creation time is stored only on success.
    */
    method ReadFileHeader() returns (outcome: Result<IndexHeader>)
      modifies this`position, this`version, this`creationTime
      ensures outcome == CheckIndexHeader(contents)
      ensures position == |ReadAt(contents, 0, INDEX_HEADER_SIZE)|
      ensures version == if HeaderVersion(contents).Some? then HeaderVersion(contents) else old(version)
      ensures creationTime == if outcome.Ok? then Some(outcome.value.creationTime) else old(creationTime)
    {
      position := 0;
      var fileHeaderData := ReadAt(contents, position, INDEX_HEADER_SIZE);
      position := position + |fileHeaderData|;
      var parsed := ParseIndexHeader(fileHeaderData);
      if parsed.Err? {
        return Err(parsed.error);
      }
      var fileHeader := parsed.value;
      if fileHeader.signature != INDEX_SIGNATURE {
        return Err(BadSignature);
      }
      var v := VersionString(fileHeader.majorVersion, fileHeader.minorVersion);
      version := Some(v);
      if !SupportedVersion(v) {
        return Err(UnsupportedVersion(v));
      }
      creationTime := Some(fileHeader.creationTime);
      outcome := Ok(fileHeader);
    }

    /** `_ReadLruData`: read and parse the 112 bytes at the cursor. */
    method ReadLruData() returns (outcome: Result<LruData>)
      modifies this`position
      ensures outcome == ParseLruData(ReadAt(contents, old(position), LRU_DATA_SIZE))
      ensures position == old(position) + |ReadAt(contents, old(position), LRU_DATA_SIZE)|
    {
      var lruData := ReadAt(contents, position, LRU_DATA_SIZE);
      position := position + |lruData|;
      outcome := ParseLruData(lruData);
    }

    /**
      `_ReadIndexTable`: read 4-byte words from the cursor until a read
      comes back short, storing each non-zero word, decoded, under its
      position. Buckets already in the table are kept unless overwritten.
    */
    method ReadIndexTable()
      modifies this`position, this`indexTable
      ensures indexTable == old(indexTable) + IndexTable(contents, old(position))
      ensures position == Max(old(position), |contents|)
    {
      var data := contents;
      ghost var start := position;
      var table := indexTable;
      var cursor: nat := position;
      var cacheAddressIndex := 0;
      var cacheAddressData := ReadAt(data, cursor, 4);
      cursor := cursor + |cacheAddressData|;
      FirstWord(data, start);
      while |cacheAddressData| == 4
        invariant WordCursor(data, start, cacheAddressIndex, cursor, cacheAddressData)
        invariant table == old(indexTable) + TablePrefix(data, start, cacheAddressIndex)
        decreases |data| - 4 * cacheAddressIndex
      {
        var value := U32(cacheAddressData, 0);
        NextWord(data, start, cacheAddressIndex, cursor, cacheAddressData);
        ExtendTable(old(indexTable), data, start, cacheAddressIndex, table, value);
        if value != 0 {
          table := table[cacheAddressIndex := Decode(value)];
        }
        cacheAddressIndex := cacheAddressIndex + 1;
        cacheAddressData := ReadAt(data, cursor, 4);
        cursor := cursor + |cacheAddressData|;
      }
      LastWord(data, start, cacheAddressIndex, cursor, cacheAddressData);
      indexTable := table;
      position := cursor;
    }

    /**
      `OpenFileObject`: attach the file and read the header, the LRU data
      and the table; a failure stops the sequence where it happens.
    */
    method Open(data: seq<byte>) returns (outcome: Result<IndexHeader>)
      modifies this
      ensures contents == data
      ensures outcome == OpenIndex(data)
      ensures version == if HeaderVersion(data).Some? then HeaderVersion(data) else old(version)
      ensures creationTime == if CheckIndexHeader(data).Ok? then Some(CheckIndexHeader(data).value.creationTime)
                              else old(creationTime)
      ensures indexTable == if outcome.Ok? then old(indexTable) + IndexTable(data, INDEX_TABLE_OFFSET)
                            else old(indexTable)
      ensures position == if CheckIndexHeader(data).Err? then |ReadAt(data, 0, INDEX_HEADER_SIZE)|
                          else if outcome.Err? then INDEX_HEADER_SIZE + |ReadAt(data, INDEX_HEADER_SIZE, LRU_DATA_SIZE)|
                          else |data|
    {
      contents := data;
      position := 0;
      outcome := ReadFileHeader();
      if outcome.Err? {
        return;
      }
      var lru := ReadLruData();
      if lru.Err? {
        return Err(lru.error);
      }
      OpenedAtTable(data);
      assert position == INDEX_TABLE_OFFSET;
      ReadIndexTable();
    }
  }
}
