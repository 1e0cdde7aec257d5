/**
  The 32-bit cache address: bit 31 says whether it is initialized, bits 28-30
  give the file type, and the remaining bits locate either a separate file
  (`f_XXXXXX`) or a block inside a block file (`data_N`).
*/
module CacheAddresses {
  import opened Bytes
  import opened Format
  import opened Wrappers

  const FILE_TYPE_SEPARATE: nat := 0
  const FILE_TYPE_BLOCK_RANKINGS: nat := 1
  const FILE_TYPE_BLOCK_256: nat := 2
  const FILE_TYPE_BLOCK_1024: nat := 3
  const FILE_TYPE_BLOCK_4096: nat := 4

  /** Unit size of a block, indexed by file type (a separate file has none). */
  const FILE_TYPE_BLOCK_SIZES: seq<nat> := [0, 36, 256, 1024, 4096]

  /** Blocks of a block file start after its 8192-byte header. */
  const BLOCK_FILE_HEADER_SIZE: nat := 8192

  predicate IsBlockFileType(fileType: nat)
  {
    FILE_TYPE_BLOCK_RANKINGS <= fileType <= FILE_TYPE_BLOCK_4096
  }

  /**
    A decoded address. The optional fields are Python's attributes that stay
    `None` unless the address names a file (or, for the block fields, a block).
  */
  datatype CacheAddress = CacheAddress(
    value: u32,
    isInitialized: bool,
    fileType: nat,
    filename: Option<string>,
    blockNumber: Option<nat>,
    blockSize: Option<nat>,
    blockOffset: Option<nat>)

  /** Bits 28-30 of a raw address. */
  function FileTypeOf(v: u32): (t: nat)
    ensures t < 8
  {
    (v / 0x1000_0000) % 8
  }

  function SeparateFilename(fileSelector: nat): string
  {
    "f_" + Hex6(fileSelector)
  }

  function BlockFilename(fileSelector: nat): string
  {
    "data_" + Decimal(fileSelector)
  }

  /**
    The CacheAddress constructor: a total decode of any 32-bit value. A
    block offset never points into the block file's header.
  */
  function Decode(v: u32): (a: CacheAddress)
    ensures a.value == v
    ensures a.blockOffset.Some? ==> a.blockOffset.value >= BLOCK_FILE_HEADER_SIZE
  {
    var fileType := FileTypeOf(v);
    var initialized := v >= 0x8000_0000;
    if v == 0 then
      CacheAddress(v, initialized, fileType, None, None, None, None)
    else if fileType == FILE_TYPE_SEPARATE then
      CacheAddress(v, initialized, fileType, Some(SeparateFilename(v % 0x1000_0000)), None, None, None)
    else if IsBlockFileType(fileType) then
      var unit := FILE_TYPE_BLOCK_SIZES[fileType];
      var blockNumber := v % 0x1_0000;
      CacheAddress(v, initialized, fileType,
        Some(BlockFilename((v / 0x1_0000) % 0x100)),
        Some(blockNumber),
        Some((v / 0x100_0000) % 4 * unit),
        Some(BLOCK_FILE_HEADER_SIZE + blockNumber * unit))
    else
      CacheAddress(v, initialized, fileType, None, None, None, None)
  }

  /**
    Which attributes a decoded address has: the value and its flag and type
    bits always; a filename unless the value is 0 or the type is 5-7; the
    block number, size and offset together, exactly for non-zero block-file
    addresses.
  */
  lemma DecodeShape(v: u32)
    ensures var a := Decode(v);
      && a.value == v && a.fileType == FileTypeOf(v)
      && (a.isInitialized <==> v >= 0x8000_0000)
      && (a.filename.None? <==> v == 0 || FileTypeOf(v) > FILE_TYPE_BLOCK_4096)
      && (a.blockOffset.Some? <==> v != 0 && IsBlockFileType(FileTypeOf(v)))
      && a.blockNumber.Some? == a.blockSize.Some? == a.blockOffset.Some?
  {
  }

  /** The raw value of a separate-file address. */
  function SeparateAddressValue(initialized: bool, fileNumber: nat): u32
    requires fileNumber < 0x1000_0000
  {
    (if initialized then 0x8000_0000 else 0) + fileNumber
  }

  /**
    The raw value of a block-file address; `reserved` is bits 26-27, which the
    decoder does not look at.
  */
  function BlockAddressValue(initialized: bool, fileType: nat, reserved: nat, sizeUnits: nat,
                             fileSelector: nat, blockNumber: nat): u32
    requires IsBlockFileType(fileType) && reserved < 4 && sizeUnits < 4
    requires fileSelector < 0x100 && blockNumber < 0x1_0000
  {
    (if initialized then 0x8000_0000 else 0) + fileType * 0x1000_0000 + reserved * 0x400_0000
      + sizeUnits * 0x100_0000 + fileSelector * 0x1_0000 + blockNumber
  }

  /** Decoding a separate-file address recovers the flag and names `f_` + six hex digits of the number. */
  lemma DecodeSeparate(initialized: bool, fileNumber: nat)
    requires fileNumber < 0x1000_0000
    requires initialized || fileNumber != 0
    ensures var a := Decode(SeparateAddressValue(initialized, fileNumber));
      && a.isInitialized == initialized && a.fileType == FILE_TYPE_SEPARATE
      && a.filename == Some("f_" + Hex6(fileNumber))
      && a.blockNumber.None? && a.blockSize.None? && a.blockOffset.None?
  {
    var v := SeparateAddressValue(initialized, fileNumber);
    FieldSplit(v, if initialized then 8 else 0, fileNumber, 0x1000_0000);
  }

  /**
    Decoding a block-file address recovers every field: the file is `data_`
    + the decimal selector, the size is units times the type's block unit,
    and the offset is the header plus block number times the unit (not times
    the size).
  */
  lemma DecodeBlock(initialized: bool, fileType: nat, reserved: nat, sizeUnits: nat,
                    fileSelector: nat, blockNumber: nat)
    requires IsBlockFileType(fileType) && reserved < 4 && sizeUnits < 4
    requires fileSelector < 0x100 && blockNumber < 0x1_0000
    ensures var a := Decode(BlockAddressValue(initialized, fileType, reserved, sizeUnits, fileSelector, blockNumber));
      && a.isInitialized == initialized && a.fileType == fileType
      && a.filename == Some("data_" + Decimal(fileSelector))
      && a.blockNumber == Some(blockNumber)
      && a.blockSize == Some(sizeUnits * FILE_TYPE_BLOCK_SIZES[fileType])
      && a.blockOffset == Some(8192 + blockNumber * FILE_TYPE_BLOCK_SIZES[fileType])
  {
    var v := BlockAddressValue(initialized, fileType, reserved, sizeUnits, fileSelector, blockNumber);
    var top := (if initialized then 8 else 0) + fileType;
    FieldSplit(v, top, reserved * 0x400_0000 + sizeUnits * 0x100_0000 + fileSelector * 0x1_0000 + blockNumber, 0x1000_0000);
    FieldSplit(v, top * 0x10 + reserved * 4 + sizeUnits, fileSelector * 0x1_0000 + blockNumber, 0x100_0000);
    FieldSplit(v, top * 0x1000 + reserved * 0x400 + sizeUnits * 0x100 + fileSelector, blockNumber, 0x1_0000);
    FieldSplit(top * 0x10 + reserved * 4 + sizeUnits, top * 4 + reserved, sizeUnits, 4);
    FieldSplit(top * 0x1000 + reserved * 0x400 + sizeUnits * 0x100 + fileSelector, top * 0x10 + reserved * 4 + sizeUnits, fileSelector, 0x100);
    FieldSplit(top, if initialized then 1 else 0, fileType, 8);
  }

  /** Conversely, every non-zero separate-file value is such an address. */
  lemma SeparateAddressComplete(v: u32)
    requires v != 0 && FileTypeOf(v) == FILE_TYPE_SEPARATE
    ensures v == SeparateAddressValue(v >= 0x8000_0000, v % 0x1000_0000)
  {
    var top := v / 0x1000_0000;
    assert v == top * 0x1000_0000 + v % 0x1000_0000;
    assert top == 0 || top == 8;
  }

  /** Conversely, every block-file value is the encoding of its decoded fields and bits 26-27. */
  lemma BlockAddressComplete(v: u32)
    requires IsBlockFileType(FileTypeOf(v))
    ensures v == BlockAddressValue(v >= 0x8000_0000, FileTypeOf(v), (v / 0x400_0000) % 4,
                                   (v / 0x100_0000) % 4, (v / 0x1_0000) % 0x100, v % 0x1_0000)
  {
    var q16, q24, q26, q28 := v / 0x1_0000, v / 0x100_0000, v / 0x400_0000, v / 0x1000_0000;
    assert v == q16 * 0x1_0000 + v % 0x1_0000;
    assert q16 == q24 * 0x100 + q16 % 0x100;
    assert q24 == q26 * 4 + q24 % 4;
    assert q26 == q28 * 4 + q26 % 4;
    assert q28 == (q28 / 8) * 8 + q28 % 8;
    assert q28 / 8 == (if v >= 0x8000_0000 then 1 else 0);
  }

  /** A filename determines the file: same name means same kind of file and same selector. */
  lemma FilenameIdentifiesFile(v: u32, w: u32)
    requires Decode(v).filename.Some? && Decode(v).filename == Decode(w).filename
    ensures (FileTypeOf(v) == FILE_TYPE_SEPARATE) == (FileTypeOf(w) == FILE_TYPE_SEPARATE)
    ensures FileTypeOf(v) == FILE_TYPE_SEPARATE ==> v % 0x1000_0000 == w % 0x1000_0000
    ensures FileTypeOf(v) != FILE_TYPE_SEPARATE ==> (v / 0x1_0000) % 0x100 == (w / 0x1_0000) % 0x100
  {
    var name := Decode(v).filename.value;
    var sepV, sepW := FileTypeOf(v) == FILE_TYPE_SEPARATE, FileTypeOf(w) == FILE_TYPE_SEPARATE;
    assert name[0] == (if sepV then 'f' else 'd');
    assert name[0] == (if sepW then 'f' else 'd');
    if sepV {
      assert name[2..] == Hex6(v % 0x1000_0000) == Hex6(w % 0x1000_0000);
      Hex6Injective(v % 0x1000_0000, w % 0x1000_0000);
    } else {
      assert name[5..] == Decimal((v / 0x1_0000) % 0x100) == Decimal((w / 0x1_0000) % 0x100);
      DecimalInjective((v / 0x1_0000) % 0x100, (w / 0x1_0000) % 0x100);
    }
  }

  /** Worked value: an initialized separate-file address with file number 5. */
  lemma SeparateExample()
    ensures Decode(0x8000_0005).filename == Some("f_000005")
  {
    DecodeSeparate(true, 5);
    assert SeparateAddressValue(true, 5) == 0x8000_0005;
    Hex6Of5();
    assert "f_" + "000005" == "f_000005";
  }

  lemma Hex6Of5()
    ensures Hex6(5) == "000005"
  {
    assert Digits(5, 16) == "5";
    assert Zeros(5) == "00000";
  }

  /** Worked value: block 10 of `data_2`, a 256-byte block file, one unit long. */
  lemma BlockExample()
    ensures var a := Decode(0xA102_000A);
      a.filename == Some("data_2") && a.blockNumber == Some(10)
      && a.blockSize == Some(256) && a.blockOffset == Some(10752)
  {
    DecodeBlock(true, FILE_TYPE_BLOCK_256, 0, 1, 2, 10);
    assert BlockAddressValue(true, FILE_TYPE_BLOCK_256, 0, 1, 2, 10) == 0xA102_000A;
    assert Decimal(2) == "2";
    assert "data_" + "2" == "data_2";
  }
}
