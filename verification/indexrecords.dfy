/** The record layouts of the three index files and of the trading data
    files, and the decoding of one record of each (metastockdb.cpp).

    Record `r` of an index file starts at byte `r` times the record size;
    record 0 holds the file header. Every field is read at its offset in
    the record, in the order the reader reads them, and the first field
    that cannot be read or decoded ends the record with its error code. */
module IndexRecords {
  import opened Outcomes
  import opened Bytes
  import opened Dates
  import opened MSFileIO
  import opened Fields
  import opened TradingDays
  import opened Equities

  /** The error codes of the reader, in declaration order
      (src/metastockdb.h). */
  datatype DbError =
    | ErrorNone
    | MasterFileOpenFailed | MasterHeaderRead | MasterRecordRead
    | MasterHeaderFillerRead | MasterRecordFillerRead | MasterRecordValue
    | EMasterFileOpenFailed | EMasterHeaderRead | EMasterRecordRead
    | EMasterHeaderFillerRead | EMasterRecordFillerRead | EMasterRecordValue
    | XMasterFileOpenFailed | XMasterHeaderRead | XMasterRecordRead
    | XMasterHeaderFillerRead | XMasterRecordFillerRead | XMasterRecordValue
    | XMasterBitMaskValue
    | DBpathCreateFailed | EMasterHeaderMismatch
    | TradingDataFileOpenFailed | TradingDataFileDoesntExist
    | TradingDataFileFieldRead | TradingDataFileDuplicateDate

  const MasterRecordSize: nat := 53
  const EMasterRecordSize: nat := 192
  const XMasterRecordSize: nat := 150
  /** The XMASTER fields end at byte 149 of the 150-byte record (the last
      filler is 29 bytes at offset 120), so a record needs only 149 bytes
      of the file. */
  const XMasterReadExtent: nat := 149

  /** Lengths of the header fillers. */
  const MasterFiller1Length: nat := 48
  const EMasterFiller1Length: nat := 187
  const XMasterFiller1Length: nat := 6
  const XMasterFiller2Length: nat := 2
  const XMasterFiller3Length: nat := 2
  const XMasterFiller4Length: nat := 129

  /** The offset of the record count in the first record of a trading data
      file. */
  const TradingDataNumRecordsOffset: nat := 2

  // ---------------------------------------------------------------------------
  // MASTER

  /** The fields of a MASTER record up to its `CT` flag, as read. */
  datatype MasterHead = MasterHead(
    fileNumber: uint8, fileType: nat, fieldLength: uint8, numFields: uint8,
    filler2: Bytes, description: string, filler3: Bytes, ctFlag: uint8)

  /** The fields from the first date on, as read. */
  datatype MasterTail = MasterTail(
    firstDate: Date, lastDate: Date, interdayCode: uint8, intradayMinutes: nat,
    symbol: string, filler4: Bytes, flag: uint8, filler5: Bytes)

  function ReadMasterHead(file: Bytes, base: nat): (res: Result<MasterHead, DbError>)
    ensures res.Ok? <==> base + 25 <= |file|
    ensures res.Ok? ==> res.value.fileNumber == file[base] && res.value.numFields == file[base + 4]
    ensures res.Ok? ==> Some(res.value.description) == ReadString(file, base + 7, 16)
  {
    var fileNumber :- ReadUByte(file, base + 0).OrError(MasterRecordRead);
    var fileType :- ReadUInt(file, base + 1, UShort).OrError(MasterRecordRead);
    var fieldLength :- ReadUByte(file, base + 3).OrError(MasterRecordRead);
    var numFields :- ReadUByte(file, base + 4).OrError(MasterRecordRead);
    var filler2 :- ReadByteArray(file, base + 5, 2).OrError(MasterRecordFillerRead);
    var description :- ReadString(file, base + 7, 16).OrError(MasterRecordRead);
    var filler3 :- ReadByteArray(file, base + 23, 1).OrError(MasterRecordFillerRead);
    var ctFlag :- ReadUByte(file, base + 24).OrError(MasterRecordRead);
    Ok(MasterHead(fileNumber, fileType, fieldLength, numFields, filler2, description, filler3, ctFlag))
  }

  /** The two dates must decode. */
  function ReadMasterTail(file: Bytes, base: nat, toULong: Bits32 -> uint64): (res: Result<MasterTail, DbError>)
    ensures res.Ok? ==> base + MasterRecordSize <= |file|
    ensures res.Ok? ==> Some(res.value.firstDate) == ReadDate(file, base + 25, MBF32, toULong)
    ensures res.Ok? ==> Some(res.value.lastDate) == ReadDate(file, base + 29, MBF32, toULong)
    ensures res.Ok? ==> Some(res.value.symbol) == ReadString(file, base + 36, 14)
    ensures base + MasterRecordSize <= |file| && res.Err? ==> res.error == MasterRecordRead
  {
    var firstDate :- ReadDate(file, base + 25, MBF32, toULong).OrError(MasterRecordRead);
    var lastDate :- ReadDate(file, base + 29, MBF32, toULong).OrError(MasterRecordRead);
    var interdayCode :- ReadUByte(file, base + 33).OrError(MasterRecordRead);
    var intradayMinutes :- ReadUInt(file, base + 34, UShort).OrError(MasterRecordRead);
    var symbol :- ReadString(file, base + 36, 14).OrError(MasterRecordRead);
    var filler4 :- ReadByteArray(file, base + 50, 1).OrError(MasterRecordFillerRead);
    var flag :- ReadUByte(file, base + 51).OrError(MasterRecordRead);
    var filler5 :- ReadByteArray(file, base + 52, 1).OrError(MasterRecordFillerRead);
    Ok(MasterTail(firstDate, lastDate, interdayCode, intradayMinutes, symbol, filler4, flag, filler5))
  }

  /** One MASTER record: every field read in the file's order, then the
      interday letter and the intraday minutes must be ones the reader
      knows. Description and symbol are trimmed. */
  function DecodeMasterRecord(file: Bytes, base: nat, toULong: Bits32 -> uint64): (res: Result<MasterRecord, DbError>)
    ensures res.Ok? ==> base + MasterRecordSize <= |file|
    ensures res.Ok? ==> res.value.fileNumber == file[base]
    ensures res.Ok? ==> res.value.numFields == file[base + 4]
    ensures res.Ok? ==> res.value.symbol == Trim(ReadString(file, base + 36, 14).value)
    ensures res.Ok? ==> res.value.description == Trim(ReadString(file, base + 7, 16).value)
    ensures res.Ok? ==> Some(res.value.firstDate) == ReadDate(file, base + 25, MBF32, toULong)
    ensures res.Ok? ==> Some(res.value.lastDate) == ReadDate(file, base + 29, MBF32, toULong)
    ensures res.Ok? ==> InterdayOf(file[base + 33]) == Some(res.value.interday)
    ensures res.Ok? ==> IntradayOf(ReadUInt(file, base + 34, UShort).value) == Some(res.value.intraday)
    ensures base + MasterRecordSize <= |file| && res.Err? ==> res.error in {MasterRecordRead, MasterRecordValue}
    ensures base + MasterRecordSize <= |file|
              && ReadDate(file, base + 25, MBF32, toULong).Some? && ReadDate(file, base + 29, MBF32, toULong).Some?
              && InterdayOf(file[base + 33]).None?
            ==> res == Err(MasterRecordValue)
    ensures base + MasterRecordSize <= |file|
              && ReadDate(file, base + 25, MBF32, toULong).Some? && ReadDate(file, base + 29, MBF32, toULong).Some?
              && IntradayOf(ReadUInt(file, base + 34, UShort).value).None?
            ==> res == Err(MasterRecordValue)
  {
    var head :- ReadMasterHead(file, base);
    var tail :- ReadMasterTail(file, base, toULong);
    var interday :- InterdayOf(tail.interdayCode).OrError(MasterRecordValue);
    var intraday :- IntradayOf(tail.intradayMinutes).OrError(MasterRecordValue);
    Ok(MasterRecord(head.fileNumber, head.fileType, head.fieldLength, head.numFields, head.filler2,
                    Trim(head.description), head.filler3, head.ctFlag, tail.firstDate, tail.lastDate,
                    interday, intraday, Trim(tail.symbol), tail.filler4, tail.flag, tail.filler5))
  }

  // ---------------------------------------------------------------------------
  // EMASTER

  /** The EMASTER fields that repeat what the MASTER record says. */
  datatype EMasterShared = EMasterShared(
    fileNumber: uint8, numFields: uint8, description: string, firstDate: Date, lastDate: Date)

  /** The trimmed symbol of an EMASTER record: the key it is merged under. */
  function ReadEMasterSymbol(file: Bytes, base: nat): (res: Result<string, DbError>)
    ensures res.Ok? <==> base + 24 <= |file|
    ensures res.Ok? ==> res.value == Trim(ReadString(file, base + 11, 13).value)
  {
    var symbol :- ReadString(file, base + 11, 13).OrError(EMasterRecordRead);
    Ok(Trim(symbol))
  }

  /** The repeated fields. The description is not trimmed, and both dates
      are read as plain `CVS` floats, while every other float of the
      record is read byte-reversed. */
  function ReadEMasterShared(file: Bytes, base: nat, toULong: Bits32 -> uint64): (res: Result<EMasterShared, DbError>)
    ensures res.Ok? ==> Some(res.value.fileNumber) == ReadUByte(file, base + 2)
    ensures res.Ok? ==> Some(res.value.numFields) == ReadUByte(file, base + 6)
    ensures res.Ok? ==> Some(res.value.description) == ReadString(file, base + 32, 16)
    ensures res.Ok? ==> Some(res.value.firstDate) == ReadDate(file, base + 64, CVS, toULong)
    ensures res.Ok? ==> Some(res.value.lastDate) == ReadDate(file, base + 72, CVS, toULong)
    ensures res.Err? ==> res.error == EMasterRecordRead
  {
    var fileNumber :- ReadUByte(file, base + 2).OrError(EMasterRecordRead);
    var numFields :- ReadUByte(file, base + 6).OrError(EMasterRecordRead);
    var description :- ReadString(file, base + 32, 16).OrError(EMasterRecordRead);
    var firstDate :- ReadDate(file, base + 64, CVS, toULong).OrError(EMasterRecordRead);
    var lastDate :- ReadDate(file, base + 72, CVS, toULong).OrError(EMasterRecordRead);
    Ok(EMasterShared(fileNumber, numFields, description, firstDate, lastDate))
  }

  /** The comparisons of the repeated fields with the catalog's equity, in
      the reader's order: file number, field count, description, first
      date, last date. Dates are compared through `asEpoch`. */
  function CheckEMasterShared(e: Equity, s: EMasterShared, asEpoch: EpochFn): (c: Check<DbError>)
    ensures c.Pass? <==>
      && e.dataFileNumber == s.fileNumber
      && e.activeFields.numFields == Some(s.numFields)
      && e.description == s.description
      && Same(asEpoch, e.history.firstDate, s.firstDate)
      && Same(asEpoch, e.history.lastDate, s.lastDate)
    ensures c.Fail? ==> c.error == EMasterHeaderMismatch
  {
    if e.dataFileNumber != s.fileNumber then Fail(EMasterHeaderMismatch)
    else if e.activeFields.numFields != Some(s.numFields) then Fail(EMasterHeaderMismatch)
    else if e.description != s.description then Fail(EMasterHeaderMismatch)
    else if Differ(asEpoch, e.history.firstDate, s.firstDate) then Fail(EMasterHeaderMismatch)
    else if Differ(asEpoch, e.history.lastDate, s.lastDate) then Fail(EMasterHeaderMismatch)
    else Pass
  }

  /** The fields only EMASTER holds, and the active-fields bitmask. */
  function ReadEMasterExtended(file: Bytes, base: nat): (res: Result<(ExtendedData, bv8), DbError>)
    ensures res.Ok? <==> base + EMasterRecordSize <= |file|
    ensures res.Ok? ==> res.value.1 == file[base + 7] as bv8
    ensures res.Ok? ==> res.value.0.idCode == file[base] && res.value.0.autoRun == file[base + 9]
    ensures res.Ok? ==> res.value.0.intradayStartTime == ReadFloat(file, base + 80, CVSR).value
    ensures res.Ok? ==> res.value.0.intradayEndTime == ReadFloat(file, base + 84, CVSR).value
    ensures res.Ok? ==> res.value.0.lastDivPaid == ReadUInt(file, base + 131, CVL).value
    ensures res.Ok? ==> res.value.0.lastDivAdjRate == ReadFloat(file, base + 135, CVSR).value
  {
    var idCode :- ReadUByte(file, base + 0).OrError(EMasterRecordRead);
    var filler2 :- ReadByteArray(file, base + 3, 3).OrError(EMasterRecordFillerRead);
    var bitMask :- ReadUByte(file, base + 7).OrError(EMasterRecordRead);
    var filler3 :- ReadByteArray(file, base + 8, 1).OrError(EMasterRecordFillerRead);
    var autoRun :- ReadUByte(file, base + 9).OrError(EMasterRecordRead);
    var filler4 :- ReadByteArray(file, base + 10, 1).OrError(EMasterRecordFillerRead);
    var filler5 :- ReadByteArray(file, base + 24, 8).OrError(EMasterRecordFillerRead);
    var filler6 :- ReadByteArray(file, base + 48, 16).OrError(EMasterRecordFillerRead);
    var filler7 :- ReadByteArray(file, base + 68, 4).OrError(EMasterRecordFillerRead);
    var filler8 :- ReadByteArray(file, base + 76, 4).OrError(EMasterRecordFillerRead);
    var startTime :- ReadFloat(file, base + 80, CVSR).OrError(EMasterRecordRead);
    var filler9 :- ReadByteArray(file, base + 88, 38).OrError(EMasterRecordFillerRead);
    // The reader checks this read as well, but it lies before the end of
    // the filler just read, so it cannot fail.
    var endTime := ReadFloat(file, base + 84, CVSR).value;
    var filler10 :- ReadByteArray(file, base + 130, 1).OrError(EMasterRecordFillerRead);
    var lastDivPaid :- ReadUInt(file, base + 131, CVL).OrError(EMasterRecordRead);
    var lastDivAdjRate :- ReadFloat(file, base + 135, CVSR).OrError(EMasterRecordRead);
    var filler11 :- ReadByteArray(file, base + 139, 53).OrError(EMasterRecordFillerRead);
    Ok((ExtendedData(idCode, filler2, filler3, autoRun, filler4, filler5, filler6, filler7,
                     filler8, startTime, filler9, endTime, filler10, lastDivPaid,
                     lastDivAdjRate, filler11),
        bitMask as bv8))
  }

  // ---------------------------------------------------------------------------
  // XMASTER

  /** The fields of an XMASTER record up to its interday letter, as read. */
  datatype XMasterHead = XMasterHead(
    filler5: Bytes, symbol: string, description: string, filler6: Bytes,
    filler7: Bytes, filler8: Bytes, interdayCode: byte, filler9: Bytes)

  /** The fields from the file number on, as read. */
  datatype XMasterTail = XMasterTail(
    fileNumber: nat, filler10: Bytes, bitMask: byte, filler11: Bytes, firstDate: Date,
    filler12: Bytes, lastDate: Date, filler13: Bytes, filler14: Bytes)

  function ReadXMasterHead(file: Bytes, base: nat): (res: Result<XMasterHead, DbError>)
    ensures res.Ok? <==> base + 63 <= |file|
    ensures res.Ok? ==> Some(res.value.symbol) == ReadString(file, base + 1, 14)
    ensures res.Ok? ==> Some(res.value.description) == ReadString(file, base + 16, 23)
    ensures res.Ok? ==> res.value.interdayCode == file[base + 61]
  {
    var filler5 :- ReadByteArray(file, base + 0, 1).OrError(XMasterRecordFillerRead);
    var symbol :- ReadString(file, base + 1, 14).OrError(XMasterRecordRead);
    var description :- ReadString(file, base + 16, 23).OrError(XMasterRecordRead);
    var filler6 :- ReadByteArray(file, base + 40, 1).OrError(XMasterRecordFillerRead);
    var filler7 :- ReadByteArray(file, base + 42, 5).OrError(XMasterRecordFillerRead);
    var filler8 :- ReadByteArray(file, base + 47, 13).OrError(XMasterRecordFillerRead);
    var interdayCode :- ReadUByte(file, base + 61).OrError(XMasterRecordRead);
    var filler9 :- ReadByteArray(file, base + 62, 1).OrError(XMasterRecordFillerRead);
    Ok(XMasterHead(filler5, symbol, description, filler6, filler7, filler8, interdayCode, filler9))
  }

  /** A date stored twice, as a `CVL` integer at `at` and as a byte-reversed
      float at `at + 4`: both must decode, and the float one is kept. */
  function ReadXMasterDatePair(file: Bytes, at: nat, toULong: Bits32 -> uint64): (res: Result<Date, DbError>)
    ensures res.Ok? <==> ReadDate(file, at, CVL, toULong).Some? && ReadDate(file, at + 4, CVSR, toULong).Some?
    ensures res.Ok? ==> Some(res.value) == ReadDate(file, at + 4, CVSR, toULong)
    ensures res.Err? ==> res.error == XMasterRecordRead
  {
    var long :- ReadDate(file, at, CVL, toULong).OrError(XMasterRecordRead);
    var short :- ReadDate(file, at + 4, CVSR, toULong).OrError(XMasterRecordRead);
    Ok(short)
  }

  /** Both long-format dates must decode but are then dropped; the stored
      dates are the byte-reversed float ones. */
  function ReadXMasterTail(file: Bytes, base: nat, toULong: Bits32 -> uint64): (res: Result<XMasterTail, DbError>)
    ensures res.Ok? ==> base + XMasterReadExtent <= |file|
    ensures res.Ok? ==> Some(res.value.fileNumber) == ReadUInt(file, base + 65, UShort)
    ensures res.Ok? ==> res.value.bitMask == file[base + 70]
    ensures res.Ok? ==> (ReadDate(file, base + 80, CVL, toULong).Some?
                         && ReadDate(file, base + 104, CVL, toULong).Some?)
    ensures res.Ok? ==> Some(res.value.firstDate) == ReadDate(file, base + 84, CVSR, toULong)
    ensures res.Ok? ==> Some(res.value.lastDate) == ReadDate(file, base + 108, CVSR, toULong)
    ensures base + XMasterReadExtent <= |file| && res.Err? ==> res.error == XMasterRecordRead
  {
    var fileNumber :- ReadUInt(file, base + 65, UShort).OrError(XMasterRecordRead);
    var filler10 :- ReadByteArray(file, base + 67, 2).OrError(XMasterRecordFillerRead);
    var bitMask :- ReadUByte(file, base + 70).OrError(XMasterRecordRead);
    var filler11 :- ReadByteArray(file, base + 71, 7).OrError(XMasterRecordFillerRead);
    var firstDate :- ReadXMasterDatePair(file, base + 80, toULong);
    var filler12 :- ReadByteArray(file, base + 86, 16).OrError(XMasterRecordFillerRead);
    var lastDate :- ReadXMasterDatePair(file, base + 104, toULong);
    var filler13 :- ReadByteArray(file, base + 112, 3).OrError(XMasterRecordFillerRead);
    var filler14 :- ReadByteArray(file, base + 120, 29).OrError(XMasterRecordFillerRead);
    Ok(XMasterTail(fileNumber, filler10, bitMask, filler11, firstDate, filler12, lastDate, filler13, filler14))
  }

  /** The checks that follow the reads: the bitmask must pass
      `ValidBitMask` before the interday letter is checked. Description and
      symbol are trimmed. */
  function BuildXMasterRecord(head: XMasterHead, tail: XMasterTail): (res: Result<XMasterRecord, DbError>)
    ensures res.Ok? <==> tail.bitMask == 0 && InterdayOf(head.interdayCode).Some?
    ensures tail.bitMask != 0 ==> res == Err(XMasterBitMaskValue)
    ensures res.Err? ==> res.error in {XMasterBitMaskValue, XMasterRecordValue}
    ensures res.Ok? ==> (&& res.value.symbol == Trim(head.symbol)
                         && res.value.description == Trim(head.description)
                         && Some(res.value.interday) == InterdayOf(head.interdayCode)
                         && res.value.bitMask == 0
                         && res.value.fileNumber == tail.fileNumber
                         && res.value.firstDate == tail.firstDate
                         && res.value.lastDate == tail.lastDate)
  {
    ValidBitMaskAcceptsOnlyZero(tail.bitMask as bv8);
    :- Need(ValidBitMask(tail.bitMask as bv8), XMasterBitMaskValue);
    var interday :- InterdayOf(head.interdayCode).OrError(XMasterRecordValue);
    Ok(XMasterRecord(head.filler5, Trim(head.symbol), Trim(head.description), head.filler6,
                     head.filler7, head.filler8, interday, head.filler9, tail.fileNumber,
                     tail.filler10, tail.bitMask as bv8, tail.filler11, tail.firstDate,
                     tail.filler12, tail.lastDate, tail.filler13, tail.filler14))
  }

  /** One XMASTER record: every field read in the file's order, then the
      checks. */
  function DecodeXMasterRecord(file: Bytes, base: nat, toULong: Bits32 -> uint64): (res: Result<XMasterRecord, DbError>)
    ensures res.Ok? ==> base + XMasterReadExtent <= |file|
    ensures res.Ok? ==> res.value.bitMask == 0
    ensures res.Ok? ==> res.value.symbol == Trim(ReadString(file, base + 1, 14).value)
    ensures res.Ok? ==> res.value.description == Trim(ReadString(file, base + 16, 23).value)
    ensures res.Ok? ==> Some(res.value.fileNumber) == ReadUInt(file, base + 65, UShort)
    ensures res.Ok? ==> InterdayOf(file[base + 61]) == Some(res.value.interday)
    ensures res.Ok? ==> Some(res.value.firstDate) == ReadDate(file, base + 84, CVSR, toULong)
    ensures res.Ok? ==> Some(res.value.lastDate) == ReadDate(file, base + 108, CVSR, toULong)
    ensures base + XMasterReadExtent <= |file| && file[base + 70] != 0 ==> res.Err?
    ensures base + XMasterReadExtent <= |file| && res.Err? ==>
              res.error in {XMasterRecordRead, XMasterBitMaskValue, XMasterRecordValue}
  {
    var head :- ReadXMasterHead(file, base);
    var tail :- ReadXMasterTail(file, base, toULong);
    BuildXMasterRecord(head, tail)
  }

  // ---------------------------------------------------------------------------
  // Trading data files

  /** The name of an equity's trading data file: `F<n>.DAT` for an FDAT
      equity and `C<n>.MWD` for an MWD one, `<n>` the file number in
      decimal. */
  function DataFileName(t: DataFileType, number: nat): (name: string)
  {
    (if t == FDAT then "F" else "C") + Decimal(number) + "." + DataFileType2String(t)
  }

  /** The kind and number a data file name stands for, if any. */
  function ParseDataFileName(name: string): Option<(DataFileType, nat)> {
    if |name| < 6 || name[|name| - 4] != '.' then None
    else
      var digits := name[1..|name| - 4];
      if !(forall i :: 0 <= i < |digits| ==> IsDigit(digits[i])) then None
      else
        match DataFileTypeOf(name[|name| - 3..])
        case None => None
        case Some(t) =>
          if name[0] == (if t == FDAT then 'F' else 'C') then Some((t, DecimalValue(digits)))
          else None
  }

  /** Every data file name parses back to its kind and number, so no two
      equities of different kind or number share a data file. */
  lemma DataFileNameRoundTrip(t: DataFileType, number: nat)
    ensures ParseDataFileName(DataFileName(t, number)) == Some((t, number))
  {
    var name := DataFileName(t, number);
    var digits := Decimal(number);
    assert name[1..|name| - 4] == digits;
    assert name[|name| - 3..] == DataFileType2String(t);
    DataFileTypeRoundTrip(t);
    DecimalRoundTrip(number);
  }

  /** One float field of a trading data record: read as MBF32 at the
      record's base plus the field's offset when the field is active, and
      zero otherwise. */
  function ReadPriceField(file: Bytes, af: ActiveFields, f: Field, base: nat): (res: Result<Bits32, DbError>)
    ensures !IsActive(af, f) ==> res == Ok(FloatZero)
    ensures IsActive(af, f) ==> (res.Ok? <==> base + Offset(af, f) + 4 <= |file|)
    ensures IsActive(af, f) && res.Ok? ==> res.value == ReadFloat(file, base + Offset(af, f), MBF32).value
    ensures res.Err? ==> res.error == TradingDataFileFieldRead
  {
    if IsActive(af, f) then ReadFloat(file, base + Offset(af, f), MBF32).OrError(TradingDataFileFieldRead)
    else Ok(FloatZero)
  }

  /** What a float field of a record holds after the read: the MBF32 value
      at its offset when the field is active and in the file, zero when it
      is inactive. */
  function PriceAt(file: Bytes, af: ActiveFields, f: Field, base: nat): Bits32 {
    if IsActive(af, f) && base + Offset(af, f) + 4 <= |file| then ReadFloat(file, base + Offset(af, f), MBF32).value
    else FloatZero
  }

  /** The float fields the reader reads, in its order. Open interest is not
      among them. */
  predicate IsReadPrice(f: Field) {
    f in {TimeField, OpenField, CloseField, HighField, LowField, VolumeField}
  }

  /** The six float fields of a record, as read. */
  datatype Prices = Prices(time: Bits32, open: Bits32, close: Bits32, high: Bits32, low: Bits32, volume: Bits32)

  /** The float fields of the record at `base`, in the reader's order. */
  function ReadPrices(file: Bytes, af: ActiveFields, base: nat): (res: Result<Prices, DbError>)
    ensures res.Ok? <==> forall f :: IsReadPrice(f) && IsActive(af, f) ==> base + Offset(af, f) + 4 <= |file|
    ensures res.Ok? ==> res.value == Prices(PriceAt(file, af, TimeField, base), PriceAt(file, af, OpenField, base),
                                            PriceAt(file, af, CloseField, base), PriceAt(file, af, HighField, base),
                                            PriceAt(file, af, LowField, base), PriceAt(file, af, VolumeField, base))
    ensures res.Err? ==> res.error == TradingDataFileFieldRead
  {
    var time :- ReadPriceField(file, af, TimeField, base);
    var open :- ReadPriceField(file, af, OpenField, base);
    var close :- ReadPriceField(file, af, CloseField, base);
    var high :- ReadPriceField(file, af, HighField, base);
    var low :- ReadPriceField(file, af, LowField, base);
    var volume :- ReadPriceField(file, af, VolumeField, base);
    Ok(Prices(time, open, close, high, low, volume))
  }

  /** The record at `base` of a trading data file: each active field at its
      offset, each inactive field zero. Volume is the float truncated by
      `toULong` (the cast of a zero float is 0), and open interest is never
      read. The record fails exactly when an active field lies past the end
      of the file or the date does not decode. */
  function ReadBar(file: Bytes, af: ActiveFields, base: nat, toULong: Bits32 -> uint64): (res: Result<TradingDay, DbError>)
    ensures res.Ok? <==>
      && (af.date ==> ReadDate(file, base, MBF32, toULong).Some?)
      && (forall f :: IsReadPrice(f) && IsActive(af, f) ==> base + Offset(af, f) + 4 <= |file|)
    ensures res.Ok? ==> res.value.date == (if af.date then ReadDate(file, base, MBF32, toULong).value else ZeroDate)
    ensures res.Ok? ==> (&& res.value.time == PriceAt(file, af, TimeField, base)
                         && res.value.open == PriceAt(file, af, OpenField, base)
                         && res.value.close == PriceAt(file, af, CloseField, base)
                         && res.value.high == PriceAt(file, af, HighField, base)
                         && res.value.low == PriceAt(file, af, LowField, base))
    ensures res.Ok? ==> res.value.volume == (if af.volume then toULong(PriceAt(file, af, VolumeField, base)) else 0)
    ensures res.Ok? ==> res.value.openInterest == FloatZero
    ensures res.Err? ==> res.error == TradingDataFileFieldRead
  {
    var date :- if af.date then ReadDate(file, base + Offset(af, DateField), MBF32, toULong).OrError(TradingDataFileFieldRead)
                else Ok(ZeroDate);
    var p :- ReadPrices(file, af, base);
    Ok(TradingDay(date, p.time, p.open, p.close, p.high, p.low, if af.volume then toULong(p.volume) else 0, FloatZero))
  }

  /** A record with no active field reads nothing, whatever the record size
      and the file: every bar it gives is `TradingDay()`. */
  lemma BarWithoutFieldsIsDefault(file: Bytes, af: ActiveFields, base: nat, toULong: Bits32 -> uint64)
    requires forall f :: !IsActive(af, f)
    ensures ReadBar(file, af, base, toULong) == Ok(DefaultDay)
  {
    assert !IsActive(af, DateField) && !IsActive(af, VolumeField);
  }
}
