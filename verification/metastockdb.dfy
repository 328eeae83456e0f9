/** The MetaStock database reader (metastockdb.cpp): opening a database
    directory, reading the MASTER, EMASTER and XMASTER index files into the
    equity catalog, loading the bars of each equity from its trading data
    file, and looking equities up by symbol.

    The directory is a value: whether the path exists, and the files in it,
    each either readable (its bytes) or present but impossible to open. */
module MetaStockDB {
  import opened Outcomes
  import opened Bytes
  import opened Dates
  import opened MSFileIO
  import opened Fields
  import opened TradingDays
  import opened TradingHistories
  import opened Equities
  import opened Catalogs
  import opened IndexRecords

  datatype DbFile = Readable(bytes: Bytes) | Unopenable

  /** The files of the database directory, by name. */
  type Files = map<string, DbFile>

  /** The behaviour the reader takes from the C++ runtime: `mktime` for
      comparing dates, and the `float` to `unsigned long` conversion. */
  datatype Platform = Platform(asEpoch: EpochFn, toULong: Bits32 -> uint64)

  /** The reader's state: the last error, whether the database is new, the
      lazy-load flag, the header fields of the index files, and the
      catalog. */
  datatype Db = Db(
    lastError: DbError,
    isNew: bool,
    lazyLoad: bool,
    masterNumRecords: nat,
    masterLastDataFileNumber: nat,
    xmasterNumRecords: nat,
    xmasterLastDataFileNumber: nat,
    masterFiller1: Bytes,
    emasterFiller1: Bytes,
    xmasterFiller1: Bytes,
    xmasterFiller2: Bytes,
    xmasterFiller3: Bytes,
    xmasterFiller4: Bytes,
    equities: Catalog<Equity>)

  /** The member initialisers of the constructor. */
  function NewDb(lazyLoad: bool): (db: Db)
    ensures db.lastError == ErrorNone && db.isNew && db.lazyLoad == lazyLoad
    ensures db.equities == []
  {
    Db(ErrorNone, true, lazyLoad, 0, 0, 0, 0,
       Zeros(MasterFiller1Length), Zeros(EMasterFiller1Length),
       Zeros(XMasterFiller1Length), Zeros(XMasterFiller2Length),
       Zeros(XMasterFiller3Length), Zeros(XMasterFiller4Length), [])
  }

  /** Every equity of the catalog has no bars yet. */
  ghost predicate NoBars(c: Catalog<Equity>) {
    forall i :: 0 <= i < |c| ==> c[i].value.history.bars == []
  }

  /** `c'` has the keys of `c`, in the same positions, and each equity
      differs from the one before at most in its EMASTER attributes. */
  ghost predicate OnlyExtendedChanged(c: Catalog<Equity>, c': Catalog<Equity>) {
    && |c'| == |c|
    && forall i :: 0 <= i < |c| ==>
         c'[i].key == c[i].key && c'[i].value.(extended := c[i].value.extended) == c[i].value
  }

  /** `c'` has the keys of `c`, in the same positions, and each equity
      differs from the one before at most in its trading history. */
  ghost predicate OnlyHistoryChanged(c: Catalog<Equity>, c': Catalog<Equity>) {
    && |c'| == |c|
    && forall i :: 0 <= i < |c| ==>
         c'[i].key == c[i].key && c'[i].value.(history := c[i].value.history) == c[i].value
  }

  // ---------------------------------------------------------------------------
  // MASTER

  /** MASTER record `r` as the catalog entry it becomes, under its symbol. */
  function MasterEntry(file: Bytes, toULong: Bits32 -> uint64, r: nat): (res: Result<Entry<Equity>, DbError>)
    ensures res.Ok? <==> DecodeMasterRecord(file, r * MasterRecordSize, toULong).Ok?
    ensures res.Ok? ==> res.value.key == res.value.value.symbol
    ensures res.Ok? ==> (&& res.value.value.dataFileType == FDAT
                         && res.value.value.history.bars == []
                         && res.value.value.activeFields.numFields.Some?)
  {
    var m :- DecodeMasterRecord(file, r * MasterRecordSize, toULong);
    Ok(Entry(m.symbol, FromMaster(m)))
  }

  /** The MASTER records of a file, by record number. */
  function MasterReader(file: Bytes, toULong: Bits32 -> uint64): nat -> Result<Entry<Equity>, DbError> {
    (r: nat) => MasterEntry(file, toULong, r)
  }

  /** The record count of the MASTER header, 0 when it cannot be read. */
  function MasterCount(file: Bytes): nat {
    ReadUInt(file, 0, UShort).GetOr(0)
  }

  /** The MASTER record loop: records 1 to the header's count inserted in
      order until one fails. */
  function MasterRecords(file: Bytes, toULong: Bits32 -> uint64, c: Catalog<Equity>): (res: (Check<DbError>, Catalog<Equity>))
  {
    InsertEach(MasterReader(file, toULong), 1, MasterCount(file), c)
  }

  /** `readMasterFile`. The header gives the record count and the largest
      data file number, both reset to 0 before they are read, and a filler;
      records 1 to the count are then inserted in order until one fails.
      The equities inserted before a failure stay in the catalog. */
  function ReadMaster(db: Db, file: DbFile, toULong: Bits32 -> uint64): (res: (bool, Db))
    ensures res.0 ==> res.1.lastError == db.lastError
    ensures file.Unopenable? ==> res == (false, db.(lastError := MasterFileOpenFailed))
    ensures file.Readable? ==> res.1.masterNumRecords == ReadUInt(file.bytes, 0, UShort).GetOr(0)
    ensures res.1.isNew == db.isNew && res.1.lazyLoad == db.lazyLoad
  {
    match file
    case Unopenable => (false, db.(lastError := MasterFileOpenFailed))
    case Readable(bytes) =>
      var numRecords := ReadUInt(bytes, 0, UShort);
      var db := db.(masterNumRecords := numRecords.GetOr(0));
      if numRecords.None? then (false, db.(lastError := MasterHeaderRead))
      else
        var lastNumber := ReadUInt(bytes, 2, UShort);
        var db := db.(masterLastDataFileNumber := lastNumber.GetOr(0));
        if lastNumber.None? then (false, db.(lastError := MasterHeaderRead))
        else
          match ReadByteArray(bytes, 4, MasterFiller1Length)
          case None => (false, db.(lastError := MasterHeaderFillerRead))
          case Some(filler) =>
            var db := db.(masterFiller1 := filler);
            var (check, equities) := MasterRecords(bytes, toULong, db.equities);
            match check
            case Pass => (true, db.(equities := equities))
            case Fail(e) => (false, db.(equities := equities, lastError := e))
  }

  // ---------------------------------------------------------------------------
  // EMASTER

  /** The part of an EMASTER record read once its equity `e` is found: the
      fields EMASTER repeats must match `e`, and so must the active-fields
      bitmask, which is compared only after every other field has been
      read. The result is the EMASTER-only attributes. */
  function CheckEMasterRecord(file: Bytes, p: Platform, base: nat, e: Equity): (res: Result<ExtendedData, DbError>)
    ensures res.Ok? <==>
      && ReadEMasterShared(file, base, p.toULong).Ok?
      && CheckEMasterShared(e, ReadEMasterShared(file, base, p.toULong).value, p.asEpoch).Pass?
      && ReadEMasterExtended(file, base).Ok?
      && file[base + 7] as bv8 == ToBitMask(e.activeFields)
    ensures res.Ok? ==> res.value == ReadEMasterExtended(file, base).value.0
    ensures && ReadEMasterShared(file, base, p.toULong).Ok?
            && CheckEMasterShared(e, ReadEMasterShared(file, base, p.toULong).value, p.asEpoch).Pass?
            && ReadEMasterExtended(file, base).Ok?
            && file[base + 7] as bv8 != ToBitMask(e.activeFields)
            ==> res == Err(EMasterHeaderMismatch)
  {
    var shared :- ReadEMasterShared(file, base, p.toULong);
    :- CheckEMasterShared(e, shared, p.asEpoch);
    var extended :- ReadEMasterExtended(file, base);
    :- Need(extended.1 == ToBitMask(e.activeFields), EMasterHeaderMismatch);
    Ok(extended.0)
  }

  /** EMASTER record `r` merged into the catalog: the symbol finds the
      equity, the record is checked against it, and the EMASTER-only
      attributes are stored. */
  function MergeEMasterRecord(file: Bytes, p: Platform, r: nat, c: Catalog<Equity>): (res: Result<Catalog<Equity>, DbError>)
    ensures res.Ok? ==> OnlyExtendedChanged(c, res.value)
    ensures (ReadEMasterSymbol(file, r * EMasterRecordSize).Ok?
             && ReadEMasterSymbol(file, r * EMasterRecordSize).value !in AsMap(c)) ==> res == Err(EMasterRecordValue)
  {
    var base := r * EMasterRecordSize;
    var symbol :- ReadEMasterSymbol(file, base);
    var i :- IndexOf(c, symbol).OrError(EMasterRecordValue);
    var extended :- CheckEMasterRecord(file, p, base, c[i].value);
    StoreExtendedOnly(c, i, extended);
    Ok(UpdateAt(c, i, SetEMasterData(c[i].value, extended)))
  }

  /** Storing EMASTER attributes in one equity changes nothing else. */
  lemma StoreExtendedOnly(c: Catalog<Equity>, i: nat, x: ExtendedData)
    requires i < |c|
    ensures OnlyExtendedChanged(c, UpdateAt(c, i, SetEMasterData(c[i].value, x)))
  {
  }

  /** The EMASTER record loop: records `r` to `last` merged in order until
      one fails; the merges before a failure stay. */
  function MergeEMasterRecords(file: Bytes, p: Platform, r: nat, last: nat, c: Catalog<Equity>): (res: (Check<DbError>, Catalog<Equity>))
    ensures OnlyExtendedChanged(c, res.1)
    decreases if r <= last then last + 1 - r else 0
  {
    if r > last then (Pass, c)
    else
      match MergeEMasterRecord(file, p, r, c)
      case Err(e) => (Fail(e), c)
      case Ok(c') => MergeEMasterRecords(file, p, r + 1, last, c')
  }

  /** `readEMasterFile`. Failing to open the file fails the read without
      recording an error code. The header's record count and largest data
      file number must equal MASTER's; the records merged are MASTER's
      count of them. */
  function ReadEMaster(db: Db, file: DbFile, p: Platform): (res: (bool, Db))
    ensures file.Unopenable? ==> res == (false, db)
    ensures res.1.isNew == db.isNew && res.1.lazyLoad == db.lazyLoad
    ensures OnlyExtendedChanged(db.equities, res.1.equities)
    ensures res.0 ==> res.1.lastError == db.lastError
  {
    match file
    case Unopenable => (false, db)
    case Readable(bytes) =>
      var numRecords := ReadUInt(bytes, 0, UShort);
      if numRecords.None? then (false, db.(lastError := EMasterHeaderRead))
      else
        var lastNumber := ReadUInt(bytes, 2, UShort);
        if lastNumber.None? then (false, db.(lastError := EMasterHeaderRead))
        else
          match ReadByteArray(bytes, 4, EMasterFiller1Length)
          case None => (false, db.(lastError := EMasterHeaderFillerRead))
          case Some(filler) =>
            var db := db.(emasterFiller1 := filler);
            if db.masterNumRecords != numRecords.value || db.masterLastDataFileNumber != lastNumber.value then
              (false, db.(lastError := EMasterHeaderMismatch))
            else
              var (check, equities) := MergeEMasterRecords(bytes, p, 1, db.masterNumRecords, db.equities);
              match check
              case Pass => (true, db.(equities := equities))
              case Fail(e) => (false, db.(equities := equities, lastError := e))
  }

  // ---------------------------------------------------------------------------
  // XMASTER

  /** XMASTER record `r` as the catalog entry it becomes, under its symbol. */
  function XMasterEntry(file: Bytes, toULong: Bits32 -> uint64, r: nat): (res: Result<Entry<Equity>, DbError>)
    ensures res.Ok? <==> DecodeXMasterRecord(file, r * XMasterRecordSize, toULong).Ok?
    ensures res.Ok? ==> res.value.key == res.value.value.symbol
    ensures res.Ok? ==> (&& res.value.value.dataFileType == MWD
                         && res.value.value.history.bars == []
                         && res.value.value.activeFields == FromBitMask(0))
  {
    var x :- DecodeXMasterRecord(file, r * XMasterRecordSize, toULong);
    Ok(Entry(x.symbol, FromXMaster(x)))
  }

  /** The XMASTER records of a file, by record number. */
  function XMasterReader(file: Bytes, toULong: Bits32 -> uint64): nat -> Result<Entry<Equity>, DbError> {
    (r: nat) => XMasterEntry(file, toULong, r)
  }

  /** The record count of the XMASTER header, 0 when it cannot be read. */
  function XMasterCount(file: Bytes): nat {
    ReadUInt(file, 10, UShort).GetOr(0)
  }

  /** The XMASTER record loop: records 1 to the header's count inserted in
      order until one fails. */
  function XMasterRecords(file: Bytes, toULong: Bits32 -> uint64, c: Catalog<Equity>): (res: (Check<DbError>, Catalog<Equity>))
  {
    InsertEach(XMasterReader(file, toULong), 1, XMasterCount(file), c)
  }

  /** `readXMasterFile`: header fields in file order, each stored as read
      (the two counts reset to 0 first), then records 1 to the header's
      count inserted in order until one fails. An equity MASTER already
      holds under the same symbol is kept. */
  function ReadXMaster(db: Db, file: DbFile, toULong: Bits32 -> uint64): (res: (bool, Db))
    ensures res.0 ==> res.1.lastError == db.lastError
    ensures file.Unopenable? ==> res == (false, db.(lastError := XMasterFileOpenFailed))
    ensures res.1.isNew == db.isNew && res.1.lazyLoad == db.lazyLoad
    ensures res.1.masterNumRecords == db.masterNumRecords
    ensures res.1.masterLastDataFileNumber == db.masterLastDataFileNumber
    ensures res.1.masterFiller1 == db.masterFiller1 && res.1.emasterFiller1 == db.emasterFiller1
  {
    match file
    case Unopenable => (false, db.(lastError := XMasterFileOpenFailed))
    case Readable(bytes) =>
      match ReadByteArray(bytes, 4, XMasterFiller1Length)
      case None => (false, db.(lastError := XMasterHeaderFillerRead))
      case Some(filler1) =>
        var db := db.(xmasterFiller1 := filler1);
        var numRecords := ReadUInt(bytes, 10, UShort);
        var db := db.(xmasterNumRecords := numRecords.GetOr(0));
        if numRecords.None? then (false, db.(lastError := XMasterHeaderRead))
        else
          match ReadByteArray(bytes, 12, XMasterFiller2Length)
          case None => (false, db.(lastError := XMasterHeaderFillerRead))
          case Some(filler2) =>
            var db := db.(xmasterFiller2 := filler2);
            match ReadByteArray(bytes, 16, XMasterFiller3Length)
            case None => (false, db.(lastError := XMasterHeaderFillerRead))
            case Some(filler3) =>
              var db := db.(xmasterFiller3 := filler3);
              var lastNumber := ReadUInt(bytes, 18, UShort);
              var db := db.(xmasterLastDataFileNumber := lastNumber.GetOr(0));
              if lastNumber.None? then (false, db.(lastError := XMasterHeaderRead))
              else
                match ReadByteArray(bytes, 20, XMasterFiller4Length)
                case None => (false, db.(lastError := XMasterHeaderFillerRead))
                case Some(filler4) =>
                  var db := db.(xmasterFiller4 := filler4);
                  var (check, equities) := XMasterRecords(bytes, toULong, db.equities);
                  match check
                  case Pass => (true, db.(equities := equities))
                  case Fail(e) => (false, db.(equities := equities, lastError := e))
  }

  // ---------------------------------------------------------------------------
  // Opening a database

  /** The index files, read as the constructor reads them: MASTER when it
      exists, EMASTER only after MASTER was read without error, and XMASTER
      only after EMASTER exists and was read without error. A database
      with a MASTER file is not new. */
  function LoadIndexes(db: Db, files: Files, p: Platform): (res: (bool, Db))
    ensures "MASTER" !in files ==> res == (false, db)
    ensures "MASTER" in files ==> !res.1.isNew
    ensures res.1.lazyLoad == db.lazyLoad
  {
    if "MASTER" !in files then (false, db)
    else
      var (masterOk, db) := ReadMaster(db.(isNew := false), files["MASTER"], p.toULong);
      if !masterOk || "EMASTER" !in files then (masterOk, db)
      else
        var (emasterOk, db) := ReadEMaster(db, files["EMASTER"], p);
        if !emasterOk || "XMASTER" !in files then (emasterOk, db)
        else ReadXMaster(db, files["XMASTER"], p.toULong)
  }

  /** The constructor. An existing directory is read; a missing one is
      created, and `created` says whether the creation succeeded. The
      trading data is loaded right away only for a database that is not
      new, whose index files were all read without error, and which is not
      lazily loaded. */
  function Open(pathExists: bool, files: Files, created: bool, lazyLoad: bool, p: Platform): (db: Db)
    ensures db.lazyLoad == lazyLoad
    ensures !pathExists ==> db.equities == [] && db.isNew
    ensures !pathExists ==> (db.lastError == DBpathCreateFailed <==> !created)
  {
    var db := NewDb(lazyLoad);
    if pathExists then
      var (ok, db) := LoadIndexes(db, files, p);
      if !db.isNew && ok && !lazyLoad then Populate(db, files, p, 0) else db
    else if created then db
    else db.(lastError := DBpathCreateFailed)
  }

  /** `find`: the equity stored under exactly this symbol, if any. */
  function Find(db: Db, symbol: string): (r: Option<Equity>)
    ensures r.Some? <==> symbol in AsMap(db.equities)
    ensures r.Some? ==> r.value == AsMap(db.equities)[symbol]
  {
    Lookup(db.equities, symbol)
  }

  // ---------------------------------------------------------------------------
  // Trading data

  /** Record `r` of a trading data file of `recordSize`-byte records. */
  function DataRecord(file: Bytes, af: ActiveFields, recordSize: nat, r: nat, toULong: Bits32 -> uint64): Result<TradingDay, DbError> {
    ReadBar(file, af, r * recordSize, toULong)
  }

  /** The records of a trading data file, by record number. */
  function DataReader(file: Bytes, af: ActiveFields, recordSize: nat, toULong: Bits32 -> uint64): nat -> Result<TradingDay, DbError> {
    (r: nat) => DataRecord(file, af, recordSize, r, toULong)
  }

  /** The data record loop of one equity: records `r` up to, but not
      including, `count`, each read as a bar and inserted. A field that
      cannot be read and a date already present both end the loop with
      their error; the equity is marked loaded after each bar it takes. */
  function PopulateRecords(read: nat -> Result<TradingDay, DbError>, asEpoch: EpochFn,
                           r: nat, count: nat, e: Equity): (res: (Check<DbError>, Equity))
    ensures res.1.(history := e.history) == e
    decreases if r < count then count - r else 0
  {
    if r >= count then (Pass, e)
    else
      match read(r)
      case Err(err) => (Fail(err), e)
      case Ok(day) =>
        var (added, e') := Equities.AddTradingDayData(asEpoch, e, day.date, day.time, day.open, day.close,
                                                      day.high, day.low, day.volume, day.openInterest);
        if !added then (Fail(TradingDataFileDuplicateDate), e)
        else PopulateRecords(read, asEpoch, r + 1, count, e'.(history := SetLoaded(e'.history, true)))
  }

  /** What reading one equity's data file does: a fatal error that stops the
      whole load, or the equity with its bars and, if the record loop
      stopped early, that loop's error. */
  datatype DataFileOutcome =
    | Fatal(error: DbError)
    | Loaded(check: Check<DbError>, equity: Equity)

  /** One equity's data file: `F<n>.DAT` or `C<n>.MWD`. A missing file, one
      that does not open and one whose record count cannot be read are
      fatal. The record size comes from the active fields' count; an
      equity from XMASTER has none, and no active field either, so the
      size it would use is never applied (`BarWithoutFieldsIsDefault`). */
  function PopulateEquity(e: Equity, files: Files, p: Platform): (res: DataFileOutcome)
    ensures DataFileName(e.dataFileType, e.dataFileNumber) !in files ==> res == Fatal(TradingDataFileDoesntExist)
    ensures var name := DataFileName(e.dataFileType, e.dataFileNumber);
      name in files && files[name].Unopenable? ==> res == Fatal(TradingDataFileOpenFailed)
    ensures var name := DataFileName(e.dataFileType, e.dataFileNumber);
      name in files && files[name].Readable? ==>
        (res.Fatal? <==> ReadUInt(files[name].bytes, TradingDataNumRecordsOffset, UShort).None?)
    ensures res.Fatal? ==> res.error in {TradingDataFileDoesntExist, TradingDataFileOpenFailed, TradingDataFileFieldRead}
    ensures res.Loaded? ==> res.equity.(history := e.history) == e
  {
    var name := DataFileName(e.dataFileType, e.dataFileNumber);
    if name !in files then Fatal(TradingDataFileDoesntExist)
    else
      match files[name]
      case Unopenable => Fatal(TradingDataFileOpenFailed)
      case Readable(bytes) =>
        var recordSize := RecordSize(e.activeFields).GetOr(0);
        match ReadUInt(bytes, TradingDataNumRecordsOffset, UShort)
        case None => Fatal(TradingDataFileFieldRead)
        case Some(count) =>
          var (check, e') := PopulateRecords(DataReader(bytes, e.activeFields, recordSize, p.toULong), p.asEpoch, 1, count, e);
          Loaded(check, e')
  }

  /** `populateTradingData`: the equities from catalog position `i` on, in
      key order. A fatal error records its code and stops; an error inside
      one equity's records records its code and moves on to the next
      equity. */
  function Populate(db: Db, files: Files, p: Platform, i: nat): (res: Db)
    ensures res.(equities := db.equities, lastError := db.lastError) == db
    ensures OnlyHistoryChanged(db.equities, res.equities)
    ensures forall j :: 0 <= j < i && j < |db.equities| ==> res.equities[j] == db.equities[j]
    decreases |db.equities| - i
  {
    if i >= |db.equities| then db
    else
      match PopulateEquity(db.equities[i].value, files, p)
      case Fatal(error) => db.(lastError := error)
      case Loaded(check, e) =>
        var db' := db.(equities := UpdateAt(db.equities, i, e),
                       lastError := if check.Fail? then check.error else db.lastError);
        Populate(db', files, p, i + 1)
  }

  // ---------------------------------------------------------------------------
  // Properties of the index readers

  /** Where the MASTER read leaves the catalog: unchanged when the 52-byte
      header is short, otherwise where the record loop leaves it. */
  lemma ReadMasterRuns(db: Db, file: Bytes, toULong: Bits32 -> uint64)
    ensures var (ok, db') := ReadMaster(db, Readable(file), toULong);
      && (|file| < 52 ==> !ok && db'.equities == db.equities)
      && (52 <= |file| ==> (&& ok == MasterRecords(file, toULong, db.equities).0.Pass?
                            && db'.equities == MasterRecords(file, toULong, db.equities).1))
  {
  }

  /** Where the XMASTER read leaves the catalog: unchanged when the
      149-byte header is short, otherwise where the record loop leaves it. */
  lemma ReadXMasterRuns(db: Db, file: Bytes, toULong: Bits32 -> uint64)
    ensures var (ok, db') := ReadXMaster(db, Readable(file), toULong);
      && (|file| < 149 ==> !ok && db'.equities == db.equities)
      && (149 <= |file| ==> (&& ok == XMasterRecords(file, toULong, db.equities).0.Pass?
                             && db'.equities == XMasterRecords(file, toULong, db.equities).1))
  {
  }

  /** The MASTER record loop keeps a sorted catalog sorted and never
      replaces an equity already there; every equity it adds is an FDAT
      equity stored under its own symbol. */
  lemma MasterRecordsKeep(file: Bytes, toULong: Bits32 -> uint64, c: Catalog<Equity>)
    requires KeysSorted(c)
    ensures var c' := MasterRecords(file, toULong, c).1;
      && KeysSorted(c')
      && Extends(AsMap(c), AsMap(c'))
      && (forall k :: k in AsMap(c') && k !in AsMap(c) ==>
            AsMap(c')[k].dataFileType == FDAT && AsMap(c')[k].symbol == k)
  {
    var read := MasterReader(file, toULong);
    var count := MasterCount(file);
    InsertEachKeeps(read, 1, count, c);
    var c' := InsertEach(read, 1, count, c).1;
    forall k | k in AsMap(c') && k !in AsMap(c)
      ensures AsMap(c')[k].dataFileType == FDAT && AsMap(c')[k].symbol == k
    {
      assert exists i :: 1 <= i <= count && read(i) == Ok(Entry(k, AsMap(c')[k])) by {
        InsertEachAddsFirst(read, 1, count, c, k);
      }
      var i :| 1 <= i <= count && read(i) == Ok(Entry(k, AsMap(c')[k]));
      assert read(i) == MasterEntry(file, toULong, i);
    }
  }

  /** The MASTER record loop passes exactly when every record the header
      counts decodes. */
  lemma MasterRecordsOutcome(file: Bytes, toULong: Bits32 -> uint64, c: Catalog<Equity>)
    ensures MasterRecords(file, toULong, c).0.Pass? <==>
      forall i :: 1 <= i <= MasterCount(file) ==> MasterEntry(file, toULong, i).Ok?
  {
    var read := MasterReader(file, toULong);
    InsertEachOutcome(read, 1, MasterCount(file), c);
    forall i | 1 <= i <= MasterCount(file)
      ensures read(i) == MasterEntry(file, toULong, i)
    {
    }
  }

  /** Every MASTER record read before the first one that fails has its
      symbol in the catalog. */
  lemma MasterRecordsCover(file: Bytes, toULong: Bits32 -> uint64, c: Catalog<Equity>)
    requires KeysSorted(c)
    ensures forall i :: (1 <= i <= MasterCount(file) && (forall j :: 1 <= j <= i ==> MasterEntry(file, toULong, j).Ok?))
                        ==> MasterEntry(file, toULong, i).value.key in AsMap(MasterRecords(file, toULong, c).1)
  {
    var read := MasterReader(file, toULong);
    var c' := MasterRecords(file, toULong, c).1;
    assert forall i :: 1 <= i <= MasterCount(file) && ReadsThrough(read, 1, i) ==> read(i).value.key in AsMap(c') by {
      InsertEachCovers(read, 1, MasterCount(file), c);
    }
    forall i | 1 <= i <= MasterCount(file) && (forall j :: 1 <= j <= i ==> MasterEntry(file, toULong, j).Ok?)
      ensures MasterEntry(file, toULong, i).value.key in AsMap(c')
    {
      assert forall j :: 1 <= j <= i ==> read(j) == MasterEntry(file, toULong, j);
      assert ReadsThrough(read, 1, i);
    }
  }

  /** The XMASTER record loop keeps a sorted catalog sorted and never
      replaces an equity already there, so an equity MASTER gave wins over
      an XMASTER record with the same symbol. Every equity it adds is an MWD
      equity under its own symbol with no active field. */
  lemma XMasterRecordsKeep(file: Bytes, toULong: Bits32 -> uint64, c: Catalog<Equity>)
    requires KeysSorted(c)
    ensures var c' := XMasterRecords(file, toULong, c).1;
      && KeysSorted(c')
      && Extends(AsMap(c), AsMap(c'))
      && (forall k :: k in AsMap(c') && k !in AsMap(c) ==>
            (&& AsMap(c')[k].dataFileType == MWD && AsMap(c')[k].symbol == k
             && AsMap(c')[k].activeFields == FromBitMask(0)))
  {
    var read := XMasterReader(file, toULong);
    var count := XMasterCount(file);
    InsertEachKeeps(read, 1, count, c);
    var c' := InsertEach(read, 1, count, c).1;
    forall k | k in AsMap(c') && k !in AsMap(c)
      ensures AsMap(c')[k].dataFileType == MWD && AsMap(c')[k].symbol == k && AsMap(c')[k].activeFields == FromBitMask(0)
    {
      assert exists i :: 1 <= i <= count && read(i) == Ok(Entry(k, AsMap(c')[k])) by {
        InsertEachAddsFirst(read, 1, count, c, k);
      }
      var i :| 1 <= i <= count && read(i) == Ok(Entry(k, AsMap(c')[k]));
      assert read(i) == XMasterEntry(file, toULong, i);
    }
  }

  /** The XMASTER record loop passes exactly when every record the header
      counts decodes. */
  lemma XMasterRecordsOutcome(file: Bytes, toULong: Bits32 -> uint64, c: Catalog<Equity>)
    ensures XMasterRecords(file, toULong, c).0.Pass? <==>
      forall i :: 1 <= i <= XMasterCount(file) ==> XMasterEntry(file, toULong, i).Ok?
  {
    var read := XMasterReader(file, toULong);
    InsertEachOutcome(read, 1, XMasterCount(file), c);
    forall i | 1 <= i <= XMasterCount(file)
      ensures read(i) == XMasterEntry(file, toULong, i)
    {
    }
  }

  /** An EMASTER record merges exactly when the record is in the file, its
      symbol is in the catalog, the repeated fields decode and match that
      equity, and the bitmask byte equals the equity's active-fields
      bitmask. */
  lemma MergeEMasterRecordAccepts(file: Bytes, p: Platform, r: nat, c: Catalog<Equity>)
    ensures var base := r * EMasterRecordSize;
      MergeEMasterRecord(file, p, r, c).Ok? <==>
        && base + EMasterRecordSize <= |file|
        && ReadEMasterSymbol(file, base).value in AsMap(c)
        && ReadEMasterShared(file, base, p.toULong).Ok?
        && CheckEMasterShared(AsMap(c)[ReadEMasterSymbol(file, base).value],
                              ReadEMasterShared(file, base, p.toULong).value, p.asEpoch).Pass?
        && file[base + 7] as bv8 == ToBitMask(AsMap(c)[ReadEMasterSymbol(file, base).value].activeFields)
  {
    var base := r * EMasterRecordSize;
    if base + 24 <= |file| {
      var symbol := ReadEMasterSymbol(file, base).value;
      if symbol in AsMap(c) {
        var i := IndexOf(c, symbol).value;
        assert c[i].value == AsMap(c)[symbol];
      }
    }
  }

  /** A merge stores the record's EMASTER-only attributes in the equity of
      its symbol and changes nothing else; the catalog stays sorted. */
  lemma MergeEMasterRecordStores(file: Bytes, p: Platform, r: nat, c: Catalog<Equity>)
    requires KeysSorted(c)
    ensures var base := r * EMasterRecordSize;
      var res := MergeEMasterRecord(file, p, r, c);
      res.Ok? ==>
        && ReadEMasterSymbol(file, base).Ok?
        && ReadEMasterSymbol(file, base).value in AsMap(c)
        && ReadEMasterExtended(file, base).Ok?
        && KeysSorted(res.value)
        && AsMap(res.value) == AsMap(c)[ReadEMasterSymbol(file, base).value :=
                                          SetEMasterData(AsMap(c)[ReadEMasterSymbol(file, base).value],
                                                         ReadEMasterExtended(file, base).value.0)]
  {
    var base := r * EMasterRecordSize;
    var res := MergeEMasterRecord(file, p, r, c);
    if res.Ok? {
      var symbol := ReadEMasterSymbol(file, base).value;
      var i := IndexOf(c, symbol).value;
      var x := ReadEMasterExtended(file, base).value.0;
      UpdateAtAsMap(c, i, SetEMasterData(c[i].value, x));
    }
  }

  /** An EMASTER header that disagrees with MASTER's record count or
      largest data file number fails the read and leaves the catalog as it
      was. */
  lemma EMasterHeaderMismatchKeepsCatalog(db: Db, file: Bytes, p: Platform)
    requires 4 + EMasterFiller1Length <= |file|
    requires ReadUInt(file, 0, UShort).value != db.masterNumRecords || ReadUInt(file, 2, UShort).value != db.masterLastDataFileNumber
    ensures var (ok, db') := ReadEMaster(db, Readable(file), p);
      !ok && db'.lastError == EMasterHeaderMismatch && db'.equities == db.equities
  {
  }

  /** EMASTER's description is compared as read, while MASTER's was
      trimmed: a description field that ends in a space, and is not all
      spaces, never matches the equity MASTER built from the same text. */
  lemma PaddedDescriptionNeverMatches(e: Equity, s: EMasterShared, asEpoch: EpochFn)
    requires !AllSpaces(s.description) && s.description[|s.description| - 1] == ' '
    requires e.description == Trim(s.description)
    ensures CheckEMasterShared(e, s, asEpoch) == Fail(EMasterHeaderMismatch)
  {
    var t := Trim(s.description);
    assert t[|t| - 1] != ' ';
  }

  /** Without an EMASTER file the XMASTER file is never read. */
  lemma XMasterNeedsEMaster(db: Db, files: Files, p: Platform)
    requires "EMASTER" !in files
    ensures LoadIndexes(db, files, p) == LoadIndexes(db, files - {"XMASTER"}, p)
  {
    var files' := files - {"XMASTER"};
    if "MASTER" in files {
      assert files'["MASTER"] == files["MASTER"];
    }
  }

  /** After a failed EMASTER read the XMASTER file is not read either. */
  lemma XMasterNeedsEMasterRead(db: Db, files: Files, p: Platform)
    requires "MASTER" in files && "EMASTER" in files
    requires var (ok, db') := ReadMaster(db.(isNew := false), files["MASTER"], p.toULong);
      ok && !ReadEMaster(db', files["EMASTER"], p).0
    ensures LoadIndexes(db, files, p) == LoadIndexes(db, files - {"XMASTER"}, p)
  {
    var files' := files - {"XMASTER"};
    assert files'["MASTER"] == files["MASTER"] && files'["EMASTER"] == files["EMASTER"];
  }

  /** After a failed MASTER read neither EMASTER nor XMASTER is read. */
  lemma MasterFailureStopsLoad(db: Db, files: Files, p: Platform)
    requires "MASTER" in files && !ReadMaster(db.(isNew := false), files["MASTER"], p.toULong).0
    ensures LoadIndexes(db, files, p) == LoadIndexes(db, files - {"EMASTER", "XMASTER"}, p)
  {
    var files' := files - {"EMASTER", "XMASTER"};
    assert files'["MASTER"] == files["MASTER"];
  }

  // ---------------------------------------------------------------------------
  // Properties of the trading data load

  /** An insert keeps every bar and adds the new one. */
  lemma InsertKeepsBars(bars: seq<TradingDay>, k: nat, day: TradingDay)
    requires k <= |bars|
    ensures forall b :: b in bars ==> b in bars[..k] + [day] + bars[k..]
    ensures day in bars[..k] + [day] + bars[k..]
  {
    var s := bars[..k] + [day] + bars[k..];
    assert s[k] == day;
    forall b | b in bars
      ensures b in s
    {
      var i :| 0 <= i < |bars| && bars[i] == b;
      if i < k {
        assert s[i] == bars[i];
      } else {
        assert s[i + 1] == bars[i];
      }
    }
  }

  /** One record taken by the loop, whatever the order of the bars: a
      refused insert changes nothing and a bar of that date is there; an
      accepted one keeps every bar and adds `day` as one more. */
  lemma PopulateStep(asEpoch: EpochFn, e: Equity, day: TradingDay)
    ensures var (added, e') := Equities.AddTradingDayData(asEpoch, e, day.date, day.time, day.open, day.close,
                                                         day.high, day.low, day.volume, day.openInterest);
      && (!added ==> e' == e && HasDate(asEpoch, e.history.bars, day.date))
      && (added ==> (&& |e'.history.bars| == |e.history.bars| + 1
                     && day in e'.history.bars
                     && forall b :: b in e.history.bars ==> b in e'.history.bars))
  {
    AddSplicesOrRefuses(asEpoch, e.history, day);
    var (added, e') := Equities.AddTradingDayData(asEpoch, e, day.date, day.time, day.open, day.close,
                                                  day.high, day.low, day.volume, day.openInterest);
    if added {
      var k :| 0 <= k <= |e.history.bars| && e'.history.bars == e.history.bars[..k] + [day] + e.history.bars[k..];
      InsertKeepsBars(e.history.bars, k, day);
    }
  }

  /** The record loop keeps one equity's bars in date order, so no two bars
      share a date. */
  lemma {:induction false} PopulateRecordsKeepsOrder(read: nat -> Result<TradingDay, DbError>, asEpoch: EpochFn,
                                                      r: nat, count: nat, e: Equity)
    requires Sorted(asEpoch, e.history.bars)
    ensures Sorted(asEpoch, PopulateRecords(read, asEpoch, r, count, e).1.history.bars)
    decreases if r < count then count - r else 0
  {
    if r < count && read(r).Ok? {
      var day := read(r).value;
      var step := Equities.AddTradingDayData(asEpoch, e, day.date, day.time, day.open, day.close,
                                             day.high, day.low, day.volume, day.openInterest);
      if step.0 {
        var e' := step.1.(history := SetLoaded(step.1.history, true));
        assert Sorted(asEpoch, e'.history.bars) by {
          AddKeepsSorted(asEpoch, e.history, day);
          assert e'.history.bars == TradingHistories.AddTradingDayData(asEpoch, e.history, day).1.bars;
        }
        PopulateRecordsKeepsOrder(read, asEpoch, r + 1, count, e');
      }
    }
  }

  /** The record loop drops no bar that was there. */
  lemma {:induction false} PopulateRecordsKeepsBars(read: nat -> Result<TradingDay, DbError>, asEpoch: EpochFn,
                                                     r: nat, count: nat, e: Equity)
    ensures forall b :: b in e.history.bars ==> b in PopulateRecords(read, asEpoch, r, count, e).1.history.bars
    decreases if r < count then count - r else 0
  {
    if r < count && read(r).Ok? {
      var day := read(r).value;
      var step := Equities.AddTradingDayData(asEpoch, e, day.date, day.time, day.open, day.close,
                                             day.high, day.low, day.volume, day.openInterest);
      if step.0 {
        var e' := step.1.(history := SetLoaded(step.1.history, true));
        assert forall b :: b in e.history.bars ==> b in e'.history.bars by {
          PopulateStep(asEpoch, e, day);
        }
        PopulateRecordsKeepsBars(read, asEpoch, r + 1, count, e');
      }
    }
  }

  /** When the record loop passes, it added one bar per record in its
      range. */
  lemma {:induction false} PopulateRecordsPassCount(read: nat -> Result<TradingDay, DbError>, asEpoch: EpochFn,
                                                     r: nat, count: nat, e: Equity)
    ensures var (check, e') := PopulateRecords(read, asEpoch, r, count, e);
      check.Pass? ==> |e'.history.bars| == |e.history.bars| + (if r < count then count - r else 0)
    decreases if r < count then count - r else 0
  {
    if r < count && read(r).Ok? {
      var day := read(r).value;
      var step := Equities.AddTradingDayData(asEpoch, e, day.date, day.time, day.open, day.close,
                                             day.high, day.low, day.volume, day.openInterest);
      if step.0 {
        var e' := step.1.(history := SetLoaded(step.1.history, true));
        assert |e'.history.bars| == |e.history.bars| + 1 by {
          PopulateStep(asEpoch, e, day);
        }
        PopulateRecordsPassCount(read, asEpoch, r + 1, count, e');
      }
    }
  }

  /** When the record loop passes, every record in its range was read and
      its bar is among the equity's bars. */
  lemma {:induction false} PopulateRecordsPass(read: nat -> Result<TradingDay, DbError>, asEpoch: EpochFn,
                                                r: nat, count: nat, e: Equity)
    ensures var (check, e') := PopulateRecords(read, asEpoch, r, count, e);
      check.Pass? ==> forall i :: r <= i < count ==> read(i).Ok? && read(i).value in e'.history.bars
    decreases if r < count then count - r else 0
  {
    if r < count && read(r).Ok? {
      var day := read(r).value;
      var step := Equities.AddTradingDayData(asEpoch, e, day.date, day.time, day.open, day.close,
                                             day.high, day.low, day.volume, day.openInterest);
      if step.0 {
        var e' := step.1.(history := SetLoaded(step.1.history, true));
        assert day in e'.history.bars by {
          PopulateStep(asEpoch, e, day);
        }
        var res := PopulateRecords(read, asEpoch, r + 1, count, e');
        assert PopulateRecords(read, asEpoch, r, count, e) == res;
        if res.0.Pass? {
          assert forall i :: r + 1 <= i < count ==> read(i).Ok? && read(i).value in res.1.history.bars by {
            PopulateRecordsPass(read, asEpoch, r + 1, count, e');
          }
          assert day in res.1.history.bars by {
            PopulateRecordsKeepsBars(read, asEpoch, r + 1, count, e');
          }
          forall i | r <= i < count
            ensures read(i).Ok? && read(i).value in res.1.history.bars
          {
          }
        }
      }
    }
  }

  /** Record `i` is where a record loop started at `r` stopped with
      `error`: every record before it was read, and it either could not be
      read, with that error, or carries a date already among `bars`, with
      `TradingDataFileDuplicateDate`. */
  ghost predicate StopsAt(read: nat -> Result<TradingDay, DbError>, asEpoch: EpochFn, r: nat, i: nat,
                          error: DbError, bars: seq<TradingDay>) {
    && r <= i
    && (forall j :: r <= j < i ==> read(j).Ok?)
    && (|| read(i) == Err(error)
        || (error == TradingDataFileDuplicateDate && read(i).Ok? && HasDate(asEpoch, bars, read(i).value.date)))
  }

  lemma StopsAtEarlier(read: nat -> Result<TradingDay, DbError>, asEpoch: EpochFn, r: nat, i: nat,
                       error: DbError, bars: seq<TradingDay>)
    requires read(r).Ok? && StopsAt(read, asEpoch, r + 1, i, error, bars)
    ensures StopsAt(read, asEpoch, r, i, error, bars)
  {
    assert forall j :: r <= j < i ==> read(j).Ok?;
  }

  /** The record loop fails only at the first record that cannot be read
      or whose date is already among the bars it has taken. */
  lemma {:induction false} PopulateRecordsFailure(read: nat -> Result<TradingDay, DbError>, asEpoch: EpochFn,
                                                  r: nat, count: nat, e: Equity)
    ensures var (check, e') := PopulateRecords(read, asEpoch, r, count, e);
      check.Fail? ==> exists i: nat :: i < count && StopsAt(read, asEpoch, r, i, check.error, e'.history.bars)
    decreases if r < count then count - r else 0
  {
    if r < count {
      if read(r).Err? {
        assert StopsAt(read, asEpoch, r, r, read(r).error, e.history.bars);
      } else {
        var day := read(r).value;
        var step := Equities.AddTradingDayData(asEpoch, e, day.date, day.time, day.open, day.close,
                                               day.high, day.low, day.volume, day.openInterest);
        if !step.0 {
          assert HasDate(asEpoch, e.history.bars, day.date) by {
            PopulateStep(asEpoch, e, day);
          }
          assert StopsAt(read, asEpoch, r, r, TradingDataFileDuplicateDate, e.history.bars);
        } else {
          var e' := step.1.(history := SetLoaded(step.1.history, true));
          PopulateRecordsFailure(read, asEpoch, r + 1, count, e');
          var res := PopulateRecords(read, asEpoch, r + 1, count, e');
          assert PopulateRecords(read, asEpoch, r, count, e) == res;
          if res.0.Fail? {
            var i: nat :| i < count && StopsAt(read, asEpoch, r + 1, i, res.0.error, res.1.history.bars);
            StopsAtEarlier(read, asEpoch, r, i, res.0.error, res.1.history.bars);
          }
        }
      }
    }
  }

  /** A catalog as the index files leave it: sorted by symbol and without
      any bar. */
  ghost predicate FreshCatalog(c: Catalog<Equity>) {
    KeysSorted(c) && NoBars(c)
  }

  /** Every equity's bars are in strictly ascending date order. */
  ghost predicate BarsInOrder(asEpoch: EpochFn, c: Catalog<Equity>) {
    forall i :: 0 <= i < |c| ==> Sorted(asEpoch, c[i].value.history.bars)
  }

  lemma ReadMasterKeepsFresh(db: Db, file: DbFile, toULong: Bits32 -> uint64)
    requires FreshCatalog(db.equities)
    ensures FreshCatalog(ReadMaster(db, file, toULong).1.equities)
  {
    if file.Readable? && 52 <= |file.bytes| {
      ReadMasterRuns(db, file.bytes, toULong);
      MasterRecordsKeep(file.bytes, toULong, db.equities);
      var read := MasterReader(file.bytes, toULong);
      forall i | 1 <= i <= MasterCount(file.bytes) && read(i).Ok?
        ensures read(i).value.value.history.bars == []
      {
        assert read(i) == MasterEntry(file.bytes, toULong, i);
      }
      InsertEachPreserves(read, 1, MasterCount(file.bytes), db.equities, (e: Equity) => e.history.bars == []);
    } else if file.Readable? {
      ReadMasterRuns(db, file.bytes, toULong);
    }
  }

  lemma ReadXMasterKeepsFresh(db: Db, file: DbFile, toULong: Bits32 -> uint64)
    requires FreshCatalog(db.equities)
    ensures FreshCatalog(ReadXMaster(db, file, toULong).1.equities)
  {
    if file.Readable? && 149 <= |file.bytes| {
      ReadXMasterRuns(db, file.bytes, toULong);
      XMasterRecordsKeep(file.bytes, toULong, db.equities);
      var read := XMasterReader(file.bytes, toULong);
      forall i | 1 <= i <= XMasterCount(file.bytes) && read(i).Ok?
        ensures read(i).value.value.history.bars == []
      {
        assert read(i) == XMasterEntry(file.bytes, toULong, i);
      }
      InsertEachPreserves(read, 1, XMasterCount(file.bytes), db.equities, (e: Equity) => e.history.bars == []);
    } else if file.Readable? {
      ReadXMasterRuns(db, file.bytes, toULong);
    }
  }

  lemma ReadEMasterKeepsFresh(db: Db, file: DbFile, p: Platform)
    requires FreshCatalog(db.equities)
    ensures FreshCatalog(ReadEMaster(db, file, p).1.equities)
  {
    var c := ReadEMaster(db, file, p).1.equities;
    assert forall i :: 0 <= i < |c| ==> c[i].key == db.equities[i].key && c[i].value.history == db.equities[i].value.history;
  }

  /** Reading the index files keeps the catalog sorted by symbol and adds
      no bar. */
  lemma LoadIndexesKeepsFresh(db: Db, files: Files, p: Platform)
    requires FreshCatalog(db.equities)
    ensures FreshCatalog(LoadIndexes(db, files, p).1.equities)
  {
    if "MASTER" in files {
      var db1 := ReadMaster(db.(isNew := false), files["MASTER"], p.toULong).1;
      ReadMasterKeepsFresh(db.(isNew := false), files["MASTER"], p.toULong);
      if "EMASTER" in files {
        var db2 := ReadEMaster(db1, files["EMASTER"], p).1;
        ReadEMasterKeepsFresh(db1, files["EMASTER"], p);
        if "XMASTER" in files {
          ReadXMasterKeepsFresh(db2, files["XMASTER"], p.toULong);
        }
      }
    }
  }

  /** One equity's data file, when it loads, leaves its bars in date
      order. */
  lemma PopulateEquityKeepsOrder(e: Equity, files: Files, p: Platform)
    requires Sorted(p.asEpoch, e.history.bars)
    ensures var res := PopulateEquity(e, files, p);
      res.Loaded? ==> Sorted(p.asEpoch, res.equity.history.bars)
  {
    var name := DataFileName(e.dataFileType, e.dataFileNumber);
    if name in files && files[name].Readable? {
      var bytes := files[name].bytes;
      var recordSize := RecordSize(e.activeFields).GetOr(0);
      if ReadUInt(bytes, TradingDataNumRecordsOffset, UShort).Some? {
        var count := ReadUInt(bytes, TradingDataNumRecordsOffset, UShort).value;
        PopulateRecordsKeepsOrder(DataReader(bytes, e.activeFields, recordSize, p.toULong), p.asEpoch, 1, count, e);
      }
    }
  }

  /** The trading data load keeps the catalog sorted by symbol and every
      equity's bars in date order. */
  lemma {:induction false} PopulateKeepsOrder(db: Db, files: Files, p: Platform, i: nat)
    requires KeysSorted(db.equities) && BarsInOrder(p.asEpoch, db.equities)
    ensures var res := Populate(db, files, p, i);
      KeysSorted(res.equities) && BarsInOrder(p.asEpoch, res.equities)
    decreases |db.equities| - i
  {
    if i < |db.equities| {
      var outcome := PopulateEquity(db.equities[i].value, files, p);
      if outcome.Loaded? {
        var c' := UpdateAt(db.equities, i, outcome.equity);
        assert KeysSorted(c') by {
          UpdateAtSorted(db.equities, i, outcome.equity);
        }
        assert BarsInOrder(p.asEpoch, c') by {
          PopulateEquityKeepsOrder(db.equities[i].value, files, p);
          forall j | 0 <= j < |c'|
            ensures Sorted(p.asEpoch, c'[j].value.history.bars)
          {
            if j != i {
              assert c'[j] == db.equities[j];
            }
          }
        }
        var db' := db.(equities := c',
                       lastError := if outcome.check.Fail? then outcome.check.error else db.lastError);
        PopulateKeepsOrder(db', files, p, i + 1);
      }
    }
  }

  /** The load stops at the first equity whose data file is missing, does
      not open, or has no readable record count: that error is the last
      error, and the equities from that one on keep no bars they did not
      have. */
  lemma {:induction false} PopulateStopsAtFatal(db: Db, files: Files, p: Platform, i: nat, k: nat)
    requires i <= k < |db.equities|
    requires forall j :: i <= j < k ==> PopulateEquity(db.equities[j].value, files, p).Loaded?
    requires PopulateEquity(db.equities[k].value, files, p).Fatal?
    ensures var res := Populate(db, files, p, i);
      && res.lastError == PopulateEquity(db.equities[k].value, files, p).error
      && forall j :: k <= j < |db.equities| ==> res.equities[j] == db.equities[j]
    decreases k - i
  {
    if i < k {
      var outcome := PopulateEquity(db.equities[i].value, files, p);
      var db' := db.(equities := UpdateAt(db.equities, i, outcome.equity),
                     lastError := if outcome.check.Fail? then outcome.check.error else db.lastError);
      assert forall j :: i < j < |db.equities| ==> db'.equities[j] == db.equities[j];
      PopulateStopsAtFatal(db', files, p, i + 1, k);
    }
  }

  /** No equity from position `i` on meets a fatal error: each has a data
      file that opens and whose record count can be read. */
  ghost predicate NoFatalFrom(c: Catalog<Equity>, files: Files, p: Platform, i: nat) {
    forall j :: i <= j < |c| ==> PopulateEquity(c[j].value, files, p).Loaded?
  }

  /** The record loop of the equity at position `k` fails. */
  ghost predicate FailsAt(c: Catalog<Equity>, files: Files, p: Platform, k: nat) {
    k < |c| && PopulateEquity(c[k].value, files, p).Loaded? && PopulateEquity(c[k].value, files, p).check.Fail?
  }

  /** When no data file from position `i` on is fatal, a failed record loop
      ends only its own equity: every one of those equities becomes what
      its own data file makes of it, bars read before the failure
      included. */
  lemma {:induction false} PopulateCompletes(db: Db, files: Files, p: Platform, i: nat)
    requires NoFatalFrom(db.equities, files, p, i)
    ensures var res := Populate(db, files, p, i);
      forall j :: i <= j < |db.equities| ==> res.equities[j].value == PopulateEquity(db.equities[j].value, files, p).equity
    decreases |db.equities| - i
  {
    if i < |db.equities| {
      var outcome := PopulateEquity(db.equities[i].value, files, p);
      var db' := db.(equities := UpdateAt(db.equities, i, outcome.equity),
                     lastError := if outcome.check.Fail? then outcome.check.error else db.lastError);
      var res := Populate(db', files, p, i + 1);
      assert Populate(db, files, p, i) == res;
      assert NoFatalFrom(db'.equities, files, p, i + 1) by {
        forall j | i + 1 <= j < |db'.equities|
          ensures db'.equities[j] == db.equities[j]
        {
        }
      }
      PopulateCompletes(db', files, p, i + 1);
      forall j | i <= j < |db.equities|
        ensures res.equities[j].value == PopulateEquity(db.equities[j].value, files, p).equity
      {
        if j > i {
          assert db'.equities[j] == db.equities[j];
        }
      }
    }
  }

  /** No record loop from position `i` on fails. */
  ghost predicate NoFailureFrom(c: Catalog<Equity>, files: Files, p: Platform, i: nat) {
    forall k :: i <= k < |c| ==> !FailsAt(c, files, p, k)
  }

  /** One step of the pass over a non-fatal data file: the equity at `i`
      is replaced by what its file makes of it, the error of a failed loop
      is recorded, and the pass goes on at `i + 1`. Positions after `i`
      are untouched. */
  lemma PopulateNonFatalStep(db: Db, files: Files, p: Platform, i: nat)
    requires i < |db.equities| && PopulateEquity(db.equities[i].value, files, p).Loaded?
    ensures var outcome := PopulateEquity(db.equities[i].value, files, p);
      var db' := db.(equities := UpdateAt(db.equities, i, outcome.equity),
                     lastError := if outcome.check.Fail? then outcome.check.error else db.lastError);
      && Populate(db, files, p, i) == Populate(db', files, p, i + 1)
      && |db'.equities| == |db.equities|
      && (forall j :: i < j < |db.equities| ==> db'.equities[j] == db.equities[j])
  {
  }

  /** The two predicates only look at positions from `i` on. */
  lemma OutcomesFrom(c: Catalog<Equity>, c': Catalog<Equity>, files: Files, p: Platform, i: nat)
    requires |c'| == |c| && forall k :: i <= k < |c| ==> c'[k] == c[k]
    ensures NoFatalFrom(c', files, p, i) == NoFatalFrom(c, files, p, i)
    ensures NoFailureFrom(c', files, p, i) == NoFailureFrom(c, files, p, i)
    ensures forall k :: i <= k ==> FailsAt(c', files, p, k) == FailsAt(c, files, p, k)
  {
    forall k | i <= k < |c|
      ensures PopulateEquity(c'[k].value, files, p) == PopulateEquity(c[k].value, files, p)
    {
      assert c'[k] == c[k];
    }
    forall k | i <= k
      ensures FailsAt(c', files, p, k) == FailsAt(c, files, p, k)
    {
    }
    assert NoFailureFrom(c', files, p, i) == NoFailureFrom(c, files, p, i);
  }

  /** When no data file from position `i` on is fatal and no record loop
      fails, the last error is unchanged. */
  lemma {:induction false} PopulateKeepsError(db: Db, files: Files, p: Platform, i: nat)
    requires NoFatalFrom(db.equities, files, p, i) && NoFailureFrom(db.equities, files, p, i)
    ensures Populate(db, files, p, i).lastError == db.lastError
    decreases |db.equities| - i
  {
    if i < |db.equities| {
      var outcome := PopulateEquity(db.equities[i].value, files, p);
      assert !FailsAt(db.equities, files, p, i);
      PopulateNonFatalStep(db, files, p, i);
      var db' := db.(equities := UpdateAt(db.equities, i, outcome.equity));
      OutcomesFrom(db.equities, db'.equities, files, p, i + 1);
      PopulateKeepsError(db', files, p, i + 1);
    }
  }

  /** When no data file from position `i` on is fatal, the last error of
      the pass is that of the last equity whose record loop failed. */
  lemma {:induction false} PopulateLastError(db: Db, files: Files, p: Platform, i: nat, j: nat)
    requires NoFatalFrom(db.equities, files, p, i)
    requires i <= j && FailsAt(db.equities, files, p, j) && NoFailureFrom(db.equities, files, p, j + 1)
    ensures Populate(db, files, p, i).lastError == PopulateEquity(db.equities[j].value, files, p).check.error
    decreases |db.equities| - i
  {
    var outcome := PopulateEquity(db.equities[i].value, files, p);
    PopulateNonFatalStep(db, files, p, i);
    var db' := db.(equities := UpdateAt(db.equities, i, outcome.equity),
                   lastError := if outcome.check.Fail? then outcome.check.error else db.lastError);
    OutcomesFrom(db.equities, db'.equities, files, p, i + 1);
    if j == i {
      PopulateKeepsError(db', files, p, i + 1);
    } else {
      OutcomesFrom(db.equities, db'.equities, files, p, j + 1);
      PopulateLastError(db', files, p, i + 1, j);
    }
  }

  /** Opening a database leaves the catalog sorted by symbol and every
      equity's bars in date order; a lazily loaded database has no bars
      at all. */
  lemma OpenKeepsOrder(pathExists: bool, files: Files, created: bool, lazyLoad: bool, p: Platform)
    ensures var db := Open(pathExists, files, created, lazyLoad, p);
      && KeysSorted(db.equities) && BarsInOrder(p.asEpoch, db.equities)
      && (lazyLoad ==> NoBars(db.equities))
  {
    var db := NewDb(lazyLoad);
    if pathExists {
      LoadIndexesKeepsFresh(db, files, p);
      var (ok, db') := LoadIndexes(db, files, p);
      assert BarsInOrder(p.asEpoch, db'.equities);
      if !db'.isNew && ok && !lazyLoad {
        PopulateKeepsOrder(db', files, p, 0);
      }
    }
  }

  /** Opening an existing directory loads trading data only after every
      index file the reader opened was read without error, and only when
      not lazy. The constructor's check that the database is not new is
      implied: the index reads succeed only when a MASTER file exists. In
      every other case the database is where the index reads left it, and
      holds no bars. */
  lemma OpenLoadsDataOnlyAfterIndexes(pathExists: bool, files: Files, created: bool, lazyLoad: bool, p: Platform)
    ensures var db := Open(pathExists, files, created, lazyLoad, p);
      var (ok, indexed) := LoadIndexes(NewDb(lazyLoad), files, p);
      && (pathExists && ok && !lazyLoad ==> db == Populate(indexed, files, p, 0))
      && (pathExists && !(ok && !lazyLoad) ==> db == indexed && NoBars(db.equities))
      && (!pathExists ==> NoBars(db.equities))
  {
    LoadIndexesKeepsFresh(NewDb(lazyLoad), files, p);
  }

  /** An equity with no active field reads every record as the default
      bar, so once the data file holds two records the second is refused
      as a duplicate date: the equity keeps the single bar `TradingDay()`
      and the load records `TradingDataFileDuplicateDate`. XMASTER gives
      every one of its equities the bitmask 0, which activates no field. */
  lemma NoFieldEquityKeepsOneDefaultBar(e: Equity, files: Files, p: Platform)
    requires e.activeFields == FromBitMask(0) && e.history.bars == []
    requires DataFileName(e.dataFileType, e.dataFileNumber) in files
    requires var file := files[DataFileName(e.dataFileType, e.dataFileNumber)];
      file.Readable? && ReadUInt(file.bytes, TradingDataNumRecordsOffset, UShort).GetOr(0) >= 3
    ensures var res := PopulateEquity(e, files, p);
      && res.Loaded? && res.check == Fail(TradingDataFileDuplicateDate)
      && res.equity.history.bars == [DefaultDay]
  {
    var bytes := files[DataFileName(e.dataFileType, e.dataFileNumber)].bytes;
    var af := e.activeFields;
    var recordSize := RecordSize(af).GetOr(0);
    var read := DataReader(bytes, af, recordSize, p.toULong);
    assert forall f :: !IsActive(af, f);
    BarWithoutFieldsIsDefault(bytes, af, 1 * recordSize, p.toULong);
    BarWithoutFieldsIsDefault(bytes, af, 2 * recordSize, p.toULong);
    assert read(1) == Ok(DefaultDay) && read(2) == Ok(DefaultDay);
    var count := ReadUInt(bytes, TradingDataNumRecordsOffset, UShort).value;
    RepeatedBarStops(read, p.asEpoch, 1, count, e, DefaultDay);
  }

  /** A record loop on an equity with no bars that reads the same bar
      twice in a row takes it once and stops with a duplicate date. */
  lemma RepeatedBarStops(read: nat -> Result<TradingDay, DbError>, asEpoch: EpochFn, r: nat, count: nat,
                         e: Equity, d: TradingDay)
    requires r + 1 < count && e.history.bars == []
    requires read(r) == Ok(d) && read(r + 1) == Ok(d)
    ensures var (check, e') := PopulateRecords(read, asEpoch, r, count, e);
      check == Fail(TradingDataFileDuplicateDate) && e'.history.bars == [d]
  {
    var step := Equities.AddTradingDayData(asEpoch, e, d.date, d.time, d.open, d.close,
                                           d.high, d.low, d.volume, d.openInterest);
    assert step.0 && step.1.history.bars == [d];
    var e' := step.1.(history := SetLoaded(step.1.history, true));
    var again := Equities.AddTradingDayData(asEpoch, e', d.date, d.time, d.open, d.close,
                                            d.high, d.low, d.volume, d.openInterest);
    assert !again.0;
  }
}
