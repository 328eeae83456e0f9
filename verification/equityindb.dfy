/** One equity of the catalog (src/equityindb.cpp, equityindb-interface.cpp):
    what the index files say about it, and its trading history.

    An equity is created from a MASTER record or from an XMASTER record;
    an EMASTER record later adds the attributes only that file holds. The
    filler blocks of the three files are carried along unread. */
module Equities {
  import opened Outcomes
  import opened Bytes
  import opened Dates
  import opened Fields
  import opened TradingDays
  import opened TradingHistories

  /** The kind of file the trading data is in: `F<n>.DAT` for equities of
      the MASTER file, `C<n>.MWD` for those of the XMASTER file. */
  datatype DataFileType = FDAT | MWD

  /** `dataFileType2String`: the file name extension of each kind. */
  function DataFileType2String(t: DataFileType): (ext: string)
    ensures |ext| == 3
  {
    match t
    case FDAT => "DAT"
    case MWD => "MWD"
  }

  /** The kind an extension names, if any. */
  function DataFileTypeOf(ext: string): (t: Option<DataFileType>)
  {
    if ext == "DAT" then Some(FDAT)
    else if ext == "MWD" then Some(MWD)
    else None
  }

  /** The two extensions differ, and each one names its kind. */
  lemma DataFileTypeRoundTrip(t: DataFileType)
    ensures DataFileTypeOf(DataFileType2String(t)) == Some(t)
    ensures DataFileType2String(FDAT) != DataFileType2String(MWD)
  {
  }

  /** The interday periodicities; each is stored as a letter. */
  datatype Interday = InterdayNone | Daily | Weekly | Monthly | Quarterly | Yearly

  function InterdayCode(p: Interday): (code: byte) {
    match p
    case InterdayNone => 'N' as int
    case Daily => 'D' as int
    case Weekly => 'W' as int
    case Monthly => 'M' as int
    case Quarterly => 'Q' as int
    case Yearly => 'Y' as int
  }

  /** The check and cast the index readers apply to the stored letter: only
      `N`, `D`, `W`, `M`, `Q` and `Y` are accepted. */
  function InterdayOf(code: byte): (r: Option<Interday>)
    ensures r.Some? <==> code as char in "NDWMQY"
    ensures r.Some? ==> InterdayCode(r.value) == code
  {
    if code == 'N' as int then Some(InterdayNone)
    else if code == 'D' as int then Some(Daily)
    else if code == 'W' as int then Some(Weekly)
    else if code == 'M' as int then Some(Monthly)
    else if code == 'Q' as int then Some(Quarterly)
    else if code == 'Y' as int then Some(Yearly)
    else None
  }

  lemma InterdayRoundTrip(p: Interday)
    ensures InterdayOf(InterdayCode(p)) == Some(p)
  {
  }

  /** The intraday periodicities; each is stored as its number of minutes,
      0 for none. */
  datatype Intraday = IntradayNone | OneMinute | FiveMinutes | TenMinutes | OneHour

  function IntradayMinutes(p: Intraday): (minutes: nat) {
    match p
    case IntradayNone => 0
    case OneMinute => 1
    case FiveMinutes => 5
    case TenMinutes => 10
    case OneHour => 60
  }

  /** The check and cast of the MASTER reader: only 0, 1, 5, 10 and 60 are
      accepted. */
  function IntradayOf(minutes: nat): (r: Option<Intraday>)
    ensures r.Some? <==> minutes in {0, 1, 5, 10, 60}
    ensures r.Some? ==> IntradayMinutes(r.value) == minutes
  {
    if minutes == 0 then Some(IntradayNone)
    else if minutes == 1 then Some(OneMinute)
    else if minutes == 5 then Some(FiveMinutes)
    else if minutes == 10 then Some(TenMinutes)
    else if minutes == 60 then Some(OneHour)
    else None
  }

  lemma IntradayRoundTrip(p: Intraday)
    ensures IntradayOf(IntradayMinutes(p)) == Some(p)
  {
  }

  /** The fields of a MASTER record, in the order the primary constructor
      takes them. Strings are already trimmed. */
  datatype MasterRecord = MasterRecord(
    fileNumber: uint8, fileType: nat, fieldLength: uint8, numFields: uint8,
    filler2: Bytes, description: string, filler3: Bytes, ctFlag: uint8,
    firstDate: Date, lastDate: Date, interday: Interday, intraday: Intraday,
    symbol: string, filler4: Bytes, flag: uint8, filler5: Bytes)

  /** The fields of an XMASTER record, in the order the secondary
      constructor takes them. Strings are already trimmed. */
  datatype XMasterRecord = XMasterRecord(
    filler5: Bytes, symbol: string, description: string,
    filler6: Bytes, filler7: Bytes, filler8: Bytes,
    interday: Interday, filler9: Bytes, fileNumber: nat, filler10: Bytes,
    bitMask: bv8, filler11: Bytes, firstDate: Date, filler12: Bytes,
    lastDate: Date, filler13: Bytes, filler14: Bytes)

  /** The attributes only the EMASTER file holds, in the order
      `setEMASTERData` takes them. */
  datatype ExtendedData = ExtendedData(
    idCode: uint8, filler2: Bytes, filler3: Bytes, autoRun: uint8,
    filler4: Bytes, filler5: Bytes, filler6: Bytes, filler7: Bytes, filler8: Bytes,
    intradayStartTime: Bits32, filler9: Bytes, intradayEndTime: Bits32, filler10: Bytes,
    lastDivPaid: nat, lastDivAdjRate: Bits32, filler11: Bytes)

  datatype MasterFillers = MasterFillers(filler2: Bytes, filler3: Bytes, filler4: Bytes, filler5: Bytes)

  datatype XMasterFillers = XMasterFillers(
    filler5: Bytes, filler6: Bytes, filler7: Bytes, filler8: Bytes, filler9: Bytes,
    filler10: Bytes, filler11: Bytes, filler12: Bytes, filler13: Bytes, filler14: Bytes)

  /** Zero values and zero-filled fillers of the lengths each file uses:
      what an equity holds for the files it was not read from. */
  const NoExtendedData: ExtendedData :=
    ExtendedData(0, Zeros(3), Zeros(1), 0, Zeros(1), Zeros(8), Zeros(16), Zeros(4), Zeros(4),
                 FloatZero, Zeros(38), FloatZero, Zeros(1), 0, FloatZero, Zeros(53))

  const NoMasterFillers: MasterFillers := MasterFillers(Zeros(2), Zeros(1), Zeros(1), Zeros(1))

  const NoXMasterFillers: XMasterFillers :=
    XMasterFillers(Zeros(1), Zeros(1), Zeros(5), Zeros(13), Zeros(1),
                   Zeros(2), Zeros(7), Zeros(16), Zeros(3), Zeros(29))

  datatype Equity = Equity(
    dataFileNumber: nat,
    dataFileType: DataFileType,
    fileType: nat,
    recordLength: uint8,
    activeFields: ActiveFields,
    description: string,
    ctFlag: uint8,
    interday: Interday,
    intraday: Intraday,
    symbol: string,
    flag: uint8,
    extended: ExtendedData,
    masterFillers: MasterFillers,
    xmasterFillers: XMasterFillers,
    history: TradingHistory)

  /** The primary constructor: an FDAT equity whose active fields come from
      the field count, with zero EMASTER attributes, zero XMASTER fillers and
      an empty history spanning the catalog's dates. */
  function FromMaster(m: MasterRecord): (e: Equity)
    ensures e.dataFileType == FDAT && e.activeFields == FromCount(m.numFields)
    ensures e.extended == NoExtendedData && e.xmasterFillers == NoXMasterFillers
    ensures e.history == NewHistory(m.firstDate, m.lastDate)
  {
    Equity(m.fileNumber, FDAT, m.fileType, m.fieldLength, FromCount(m.numFields),
           m.description, m.ctFlag, m.interday, m.intraday, m.symbol, m.flag,
           NoExtendedData, MasterFillers(m.filler2, m.filler3, m.filler4, m.filler5),
           NoXMasterFillers, NewHistory(m.firstDate, m.lastDate))
  }

  /** The MASTER record an equity's attributes spell out, when they fit
      one: the getters read back in the constructor's parameter order. */
  function MasterView(e: Equity): Option<MasterRecord> {
    match e.activeFields.numFields
    case None => None
    case Some(n) =>
      if e.dataFileNumber < 0x100 then
        Some(MasterRecord(e.dataFileNumber, e.fileType, e.recordLength, n,
                          e.masterFillers.filler2, e.description, e.masterFillers.filler3,
                          e.ctFlag, e.history.firstDate, e.history.lastDate,
                          e.interday, e.intraday, e.symbol, e.masterFillers.filler4,
                          e.flag, e.masterFillers.filler5))
      else None
  }

  /** The primary constructor loses nothing: every argument can be read
      back from the equity it builds. */
  lemma FromMasterRoundTrip(m: MasterRecord)
    ensures MasterView(FromMaster(m)) == Some(m)
  {
  }

  /** The secondary constructor: an MWD equity of 4-byte fields whose active
      fields come from the bitmask (so no field count is set), with the
      MASTER-only attributes zero, no intraday periodicity, zero MASTER and
      EMASTER fillers, and an empty history spanning the catalog's dates. */
  function FromXMaster(x: XMasterRecord): (e: Equity)
    ensures e.dataFileType == MWD && e.fileType == 0 && e.recordLength == 4
    ensures e.ctFlag == 0 && e.flag == 0 && e.intraday == IntradayNone
    ensures e.activeFields == FromBitMask(x.bitMask) && e.activeFields.numFields.None?
    ensures e.extended == NoExtendedData && e.masterFillers == NoMasterFillers
    ensures e.history == NewHistory(x.firstDate, x.lastDate)
  {
    Equity(x.fileNumber, MWD, 0, 4, FromBitMask(x.bitMask),
           x.description, 0, x.interday, IntradayNone, x.symbol, 0,
           NoExtendedData, NoMasterFillers,
           XMasterFillers(x.filler5, x.filler6, x.filler7, x.filler8, x.filler9,
                          x.filler10, x.filler11, x.filler12, x.filler13, x.filler14),
           NewHistory(x.firstDate, x.lastDate))
  }

  /** The XMASTER record an equity's attributes spell out; the bitmask is
      read back through the active-fields getter. */
  function XMasterView(e: Equity): XMasterRecord {
    var f := e.xmasterFillers;
    XMasterRecord(f.filler5, e.symbol, e.description, f.filler6, f.filler7, f.filler8,
                  e.interday, f.filler9, e.dataFileNumber, f.filler10,
                  ToBitMask(e.activeFields), f.filler11, e.history.firstDate, f.filler12,
                  e.history.lastDate, f.filler13, f.filler14)
  }

  /** The secondary constructor loses nothing either, the bitmask included. */
  lemma FromXMasterRoundTrip(x: XMasterRecord)
    ensures XMasterView(FromXMaster(x)) == x
  {
    BitMaskRoundTrip(ActiveFields(false, false, false, false, false, false, false, false, None), x.bitMask);
  }

  /** `setEMASTERData`: stores the EMASTER-only attributes and fillers, and
      leaves symbol, description, file number and kind, active fields,
      history and every other attribute as they were. */
  function SetEMasterData(e: Equity, x: ExtendedData): (r: Equity)
    ensures r.extended == x
    ensures r.(extended := e.extended) == e
  {
    e.(extended := x)
  }

  /** A second merge overrides the first completely. */
  lemma SetEMasterDataOverrides(e: Equity, x: ExtendedData, y: ExtendedData)
    ensures SetEMasterData(SetEMasterData(e, x), y) == SetEMasterData(e, y)
  {
  }

  /** The `field*Active` getters: each field's flag, which is also its bit in
      the equity's active-fields bitmask. */
  function FieldActive(e: Equity, f: Field): (active: bool)
    ensures active <==> ToBitMask(e.activeFields) & FieldBit(f) != 0
  {
    MaskBit(e.activeFields, f);
    IsActive(e.activeFields, f)
  }

  /** `firstTradingDayDate`: the history's first date, which is the date of
      its first bar once the bounds follow the bars. */
  function FirstTradingDayDate(e: Equity): (d: Date)
    ensures BoundsMatch(e.history) && |e.history.bars| > 0 ==> d == Traverse(e.history)[0].date
  {
    TraverseDeliversAllBars(e.history);
    e.history.firstDate
  }

  /** `lastTradingDayDate`: the history's last date, which is the date of
      its last bar once the bounds follow the bars. */
  function LastTradingDayDate(e: Equity): (d: Date)
    ensures BoundsMatch(e.history) && |e.history.bars| > 0 ==>
      var t := Traverse(e.history); |t| == |e.history.bars| && d == t[|t| - 1].date
  {
    TraverseDeliversAllBars(e.history);
    e.history.lastDate
  }

  /** `addTradingDayData`: builds the bar from the arguments, in the order
      date, time, open, close, high, low, volume, open interest, and inserts
      it into the history. Nothing but the history changes. */
  function AddTradingDayData(asEpoch: EpochFn, e: Equity, date: Date, time: Bits32,
                             open: Bits32, close: Bits32, high: Bits32, low: Bits32,
                             volume: uint64, openInterest: Bits32): (r: (bool, Equity))
    ensures r.1.(history := e.history) == e
  {
    var (ok, h) := TradingHistories.AddTradingDayData(asEpoch, e.history,
                     TradingDay(date, time, open, close, high, low, volume, openInterest));
    (ok, e.(history := h))
  }

  /** On a history in date order, the insert is refused exactly when a bar
      of that date exists, and otherwise adds one bar carrying each argument
      in its own field, keeping the order. */
  lemma AddTradingDayDataInsertsBar(asEpoch: EpochFn, e: Equity, date: Date, time: Bits32,
                                    open: Bits32, close: Bits32, high: Bits32, low: Bits32,
                                    volume: uint64, openInterest: Bits32)
    requires Sorted(asEpoch, e.history.bars)
    ensures var (ok, e') := AddTradingDayData(asEpoch, e, date, time, open, close, high, low, volume, openInterest);
      && (!ok <==> HasDate(asEpoch, e.history.bars, date))
      && (!ok ==> e' == e)
      && Sorted(asEpoch, e'.history.bars)
      && (ok ==> exists k :: (0 <= k <= |e.history.bars| && e'.history.bars ==
                   e.history.bars[..k] + [TradingDay(date, time, open, close, high, low, volume, openInterest)] + e.history.bars[k..]))
  {
    var day := TradingDay(date, time, open, close, high, low, volume, openInterest);
    var (ok, h') := TradingHistories.AddTradingDayData(asEpoch, e.history, day);
    assert !ok <==> HasDate(asEpoch, e.history.bars, date) by {
      AddRefusesOnlyDuplicates(asEpoch, e.history, day);
    }
    assert Sorted(asEpoch, h'.bars) by {
      AddKeepsSorted(asEpoch, e.history, day);
    }
    assert && (!ok ==> h' == e.history)
           && (ok ==> exists k :: 0 <= k <= |e.history.bars| && h'.bars == e.history.bars[..k] + [day] + e.history.bars[k..]) by {
      AddInsertsInPlace(asEpoch, e.history, day);
    }
  }

  /** `getFirstTradingDayData`: the first bar and success, or `TradingDay()`
      (the zero date and zero in every field) and failure. */
  function GetFirstTradingDayData(e: Equity): (r: (bool, TradingDay, Equity))
    ensures r.0 <==> |e.history.bars| > 0
    ensures r.0 ==> r.1 == e.history.bars[0]
    ensures !r.0 ==> r.1 == DefaultDay
    ensures r.2.(history := e.history) == e && r.2.history.bars == e.history.bars
    ensures r.2.history == e.history.(cursor := r.2.history.cursor, cursorValid := r.2.history.cursorValid)
  {
    var (day, h) := GetFirst(e.history);
    match day
    case Some(d) => (true, d, e.(history := h))
    case None => (false, DefaultDay, e.(history := h))
  }

  /** `getNextTradingDayData`: the bar after the cursor and success, or
      `TradingDay()` and failure once the cursor is invalid or at the end. */
  function GetNextTradingDayData(e: Equity): (r: (bool, TradingDay, Equity))
    ensures r.0 <==> e.history.cursorValid && e.history.cursor + 1 < |e.history.bars|
    ensures r.0 ==> r.1 == e.history.bars[e.history.cursor + 1]
    ensures !r.0 ==> r.1 == DefaultDay
    ensures r.2.(history := e.history) == e && r.2.history.bars == e.history.bars
    ensures r.2.history == e.history.(cursor := r.2.history.cursor, cursorValid := r.2.history.cursorValid)
  {
    var (day, h) := GetNext(e.history);
    match day
    case Some(d) => (true, d, e.(history := h))
    case None => (false, DefaultDay, e.(history := h))
  }

  /** Everything the equity-level getters deliver: the first bar, then
      each following bar until the first failure. */
  function AllTradingDays(e: Equity): seq<TradingDay> {
    var (ok, day, e') := GetFirstTradingDayData(e);
    if ok then [day] + FollowingTradingDays(e') else []
  }

  function FollowingTradingDays(e: Equity): seq<TradingDay>
    decreases if e.history.cursorValid && e.history.cursor < |e.history.bars| then |e.history.bars| - e.history.cursor else 0
  {
    var (ok, day, e') := GetNextTradingDayData(e);
    if ok then [day] + FollowingTradingDays(e') else []
  }

  lemma {:induction false} FollowingTradingDaysAreSuffix(e: Equity)
    requires e.history.cursorValid && e.history.cursor < |e.history.bars|
    ensures FollowingTradingDays(e) == e.history.bars[e.history.cursor + 1..]
    decreases |e.history.bars| - e.history.cursor
  {
    var (ok, day, e') := GetNextTradingDayData(e);
    if ok {
      FollowingTradingDaysAreSuffix(e');
    }
  }

  /** Reading an equity's bars through its getters, with no insert in
      between, delivers every bar once, in date order. */
  lemma AllTradingDaysDeliversHistory(e: Equity)
    ensures AllTradingDays(e) == e.history.bars
  {
    if |e.history.bars| > 0 {
      FollowingTradingDaysAreSuffix(GetFirstTradingDayData(e).2);
    }
  }
}
