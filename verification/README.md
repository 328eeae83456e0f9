# MetaStockDB reader, modelled in Dafny

MetaStockDB reads a MetaStock database directory. The directory holds three
index files. MASTER lists the equities with `F<n>.DAT` data files. EMASTER
repeats those records and adds attributes only it holds. XMASTER lists the
equities with `C<n>.MWD` data files. The reader builds a catalog of equities
keyed by symbol from these files. It then loads the daily bars of each
equity from its trading data file, unless it was asked to load lazily. Its
callers look equities up by symbol and walk each equity's bars in date
order.

This project models that core as pure functions over immutable values:

- `Outcomes`: the `Result`, `Option` and `Check` types the decoders return.
- `Bytes`: file contents as byte sequences, and a `float` as its 4-byte
  binary32 pattern (`Bits32`).
- `MSFileIO`: the field decoders.
  - Little-endian 2- and 4-byte unsigned integers.
  - NUL-padded strings.
  - The conversion from Microsoft Binary Format (MBF32) to binary32.
  - CVS floats, plain and byte-reversed.
  - The space trim.
  - The packed YYMMDD / CYYMMDD date, decoded with its 80/20 century window.
- `Dates`: the date triple. Its comparison operators go through a
  date-to-epoch function.
- `Fields`: which of the eight 4-byte fields a data record holds.
  - The count constructor and the bitmask constructor.
  - The bitmask setter and getter, and `validBitMask`.
  - The per-field offsets and the record size.
- `TradingDays`: one bar of trading data.
- `TradingHistories`: one equity's bars, kept in date order by a
  backward-scanning insert, with a traversal cursor.
- `Equities`: one catalog entry.
  - The MASTER and XMASTER constructors and the EMASTER merge.
  - The periodicity codes and the file-type extensions.
  - The bar getters.
- `Catalogs`: the `std::map<std::string, ...>` of the reader, modelled as
  a key-sorted sequence. Its insert does nothing when the key is present.
- `IndexRecords`: the record layouts of MASTER, EMASTER, XMASTER and the
  trading data files, and the decoding of one record of each.
- `MetaStockDB`: the parts of the reader itself.
  - The constructor and the gating of the three index reads.
  - The record loops of the index files.
  - The trading data load with its fatal and non-fatal errors.
  - `find`.

The runtime's behaviour becomes parameters:

- The directory is a value. It records whether the path exists, and maps
  file names to a file that is either readable (its bytes) or present but
  impossible to open.
- `mktime`, which the date comparisons use, is a function `asEpoch` from
  dates to integers.
- The `float` to `unsigned long` conversion is a function `toULong` from
  bit patterns.
- `Platform` bundles these two functions.

Where the code and its own comments disagree, the model follows the code:

- The EMASTER ID code is one byte at offset 0 of the record, although the
  offset's comment gives it a length of 2 (metastockdb.cpp:50).
- An XMASTER record is read up to byte 149. The comment gives the record a
  size of 150 (metastockdb.cpp:83), but the trailing filler is 29 bytes from
  offset 120 (metastockdb.cpp:104), so a file that ends one byte early is
  still read without error.
- `validBitMask` is meant to accept the 4 record layouts
  (activefields.cpp:63), but it compares the mask with bitwise AND
  combinations of distinct single bits. Each of those combinations is 0, so only the mask 0
  passes. Every equity XMASTER contributes therefore has no active field.
  `Fields.ValidBitMaskAcceptsOnlyZero` and
  `MetaStockDB.NoFieldEquityKeepsOneDefaultBar` state the consequences.
- `Date::isValid` is true only for the all-zero date, which its comment
  calls invalid (date.cpp:174; `Dates.IsValidAcceptsOnlyZeroDate`).

Other behaviour that looks unintended is likewise kept as written:

- The count constructor of `ActiveFields` stores its argument in an
  `unsigned char` and switches on that byte. A count of 256 + 6 therefore
  behaves as 6, and any byte other than 5, 6 and 7 activates all eight
  fields.
- The loop over a trading data file reads records 1 up to, but not
  including, the header's record count.
- The XMASTER file is read only when an EMASTER file exists and was read
  without error.
- A failure to open EMASTER fails the read but records no error code.

## Model

| member | source | states |
|---|---|---|
| MSFileIO.ReadUInt | src/msfileio.cpp:22-63 | Only the CVL and UShort types decode. A field decodes exactly when its 4 or 2 bytes are in the file, and its value is those bytes read little-endian. |
| MSFileIO.UShortRoundTrip | src/msfileio.cpp:55-58 | A 16-bit value written as 2 little-endian bytes anywhere in a file reads back unchanged. |
| MSFileIO.CVLRoundTrip | src/msfileio.cpp:50-54 | A 32-bit value written as 4 little-endian bytes anywhere in a file reads back unchanged. |
| MSFileIO.ReadUIntBounds | src/msfileio.cpp:50-58 | A decoded integer stays below 2^16 for UShort and below 2^32 for CVL. |
| MSFileIO.ReadUByte | src/msfileio.cpp:68-77 | The read succeeds exactly when the offset is inside the file, and yields the byte stored there. |
| MSFileIO.ReadByteArray | src/msfileio.cpp:82-92 | The read succeeds exactly when all `n` bytes are in the file, and yields them verbatim. |
| MSFileIO.ReadString | src/msfileio.cpp:99-114 | The read succeeds exactly when the field is in the file. The result is the field's bytes up to the first NUL: it has no NUL, is no longer than the field, and is followed by a NUL whenever it is shorter. |
| MSFileIO.UpToNulOfPadded | src/msfileio.cpp:104-111 | A text without NULs, followed by any number of NULs, is cut back to exactly that text. |
| MSFileIO.ReadStringRoundTrip | src/msfileio.cpp:99-114 | A NUL-free text that fits its field, written NUL-padded anywhere in a file, reads back as the same text. |
| MSFileIO.MBF32ToFloat | src/msfileio.cpp:119-150 | An exponent byte of 0 gives +0.0. Otherwise the sign is cleared, the exponent is the MBF exponent minus 2 modulo 256, and the fraction is the low 23 bits of the MBF mantissa. |
| MSFileIO.FloatToMBF32 | src/msfileio.cpp:137-147 | The inverse layout: the MBF exponent is the binary32 exponent plus 2, and the sign sits in the top bit of byte 2. |
| MSFileIO.MBF32RoundTripDropsSign | src/msfileio.cpp:137-147 | For a binary32 whose exponent is not 0xFE, converting to MBF32 and back yields its absolute value. The sign is lost. |
| MSFileIO.MBF32IgnoresSign | src/msfileio.cpp:137-145 | Two MBF32 values that differ only in their sign bit decode to the same float, so negative prices read as positive. |
| MSFileIO.MBF32ExponentOneWraps | src/msfileio.cpp:142-143 | An MBF exponent byte of 1 wraps to the binary32 exponent 0xFF, an infinity or NaN, instead of a tiny number. |
| MSFileIO.CVSToFloat | src/msfileio.cpp:156-174 | The plain variant keeps the bytes. The reversed variant swaps them end for end, so the sign comes from the first stored byte. |
| MSFileIO.CVSReverseInvolution | src/msfileio.cpp:159-167 | Reversing the bytes twice restores them. |
| MSFileIO.ReadFloat | src/msfileio.cpp:180-210 | Only MBF32, CVS and reversed CVS decode. The read succeeds exactly when the 4 bytes are in the file. A CVS field is the stored pattern itself, a reversed CVS field is the 4 bytes in reverse order, and an MBF32 field is the MBF conversion of the 4 bytes. |
| MSFileIO.Trim | src/msfileio.cpp:214-220 | An all-space string is unchanged. Otherwise the result is the slice of the input between its leading and trailing runs of spaces: both runs consist of spaces only, and the result starts and ends with a non-space. |
| MSFileIO.TrimIdempotent | src/msfileio.cpp:214-220 | Trimming twice is trimming once. |
| MSFileIO.TrimRemovesPadding | src/msfileio.cpp:214-220 | Any number of spaces on either side of a text whose ends are not spaces is removed completely. |
| MSFileIO.Decimal | src/msfileio.cpp:231 | `std::to_string` of an unsigned value is a non-empty string of digits with no leading zero. |
| MSFileIO.DecimalRoundTrip | src/msfileio.cpp:231-236 | Parsing the printed digits back gives the number. |
| MSFileIO.DecimalLength | src/msfileio.cpp:231-233 | A number prints with at most `k` digits exactly when it is below 10^k. |
| MSFileIO.SixDigitDate | src/msfileio.cpp:226-244 | A six-digit value YYMMDD decodes to that date, with years 80-99 in the 1900s and 00-79 in the 2000s. |
| MSFileIO.SevenDigitCenturyDate | src/msfileio.cpp:226-244 | A seven-digit value with a leading 1 skips that digit and decodes the six after it. |
| MSFileIO.SevenDigitOtherDate | src/msfileio.cpp:226-244 | A seven-digit value with any other leading digit decodes its first six digits, so the last digit is ignored. |
| MSFileIO.FloatToDateArithmetic | src/msfileio.cpp:226-244 | Date decoding succeeds exactly for values from 100000 to 9999999. It then yields the date of the six digits it reads. |
| MSFileIO.PackDateRoundTrip | src/msfileio.cpp:226-244 | Every date from 1980 to 2079, packed as YYMMDD or 1YYMMDD, decodes to itself. |
| MSFileIO.PackedDateExamples | src/msfileio.cpp:226-244 | 180115 and 1180115 both decode to 15 January 2018, and 991231 decodes to 31 December 1999. |
| MSFileIO.ReadDate | src/msfileio.cpp:250-275 | The integer types other than CVL fail. A float field decodes as the date of its truncated value. A CVL field decodes as the date of its integer. A field past the end of the file fails. |
| Dates.ComparisonsAgree | date.cpp:132-172 | Exactly one of `<`, `==` and `>` holds for any two dates. `!=` is the negation of `==`, and `a > b` is `b < a`. |
| Dates.IsValidAcceptsOnlyZeroDate | date.cpp:174-178 | The validity test accepts only the date 0/0/0 that the default constructor builds. A real date such as 15 January 2018 fails it. |
| Bytes.ReadBytes | src/msfileio.cpp:82-92 | A block read succeeds exactly when the block is inside the file, and holds the file's bytes at those positions. |
| Bytes.Zeros | src/bytearray.cpp:26-31 | A freshly constructed filler of `n` bytes holds `n` zeros. |
| Bytes.FieldsDetermineBits | src/msfileio.cpp:141-147 | Sign, exponent and fraction determine a binary32 pattern completely. |
| Fields.FromCount | activefields.cpp:18-41 | Date, open, high, low and close are always active, and the stored count is the argument modulo 256. |
| Fields.FromCountActivates | activefields.cpp:30-40 | A stored count from 5 to 8 activates exactly that many fields. Any other count activates all eight. |
| Fields.ActivePrefixes | activefields.cpp:194-232 | The number of active fields before each position of the layout grows by one at each active field. |
| Fields.SetBitMask | activefields.cpp:75-86 | The bitmask setter changes the eight flags and leaves the stored count as it was. |
| Fields.FromBitMask | activefields.cpp:45-47 | An object built from a bitmask has no stored count. |
| Fields.MaskAsUnion | activefields.cpp:90-105 | The getter's sum of bits equals the bitwise OR of the active fields' bits. |
| Fields.MaskBit | activefields.cpp:90-105 | A field's bit is set in the getter's result exactly when the field is active. |
| Fields.BitMaskRoundTrip | activefields.cpp:75-105 | Setting any byte as the bitmask and reading the bitmask back gives the same byte. |
| Fields.FlagsRoundTrip | activefields.cpp:75-105 | Reading the bitmask and setting it again restores every flag. |
| Fields.FromCountMask | activefields.cpp:18-40 | The bitmask of a count-constructed object is 0x1F for 5, 0x3F for 6, 0x7F for 7 and 0xFF for anything else. |
| Fields.ValidBitMaskAcceptsOnlyZero | activefields.cpp:63-70 | `validBitMask` accepts a byte exactly when it is 0. None of the four record formats it was meant to accept passes. |
| Fields.Rank | activefields.cpp:194-232 | Each field has one position in the record layout. |
| Fields.OffsetFollowsLayout | activefields.cpp:194-232 | Each offset getter returns 4 bytes per active field that precedes it in the layout. |
| Fields.ActiveAmongMonotone | activefields.cpp:194-232 | Counting further along the layout never counts fewer active fields, and an active field in between counts one more. |
| Fields.OffsetsDisjoint | activefields.cpp:194-232 | Offsets are multiples of 4 and never decrease along the layout. Active fields occupy disjoint 4-byte slots inside 4 bytes per active field. |
| Fields.RecordSize | activefields.cpp:238-249 | A record size exists exactly when a count was stored, and it is a multiple of 4. |
| Fields.RecordSizeWraps | activefields.cpp:244-248 | For a count-built object the size is 4 times the count modulo 256, truncated again to a byte, so counts from 64 on wrap. |
| Fields.RecordSizeMatchesActiveFields | activefields.cpp:18-40 | The record size of a count-constructed object equals 4 bytes per active field exactly when the stored count is 5 to 8, or when the count times 4 wraps to 32 in a byte. |
| TradingHistories.NewHistory | tradinghistory.cpp:21-29 | A new history holds no bars, is not loaded, has no valid cursor, and keeps the given date range. |
| TradingHistories.SetLoaded | tradinghistory.cpp:39-41 | The setter changes the loaded flag and nothing else. |
| TradingHistories.ScanBack | tradinghistory.cpp:130-133 | The backward scan stops after every trailing bar later than the new date, at a bar that is not later. |
| TradingHistories.AddTradingDayData | tradinghistory.cpp:116-160 | The insert keeps the loaded flag and the cursor's validity. |
| TradingHistories.AddInsertsInPlace | tradinghistory.cpp:116-160 | On bars in date order, an accepted insert puts the new bar after every earlier bar and before every later one. |
| TradingHistories.AddSplicesOrRefuses | tradinghistory.cpp:116-160 | Whatever the order of the bars, a refused insert changes nothing and a bar of the same date is present, and an accepted insert splices the bar in between the old bars. |
| TradingHistories.AddRefusesOnlyDuplicates | tradinghistory.cpp:133-146 | On bars in date order, an insert is refused exactly when a bar with the same date is already present. |
| TradingHistories.SortedInsert | tradinghistory.cpp:135-156 | A bar placed between the earlier and the later bars keeps the bars in date order. |
| TradingHistories.AddKeepsSorted | tradinghistory.cpp:116-160 | Inserting keeps the bars strictly ascending by date, so no two bars share a date. |
| TradingHistories.AddMaintainsBounds | tradinghistory.cpp:119-156 | When the date range matched the first and last bars before an insert, it still does after it. An accepted insert adds one bar. |
| TradingHistories.AddKeepsCursorOnBar | tradinghistory.cpp:116-160 | An insert leaves a valid cursor on the bar it designated, because a list iterator survives insertion. |
| TradingHistories.GetFirst | tradinghistory.cpp:165-177 | The first read fails exactly on an empty history. Otherwise it returns the head bar and sets the cursor on it. Only the cursor changes. |
| TradingHistories.GetNext | tradinghistory.cpp:183-200 | A read with an invalid cursor fails and changes nothing. With a valid cursor and a following bar, the read returns that bar and advances the cursor by one. At the last bar it fails and invalidates the cursor, so every later read fails too. Only the cursor changes. |
| TradingHistories.RemainingIsSuffix | tradinghistory.cpp:183-200 | Repeated next-reads from a valid cursor deliver exactly the bars after it. |
| TradingHistories.TraverseDeliversAllBars | tradinghistory.cpp:165-200 | A first read followed by next-reads until one fails delivers every bar once, in order. |
| Equities.DataFileType2String | src/equityindb.cpp:243-249 | Each data file kind has a 3-letter extension. |
| Equities.DataFileTypeRoundTrip | src/equityindb.cpp:243-249 | The two extensions differ, and each names its kind back. |
| Equities.InterdayOf | metastockdb.cpp:443-452 | A stored letter is accepted exactly when it is one of N, D, W, M, Q and Y, and the periodicity it becomes is stored as that letter. |
| Equities.InterdayRoundTrip | src/equityindb.h:31-38 | Every interday periodicity is accepted back from its stored letter. |
| Equities.IntradayOf | metastockdb.cpp:455-467 | A stored minute count is accepted exactly when it is 0, 1, 5, 10 or 60, and the periodicity it becomes has that count. |
| Equities.IntradayRoundTrip | src/equityindb.h:41-47 | Every intraday periodicity is accepted back from its minute count. |
| Equities.FromMaster | src/equityindb.cpp:57-125 | A MASTER equity is FDAT, takes its active fields from the field count, has zeroed EMASTER and XMASTER attributes, and has an empty history over the record's dates. |
| Equities.FromMasterRoundTrip | src/equityindb.cpp:57-125 | Every constructor argument can be read back from the equity. |
| Equities.FromXMaster | src/equityindb.cpp:128-196 | An XMASTER equity is MWD, has type 0, record length 4, no flags and no intraday periodicity, takes its active fields from the bitmask with no stored count, and has an empty history over the record's dates. |
| Equities.FromXMasterRoundTrip | src/equityindb.cpp:128-196 | Every constructor argument, the bitmask included, can be read back from the equity. |
| Equities.SetEMasterData | src/equityindb.cpp:199-234 | The merge stores the EMASTER attributes and changes nothing else. |
| Equities.SetEMasterDataOverrides | src/equityindb.cpp:199-234 | A second merge overrides the first completely. |
| Equities.FieldActive | equityindb-interface.cpp:27-57 | A field is reported active exactly when its bit is set in the equity's bitmask. |
| Equities.FirstTradingDayDate | equityindb-interface.cpp:64-66 | When the date range matches the bars, the first date is the date of the first bar delivered. |
| Equities.LastTradingDayDate | equityindb-interface.cpp:69-71 | When the date range matches the bars, the last date is the date of the last bar delivered. |
| Equities.AddTradingDayData | equityindb-interface.cpp:75-77 | Adding a bar changes only the history. |
| Equities.AddTradingDayDataInsertsBar | equityindb-interface.cpp:75-77 | On bars in date order, the insert is refused exactly when the date is taken. An accepted insert keeps the bars in order and adds the bar built from the arguments. |
| Equities.GetFirstTradingDayData | equityindb-interface.cpp:82-110 | The read succeeds exactly when the equity has bars, and returns the first one. On failure it returns the default bar. Only the cursor changes. |
| Equities.GetNextTradingDayData | equityindb-interface.cpp:116-144 | The read succeeds exactly when the cursor is valid and a bar follows it, and returns that bar. On failure it returns the default bar. Only the cursor changes. |
| Equities.FollowingTradingDaysAreSuffix | equityindb-interface.cpp:116-144 | Next-reads from a valid cursor deliver exactly the bars after it. |
| Equities.AllTradingDaysDeliversHistory | equityindb-interface.cpp:82-144 | Reading an equity's bars through its getters delivers the whole history in order. |
| IndexRecords.ReadMasterHead | metastockdb.cpp:320-380 | The first 25 bytes of a MASTER record decode exactly when they are in the file. The file number and field count are the bytes at 0 and 4, and the description is the NUL-cut string at 7. |
| IndexRecords.ReadMasterTail | metastockdb.cpp:381-436 | The tail decodes only when the whole record is in the file. Its dates are the MBF32 dates at 25 and 29, and its symbol is the string at 36. Any failure of a present record is a record read error. |
| IndexRecords.DecodeMasterRecord | metastockdb.cpp:317-473 | A decoded MASTER record holds the file number, field count, trimmed description, MBF32 dates and trimmed symbol at their offsets. Its interday periodicity is the one its letter at 33 names, and its intraday periodicity the one its minutes at 34 name. A present record whose dates decode fails with the record value error when the letter is not N, D, W, M, Q or Y, or the minutes are not 0, 1, 5, 10 or 60. A present record fails only with a record read or record value error. |
| IndexRecords.ReadEMasterSymbol | metastockdb.cpp:577-584 | The symbol is read exactly when its field is in the file, and is the trimmed string at offset 11. |
| IndexRecords.ReadEMasterShared | metastockdb.cpp:599-640 | The repeated fields hold the file number at 2, the field count at 6, the untrimmed description at 32 and the CVS dates at 64 and 72. A failure is a record read error. |
| IndexRecords.CheckEMasterShared | metastockdb.cpp:644-691 | The check passes exactly when file number, field count, description and both dates equal the catalog equity's. Otherwise it fails with a header mismatch. |
| IndexRecords.ReadEMasterExtended | metastockdb.cpp:695-814 | The EMASTER-only fields decode exactly when the record is in the file. They include the ID code at 0, the bitmask byte at 7, the auto-run byte at 9, the reversed-CVS start and end times at 80 and 84, the CVL dividend at 131 and the reversed-CVS adjustment rate at 135. |
| IndexRecords.ReadXMasterHead | metastockdb.cpp:959-1014 | The first 63 bytes of an XMASTER record decode exactly when they are in the file, with the symbol at 1, the description at 16 and the interday letter at 61. |
| IndexRecords.ReadXMasterDatePair | metastockdb.cpp:1043-1077 | A date stored twice decodes exactly when both copies decode. The reversed-CVS copy is kept, and a failure is a record read error. |
| IndexRecords.ReadXMasterTail | metastockdb.cpp:1015-1091 | The tail holds the file number at 65, the bitmask byte at 70 and the reversed-CVS dates at 84 and 108. Both long-format dates must decode too. A present record fails only with a record read error. |
| IndexRecords.BuildXMasterRecord | metastockdb.cpp:1092-1141 | The record is built exactly when the bitmask passes `validBitMask` and the interday letter is accepted. The bitmask is checked first. |
| IndexRecords.DecodeXMasterRecord | metastockdb.cpp:956-1141 | A decoded XMASTER record has bitmask 0 and holds the fields at their offsets, with symbol and description trimmed. A nonzero bitmask always fails. |
| IndexRecords.DataFileNameRoundTrip | metastockdb.cpp:1194-1198 | `F<n>.DAT` and `C<n>.MWD` parse back to their kind and number, so no two equities share a data file name unless kind and number agree. |
| IndexRecords.ReadPriceField | metastockdb.cpp:1262-1304 | An inactive field reads as 0.0. An active field reads exactly when its 4 bytes at the field's offset are in the file, as MBF32. A failure is a field read error. |
| IndexRecords.ReadPrices | metastockdb.cpp:1262-1304 | The price fields of a record read exactly when every active one among them is in the file, and each is the value at its offset. |
| IndexRecords.ReadBar | metastockdb.cpp:1242-1317 | A bar reads exactly when every active field other than open interest is in the file and an active date decodes. An inactive date is 0/0/0. Volume is the converted float. Open interest is 0.0. |
| IndexRecords.BarWithoutFieldsIsDefault | metastockdb.cpp:1242-1317 | A record with no active field reads as the default bar. |
| Catalogs.StrLessIrreflexive | metastockdb.cpp:470 | No symbol is ordered before itself. |
| Catalogs.StrLessTransitive | metastockdb.cpp:470 | The symbol order is transitive. |
| Catalogs.StrLessTotal | metastockdb.cpp:470 | Two different symbols are ordered one way and not both. |
| Catalogs.AsMap | metastockdb.cpp:1346 | The map a catalog stands for has exactly the catalog's keys. |
| Catalogs.Lookup | metastockdb.cpp:1346-1352 | A lookup finds a value exactly when the key is present, and returns the value stored under it. |
| Catalogs.IndexOf | metastockdb.cpp:587-588 | A key's position is found exactly when the key is present, and the entry there carries the key and its value. |
| Catalogs.Insert | metastockdb.cpp:470-473 | An insert adds at most one entry. |
| Catalogs.InsertKeys | metastockdb.cpp:470-473 | An insert keeps the keys sorted and adds no key other than the inserted one. |
| Catalogs.InsertIfAbsent | metastockdb.cpp:470-473 | On a sorted catalog an insert keeps it sorted. It leaves the mapping unchanged when the key is present and adds the key otherwise. |
| Catalogs.InsertAsMap | metastockdb.cpp:1122-1141 | On a sorted catalog an insert acts on the mapping as insert-if-absent. |
| Catalogs.UpdateAt | metastockdb.cpp:587-588 | Replacing the value at a position changes that value only and keeps the key. |
| Catalogs.SortedKeysDistinct | metastockdb.cpp:470 | The keys of a sorted catalog are pairwise distinct. |
| Catalogs.SortedAsMap | metastockdb.cpp:1346 | In a sorted catalog the mapping holds every entry's own value. |
| Catalogs.UpdateAtSorted | metastockdb.cpp:587-588 | Replacing a value keeps a catalog sorted. |
| Catalogs.UpdateAtAsMap | metastockdb.cpp:587-588 | Replacing a value at a key's position replaces that key's value in the mapping and nothing else. |
| Catalogs.InsertEachOutcome | metastockdb.cpp:317-473 | A record loop passes exactly when every read in its range succeeds, and otherwise fails with the error of the first read that fails. |
| Catalogs.InsertExtends | metastockdb.cpp:470-473 | An insert into a sorted catalog replaces nothing, contains the key afterwards, and stores the value when the key is new. |
| Catalogs.InsertEachKeeps | metastockdb.cpp:317-473 | A record loop keeps the catalog sorted and never replaces an entry that was there. |
| Catalogs.InsertEachAddsFirst | metastockdb.cpp:317-473 | Every entry a record loop adds is the first entry read under its key. |
| Catalogs.InsertEachCovers | metastockdb.cpp:317-473 | Every entry read before the first failure has its key in the catalog. |
| Catalogs.InsertEntries | metastockdb.cpp:470-473 | Every entry after an insert is the inserted one or was already there. |
| Catalogs.InsertEachPreserves | metastockdb.cpp:317-473 | A property held by every value in the catalog and every value read holds for every value after the loop. |
| MetaStockDB.NewDb | metastockdb.cpp:154-172 | A new reader has no error, is new, keeps the lazy-load flag, and has an empty catalog. |
| MetaStockDB.MasterEntry | metastockdb.cpp:317-473 | MASTER record `r` becomes an entry exactly when it decodes. The entry is keyed by the equity's symbol and is an FDAT equity with no bars. |
| MetaStockDB.ReadMaster | metastockdb.cpp:262-491 | A MASTER file that does not open records that error. The header count is the 16-bit value at offset 0, or 0 when absent. A successful read leaves the error code unchanged. |
| MetaStockDB.CheckEMasterRecord | metastockdb.cpp:599-826 | Once its equity is found, an EMASTER record is accepted exactly when its repeated fields decode and match, and its own fields decode. It then yields those fields. A bitmask byte that differs from the equity's active fields, once everything else passed, fails with the header mismatch error. |
| MetaStockDB.MergeEMasterRecord | metastockdb.cpp:577-845 | A merged record changes only the EMASTER attributes of the catalog's equities. |
| MetaStockDB.StoreExtendedOnly | src/equityindb.cpp:199-234 | Storing EMASTER attributes in one equity changes nothing else in the catalog. |
| MetaStockDB.MergeEMasterRecords | metastockdb.cpp:574-846 | The EMASTER record loop changes only EMASTER attributes, whatever the records say. |
| MetaStockDB.ReadEMaster | metastockdb.cpp:498-864 | An EMASTER file that does not open fails the read and changes nothing, error code included. Otherwise only EMASTER attributes change, and a successful read keeps the error code. |
| MetaStockDB.XMasterEntry | metastockdb.cpp:956-1141 | XMASTER record `r` becomes an entry exactly when it decodes. The entry is keyed by the equity's symbol and is an MWD equity with no bars. |
| MetaStockDB.ReadXMaster | metastockdb.cpp:871-1158 | An XMASTER file that does not open records that error. MASTER's record count, last file number and filler, and EMASTER's filler, are kept, and a successful read keeps the error code. |
| MetaStockDB.LoadIndexes | metastockdb.cpp:182-207 | Without a MASTER file nothing is read. With one, the database is not new. |
| MetaStockDB.Open | metastockdb.cpp:154-225 | When the path is missing, the catalog is empty, the database is new, and the path-creation error is recorded exactly when creation failed. |
| MetaStockDB.Find | metastockdb.cpp:1341-1353 | `find` returns an equity exactly when its symbol is in the catalog, and returns the equity stored under it. |
| MetaStockDB.PopulateRecords | metastockdb.cpp:1238-1326 | The record loop of one equity changes only its history. |
| MetaStockDB.PopulateEquity | metastockdb.cpp:1193-1230 | A missing data file is fatal with the does-not-exist error, and one that does not open is fatal with the open error. An open file is fatal exactly when its record count cannot be read. No other error is fatal. When the file loads, only the equity's history changes. |
| MetaStockDB.Populate | metastockdb.cpp:1167-1335 | The trading data load changes only the histories and the error code. Equities before the starting position are untouched. |
| MetaStockDB.ReadMasterRuns | metastockdb.cpp:294-317 | A MASTER file shorter than its 52-byte header fails and leaves the catalog unchanged. Otherwise the read passes exactly when the record loop does, and leaves the catalog where the loop does. |
| MetaStockDB.ReadXMasterRuns | metastockdb.cpp:911-956 | The same for XMASTER, whose header is 149 bytes. |
| MetaStockDB.MasterRecordsKeep | metastockdb.cpp:317-473 | The MASTER loop keeps the catalog sorted and replaces no equity. Every equity it adds is an FDAT equity under its own symbol. |
| MetaStockDB.MasterRecordsOutcome | metastockdb.cpp:317-473 | The MASTER loop passes exactly when every record the header counts decodes. |
| MetaStockDB.MasterRecordsCover | metastockdb.cpp:317-473 | Every MASTER record decoded before the first failure has its symbol in the catalog. |
| MetaStockDB.XMasterRecordsKeep | metastockdb.cpp:1122-1141 | The XMASTER loop keeps the catalog sorted and replaces no equity, so MASTER wins over XMASTER on a shared symbol. Every equity it adds is MWD, under its own symbol, with no active field. |
| MetaStockDB.XMasterRecordsOutcome | metastockdb.cpp:956-1141 | The XMASTER loop passes exactly when every record the header counts decodes. |
| MetaStockDB.MergeEMasterRecordAccepts | metastockdb.cpp:577-845 | An EMASTER record merges exactly when its symbol reads, is in the catalog, and the record's checks pass. |
| MetaStockDB.MergeEMasterRecordStores | metastockdb.cpp:577-845 | A merge stores the record's EMASTER-only fields in the equity under its symbol and changes no other equity. |
| MetaStockDB.EMasterHeaderMismatchKeepsCatalog | metastockdb.cpp:565-571 | An EMASTER header that disagrees with MASTER's record count or last file number fails the read with a header mismatch and leaves the catalog unchanged. |
| MetaStockDB.PaddedDescriptionNeverMatches | metastockdb.cpp:664-670 | MASTER's description is trimmed when read (line 439) but EMASTER's is not (line 620). So an EMASTER description with trailing spaces never matches, and the record is rejected as a mismatch. |
| MetaStockDB.XMasterNeedsEMaster | metastockdb.cpp:194-205 | Without an EMASTER file, the XMASTER file makes no difference. |
| MetaStockDB.XMasterNeedsEMasterRead | metastockdb.cpp:194-205 | After a failed EMASTER read, the XMASTER file makes no difference. |
| MetaStockDB.MasterFailureStopsLoad | metastockdb.cpp:190-196 | After a failed MASTER read, neither EMASTER nor XMASTER makes a difference. |
| MetaStockDB.PopulateStep | metastockdb.cpp:1317-1322 | A refused bar changes nothing and its date is taken. An accepted bar keeps every old bar and adds itself as one more. |
| MetaStockDB.PopulateRecordsKeepsOrder | metastockdb.cpp:1238-1326 | The record loop keeps an equity's bars in date order. |
| MetaStockDB.PopulateRecordsKeepsBars | metastockdb.cpp:1238-1326 | The record loop drops no bar. |
| MetaStockDB.PopulateRecordsPassCount | metastockdb.cpp:1238-1326 | A record loop that passes adds one bar per record in its range. |
| MetaStockDB.PopulateRecordsPass | metastockdb.cpp:1238-1326 | A record loop that passes has read every record in its range, and each record's bar is among the equity's bars. |
| MetaStockDB.PopulateRecordsFailure | metastockdb.cpp:1238-1326 | A record loop fails only at the first record that cannot be read or whose date is taken, with the matching error. |
| MetaStockDB.ReadMasterKeepsFresh | metastockdb.cpp:262-491 | The MASTER read keeps the catalog sorted, and every equity in it has no bars. |
| MetaStockDB.ReadXMasterKeepsFresh | metastockdb.cpp:871-1158 | The XMASTER read keeps the catalog sorted, and every equity in it has no bars. |
| MetaStockDB.ReadEMasterKeepsFresh | metastockdb.cpp:498-864 | The EMASTER read keeps the catalog sorted, and every equity in it has no bars. |
| MetaStockDB.LoadIndexesKeepsFresh | metastockdb.cpp:182-207 | Reading the index files keeps the catalog sorted, and every equity in it has no bars. |
| MetaStockDB.PopulateEquityKeepsOrder | metastockdb.cpp:1193-1326 | An equity whose data file loads keeps its bars in date order. |
| MetaStockDB.PopulateKeepsOrder | metastockdb.cpp:1167-1335 | The trading data load keeps the catalog sorted and every equity's bars in date order. |
| MetaStockDB.PopulateStopsAtFatal | metastockdb.cpp:1200-1230 | The load stops at the first equity whose data file is fatal. It records that error and leaves every later equity untouched. |
| MetaStockDB.PopulateCompletes | metastockdb.cpp:1167-1335 | When no data file is fatal, each equity becomes what its own data file makes of it, even after another equity's record loop failed. A failed loop ends only its own equity. |
| MetaStockDB.PopulateKeepsError | metastockdb.cpp:1200-1328 | When no data file is fatal and no record loop fails, the load leaves the error code unchanged. |
| MetaStockDB.PopulateLastError | metastockdb.cpp:1253-1328 | When no data file is fatal, the error code after the load is the one of the last equity whose record loop failed. |
| MetaStockDB.OpenLoadsDataOnlyAfterIndexes | metastockdb.cpp:187-224 | In an existing directory the trading data is loaded exactly when every index read passed and loading is not lazy. The not-new condition follows, since the index reads pass only with a MASTER file. Otherwise the database is what the index reads left, with no bars. |
| MetaStockDB.OpenKeepsOrder | metastockdb.cpp:154-225 | An opened database has its catalog sorted and every equity's bars in date order. A lazily loaded one has no bars at all. |
| MetaStockDB.NoFieldEquityKeepsOneDefaultBar | metastockdb.cpp:1238-1322 | An equity with no active field, as every XMASTER equity is (lines 1092 and 1105), whose data file counts 3 or more records keeps a single default bar, and its load records a duplicate date. |
| MetaStockDB.RepeatedBarStops | metastockdb.cpp:1317-1322 | A record loop that reads the same bar twice takes it once and stops with a duplicate date. |

## Left out

- The filesystem plumbing of src/msfileio.cpp:281-332 is replaced by the directory value: path and file existence, path creation, and the trailing-slash handling of the database path (metastockdb.cpp:176).
- `mktime`, `gmtime`, `strftime`, `Date::asString`, `Date::asEpoch` and the date arithmetic (date.cpp:26-37, 49-85, 107-127, 145-160) are left out. They are C library calls. The comparisons take the epoch conversion as the parameter `asEpoch`.
- The numeric value of a `float` is left out. Floats are kept as bit patterns, and the `float` to `unsigned long` conversion is the parameter `toULong`. The cast of the byte buffer to `float *` at src/msfileio.cpp:170 keeps the bit pattern, which is what the model stores.
- The CVL date path converts an `unsigned long` to `float` before truncating it back. Every value below 2^24 converts exactly, and every decodable date is below 10^7, so the model passes the integer straight to the date decoder.
- Console output is left out: the diagnostics printed by the decoders, `ActiveFields::print`, `asBinaryAscii`, `asLettersAscii`, the divider and header lines, and the periodicity strings.
- `ByteArray` (src/bytearray.cpp) is modelled as plain byte sequences. Its printing helpers are left out.
- Memory management is left out: the objects leaked on failed inserts and the `ActiveFields` allocated and printed in `readXMasterFile` (metastockdb.cpp:1105-1106).
- The `m_lastErrorMessage` strings are left out. The model keeps the error codes only.
- `numBackups` and `m_DBerror` are left out. Neither affects the reads.
- `getFirstEquity`, `getNextEquityPtr` and `EquityInDB::symbol` are left out. Their definitions are not part of this model. `Find` covers the lookup.
- equity.h and the two demo programs are left out. They are interfaces and examples, not reader logic.
- The default `ActiveFields` constructor is left out. It leaves every member indeterminate, and the reader never uses it for a record it reads.
- Fields.FromBitMask: the field count the bitmask constructor leaves indeterminate is `None`. The record size derived from it is taken as 0.
- TradingHistories.GetNext: the cursor is an index rather than a list iterator. The traversal properties assume no insert happens between reads. `AddKeepsCursorOnBar` covers inserts.
- The equity's own `m_loaded` flag (src/equityindb.h:228) is left out. No constructor shown initialises it and the reader never reads it. The history's loaded flag is modelled.
- IndexRecords.ReadBar: open interest is never read; the loop resets it to 0 before each bar (metastockdb.cpp:1250), which the model reproduces.
- Concurrency and any further backup handling are not part of the reader's core.
