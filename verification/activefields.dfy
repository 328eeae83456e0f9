/** Which of the eight 4-byte fields a trading-data record holds, and where
    each one sits in the record (activefields.cpp). */
module Fields {
  import opened Outcomes
  import opened Bytes

  /** The fields, listed in the order they are laid out in a record. */
  datatype Field = DateField | TimeField | OpenField | HighField | LowField | CloseField | VolumeField | OpenInterestField

  const FieldCount := 8

  /** The field at position `k` of the layout. */
  function FieldAt(k: nat): Field
    requires k < FieldCount
  {
    match k
    case 0 => DateField
    case 1 => TimeField
    case 2 => OpenField
    case 3 => HighField
    case 4 => LowField
    case 5 => CloseField
    case 6 => VolumeField
    case _ => OpenInterestField
  }

  /** One flag per field, plus the field count the record size is derived
      from. Only the count constructor sets the count; the other
      constructors leave it indeterminate, which is `None` here. */
  datatype ActiveFields = ActiveFields(
    date: bool, open: bool, high: bool, low: bool, close: bool,
    volume: bool, openInterest: bool, time: bool,
    numFields: Option<uint8>)

  /** The count constructor. The count is stored in an `unsigned char`, and
      the fall-through switch runs on the stored byte: 5 keeps the five
      price fields, 6 adds volume, 7 adds open interest, and 8 or any other
      byte adds time as well. */
  function FromCount(n: nat): (af: ActiveFields)
    ensures af.date && af.open && af.high && af.low && af.close
    ensures af.numFields == Some(n % 0x100)
  {
    var stored := n % 0x100;
    var time := stored != 7 && stored != 6 && stored != 5;
    var openInterest := time || stored == 7;
    var volume := openInterest || stored == 6;
    ActiveFields(true, true, true, true, true, volume, openInterest, time, Some(stored))
  }

  function IsActive(af: ActiveFields, f: Field): bool {
    match f
    case DateField => af.date
    case TimeField => af.time
    case OpenField => af.open
    case HighField => af.high
    case LowField => af.low
    case CloseField => af.close
    case VolumeField => af.volume
    case OpenInterestField => af.openInterest
  }

  /** The number of active fields among the first `k` of the layout. */
  function ActiveAmong(af: ActiveFields, k: nat): (c: nat)
    requires k <= FieldCount
    ensures c <= k
  {
    if k == 0 then 0 else ActiveAmong(af, k - 1) + Indicator(IsActive(af, FieldAt(k - 1)))
  }

  function ActiveCount(af: ActiveFields): nat {
    ActiveAmong(af, FieldCount)
  }

  function Indicator(flag: bool): (i: nat)
    ensures i <= 1
  {
    if flag then 1 else 0
  }

  /** The active-field counts of every prefix of the layout, unrolled. */
  lemma ActivePrefixes(af: ActiveFields)
    ensures ActiveAmong(af, 1) == Indicator(af.date)
    ensures ActiveAmong(af, 2) == ActiveAmong(af, 1) + Indicator(af.time)
    ensures ActiveAmong(af, 3) == ActiveAmong(af, 2) + Indicator(af.open)
    ensures ActiveAmong(af, 4) == ActiveAmong(af, 3) + Indicator(af.high)
    ensures ActiveAmong(af, 5) == ActiveAmong(af, 4) + Indicator(af.low)
    ensures ActiveAmong(af, 6) == ActiveAmong(af, 5) + Indicator(af.close)
    ensures ActiveAmong(af, 7) == ActiveAmong(af, 6) + Indicator(af.volume)
    ensures ActiveCount(af) == ActiveAmong(af, 7) + Indicator(af.openInterest)
  {
  }

  /** The count constructor activates exactly as many fields as the stored
      count says when that count is 5 to 8, and all eight otherwise. */
  lemma FromCountActivates(n: nat)
    ensures 5 <= n % 0x100 <= 8 ==> ActiveCount(FromCount(n)) == n % 0x100
    ensures !(5 <= n % 0x100 <= 8) ==> ActiveCount(FromCount(n)) == 8
  {
    ActivePrefixes(FromCount(n));
  }

  /** The bitmask setter: each flag is the corresponding bit of `b` (date
      0x01, open 0x02, high 0x04, low 0x08, close 0x10, volume 0x20, open
      interest 0x40, time 0x80). The field count is not touched. */
  function SetBitMask(af: ActiveFields, b: bv8): (r: ActiveFields)
    ensures r.numFields == af.numFields
  {
    af.(date := b & 0x01 != 0, open := b & 0x02 != 0, high := b & 0x04 != 0,
        low := b & 0x08 != 0, close := b & 0x10 != 0, volume := b & 0x20 != 0,
        openInterest := b & 0x40 != 0, time := b & 0x80 != 0)
  }

  /** The bitmask constructor: the setter on an object whose count was
      never set. */
  function FromBitMask(b: bv8): (af: ActiveFields)
    ensures af.numFields.None?
  {
    SetBitMask(ActiveFields(false, false, false, false, false, false, false, false, None), b)
  }

  function BitValue(flag: bool, bit: bv8): bv8 {
    if flag then bit else 0
  }

  /** The bitmask getter: the sum of the bits of the active fields. */
  function ToBitMask(af: ActiveFields): (b: bv8)
  {
    BitValue(af.date, 0x01) + BitValue(af.open, 0x02) + BitValue(af.high, 0x04)
    + BitValue(af.low, 0x08) + BitValue(af.close, 0x10) + BitValue(af.volume, 0x20)
    + BitValue(af.openInterest, 0x40) + BitValue(af.time, 0x80)
  }

  /** The bit of each field in the active-fields bitmask. */
  function FieldBit(f: Field): bv8 {
    match f
    case DateField => 0x01
    case OpenField => 0x02
    case HighField => 0x04
    case LowField => 0x08
    case CloseField => 0x10
    case VolumeField => 0x20
    case OpenInterestField => 0x40
    case TimeField => 0x80
  }

  /** The bits of the getter's sum are disjoint, so the sum is their union. */
  lemma MaskAsUnion(af: ActiveFields)
    ensures ToBitMask(af) == BitValue(af.date, 0x01) | BitValue(af.open, 0x02) | BitValue(af.high, 0x04)
      | BitValue(af.low, 0x08) | BitValue(af.close, 0x10) | BitValue(af.volume, 0x20)
      | BitValue(af.openInterest, 0x40) | BitValue(af.time, 0x80)
  {
  }

  /** A field's bit is set in the bitmask exactly when the field is active. */
  lemma MaskBit(af: ActiveFields, f: Field)
    ensures ToBitMask(af) & FieldBit(f) != 0 <==> IsActive(af, f)
  {
    MaskAsUnion(af);
  }

  /** Setting a bitmask and reading it back gives the same byte. */
  lemma BitMaskRoundTrip(af: ActiveFields, b: bv8)
    ensures ToBitMask(SetBitMask(af, b)) == b
  {
  }

  /** Reading the bitmask and setting it back restores every flag. */
  lemma FlagsRoundTrip(af: ActiveFields)
    ensures SetBitMask(af, ToBitMask(af)) == af
  {
    MaskBit(af, DateField);
    MaskBit(af, TimeField);
    MaskBit(af, OpenField);
    MaskBit(af, HighField);
    MaskBit(af, LowField);
    MaskBit(af, CloseField);
    MaskBit(af, VolumeField);
    MaskBit(af, OpenInterestField);
  }

  /** The bitmask of a count-constructed object. */
  function CountMask(n: nat): bv8 {
    match n % 0x100
    case 5 => 0x1F
    case 6 => 0x3F
    case 7 => 0x7F
    case _ => 0xFF
  }

  lemma FromCountMask(n: nat)
    ensures ToBitMask(FromCount(n)) == CountMask(n)
  {
  }

  /** `validBitMask` as written: the comparison value of each of the four
      alternatives is the bitwise AND of distinct single-bit flags. */
  predicate ValidBitMask(b: bv8) {
    || b == (0x01 & 0x02 & 0x04 & 0x08 & 0x10)
    || b == (0x01 & 0x02 & 0x04 & 0x08 & 0x10 & 0x20)
    || b == (0x01 & 0x02 & 0x04 & 0x08 & 0x10 & 0x20 & 0x40)
    || b == (0x01 & 0x02 & 0x04 & 0x08 & 0x10 & 0x20 & 0x40 & 0x80)
  }

  /** Every alternative is 0, so only the empty mask passes, and none of the
      four record layouts the check is meant to accept does. */
  lemma ValidBitMaskAcceptsOnlyZero(b: bv8)
    ensures ValidBitMask(b) <==> b == 0
    ensures !ValidBitMask(0x1F) && !ValidBitMask(0x3F) && !ValidBitMask(0x7F) && !ValidBitMask(0xFF)
  {
  }

  /** The per-field offset getters, each 4 times the count of the active
      fields that precede it. The date field comes first, so its offset is
      0 whether or not it is active. */
  function Offset(af: ActiveFields, f: Field): (o: uint8)
  {
    var d := if af.date then 1 else 0;
    var t := if af.time then 1 else 0;
    var op := if af.open then 1 else 0;
    var h := if af.high then 1 else 0;
    var l := if af.low then 1 else 0;
    var c := if af.close then 1 else 0;
    var v := if af.volume then 1 else 0;
    match f
    case DateField => 0
    case TimeField => 4 * d
    case OpenField => 4 * (d + t)
    case HighField => 4 * (d + t + op)
    case LowField => 4 * (d + t + op + h)
    case CloseField => 4 * (d + t + op + h + l)
    case VolumeField => 4 * (d + t + op + h + l + c)
    case OpenInterestField => 4 * (d + t + op + h + l + c + v)
  }

  /** The position of a field in the layout. */
  function Rank(f: Field): (k: nat)
    ensures k < FieldCount && FieldAt(k) == f
  {
    match f
    case DateField => 0
    case TimeField => 1
    case OpenField => 2
    case HighField => 3
    case LowField => 4
    case CloseField => 5
    case VolumeField => 6
    case OpenInterestField => 7
  }

  /** Each getter agrees with the layout rule: 4 bytes per active field
      before it. */
  lemma OffsetFollowsLayout(af: ActiveFields, f: Field)
    ensures Offset(af, f) == 4 * ActiveAmong(af, Rank(f))
  {
    ActivePrefixes(af);
  }

  lemma {:induction false} ActiveAmongMonotone(af: ActiveFields, i: nat, j: nat)
    requires i <= j <= FieldCount
    ensures ActiveAmong(af, i) <= ActiveAmong(af, j)
    ensures i < j && IsActive(af, FieldAt(i)) ==> ActiveAmong(af, i) < ActiveAmong(af, j)
    decreases j - i
  {
    if i < j {
      ActiveAmongMonotone(af, i, j - 1);
      if i == j - 1 {
        assert ActiveAmong(af, j) == ActiveAmong(af, i) + Indicator(IsActive(af, FieldAt(i)));
      }
    }
  }

  /** Offsets are multiples of 4 that never decrease along the layout; an
      active field lies strictly before every later field, so two active
      fields never share bytes, and each active field ends within the
      4 bytes per active field of the record. */
  lemma OffsetsDisjoint(af: ActiveFields, f: Field, g: Field)
    ensures Offset(af, f) % 4 == 0
    ensures Rank(f) <= Rank(g) ==> Offset(af, f) <= Offset(af, g)
    ensures Rank(f) < Rank(g) && IsActive(af, f) ==> Offset(af, f) + 4 <= Offset(af, g)
    ensures IsActive(af, f) ==> Offset(af, f) + 4 <= 4 * ActiveCount(af)
  {
    OffsetFollowsLayout(af, f);
    OffsetFollowsLayout(af, g);
    if Rank(f) <= Rank(g) {
      ActiveAmongMonotone(af, Rank(f), Rank(g));
    }
    ActiveAmongMonotone(af, Rank(f), FieldCount);
  }

  /** The stored field count, when a constructor set one. */
  function NumFields(af: ActiveFields): Option<uint8> {
    af.numFields
  }

  /** `recordSize`: 4 bytes per counted field, truncated to an
      `unsigned char`. */
  function RecordSize(af: ActiveFields): (size: Option<uint8>)
    ensures size.Some? <==> af.numFields.Some?
    ensures size.Some? ==> size.value % 4 == 0
  {
    match af.numFields
    case Some(n) => Some(4 * n % 0x100)
    case None => None
  }

  /** The record size of a count-constructed object is four times the
      stored count, wrapped to a byte: the count is stored modulo 256 and
      the product truncated again. */
  lemma RecordSizeWraps(n: nat)
    ensures RecordSize(FromCount(n)) == Some((4 * (n % 0x100)) % 0x100)
  {
  }

  /** The record size of a count-constructed object is 4 bytes per active
      field exactly when the stored count is 5 to 8, or when its truncated
      product happens to equal 32 (counts 72, 136 and 200). Any other count
      makes records overlap or leave gaps. */
  lemma RecordSizeMatchesActiveFields(n: nat)
    ensures RecordSize(FromCount(n)) == Some(4 * ActiveCount(FromCount(n)))
        <==> (5 <= n % 0x100 <= 8 || n % 0x100 % 64 == 8)
  {
    FromCountActivates(n);
  }
}
