/** Calendar dates as the reader stores them.

    The source orders dates by converting them to seconds since the epoch
    with the C library's `mktime`, which depends on the host's time zone
    tables. That conversion is not modelled: every comparison takes the
    conversion as a parameter `asEpoch`, so each property proved here holds
    for whatever `mktime` computes. */
module Dates {
  import opened Bytes

  /** A year/month/day triple. Nothing checks that the triple is a real day. */
  datatype Date = Date(year: uint16, month: uint8, day: uint8)

  /** The conversion of a date to seconds since the epoch. */
  type EpochFn = Date -> int

  /** `Date()`: the all-zero date the source calls invalid. */
  const ZeroDate: Date := Date(0, 0, 0)

  predicate Less(asEpoch: EpochFn, a: Date, b: Date) {
    asEpoch(a) < asEpoch(b)
  }

  predicate Greater(asEpoch: EpochFn, a: Date, b: Date) {
    asEpoch(a) > asEpoch(b)
  }

  predicate Same(asEpoch: EpochFn, a: Date, b: Date) {
    asEpoch(a) == asEpoch(b)
  }

  predicate Differ(asEpoch: EpochFn, a: Date, b: Date) {
    asEpoch(a) != asEpoch(b)
  }

  /** All four operators read the same epoch value, so exactly one of
      `<`, `==`, `>` holds, `!=` is the negation of `==`, and `>` is `<`
      with its operands swapped. */
  lemma ComparisonsAgree(asEpoch: EpochFn, a: Date, b: Date)
    ensures Less(asEpoch, a, b) || Same(asEpoch, a, b) || Greater(asEpoch, a, b)
    ensures !(Less(asEpoch, a, b) && Same(asEpoch, a, b))
    ensures !(Less(asEpoch, a, b) && Greater(asEpoch, a, b))
    ensures !(Same(asEpoch, a, b) && Greater(asEpoch, a, b))
    ensures Differ(asEpoch, a, b) <==> !Same(asEpoch, a, b)
    ensures Greater(asEpoch, a, b) <==> Less(asEpoch, b, a)
  {
  }

  /** `isValid()` as written: true exactly for 0/0/0. */
  predicate IsValid(d: Date) {
    d.day == 0 && d.month == 0 && d.year == 0
  }

  /** The validity test is inverted: it accepts only the date its own
      comment calls invalid, and rejects every other date. */
  lemma IsValidAcceptsOnlyZeroDate(d: Date)
    ensures IsValid(d) <==> d == ZeroDate
    ensures IsValid(ZeroDate)
    ensures !IsValid(Date(2018, 1, 15))
  {
  }
}
