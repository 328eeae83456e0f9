/** The primitive field decoders of `MSFileIO` (src/msfileio.cpp).

    Every read takes the whole file and an absolute offset and fails when the
    file ends before the field does. The C++ functions also reset their
    output parameter before reading; in this model a failed read is `None`,
    and `Option.GetOr` gives the value the output parameter is left holding. */
module MSFileIO {
  import opened Outcomes
  import opened Bytes
  import opened Dates

  /** The kinds of numeric field the reader knows (`EVariablesTypes`). */
  datatype VariableType =
    | CVS     // 4-byte IEEE single float
    | CVSR    // 4-byte IEEE single float, bytes in reverse order
    | MBF32   // 4-byte Microsoft Binary Format float
    | CVL     // 4-byte unsigned integer
    | UShort  // 2-byte unsigned integer
    | UByte   // 1-byte unsigned integer

  // ---------------------------------------------------------------------------
  // Unsigned integers

  /** `readUIntFromFile`: a little-endian unsigned integer of 4 bytes (CVL) or
      2 bytes (UShort). Any other type fails before anything is read. */
  function ReadUInt(file: Bytes, offset: nat, t: VariableType): (r: Option<nat>)
    ensures t != CVL && t != UShort ==> r.None?
    ensures t == UShort ==>
      && (r.Some? <==> offset + 2 <= |file|)
      && (r.Some? ==> r.value == file[offset] as int + 0x100 * file[offset + 1] as int)
    ensures t == CVL ==>
      && (r.Some? <==> offset + 4 <= |file|)
      && (r.Some? ==> r.value == file[offset] as int + 0x100 * file[offset + 1] as int
                                 + 0x1_0000 * file[offset + 2] as int + 0x100_0000 * file[offset + 3] as int)
  {
    if t != CVL && t != UShort then None
    else if t == CVL then
      var b :- ReadBytes(file, offset, 4);
      Some(((b[3] as int * 0x100 + b[2]) * 0x100 + b[1]) * 0x100 + b[0])
    else
      var b :- ReadBytes(file, offset, 2);
      Some(b[1] as int * 0x100 + b[0])
  }

  /** The two bytes a 16-bit value occupies in the file. */
  function EncodeUShort(n: nat): (e: Bytes)
    requires n < 0x1_0000
    ensures |e| == 2
  {
    [n % 0x100, n / 0x100]
  }

  /** The four bytes a 32-bit value occupies in the file. */
  function EncodeCVL(n: nat): (e: Bytes)
    requires n < 0x1_0000_0000
    ensures |e| == 4
  {
    [n % 0x100, n / 0x100 % 0x100, n / 0x1_0000 % 0x100, n / 0x100_0000]
  }

  /** A 16-bit field written anywhere in a file reads back unchanged. */
  lemma UShortRoundTrip(before: Bytes, n: nat, after: Bytes)
    requires n < 0x1_0000
    ensures ReadUInt(before + EncodeUShort(n) + after, |before|, UShort) == Some(n)
  {
    var file := before + EncodeUShort(n) + after;
    assert file[|before|] == n % 0x100;
    assert file[|before| + 1] == n / 0x100;
  }

  /** A 32-bit field written anywhere in a file reads back unchanged. */
  lemma CVLRoundTrip(before: Bytes, n: nat, after: Bytes)
    requires n < 0x1_0000_0000
    ensures ReadUInt(before + EncodeCVL(n) + after, |before|, CVL) == Some(n)
  {
    var file := before + EncodeCVL(n) + after;
    assert file[|before|] == n % 0x100;
    assert file[|before| + 1] == n / 0x100 % 0x100;
    assert file[|before| + 2] == n / 0x1_0000 % 0x100;
    assert file[|before| + 3] == n / 0x100_0000;
    assert n / 0x100 / 0x100 == n / 0x1_0000;
    assert n / 0x1_0000 / 0x100 == n / 0x100_0000;
    assert n / 0x1_0000 == n / 0x100_0000 * 0x100 + n / 0x1_0000 % 0x100;
    assert n / 0x100 == n / 0x1_0000 * 0x100 + n / 0x100 % 0x100;
  }

  /** Decoded integers stay within the field's width. */
  lemma ReadUIntBounds(file: Bytes, offset: nat, t: VariableType)
    ensures ReadUInt(file, offset, t).Some? && t == UShort ==> ReadUInt(file, offset, t).value < 0x1_0000
    ensures ReadUInt(file, offset, t).Some? && t == CVL ==> ReadUInt(file, offset, t).value < 0x1_0000_0000
  {
  }

  /** `readUByteFromFile`. */
  function ReadUByte(file: Bytes, offset: nat): (r: Option<byte>)
    ensures r.Some? <==> offset < |file|
    ensures r.Some? ==> r.value == file[offset]
  {
    var b :- ReadBytes(file, offset, 1);
    Some(b[0])
  }

  /** `readByteArrayFromFile`: a filler block of `n` bytes, kept verbatim. */
  function ReadByteArray(file: Bytes, offset: nat, n: nat): (r: Option<Bytes>)
    ensures r.Some? <==> offset + n <= |file|
    ensures r.Some? ==> r.value == file[offset..offset + n]
  {
    ReadBytes(file, offset, n)
  }

  // ---------------------------------------------------------------------------
  // Strings

  /** The bytes before the first NUL: what `std::string(char*)` copies out of
      a buffer that has one extra NUL after its last byte. */
  function UpToNul(bs: Bytes): (r: Bytes)
    ensures |r| <= |bs|
    ensures r == bs[..|r|]
    ensures forall i :: 0 <= i < |r| ==> r[i] != 0
    ensures |r| < |bs| ==> bs[|r|] == 0
  {
    if |bs| == 0 || bs[0] == 0 then [] else [bs[0]] + UpToNul(bs[1..])
  }

  /** A byte as the `char` it is stored in. */
  function ByteChar(b: byte): char {
    b as char
  }

  function Chars(bs: Bytes): (s: string)
    ensures |s| == |bs|
  {
    seq(|bs|, i requires 0 <= i < |bs| => ByteChar(bs[i]))
  }

  /** `readStringFromFile`: a NUL-padded field of `n` bytes, cut at its first
      NUL, or all `n` bytes when it holds none. */
  function ReadString(file: Bytes, offset: nat, n: nat): (r: Option<string>)
    ensures r.Some? <==> offset + n <= |file|
    ensures r.Some? ==> |r.value| <= n
    ensures r.Some? ==> forall i :: 0 <= i < |r.value| ==> r.value[i] == ByteChar(file[offset + i]) && file[offset + i] != 0
    ensures r.Some? && |r.value| < n ==> file[offset + |r.value|] == 0
  {
    var field :- ReadBytes(file, offset, n);
    Some(Chars(UpToNul(field)))
  }

  /** A text without NULs is recovered from any NUL padding of it. */
  lemma {:induction false} UpToNulOfPadded(text: Bytes, k: nat)
    requires forall i :: 0 <= i < |text| ==> text[i] != 0
    ensures UpToNul(text + Zeros(k)) == text
  {
    if |text| > 0 {
      assert (text + Zeros(k))[1..] == text[1..] + Zeros(k);
      UpToNulOfPadded(text[1..], k);
    }
  }

  /** A string of non-NUL bytes padded with NULs to a field of width `n`. */
  function PadField(text: Bytes, n: nat): (field: Bytes)
    requires |text| <= n
    ensures |field| == n
  {
    text + Zeros(n - |text|)
  }

  /** A text written NUL-padded into its field reads back as the same text. */
  lemma ReadStringRoundTrip(before: Bytes, text: Bytes, n: nat, after: Bytes)
    requires |text| <= n
    requires forall i :: 0 <= i < |text| ==> text[i] != 0
    ensures ReadString(before + PadField(text, n) + after, |before|, n) == Some(Chars(text))
  {
    var file := before + PadField(text, n) + after;
    var field := file[|before|..|before| + n];
    assert field == PadField(text, n);
    UpToNulOfPadded(text, n - |text|);
  }

  // ---------------------------------------------------------------------------
  // Floats

  /** `MBF32ToFloat`: re-lays a Microsoft Binary Format float as a binary32
      bit pattern. An exponent byte of 0 means zero; otherwise the exponent
      is re-biased by subtracting 2 (modulo 256, as an `unsigned char`) and
      the low three bytes carry the fraction. The MBF sign bit (bit 7 of
      byte 2) is dropped and the result's sign is always clear. */
  function MBF32ToFloat(msbin: Bits32): (ieee: Bits32)
    ensures msbin.b3 == 0 ==> ieee == FloatZero
    ensures msbin.b3 != 0 ==> Sign(ieee) == 0
    ensures msbin.b3 != 0 ==> Exponent(ieee) == msbin.b3 - 2
    ensures msbin.b3 != 0 ==> Fraction(ieee) == (msbin.b2 & 0x7F, msbin.b1, msbin.b0)
  {
    if msbin.b3 == 0 then FloatZero
    else
      var sign: bv8 := 0;
      var exp: bv8 := msbin.b3 - 2;
      Bits32(msbin.b0, msbin.b1, (exp << 7) | (msbin.b2 & 0x7F), sign | (exp >> 1))
  }

  /** The MBF32 image of a binary32 value: exponent re-biased by +2, sign
      moved into bit 7 of byte 2. */
  function FloatToMBF32(ieee: Bits32): (msbin: Bits32)
    ensures msbin.b3 == Exponent(ieee) + 2
    ensures msbin.b2 >> 7 == Sign(ieee)
  {
    Bits32(ieee.b0, ieee.b1, (ieee.b2 & 0x7F) | (Sign(ieee) << 7), Exponent(ieee) + 2)
  }

  /** Converting a binary32 to MBF32 and back yields its absolute value: the
      magnitude survives, the sign never does. Only the exponent 0xFE, whose
      MBF exponent byte wraps to 0, comes back as zero instead. */
  lemma MBF32RoundTripDropsSign(ieee: Bits32)
    requires Exponent(ieee) != 0xFE
    ensures MBF32ToFloat(FloatToMBF32(ieee)) == Abs(ieee)
  {
    var m := FloatToMBF32(ieee);
    FieldsDetermineBits(MBF32ToFloat(m), Abs(ieee));
  }

  /** Two MBF32 values that differ only in their sign decode identically. */
  lemma MBF32IgnoresSign(msbin: Bits32)
    ensures MBF32ToFloat(msbin) == MBF32ToFloat(Bits32(msbin.b0, msbin.b1, msbin.b2 ^ 0x80, msbin.b3))
  {
  }

  /** An exponent byte of 1 wraps to the binary32 exponent 0xFF (infinity or
      NaN) instead of underflowing. */
  lemma MBF32ExponentOneWraps(msbin: Bits32)
    requires msbin.b3 == 1
    ensures Exponent(MBF32ToFloat(msbin)) == 0xFF
  {
  }

  /** `CVSToFloat`: the bytes already hold a binary32; the reversed variant
      swaps bytes 0 and 3 and bytes 1 and 2. It never fails. */
  function CVSToFloat(input: Bits32, reversed: bool): (f: Bits32)
    ensures !reversed ==> f == input
    ensures reversed ==> Sign(f) == input.b0 >> 7
  {
    if reversed then Bits32(input.b3, input.b2, input.b1, input.b0) else input
  }

  /** Reversing the bytes twice restores them: the swap is an involution. */
  lemma CVSReverseInvolution(input: Bits32)
    ensures CVSToFloat(CVSToFloat(input, true), true) == input
  {
  }

  /** `readFloatFromFile`: four bytes decoded as MBF32, CVS or reversed CVS.
      Any other type fails before anything is read. */
  function ReadFloat(file: Bytes, offset: nat, t: VariableType): (r: Option<Bits32>)
    ensures t !in {CVS, CVSR, MBF32} ==> r.None?
    ensures t in {CVS, CVSR, MBF32} ==> (r.Some? <==> offset + 4 <= |file|)
    ensures r.Some? && t == CVS ==> r.value == BitsOf(file[offset], file[offset + 1], file[offset + 2], file[offset + 3])
    ensures r.Some? && t == CVSR ==> r.value == CVSToFloat(BitsOf(file[offset], file[offset + 1], file[offset + 2], file[offset + 3]), true)
    ensures r.Some? && t == MBF32 ==> r.value == MBF32ToFloat(BitsOf(file[offset], file[offset + 1], file[offset + 2], file[offset + 3]))
  {
    if t != CVS && t != CVSR && t != MBF32 then None
    else
      var b :- ReadBytes(file, offset, 4);
      var raw := BitsOf(b[0], b[1], b[2], b[3]);
      match t
      case MBF32 => Some(MBF32ToFloat(raw))
      case CVS => Some(CVSToFloat(raw, false))
      case CVSR => Some(CVSToFloat(raw, true))
  }

  // ---------------------------------------------------------------------------
  // Trim

  /** The number of leading `' '` characters (`find_first_not_of(' ')`). */
  function LeadingSpaces(s: string): (k: nat)
    ensures k <= |s|
    ensures forall i :: 0 <= i < k ==> s[i] == ' '
    ensures k < |s| ==> s[k] != ' '
  {
    if |s| == 0 || s[0] != ' ' then 0 else 1 + LeadingSpaces(s[1..])
  }

  /** The number of trailing `' '` characters (`find_last_not_of(' ')`). */
  function TrailingSpaces(s: string): (k: nat)
    ensures k <= |s|
    ensures forall i :: |s| - k <= i < |s| ==> s[i] == ' '
    ensures k < |s| ==> s[|s| - 1 - k] != ' '
  {
    if |s| == 0 || s[|s| - 1] != ' ' then 0 else 1 + TrailingSpaces(s[..|s| - 1])
  }

  predicate AllSpaces(s: string) {
    forall i :: 0 <= i < |s| ==> s[i] == ' '
  }

  /** `trim`: drops leading and trailing `' '` (and no other character). A
      string that is empty or all spaces is returned unchanged. */
  function Trim(s: string): (r: string)
    ensures AllSpaces(s) ==> r == s
    ensures !AllSpaces(s) ==> 0 < |r| && r[0] != ' ' && r[|r| - 1] != ' '
    ensures !AllSpaces(s) ==> LeadingSpaces(s) + |r| <= |s| && r == s[LeadingSpaces(s)..LeadingSpaces(s) + |r|]
    ensures !AllSpaces(s) ==> AllSpaces(s[..LeadingSpaces(s)]) && AllSpaces(s[LeadingSpaces(s) + |r|..])
  {
    var first := LeadingSpaces(s);
    if first == |s| then s
    else
      var last := |s| - 1 - TrailingSpaces(s);
      s[first..last + 1]
  }

  /** Trimming twice is trimming once. */
  lemma TrimIdempotent(s: string)
    ensures Trim(Trim(s)) == Trim(s)
  {
    var t := Trim(s);
    if !AllSpaces(s) {
      assert LeadingSpaces(t) == 0;
      assert TrailingSpaces(t) == 0;
    }
  }

  function Spaces(n: nat): (s: string)
    ensures |s| == n && AllSpaces(s)
  {
    seq(n, _ => ' ')
  }

  /** Trim undoes space padding on both sides of a text whose ends are not
      spaces. */
  lemma TrimRemovesPadding(left: nat, text: string, right: nat)
    requires 0 < |text| && text[0] != ' ' && text[|text| - 1] != ' '
    ensures Trim(Spaces(left) + text + Spaces(right)) == text
  {
    var s := Spaces(left) + text + Spaces(right);
    assert s[left] == text[0];
    assert !AllSpaces(s);
    assert s[|s| - 1 - right] == text[|text| - 1];
  }

  // ---------------------------------------------------------------------------
  // Packed dates

  function DigitChar(d: nat): (c: char)
    requires d < 10
    ensures '0' <= c <= '9'
  {
    ('0' as int + d) as char
  }

  predicate IsDigit(c: char) {
    '0' <= c <= '9'
  }

  /** `std::to_string` of an unsigned integer: its decimal digits, most
      significant first, with no leading zero. */
  function Decimal(n: nat): (s: string)
    ensures 0 < |s|
    ensures forall i :: 0 <= i < |s| ==> IsDigit(s[i])
    ensures n >= 10 ==> s[0] != '0'
    decreases n
  {
    if n < 10 then [DigitChar(n)] else Decimal(n / 10) + [DigitChar(n % 10)]
  }

  /** The value of one digit character. */
  function DigitOf(c: char): (d: nat)
    requires IsDigit(c)
    ensures d < 10
  {
    c as int - '0' as int
  }

  /** The value of a decimal digit string (`std::stoi` on digits). */
  function DecimalValue(s: string): nat
    requires forall i :: 0 <= i < |s| ==> IsDigit(s[i])
  {
    if |s| == 0 then 0 else 10 * DecimalValue(s[..|s| - 1]) + DigitOf(s[|s| - 1])
  }

  /** Printing and parsing back a number gives the number. */
  lemma {:induction false} DecimalRoundTrip(n: nat)
    ensures DecimalValue(Decimal(n)) == n
    decreases n
  {
    if n >= 10 {
      DecimalRoundTrip(n / 10);
      var s := Decimal(n);
      assert s[..|s| - 1] == Decimal(n / 10);
    }
  }

  function Pow10(k: nat): (p: nat)
    ensures p >= 1
  {
    if k == 0 then 1 else 10 * Pow10(k - 1)
  }

  /** A number has at most `k` digits exactly when it is below `10^k`. */
  lemma {:induction false} DecimalLength(n: nat, k: nat)
    requires k >= 1
    ensures |Decimal(n)| <= k <==> n < Pow10(k)
    decreases n
  {
    if n >= 10 {
      if k == 1 {
        assert Pow10(1) == 10;
      } else {
        DecimalLength(n / 10, k - 1);
      }
    } else {
      PowAtLeastTen(k);
    }
  }

  lemma {:induction false} PowAtLeastTen(k: nat)
    requires k >= 1
    ensures Pow10(k) >= 10
  {
    if k > 1 {
      PowAtLeastTen(k - 1);
    }
  }

  /** The value of two digit characters, as `std::stoi(str.substr(i, 2))`. */
  function TwoDigits(s: string, i: nat): (v: nat)
    requires i + 2 <= |s|
    requires IsDigit(s[i]) && IsDigit(s[i + 1])
    ensures v < 100
  {
    DigitOf(s[i]) * 10 + DigitOf(s[i + 1])
  }

  /** `floatToDate`, applied to the integer the float was truncated to. The
      decimal form must have 6 or 7 digits. A 7-digit form whose first digit
      is `'1'` skips that digit; every other form is read from its first
      digit, so the seventh digit of a 7-digit form starting with 2..9 is
      ignored. The remaining six digits are YYMMDD; YY >= 80 means 19YY and
      anything else 20YY. Month and day are not range-checked. */
  function FloatToDate(n: nat): (r: Option<Date>)
  {
    var s := Decimal(n);
    if |s| == 6 || |s| == 7 then
      var skip := if s[0] == '1' && |s| > 6 then 1 else 0;
      var yy := TwoDigits(s, skip);
      var year := yy + (if yy >= 80 then 1900 else 2000);
      var month := TwoDigits(s, 2 + skip);
      var day := TwoDigits(s, 4 + skip);
      Some(Date(year, month, day))
    else
      None
  }

  /** The six digits YYMMDD that `FloatToDate` reads from `n`. */
  function UsedDigits(n: nat): nat {
    if n < 1_000_000 then n
    else if n < 2_000_000 then n - 1_000_000
    else n / 10
  }

  /** The date a YYMMDD number denotes under the 80/20 century window. */
  function DateOfYYMMDD(m: nat): Date
    requires m < 1_000_000
  {
    var yy := m / 10000;
    Date(yy + (if yy >= 80 then 1900 else 2000), m / 100 % 100, m % 100)
  }

  /** A number of two or more digits prints as its quotient by ten followed
      by its last digit. */
  lemma AppendDigit(n: nat, prefix: string)
    requires n >= 10 && Decimal(n / 10) == prefix
    ensures Decimal(n) == prefix + [DigitChar(n % 10)]
  {
  }

  lemma SixDigits(n: nat)
    requires 100_000 <= n < 1_000_000
    ensures Decimal(n) == [DigitChar(n / 100_000), DigitChar(n / 10_000 % 10), DigitChar(n / 1000 % 10),
                           DigitChar(n / 100 % 10), DigitChar(n / 10 % 10), DigitChar(n % 10)]
  {
    var q1, q2, q3, q4, q5 := n / 10, n / 100, n / 1000, n / 10_000, n / 100_000;
    assert q1 / 10 == q2 && q2 / 10 == q3 && q3 / 10 == q4 && q4 / 10 == q5 && q5 < 10;
    AppendDigit(q4, [DigitChar(q5)]);
    AppendDigit(q3, [DigitChar(q5), DigitChar(q4 % 10)]);
    AppendDigit(q2, [DigitChar(q5), DigitChar(q4 % 10), DigitChar(q3 % 10)]);
    AppendDigit(q1, [DigitChar(q5), DigitChar(q4 % 10), DigitChar(q3 % 10), DigitChar(q2 % 10)]);
    AppendDigit(n, [DigitChar(q5), DigitChar(q4 % 10), DigitChar(q3 % 10), DigitChar(q2 % 10), DigitChar(q1 % 10)]);
  }

  lemma SevenDigits(n: nat)
    requires 1_000_000 <= n < 10_000_000
    ensures Decimal(n) == [DigitChar(n / 1_000_000), DigitChar(n / 100_000 % 10), DigitChar(n / 10_000 % 10),
                           DigitChar(n / 1000 % 10), DigitChar(n / 100 % 10), DigitChar(n / 10 % 10),
                           DigitChar(n % 10)]
  {
    var q := n / 10;
    assert q / 100_000 == n / 1_000_000 && q / 10_000 == n / 100_000 && q / 1000 == n / 10_000
           && q / 100 == n / 1000 && q / 10 == n / 100;
    assert Decimal(q) == [DigitChar(q / 100_000), DigitChar(q / 10_000 % 10), DigitChar(q / 1000 % 10),
                          DigitChar(q / 100 % 10), DigitChar(q / 10 % 10), DigitChar(q % 10)] by {
      SixDigits(q);
    }
    AppendDigit(n, Decimal(q));
  }

  /** Two digit characters read back as the two-digit number they spell. */
  lemma DigitPair(s: string, i: nat, a: nat, b: nat)
    requires a < 10 && b < 10 && i + 2 <= |s|
    requires s[i] == DigitChar(a) && s[i + 1] == DigitChar(b)
    ensures TwoDigits(s, i) == 10 * a + b
  {
  }

  /** A number below 100 is its tens digit and its units digit. */
  lemma HundredSplit(y: nat)
    ensures y % 100 == 10 * (y / 10 % 10) + y % 10
  {
  }

  lemma ModTenShift(a: nat, x: nat)
    ensures (10 * a + x) % 10 == x % 10
  {
  }

  /** The three two-digit groups of a number below a million, digit by digit. */
  lemma SixDigitGroups(m: nat)
    requires m < 1_000_000
    ensures m / 10_000 == 10 * (m / 100_000) + m / 10_000 % 10
    ensures m / 100 % 100 == 10 * (m / 1000 % 10) + m / 100 % 10
    ensures m % 100 == 10 * (m / 10 % 10) + m % 10
  {
    HundredSplit(m / 100);
    HundredSplit(m);
    assert m / 10_000 / 10 == m / 100_000;
    assert m / 100 / 10 == m / 1000;
  }

  /** Below the leading `1`, the digits of `1_000_000 + m` are those of `m`. */
  lemma CenturyDigitShift(m: nat)
    requires m < 1_000_000
    ensures (1_000_000 + m) / 1_000_000 == 1
    ensures (1_000_000 + m) / 100_000 % 10 == m / 100_000
    ensures (1_000_000 + m) / 10_000 % 10 == m / 10_000 % 10
    ensures (1_000_000 + m) / 1000 % 10 == m / 1000 % 10
    ensures (1_000_000 + m) / 100 % 10 == m / 100 % 10
    ensures (1_000_000 + m) / 10 % 10 == m / 10 % 10
    ensures (1_000_000 + m) % 10 == m % 10
  {
    assert (1_000_000 + m) / 100_000 == 10 + m / 100_000;
    assert (1_000_000 + m) / 10_000 == 100 + m / 10_000;
    assert (1_000_000 + m) / 1000 == 1000 + m / 1000;
    assert (1_000_000 + m) / 100 == 10_000 + m / 100;
    assert (1_000_000 + m) / 10 == 100_000 + m / 10;
    ModTenShift(1, m / 100_000);
    ModTenShift(10, m / 10_000);
    ModTenShift(100, m / 1000);
    ModTenShift(1000, m / 100);
    ModTenShift(10_000, m / 10);
    ModTenShift(100_000, m);
  }

  lemma SixDigitDate(n: nat)
    requires 100_000 <= n < 1_000_000
    ensures FloatToDate(n) == Some(DateOfYYMMDD(n))
  {
    var s := Decimal(n);
    assert s == [DigitChar(n / 100_000), DigitChar(n / 10_000 % 10), DigitChar(n / 1000 % 10),
                 DigitChar(n / 100 % 10), DigitChar(n / 10 % 10), DigitChar(n % 10)] by {
      SixDigits(n);
    }
    assert TwoDigits(s, 0) == n / 10_000 && TwoDigits(s, 2) == n / 100 % 100 && TwoDigits(s, 4) == n % 100 by {
      SixDigitGroups(n);
      DigitPair(s, 0, n / 100_000, n / 10_000 % 10);
      DigitPair(s, 2, n / 1000 % 10, n / 100 % 10);
      DigitPair(s, 4, n / 10 % 10, n % 10);
    }
  }

  lemma SevenDigitCenturyDate(n: nat)
    requires 1_000_000 <= n < 2_000_000
    ensures FloatToDate(n) == Some(DateOfYYMMDD(n - 1_000_000))
  {
    var m := n - 1_000_000;
    var s := Decimal(n);
    assert s == [DigitChar(1), DigitChar(m / 100_000), DigitChar(m / 10_000 % 10), DigitChar(m / 1000 % 10),
                 DigitChar(m / 100 % 10), DigitChar(m / 10 % 10), DigitChar(m % 10)] by {
      SevenDigits(n);
      CenturyDigitShift(m);
    }
    assert TwoDigits(s, 1) == m / 10_000 && TwoDigits(s, 3) == m / 100 % 100 && TwoDigits(s, 5) == m % 100 by {
      SixDigitGroups(m);
      DigitPair(s, 1, m / 100_000, m / 10_000 % 10);
      DigitPair(s, 3, m / 1000 % 10, m / 100 % 10);
      DigitPair(s, 5, m / 10 % 10, m % 10);
    }
  }

  lemma SevenDigitOtherDate(n: nat)
    requires 2_000_000 <= n < 10_000_000
    ensures FloatToDate(n) == Some(DateOfYYMMDD(n / 10))
  {
    var m := n / 10;
    var s := Decimal(n);
    assert s == Decimal(m) + [DigitChar(n % 10)];
    assert Decimal(m) == [DigitChar(m / 100_000), DigitChar(m / 10_000 % 10), DigitChar(m / 1000 % 10),
                          DigitChar(m / 100 % 10), DigitChar(m / 10 % 10), DigitChar(m % 10)] by {
      SixDigits(m);
    }
    assert s[0] != '1' by {
      assert m / 100_000 >= 2;
    }
    assert TwoDigits(s, 0) == m / 10_000 && TwoDigits(s, 2) == m / 100 % 100 && TwoDigits(s, 4) == m % 100 by {
      SixDigitGroups(m);
      DigitPair(s, 0, m / 100_000, m / 10_000 % 10);
      DigitPair(s, 2, m / 1000 % 10, m / 100 % 10);
      DigitPair(s, 4, m / 10 % 10, m % 10);
    }
  }

  /** `FloatToDate` in arithmetic terms: it succeeds exactly for 6- and
      7-digit numbers, and then decodes the six digits `UsedDigits(n)` as
      YYMMDD. */
  lemma FloatToDateArithmetic(n: nat)
    ensures FloatToDate(n).Some? <==> 100_000 <= n < 10_000_000
    ensures 100_000 <= n < 10_000_000 ==> UsedDigits(n) < 1_000_000 && FloatToDate(n) == Some(DateOfYYMMDD(UsedDigits(n)))
  {
    if n < 100_000 || n >= 10_000_000 {
      DecimalLength(n, 5);
      DecimalLength(n, 7);
      assert Pow10(5) == 100_000 && Pow10(7) == 10_000_000;
      if n < 100_000 {
        DecimalLength(n, 6);
        assert Pow10(6) == 1_000_000;
      }
    } else if n < 1_000_000 {
      SixDigitDate(n);
    } else if n < 2_000_000 {
      SevenDigitCenturyDate(n);
    } else {
      SevenDigitOtherDate(n);
    }
  }

  /** The packed number a date is stored as: YYMMDD for 1980..1999 and
      1YYMMDD (century digit 1) for 2000..2079. */
  function PackDate(d: Date): nat
    requires 1980 <= d.year <= 2079 && d.month < 100 && d.day < 100
  {
    if d.year < 2000 then (d.year - 1900) * 10000 + d.month * 100 + d.day
    else 1_000_000 + (d.year - 2000) * 10000 + d.month * 100 + d.day
  }

  /** Every date in the 1980..2079 window survives packing and decoding. */
  lemma YYMMDDParts(yy: nat, mm: nat, dd: nat)
    requires yy < 100 && mm < 100 && dd < 100
    ensures (yy * 10000 + mm * 100 + dd) / 10000 == yy
    ensures (yy * 10000 + mm * 100 + dd) / 100 % 100 == mm
    ensures (yy * 10000 + mm * 100 + dd) % 100 == dd
  {
  }

  lemma PackDateRoundTrip(d: Date)
    requires 1980 <= d.year <= 2079 && d.month < 100 && d.day < 100
    ensures FloatToDate(PackDate(d)) == Some(d)
  {
    var yy := if d.year < 2000 then d.year - 1900 else d.year - 2000;
    var m := yy * 10000 + d.month * 100 + d.day;
    assert DateOfYYMMDD(m) == d by {
      YYMMDDParts(yy, d.month, d.day);
    }
    if d.year < 2000 {
      assert PackDate(d) == m;
      SixDigitDate(m);
    } else {
      assert PackDate(d) == 1_000_000 + m;
      SevenDigitCenturyDate(1_000_000 + m);
    }
  }

  /** The packed forms of 15 January 2018 and 31 December 1999. */
  lemma PackedDateExamples()
    ensures FloatToDate(180115) == Some(Date(2018, 1, 15))
    ensures FloatToDate(1180115) == Some(Date(2018, 1, 15))
    ensures FloatToDate(991231) == Some(Date(1999, 12, 31))
  {
    SixDigitDate(180115);
    assert DateOfYYMMDD(180115) == Date(2018, 1, 15);
    PackDateRoundTrip(Date(2018, 1, 15));
    assert PackDate(Date(2018, 1, 15)) == 1180115;
    PackDateRoundTrip(Date(1999, 12, 31));
    assert PackDate(Date(1999, 12, 31)) == 991231;
  }

  /** `readDateFromFile`: a float field (MBF32, CVS or reversed CVS) truncated
      to an integer by `toULong`, or a CVL integer, decoded by `FloatToDate`.
      The 2-byte and 1-byte types fail. */
  function ReadDate(file: Bytes, offset: nat, t: VariableType, toULong: Bits32 -> uint64): (r: Option<Date>)
    ensures t == UShort || t == UByte ==> r.None?
    ensures t in {CVS, CVSR, MBF32} && offset + 4 <= |file| ==> r == FloatToDate(toULong(ReadFloat(file, offset, t).value))
    ensures t == CVL && offset + 4 <= |file| ==> r == FloatToDate(ReadUInt(file, offset, CVL).value)
    ensures offset + 4 > |file| ==> r.None?
  {
    match t
    case MBF32 | CVS | CVSR =>
      var f :- ReadFloat(file, offset, t);
      FloatToDate(toULong(f))
    case CVL =>
      var n :- ReadUInt(file, offset, CVL);
      FloatToDate(n)
    case _ => None
  }
}
