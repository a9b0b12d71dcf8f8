/**
 * How the column accessors turn values into the integers stored in a column's
 * data file: the bit-packed DATE, DATETIME and TIME words, DECIMAL as a count of
 * ten-thousandths, and IPV4 as four packed octets.
 */
module Encodings {
  import opened Wrappers
  import opened Bytes
  import opened Bits

  /**
   * The calendar fields exchanged with the caller, read in UTC. As in Java's
   * `Calendar`, `month` counts from 0 (January) to 11.
   */
  datatype Calendar = Calendar(
    year: int, month: int, day: int,
    hour: int, minute: int, second: int, millisecond: int)

  /** The field ranges of every Gregorian calendar value. */
  predicate WellFormed(c: Calendar) {
    && 0 <= c.month < 12 && 1 <= c.day <= 31
    && 0 <= c.hour < 24 && 0 <= c.minute < 60 && 0 <= c.second < 60
    && 0 <= c.millisecond < 1000
  }

  /** Years whose offset from 1900 fits the 11-bit signed year field of DATE and DATETIME. */
  predicate PackableYear(year: int) {
    -1024 <= year - 1900 < 1024
  }

  /** A pure arithmetic fact: the bit field above `below` and under `above` comes back out. */
  lemma FieldOf(s: int, above: int, f: int, below: int, p: int, q: int)
    requires p > 0 && q > 0 && 0 <= f < q && 0 <= below < p
    requires s == (above * q + f) * p + below
    ensures s / p == above * q + f
    ensures (s / p) % q == f
    ensures (s / p) / q == above
  {
    DivModUnique(s, p, above * q + f, below);
    DivModUnique(above * q + f, q, above, f);
  }

  // DATE: year-1900 from bit 21, month+1 in bits 17..20, day in bits 12..16.

  function DateFields(c: Calendar): seq<(int, nat)> {
    [(c.year - 1900, 21), (c.month + 1, 17), (c.day, 12)]
  }

  /** The DATE word `setCalendar` stores: the fields shifted into place and OR-ed. */
  function EncodeDate(c: Calendar): int32 {
    Pow256Widths();
    Pack(DateFields(c), 4)
  }

  /** The calendar `getCalendar` builds from a DATE word; the time of day is cleared. */
  function DecodeDate(v: int32): Calendar {
    Calendar(1900 + Shr(v, 21), Low(Shr(v, 17), 4) - 1, Low(Shr(v, 12), 5), 0, 0, 0, 0)
  }

  lemma DateFieldsDisjoint(c: Calendar)
    requires WellFormed(c)
    ensures Disjoint(DateFields(c), 4)
  {
    var fs := DateFields(c);
    Pow2Table();
    assert fs[1].0 * Pow2(fs[1].1) == (c.month + 1) * 0x2_0000 < Pow2(fs[0].1);
    assert fs[2].0 * Pow2(fs[2].1) == c.day * 0x1000 < Pow2(fs[1].1);
  }

  lemma DateFieldsSum(c: Calendar)
    ensures Sum(DateFields(c)) == (c.year - 1900) * 0x20_0000 + (c.month + 1) * 0x2_0000 + c.day * 0x1000
  {
    var fs := DateFields(c);
    Pow2Table();
    SumSnoc(fs, 1);
    SumSnoc(fs, 2);
    SumSnoc(fs, 3);
    assert fs[..0] == [] && fs[..3] == fs;
  }

  /** The DATE word is the plain sum of its shifted fields. */
  lemma DateWord(c: Calendar)
    requires WellFormed(c) && PackableYear(c.year)
    ensures EncodeDate(c) == (c.year - 1900) * 0x20_0000 + (c.month + 1) * 0x2_0000 + c.day * 0x1000
  {
    DateFieldsDisjoint(c);
    PackSum(DateFields(c), 4);
    DateFieldsSum(c);
    Pow256Widths();
    WrapInRange(Sum(DateFields(c)), 4);
  }

  /** DATE round trip: reading back a stored date gives its year, month and day. */
  lemma DateRoundTrip(c: Calendar)
    requires WellFormed(c) && PackableYear(c.year)
    ensures DecodeDate(EncodeDate(c)) == Calendar(c.year, c.month, c.day, 0, 0, 0, 0)
  {
    DateWord(c);
    var v := EncodeDate(c);
    var y, m, d := c.year - 1900, c.month + 1, c.day;
    Pow2Table();
    FieldOf(v, y, m, d * 0x1000, 0x2_0000, 16);
    FieldOf(v, y * 16 + m, d, 0, 0x1000, 32);
    assert Shr(v, 21) == y by {
      DivModUnique(v, 0x20_0000, y, m * 0x2_0000 + d * 0x1000);
    }
  }

  /**
   * The other direction: a word whose low 12 bits are clear and whose month and
   * day fields are in range is exactly the encoding of the date it decodes to.
   */
  lemma DateWordRoundTrip(v: int32)
    requires v % 0x1000 == 0
    requires 1 <= (v / 0x2_0000) % 16 <= 12 && 1 <= (v / 0x1000) % 32
    ensures WellFormed(DecodeDate(v)) && PackableYear(DecodeDate(v).year)
    ensures EncodeDate(DecodeDate(v)) == v
  {
    var c := DecodeDate(v);
    var y, m, d := v / 0x20_0000, (v / 0x2_0000) % 16, (v / 0x1000) % 32;
    DateWordFields(v);
    DateWordSplit(v, y, m, d);
    DateWord(c);
  }

  /** The fields `getCalendar` reads from a DATE word. */
  lemma DateWordFields(v: int32)
    ensures DecodeDate(v) == Calendar(1900 + v / 0x20_0000, (v / 0x2_0000) % 16 - 1, (v / 0x1000) % 32, 0, 0, 0, 0)
  {
    Pow2Table();
  }

  /** A word with its low 12 bits clear is the sum of its year, month and day fields in place. */
  lemma DateWordSplit(v: int, y: int, m: int, d: int)
    requires v % 0x1000 == 0
    requires y == v / 0x20_0000 && m == (v / 0x2_0000) % 16 && d == (v / 0x1000) % 32
    ensures v == y * 0x20_0000 + m * 0x2_0000 + d * 0x1000
  {
    DivModUnique(v, 0x1000, v / 0x1000, 0);
    DivModUnique(v / 0x1000, 32, v / 0x2_0000, d);
    DivModUnique(v / 0x2_0000, 16, y, m);
  }

  // DATETIME: year-1900 from bit 53, then month+1, day, hour, minute, second and
  // millisecond in 4, 5, 5, 6, 6 and 10 bits down to bit 17.

  function DateTimeFields(c: Calendar): seq<(int, nat)> {
    [(c.year - 1900, 53), (c.month + 1, 49), (c.day, 44), (c.hour, 39),
     (c.minute, 33), (c.second, 27), (c.millisecond, 17)]
  }

  /** The DATETIME word `setCalendar` stores. */
  function EncodeDateTime(c: Calendar): int64 {
    Pow256Widths();
    Pack(DateTimeFields(c), 8)
  }

  /** The calendar `getCalendar` builds from a DATETIME word. */
  function DecodeDateTime(v: int64): Calendar {
    Calendar(
      1900 + ToInt32(Shr(v, 53)),
      Low(Shr(v, 49), 4) - 1,
      Low(Shr(v, 44), 5),
      Low(Shr(v, 39), 5),
      Low(Shr(v, 33), 6),
      Low(Shr(v, 27), 6),
      Low(Shr(v, 17), 10))
  }

  /** The value of the DATETIME fields below the year, in units of 2^17. */
  function DateTimeLow(c: Calendar): int {
    ((((c.month + 1) * 32 + c.day) * 32 + c.hour) * 64 + c.minute) * 64 * 1024
      + c.second * 1024 + c.millisecond
  }

  lemma DateTimeFieldsDisjoint(c: Calendar)
    requires WellFormed(c)
    ensures Disjoint(DateTimeFields(c), 8)
  {
    var fs := DateTimeFields(c);
    Pow2Table();
    assert fs[1].0 * Pow2(fs[1].1) == (c.month + 1) * 0x2_0000_0000_0000 < Pow2(fs[0].1);
    assert fs[2].0 * Pow2(fs[2].1) == c.day * 0x1000_0000_0000 < Pow2(fs[1].1);
    assert fs[3].0 * Pow2(fs[3].1) == c.hour * 0x80_0000_0000 < Pow2(fs[2].1);
    assert fs[4].0 * Pow2(fs[4].1) == c.minute * 0x2_0000_0000 < Pow2(fs[3].1);
    assert fs[5].0 * Pow2(fs[5].1) == c.second * 0x800_0000 < Pow2(fs[4].1);
    assert fs[6].0 * Pow2(fs[6].1) == c.millisecond * 0x2_0000 < Pow2(fs[5].1);
  }

  lemma DateTimeFieldsSum(c: Calendar)
    ensures Sum(DateTimeFields(c)) == ((c.year - 1900) * 0x10_0000_0000 + DateTimeLow(c)) * 0x2_0000
  {
    var fs := DateTimeFields(c);
    Pow2Table();
    SumSnoc(fs, 1);
    SumSnoc(fs, 2);
    SumSnoc(fs, 3);
    SumSnoc(fs, 4);
    SumSnoc(fs, 5);
    SumSnoc(fs, 6);
    SumSnoc(fs, 7);
    assert fs[..0] == [] && fs[..7] == fs;
  }

  lemma DateTimeWord(c: Calendar)
    requires WellFormed(c) && PackableYear(c.year)
    ensures EncodeDateTime(c) == ((c.year - 1900) * 0x10_0000_0000 + DateTimeLow(c)) * 0x2_0000
  {
    DateTimeFieldsDisjoint(c);
    PackSum(DateTimeFields(c), 8);
    DateTimeFieldsSum(c);
    Pow256Widths();
    WrapInRange(Sum(DateTimeFields(c)), 8);
  }

  /** DATETIME round trip: every field of a stored date and time reads back. */
  lemma DateTimeRoundTrip(c: Calendar)
    requires WellFormed(c) && PackableYear(c.year)
    ensures DecodeDateTime(EncodeDateTime(c)) == c
  {
    DateTimeWord(c);
    Pow2Table();
    var v := EncodeDateTime(c);
    var y, mo, d, h := c.year - 1900, c.month + 1, c.day, c.hour;
    var mi, s, ms := c.minute, c.second, c.millisecond;
    assert Low(Shr(v, 17), 10) == ms by {
      FieldOf(v, y * 16 * 32 * 32 * 64 * 64 + (((mo * 32 + d) * 32 + h) * 64 + mi) * 64 + s, ms, 0, 0x2_0000, 1024);
    }
    assert Low(Shr(v, 27), 6) == s by {
      FieldOf(v, y * 16 * 32 * 32 * 64 + ((mo * 32 + d) * 32 + h) * 64 + mi, s, ms * 0x2_0000, 0x800_0000, 64);
    }
    assert Low(Shr(v, 33), 6) == mi by {
      FieldOf(v, y * 16 * 32 * 32 + (mo * 32 + d) * 32 + h, mi, (s * 1024 + ms) * 0x2_0000, 0x2_0000_0000, 64);
    }
    assert Low(Shr(v, 39), 5) == h by {
      FieldOf(v, y * 16 * 32 + mo * 32 + d, h, ((mi * 64 + s) * 1024 + ms) * 0x2_0000, 0x80_0000_0000, 32);
    }
    assert Low(Shr(v, 44), 5) == d by {
      FieldOf(v, y * 16 + mo, d, (((h * 64 + mi) * 64 + s) * 1024 + ms) * 0x2_0000, 0x1000_0000_0000, 32);
    }
    assert Low(Shr(v, 49), 4) == mo by {
      FieldOf(v, y, mo, ((((d * 32 + h) * 64 + mi) * 64 + s) * 1024 + ms) * 0x2_0000, 0x2_0000_0000_0000, 16);
    }
    assert Shr(v, 53) == y by {
      DivModUnique(v, 0x20_0000_0000_0000, y, DateTimeLow(c) * 0x2_0000);
    }
    ToInt32Identity(y);
  }


  // TIME: hour from bit 26, then minute, second and millisecond in 6, 6 and 10
  // bits down to bit 4.

  function TimeFields(c: Calendar): seq<(int, nat)> {
    [(c.hour, 26), (c.minute, 20), (c.second, 14), (c.millisecond, 4)]
  }

  /** The TIME word `setCalendar` stores. */
  function EncodeTime(c: Calendar): int32 {
    Pow256Widths();
    Pack(TimeFields(c), 4)
  }

  /** The calendar `getCalendar` builds from a TIME word: the date is the cleared epoch day. */
  function DecodeTime(v: int32): Calendar {
    Calendar(1970, 0, 1, Shr(v, 26), Low(Shr(v, 20), 6), Low(Shr(v, 14), 6), Low(Shr(v, 4), 10))
  }

  lemma TimeFieldsDisjoint(c: Calendar)
    requires WellFormed(c)
    ensures Disjoint(TimeFields(c), 4)
  {
    var fs := TimeFields(c);
    Pow2Table();
    assert fs[1].0 * Pow2(fs[1].1) == c.minute * 0x10_0000 < Pow2(fs[0].1);
    assert fs[2].0 * Pow2(fs[2].1) == c.second * 0x4000 < Pow2(fs[1].1);
    assert fs[3].0 * Pow2(fs[3].1) == c.millisecond * 16 < Pow2(fs[2].1);
  }

  lemma TimeFieldsSum(c: Calendar)
    ensures Sum(TimeFields(c)) == (((c.hour * 64 + c.minute) * 64 + c.second) * 1024 + c.millisecond) * 16
  {
    var fs := TimeFields(c);
    Pow2Table();
    SumSnoc(fs, 1);
    SumSnoc(fs, 2);
    SumSnoc(fs, 3);
    SumSnoc(fs, 4);
    assert fs[..0] == [] && fs[..4] == fs;
  }

  lemma TimeWord(c: Calendar)
    requires WellFormed(c)
    ensures EncodeTime(c) == (((c.hour * 64 + c.minute) * 64 + c.second) * 1024 + c.millisecond) * 16
  {
    TimeFieldsDisjoint(c);
    PackSum(TimeFields(c), 4);
    TimeFieldsSum(c);
    Pow256Widths();
    WrapInRange(Sum(TimeFields(c)), 4);
  }

  /** TIME round trip: hour, minute, second and millisecond of every calendar read back. */
  lemma TimeRoundTrip(c: Calendar)
    requires WellFormed(c)
    ensures DecodeTime(EncodeTime(c)) == Calendar(1970, 0, 1, c.hour, c.minute, c.second, c.millisecond)
  {
    TimeWord(c);
    var v := EncodeTime(c);
    var h, mi, s, ms := c.hour, c.minute, c.second, c.millisecond;
    Pow2Table();
    FieldOf(v, (h * 64 + mi) * 64 + s, ms, 0, 16, 1024);
    FieldOf(v, h * 64 + mi, s, ms * 16, 0x4000, 64);
    FieldOf(v, h, mi, (s * 1024 + ms) * 16, 0x10_0000, 64);
    assert Shr(v, 26) == h by {
      DivModUnique(v, 0x400_0000, h, ((mi * 64 + s) * 1024 + ms) * 16);
    }
  }

  // DECIMAL: a count of ten-thousandths in an int64.

  /** A decimal number `unscaled × 10^-scale`, the way a BigDecimal holds it. */
  datatype Decimal = Decimal(unscaled: int, scale: int)

  function Pow10(n: nat): (r: nat)
    ensures r >= 1
  {
    if n == 0 then 1 else 10 * Pow10(n - 1)
  }

  /** Two decimals denote the same number, whatever their scales. */
  predicate SameValue(a: Decimal, b: Decimal) {
    var m := if a.scale >= b.scale then a.scale else b.scale;
    a.unscaled * Pow10(m - a.scale) == b.unscaled * Pow10(m - b.scale)
  }

  /** The value `getBigDecimal` returns: the stored count with the point moved four places left. */
  function DecodeDecimal(raw: int64): Decimal {
    Decimal(raw, 4)
  }

  /** Java's `longValueExact` range check. */
  function InLong(x: int): (r: Result<int64>)
    ensures r.Ok? <==> -0x8000_0000_0000_0000 <= x < 0x8000_0000_0000_0000
    ensures r.Ok? ==> r.value == x
    ensures r.Err? ==> r.error == ArithmeticError
  {
    if -0x8000_0000_0000_0000 <= x < 0x8000_0000_0000_0000 then Ok(x) else Err(ArithmeticError)
  }

  /**
   * The count `setBigDecimal` stores: the value moved four places right, which
   * must be a whole number that fits an int64, else ArithmeticError.
   */
  function EncodeDecimal(d: Decimal): Result<int64> {
    if d.scale <= 4 then InLong(d.unscaled * Pow10(4 - d.scale))
    else if d.unscaled % Pow10(d.scale - 4) == 0 then InLong(d.unscaled / Pow10(d.scale - 4))
    else Err(ArithmeticError)
  }

  /** Every stored count reads back as a decimal that stores as the same count. */
  lemma DecimalRoundTrip(raw: int64)
    ensures EncodeDecimal(DecodeDecimal(raw)) == Ok(raw)
  {
  }

  /**
   * Storing a decimal succeeds exactly when some int64 count of ten-thousandths
   * has its value, and then it stores that count.
   */
  lemma DecimalExact(d: Decimal)
    ensures EncodeDecimal(d).Ok? ==> SameValue(DecodeDecimal(EncodeDecimal(d).value), d)
    ensures EncodeDecimal(d).Err? <==> forall raw: int64 :: !SameValue(DecodeDecimal(raw), d)
    ensures EncodeDecimal(d).Err? ==> EncodeDecimal(d).error == ArithmeticError
  {
    if d.scale > 4 {
      var p := Pow10(d.scale - 4);
      if d.unscaled % p == 0 {
        DivModUnique(d.unscaled, p, d.unscaled / p, 0);
      }
      forall raw: int64 | SameValue(DecodeDecimal(raw), d)
        ensures EncodeDecimal(d) == Ok(raw)
      {
        assert raw * p == d.unscaled;
        DivModUnique(d.unscaled, p, raw, 0);
      }
    }
  }

  // IPV4: four address octets, most significant first.

  /** Java's view of an address byte: a signed octet. */
  function Signed(b: byte): int8 {
    if b < 128 then b else b - 256
  }

  function AddressFields(octets: seq<byte>): seq<(int, nat)>
    requires |octets| == 4
  {
    [(Signed(octets[0]), 24), (Signed(octets[1]), 16), (Signed(octets[2]), 8), (Signed(octets[3]), 0)]
  }

  /**
   * The IPV4 word `setInet4Address` stores: the address bytes, each promoted from a
   * signed Java byte to an int, shifted into place and OR-ed.
   */
  function EncodeAddress(octets: seq<byte>): int32
    requires |octets| == 4
  {
    Pow256Widths();
    Pack(AddressFields(octets), 4)
  }

  /** The address `getInet4Address` builds: each octet masked out of the word and shifted down. */
  function DecodeAddress(v: int32): (octets: seq<byte>)
    ensures |octets| == 4
  {
    Pow2Table();
    [Low(Shr(v, 24), 8), Low(Shr(v, 16), 8), Low(Shr(v, 8), 8), Low(v, 8)]
  }

  lemma AddressFieldsDisjoint(octets: seq<byte>)
    requires |octets| == 4 && octets[1] < 128 && octets[2] < 128 && octets[3] < 128
    ensures Disjoint(AddressFields(octets), 4)
  {
    var fs := AddressFields(octets);
    Pow2Table();
    assert Pow2(0) == 1;
    assert fs[1].0 * Pow2(fs[1].1) == octets[1] as int * 0x1_0000 < Pow2(fs[0].1);
    assert fs[2].0 * Pow2(fs[2].1) == octets[2] as int * 0x100 < Pow2(fs[1].1);
    assert fs[3].0 * Pow2(fs[3].1) == octets[3] as int < Pow2(fs[2].1);
  }

  lemma AddressFieldsSum(octets: seq<byte>)
    requires |octets| == 4
    ensures Sum(AddressFields(octets)) == Signed(octets[0]) as int * 0x100_0000 + Signed(octets[1]) as int * 0x1_0000 + Signed(octets[2]) as int * 0x100 + Signed(octets[3]) as int
  {
    var fs := AddressFields(octets);
    Pow2Table();
    assert Pow2(0) == 1;
    SumSnoc(fs, 1);
    SumSnoc(fs, 2);
    SumSnoc(fs, 3);
    SumSnoc(fs, 4);
    assert fs[..0] == [] && fs[..4] == fs;
  }

  lemma AddressWord(octets: seq<byte>)
    requires |octets| == 4 && octets[1] < 128 && octets[2] < 128 && octets[3] < 128
    ensures EncodeAddress(octets) == Signed(octets[0]) as int * 0x100_0000 + octets[1] as int * 0x1_0000 + octets[2] as int * 0x100 + octets[3] as int
  {
    var fs := AddressFields(octets);
    AddressFieldsDisjoint(octets);
    PackSum(fs, 4);
    AddressFieldsSum(octets);
    Pow256Widths();
    WrapInRange(Sum(fs), 4);
  }

  /**
   * IPV4 round trip, for the addresses it holds for: those whose last three octets
   * are below 128, so that sign extension sets no bits of the octets before them.
   */
  lemma AddressRoundTrip(octets: seq<byte>)
    requires |octets| == 4 && octets[1] < 128 && octets[2] < 128 && octets[3] < 128
    ensures DecodeAddress(EncodeAddress(octets)) == octets
  {
    AddressWord(octets);
    WordOctets(octets, EncodeAddress(octets));
  }

  /** A word whose value is the signed first octet and three unsigned ones in place decodes to those octets. */
  lemma WordOctets(octets: seq<byte>, v: int32)
    requires |octets| == 4
    requires v == Signed(octets[0]) as int * 0x100_0000 + octets[1] as int * 0x1_0000 + octets[2] as int * 0x100 + octets[3] as int
    ensures DecodeAddress(v) == octets
  {
    Pow2Table();
    assert Pow2(0) == 1;
    var a: int, b: int, c: int, d: int := Signed(octets[0]), octets[1], octets[2], octets[3];
    assert Low(v, 8) == d by {
      FieldOf(v, a * 0x1_0000 + b * 0x100 + c, d, 0, 1, 256);
    }
    assert Low(Shr(v, 8), 8) == c by {
      FieldOf(v, a * 0x100 + b, c, d, 0x100, 256);
    }
    assert Low(Shr(v, 16), 8) == b by {
      FieldOf(v, a, b, c * 0x100 + d, 0x1_0000, 256);
    }
    assert Low(Shr(v, 24), 8) == octets[0] by {
      DivModUnique(v, 0x100_0000, a, b * 0x1_0000 + c * 0x100 + d);
      if octets[0] >= 128 {
        DivModUnique(a, 256, -1, octets[0]);
      }
    }
  }

  /** The fields of the corrected packing: every octet masked with `& 0xFF` before its shift. */
  function MaskedAddressFields(octets: seq<byte>): seq<(int, nat)>
    requires |octets| == 4
  {
    [(octets[0] as int, 24), (octets[1] as int, 16), (octets[2] as int, 8), (octets[3] as int, 0)]
  }

  /**
   * The IPV4 word with each address byte masked to its unsigned value before it is
   * shifted and OR-ed, so that no octet's sign extension reaches the octets above it.
   */
  function EncodeAddressMasked(octets: seq<byte>): int32
    requires |octets| == 4
  {
    Pow256Widths();
    Pack(MaskedAddressFields(octets), 4)
  }

  /** The masked word is the address read as a signed 32-bit big-endian number. */
  lemma MaskedAddressWord(octets: seq<byte>)
    requires |octets| == 4
    ensures EncodeAddressMasked(octets) == Signed(octets[0]) as int * 0x100_0000 + octets[1] as int * 0x1_0000 + octets[2] as int * 0x100 + octets[3] as int
  {
    var fs := MaskedAddressFields(octets);
    Pow2Table();
    assert Pow2(0) == 1;
    assert Disjoint(fs, 4) by {
      assert fs[1].0 * Pow2(fs[1].1) == octets[1] as int * 0x1_0000 < Pow2(fs[0].1);
      assert fs[2].0 * Pow2(fs[2].1) == octets[2] as int * 0x100 < Pow2(fs[1].1);
      assert fs[3].0 * Pow2(fs[3].1) == octets[3] as int < Pow2(fs[2].1);
    }
    PackSum(fs, 4);
    SumSnoc(fs, 1);
    SumSnoc(fs, 2);
    SumSnoc(fs, 3);
    SumSnoc(fs, 4);
    assert fs[..0] == [] && fs[..4] == fs;
    var u := Sum(fs);
    assert u == octets[0] as int * 0x100_0000 + octets[1] as int * 0x1_0000 + octets[2] as int * 0x100 + octets[3] as int;
    Pow256Widths();
    var s := Signed(octets[0]) as int * 0x100_0000 + octets[1] as int * 0x1_0000 + octets[2] as int * 0x100 + octets[3] as int;
    assert Wrap(u, 4) == s by {
      SmallResidue(u, Pow256(4));
    }
  }

  /** With every octet masked, every address is stored and read back unchanged. */
  lemma AddressMaskedRoundTrip(octets: seq<byte>)
    requires |octets| == 4
    ensures DecodeAddress(EncodeAddressMasked(octets)) == octets
  {
    MaskedAddressWord(octets);
    WordOctets(octets, EncodeAddressMasked(octets));
  }

  /**
   * getInet4Address reads the word's bytes from the most significant down: the octets
   * are the word's little-endian bytes in reverse order, whatever its sign.
   */
  lemma AddressBytes(v: int32)
    ensures var b := EncodeInt(v, 4); DecodeAddress(v) == [b[3], b[2], b[1], b[0]]
  {
    Pow256Widths();
    Pow2Table();
    assert Pow2(0) == 1;
    var u := v % 0x1_0000_0000;
    var c := v / 0x1_0000_0000;
    var b := EncodeInt(v, 4);
    assert b == LeBytes(u, 4);
    LeValueOfBytes(u, 4);
    assert LeValue(b[3..]) == b[3] by {
      assert b[3..][1..] == [];
    }
    assert LeValue(b[2..]) == b[2] as int + 256 * b[3] as int by {
      assert b[2..][1..] == b[3..];
    }
    assert LeValue(b[1..]) == b[1] + 256 * LeValue(b[2..]) by {
      assert b[1..][1..] == b[2..];
    }
    assert u == LeValue(b) == b[0] + 256 * LeValue(b[1..]);
    var a0: int, a1: int, a2: int, a3: int := b[0], b[1], b[2], b[3];
    assert v == ((((c * 256 + a3) * 256 + a2) * 256 + a1) * 256) + a0;
    FieldOf(v, c, a3, a2 * 0x1_0000 + a1 * 0x100 + a0, 0x100_0000, 256);
    FieldOf(v, c * 256 + a3, a2, a1 * 0x100 + a0, 0x1_0000, 256);
    FieldOf(v, (c * 256 + a3) * 256 + a2, a1, a0, 0x100, 256);
    FieldOf(v, ((c * 256 + a3) * 256 + a2) * 256 + a1, a0, 0, 1, 256);
  }

  /**
   * The address 0.0.0.128 does not survive: its last byte is the Java byte -128,
   * whose sign extension fills the upper 24 bits, so it reads back as 255.255.255.128.
   */
  lemma AddressHighOctet()
    ensures EncodeAddress([0, 0, 0, 128]) == -128
    ensures DecodeAddress(EncodeAddress([0, 0, 0, 128])) == [255, 255, 255, 128]
  {
    HighOctetWord();
    Pow2Table();
    assert Shr(-128, 24) == -1 && Shr(-128, 16) == -1 && Shr(-128, 8) == -1;
  }

  /** The byte 128 alone in the last octet is stored as the int -128. */
  lemma HighOctetWord()
    ensures EncodeAddress([0, 0, 0, 128]) == -128
  {
    var fs := AddressFields([0, 0, 0, 128]);
    Pow2Table();
    Pow256Widths();
    assert Pack(fs[..3], 4) == 0 by {
      var init := fs[..3];
      assert Disjoint(init, 4) by {
        assert init[1].0 * Pow2(init[1].1) == 0 && init[2].0 * Pow2(init[2].1) == 0;
      }
      PackSum(init, 4);
      SumSnoc(init, 1);
      SumSnoc(init, 2);
      SumSnoc(init, 3);
      assert init[..0] == [] && init[..3] == init;
      WrapInRange(0, 4);
    }
    assert Shl(-128, 0, 4) == -128 by {
      assert Pow2(0) == 1;
      WrapInRange(-128, 4);
    }
    var p := Pow256(4);
    assert (-128) % p == p - 128 by {
      DivModUnique(-128, p, -1, p - 128);
    }
    assert Or(0, p - 128) == p - 128;
    assert Wrap(p - 128, 4) == -128 by {
      WrapInRange(-128, 4);
      WrapCongruent(p - 128, -128, 4);
    }
    assert Pack(fs, 4) == JOr(Pack(fs[..3], 4), Shl(-128, 0, 4), 4);
  }
}
