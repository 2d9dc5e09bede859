/**
 * The codecs of the compound interval types: an application's interval structure is stored as one signed total
 * (bindParameter) and a stored total is taken apart into a structure again (fillOutput). The conversions of C are
 * written out: 32-bit unsigned fields, signed 32- and 64-bit totals.
 */
module Intervals {
  import opened OdbcTypes

  type Field = x: int | 0 <= x < TWO_32

  datatype Kind =
    YearToMonth | DayToHour | DayToMinute | DayToSecond | HourToMinute | HourToSecond | MinuteToSecond

  /** The union of SQL_INTERVAL_STRUCT. */
  datatype Fields =
    | YearMonth(year: Field, month: Field)
    | DaySecond(day: Field, hour: Field, minute: Field, second: Field, fraction: Field)

  datatype Interval = Interval(negative: bool, fields: Fields)

  /** The union member that the interval type uses. */
  predicate Fits(k: Kind, iv: Interval) {
    k == YearToMonth <==> iv.fields.YearMonth?
  }

  /** The stored total of `iv`: bindParameter. */
  function Encode(k: Kind, iv: Interval): int
    requires Fits(k, iv)
  {
    var f := iv.fields;
    match k
    case YearToMonth =>
      var months := ToInt32(ToUint32(ToUint32(f.year * 12) + f.month));
      if iv.negative then ToInt32(-months) else months
    case DayToHour =>
      var hours := f.day * 24 + f.hour;
      if iv.negative then -hours else hours
    case DayToMinute =>
      var hours := f.day * 24 + f.hour;
      var minutes := hours * 60 + f.minute;
      if iv.negative then -minutes else minutes
    case DayToSecond =>
      var hours := f.day * 24 + f.hour;
      var minutes := hours * 60 + f.minute;
      var seconds := minutes * 60 + f.second;
      if iv.negative then -seconds else seconds
    case HourToMinute =>
      var minutes := f.hour * 60 + f.minute;
      if iv.negative then -minutes else minutes
    case HourToSecond =>
      var minutes := f.hour * 60 + f.minute;
      var seconds := minutes * 60 + f.second;
      if iv.negative then -seconds else seconds
    case MinuteToSecond =>
      var seconds := f.minute * 60 + f.second;
      if iv.negative then -seconds else seconds
  }

  /** The width with which the total is read back: getInt or getInt64; its minimum cannot be negated. */
  predicate Readable(k: Kind, n: int) {
    if k == YearToMonth || k == DayToHour then -TWO_31 < n < TWO_31 else -TWO_63 < n < TWO_63
  }

  /** The structure a stored total is taken apart into: fillOutput. */
  function Decode(k: Kind, n: int): (r: Interval)
    requires Readable(k, n)
    ensures Fits(k, r)
  {
    var m := if n >= 0 then n else -n;
    Interval(n < 0,
      match k
      case YearToMonth => YearMonth(m / 12, m % 12)
      case DayToHour => DaySecond(m / 24, m % 24, 0, 0, 0)
      case DayToMinute =>
        var hours := m / 60;
        DaySecond(ToUint32(hours / 24), ToUint32(hours % 24), ToUint32(m % 60), 0, 0)
      case DayToSecond =>
        var minutes := m / 60;
        var hours := minutes / 60;
        DaySecond(ToUint32(hours / 24), ToUint32(hours % 24), ToUint32(minutes % 60), ToUint32(m % 60), 0)
      case HourToMinute => DaySecond(0, ToUint32(m / 60), ToUint32(m % 60), 0, 0)
      case HourToSecond =>
        var minutes := m / 60;
        DaySecond(0, ToUint32(minutes / 60), ToUint32(minutes % 60), ToUint32(m % 60), 0)
      case MinuteToSecond => DaySecond(0, 0, ToUint32(m / 60), ToUint32(m % 60), 0))
  }

  // ----- the meaning of an interval -----

  /** The number of smallest units that one leading unit stands for. */
  function LeadingUnit(k: Kind): nat {
    match k
    case YearToMonth => 12
    case DayToHour => 24
    case DayToMinute => 1440
    case DayToSecond => 86400
    case HourToMinute => 60
    case HourToSecond => 3600
    case MinuteToSecond => 60
  }

  /** The leading field, and what the trailing fields of the type add up to. */
  function Leading(k: Kind, f: Fields): nat
    requires k == YearToMonth <==> f.YearMonth?
  {
    match k
    case YearToMonth => f.year
    case DayToHour | DayToMinute | DayToSecond => f.day
    case HourToMinute | HourToSecond => f.hour
    case MinuteToSecond => f.minute
  }

  function Trailing(k: Kind, f: Fields): nat
    requires k == YearToMonth <==> f.YearMonth?
  {
    match k
    case YearToMonth => f.month
    case DayToHour => f.hour
    case DayToMinute => f.hour * 60 + f.minute
    case DayToSecond => f.hour * 3600 + f.minute * 60 + f.second
    case HourToMinute => f.minute
    case HourToSecond => f.minute * 60 + f.second
    case MinuteToSecond => f.second
  }

  /** The length of an interval in its smallest unit. */
  function Magnitude(k: Kind, iv: Interval): nat
    requires Fits(k, iv)
  {
    Leading(k, iv.fields) * LeadingUnit(k) + Trailing(k, iv.fields)
  }

  /** Trailing fields below their carry, and fields outside the interval type zero. */
  predicate Normalised(k: Kind, iv: Interval)
    requires Fits(k, iv)
  {
    var f := iv.fields;
    match k
    case YearToMonth => f.month < 12
    case DayToHour => f.hour < 24 && f.minute == f.second == f.fraction == 0
    case DayToMinute => f.hour < 24 && f.minute < 60 && f.second == f.fraction == 0
    case DayToSecond => f.hour < 24 && f.minute < 60 && f.second < 60 && f.fraction == 0
    case HourToMinute => f.minute < 60 && f.day == f.second == f.fraction == 0
    case HourToSecond => f.minute < 60 && f.second < 60 && f.day == f.fraction == 0
    case MinuteToSecond => f.second < 60 && f.day == f.hour == f.fraction == 0
  }

  /** The total that the encoding is meant to store. */
  function SignedTotal(k: Kind, iv: Interval): int
    requires Fits(k, iv)
  {
    var m: int := Magnitude(k, iv);
    if iv.negative then -m else m
  }

  /**
   * Encoding is exact for every choice of 32-bit fields and never leaves 64 bits, except that a year-to-month
   * total is exact if and only if it stays within 31 bits (a negative one whose total has no 32-bit negation is left
   * out).
   */
  lemma EncodeExactIff(k: Kind, iv: Interval)
    requires Fits(k, iv)
    requires k == YearToMonth && iv.negative ==> Magnitude(k, iv) % TWO_32 != TWO_31
    ensures Encode(k, iv) == SignedTotal(k, iv) <==> (k == YearToMonth ==> Magnitude(k, iv) < TWO_31)
    ensures -TWO_63 < Encode(k, iv) < TWO_63
  {
    hide Encode, Magnitude;
    if k == YearToMonth {
      EncodeMonths(iv);
    } else {
      EncodeWide(k, iv);
    }
  }

  lemma EncodeMonths(iv: Interval)
    requires iv.fields.YearMonth? && (iv.negative ==> Magnitude(YearToMonth, iv) % TWO_32 != TWO_31)
    ensures Encode(YearToMonth, iv) == SignedTotal(YearToMonth, iv) <==> Magnitude(YearToMonth, iv) < TWO_31
    ensures -TWO_31 <= Encode(YearToMonth, iv) < TWO_31
  {
    var m := iv.fields.year * 12 + iv.fields.month;
    assert Magnitude(YearToMonth, iv) == m;
    assert ToUint32(ToUint32(iv.fields.year * 12) + iv.fields.month) == m % TWO_32;
    assert ToInt32(m % TWO_32) == (if m % TWO_32 < TWO_31 then m % TWO_32 else m % TWO_32 - TWO_32);
  }

  lemma EncodeWide(k: Kind, iv: Interval)
    requires Fits(k, iv) && k != YearToMonth
    ensures Encode(k, iv) == SignedTotal(k, iv) && -TWO_63 < Encode(k, iv) < TWO_63
  {
  }

  /** Normalised intervals with the same length and sign are the same. */
  lemma NormalFormUnique(k: Kind, a: Interval, b: Interval)
    requires Fits(k, a) && Fits(k, b) && Normalised(k, a) && Normalised(k, b)
    requires a.negative == b.negative && Magnitude(k, a) == Magnitude(k, b)
    ensures a == b
  {
    hide Normalised, Leading, Trailing, LeadingUnit;
    NormalisedLeading(k, a);
    NormalisedLeading(k, b);
    SameParts(k, a, b);
  }

  lemma SameParts(k: Kind, a: Interval, b: Interval)
    requires Fits(k, a) && Fits(k, b) && Normalised(k, a) && Normalised(k, b) && a.negative == b.negative
    requires Leading(k, a.fields) == Leading(k, b.fields) && Trailing(k, a.fields) == Trailing(k, b.fields)
    ensures a == b
  {
  }

  /** Decoding always yields a normalised interval; its length is the total unless the leading field overflows. */
  lemma DecodeMeans(k: Kind, n: int)
    requires Readable(k, n)
    ensures var r, m := Decode(k, n), if n >= 0 then n else -n;
            && Normalised(k, r) && r.negative == (n < 0)
            && (Magnitude(k, r) == m <==> m / LeadingUnit(k) < TWO_32)
  {
    match k
    case DayToMinute => NestedTwo(if n >= 0 then n else -n, 60, 24);
    case DayToSecond => DecodeDayToSecond(n);
    case HourToSecond => NestedTwo(if n >= 0 then n else -n, 60, 60);
    case _ =>
  }

  lemma DecodeDayToSecond(n: int)
    requires Readable(DayToSecond, n)
    ensures var r, m := Decode(DayToSecond, n), if n >= 0 then n else -n;
            && Normalised(DayToSecond, r) && r.negative == (n < 0)
            && (Magnitude(DayToSecond, r) == m <==> m / 86400 < TWO_32)
  {
    var m := if n >= 0 then n else -n;
    NestedTwo(m, 60, 60);
    NestedTwo(m, 3600, 24);
    var f := Decode(DayToSecond, n).fields;
    var d := m / 86400;
    assert f.day == d % TWO_32 && f.hour == m / 3600 % 24 && f.minute == m / 60 % 60 && f.second == m % 60;
    assert m == d * 86400 + f.hour * 3600 + f.minute * 60 + f.second;
  }

  lemma NestedTwo(m: nat, a: int, b: int)
    requires (a == 60 && b == 24) || (a == 60 && b == 60) || (a == 3600 && b == 24)
    ensures m / a / b == m / (a * b)
  {
  }

  /**
   * Structure to total and back, for every structure whose total the column can hold: the result is its normal
   * form (same length, sign kept unless the length is zero, fraction dropped) when the leading field has room.
   */
  lemma EncodeDecodeNormalises(k: Kind, iv: Interval)
    requires Fits(k, iv) && Readable(k, SignedTotal(k, iv))
    ensures Readable(k, Encode(k, iv))
    ensures var r := Decode(k, Encode(k, iv));
            && Normalised(k, r) && r.negative == (iv.negative && Magnitude(k, iv) > 0)
            && (Magnitude(k, r) == Magnitude(k, iv) <==> Magnitude(k, iv) / LeadingUnit(k) < TWO_32)
  {
    hide Encode, Decode, Normalised, Magnitude, LeadingUnit;
    EncodeExactIff(k, iv);
    DecodeMeans(k, Encode(k, iv));
  }

  /** Structure to total and back is the identity exactly on normalised structures without a negative zero. */
  lemma EncodeDecodeIdentityIff(k: Kind, iv: Interval)
    requires Fits(k, iv) && Readable(k, SignedTotal(k, iv))
    ensures Readable(k, Encode(k, iv))
    ensures Decode(k, Encode(k, iv)) == iv
       <==> Normalised(k, iv) && !(iv.negative && Magnitude(k, iv) == 0)
  {
    hide Encode, Decode;
    EncodeDecodeNormalises(k, iv);
    if Normalised(k, iv) && !(iv.negative && Magnitude(k, iv) == 0) {
      NormalisedLeading(k, iv);
      NormalFormUnique(k, iv, Decode(k, Encode(k, iv)));
    }
  }

  lemma NormalisedLeading(k: Kind, iv: Interval)
    requires Fits(k, iv) && Normalised(k, iv)
    ensures Trailing(k, iv.fields) < LeadingUnit(k)
    ensures Magnitude(k, iv) / LeadingUnit(k) == Leading(k, iv.fields) < TWO_32
  {
  }

  /** Total to structure and back is the identity exactly when the leading field has room for its quotient. */
  lemma DecodeEncodeIdentityIff(k: Kind, n: int)
    requires Readable(k, n)
    ensures Encode(k, Decode(k, n)) == n <==> (if n >= 0 then n else -n) / LeadingUnit(k) < TWO_32
  {
    DecodeMeans(k, n);
    var m := if n >= 0 then n else -n;
    if k == YearToMonth {
      assert m / 12 < TWO_32;
      EncodeExactIff(k, Decode(k, n));
    } else {
      EncodeExactIff(k, Decode(k, n));
    }
  }
}
