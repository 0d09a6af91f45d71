/**
 * The client's date helpers (frontend/src/utils/dateUtils.js): the local
 * time-zone offset written as `±HH:MM`, a date and time combined with it
 * into an ISO-8601 timestamp, and the empty case of date formatting.
 *
 * The offset is a parameter: the minutes `Date.getTimezoneOffset()`
 * reports, which are positive west of UTC (so a zone ahead of UTC has a
 * negative offset and is written with "+").
 */
module DateUtils {
  import opened Text
  import Js

  function Abs(n: int): nat {
    if n < 0 then -n else n
  }

  /** `String(n).padStart(2, '0')` */
  function TwoDigits(n: nat): string {
    PadStart(NatToString(n), 2, '0')
  }

  /** Below 100, the padded rendering is two digits that read back as `n`. */
  lemma TwoDigitsValue(n: nat)
    requires n < 100
    ensures |TwoDigits(n)| == 2 && AllDigits(TwoDigits(n)) && DigitsValue(TwoDigits(n)) == n
  {
    var s := TwoDigits(n);
    if n < 10 {
      assert NatToString(n) == [DigitChar(n)];
      assert s == "0" + [DigitChar(n)];
      assert s[..1] == "0";
      assert DigitsValue("0") == 10 * DigitsValue("") + 0;
    } else {
      assert NatToString(n / 10) == [DigitChar(n / 10)];
      assert NatToString(n) == [DigitChar(n / 10)] + [DigitChar(n % 10)];
      assert s == NatToString(n);
      assert s[..1] == [DigitChar(n / 10)];
      assert DigitsValue(s[..1]) == 10 * DigitsValue([]) + n / 10;
    }
  }

  /** "-" for a zone behind UTC (a positive offset), "+" otherwise. */
  function OffsetSign(offsetInMinutes: int): (sign: string)
    ensures sign == (if offsetInMinutes > 0 then "-" else "+")
  {
    if offsetInMinutes > 0 then "-" else "+"
  }

  /** `${sign}${hours}:${minutes}` with both numbers padded to two digits. */
  function Formatted(sign: string, hours: nat, minutes: nat): string {
    sign + TwoDigits(hours) + ":" + TwoDigits(minutes)
  }

  /** The minutes a `±HH:MM` string stands for, east of UTC positive. */
  function OffsetMinutes(s: string): int
    requires |s| == 6 && AllDigits(s[1..3]) && AllDigits(s[4..6])
  {
    var size := DigitsValue(s[1..3]) * 60 + DigitsValue(s[4..6]);
    if s[0] == '-' then -size else size
  }

  /** Hours and minutes below 100 give six characters that read back as the signed total. */
  lemma FormattedReadsBack(sign: string, hours: nat, minutes: nat)
    requires sign == "+" || sign == "-"
    requires hours < 100 && minutes < 100
    ensures var r := Formatted(sign, hours, minutes);
            && |r| == 6 && r[3] == ':' && AllDigits(r[1..3]) && AllDigits(r[4..6])
            && OffsetMinutes(r) == if sign == "-" then -(hours * 60 + minutes) else hours * 60 + minutes
  {
    TwoDigitsValue(hours);
    TwoDigitsValue(minutes);
    var h, m := TwoDigits(hours), TwoDigits(minutes);
    var r := Formatted(sign, hours, minutes);
    assert r == sign + h + ":" + m;
    assert r[1..3] == h && r[4..6] == m && r[0] == sign[0];
  }

  /**
   * `getLocalOffset` as written: the hours are `|floor(offset / 60)|`
   * (Dafny's `/` by a positive divisor is the floor) and the minutes
   * `|offset rem 60|`, which is `|offset| mod 60`.
   */
  function GetLocalOffset(offsetInMinutes: int): string {
    Formatted(OffsetSign(offsetInMinutes), Abs(offsetInMinutes / 60), Abs(offsetInMinutes) % 60)
  }

  /**
   * The corrected offset: the hours are `|offset|` in whole hours, as the
   * minutes already are.
   */
  function LocalOffset(offsetInMinutes: int): string {
    Formatted(OffsetSign(offsetInMinutes), Abs(offsetInMinutes) / 60, Abs(offsetInMinutes) % 60)
  }

  /**
   * The corrected offset is exactly six characters for zones under 100
   * hours, and reads back as the zone's distance from UTC: the negated
   * `getTimezoneOffset()` minutes.
   */
  lemma LocalOffsetRoundTrip(offsetInMinutes: int)
    requires Abs(offsetInMinutes) < 100 * 60
    ensures var r := LocalOffset(offsetInMinutes);
            && |r| == 6 && r[3] == ':' && AllDigits(r[1..3]) && AllDigits(r[4..6])
            && OffsetMinutes(r) == -offsetInMinutes
  {
    var a := Abs(offsetInMinutes);
    var h, m := a / 60, a % 60;
    assert a == h * 60 + m && h < 100;
    FormattedReadsBack(OffsetSign(offsetInMinutes), h, m);
  }

  /** Euclidean division by 60 is determined by quotient and remainder. */
  lemma DivideBy60(x: int, q: int, r: int)
    requires x == q * 60 + r && 0 <= r < 60
    ensures x / 60 == q && x % 60 == r
  {
  }

  /**
   * Where the two agree: zones behind UTC (a positive offset) and whole-hour
   * zones, for which flooring before taking the absolute value makes no
   * difference.
   */
  lemma AsWrittenAgreesWhenExact(offsetInMinutes: int)
    requires offsetInMinutes >= 0 || offsetInMinutes % 60 == 0
    ensures GetLocalOffset(offsetInMinutes) == LocalOffset(offsetInMinutes)
  {
    var a := Abs(offsetInMinutes);
    if offsetInMinutes < 0 {
      var k := offsetInMinutes / 60;
      assert offsetInMinutes == k * 60;
      DivideBy60(a, -k, 0);
    }
    assert Abs(offsetInMinutes / 60) == a / 60;
  }

  /**
   * As written, a zone ahead of UTC by a fraction of an hour is written one
   * hour too far ahead: India's offset of -330 minutes gives "+06:30"
   * where "+05:30" is meant.
   */
  lemma IndiaOffsetAsWritten()
    ensures GetLocalOffset(-330) == "+06:30"
    ensures LocalOffset(-330) == "+05:30"
  {
    DivideBy60(-330, -6, 30);
    DivideBy60(330, 5, 30);
    assert NatToString(6) == "6" && NatToString(5) == "5";
    assert NatToString(30) == NatToString(3) + [DigitChar(0)] == "30";
    assert TwoDigits(6) == "06" && TwoDigits(5) == "05" && TwoDigits(30) == "30";
  }

  /**
   * As written, every zone ahead of UTC by a fraction of an hour reads back
   * one hour further ahead than it is.
   */
  lemma AsWrittenOneHourOff(offsetInMinutes: int)
    requires offsetInMinutes < 0 && offsetInMinutes % 60 != 0 && Abs(offsetInMinutes) < 99 * 60
    ensures var r := GetLocalOffset(offsetInMinutes);
            && |r| == 6 && AllDigits(r[1..3]) && AllDigits(r[4..6])
            && OffsetMinutes(r) == -offsetInMinutes + 60
  {
    var a := Abs(offsetInMinutes);
    FloorOfFractionalNegative(offsetInMinutes);
    assert GetLocalOffset(offsetInMinutes) == Formatted("+", a / 60 + 1, a % 60);
    FormattedReadsBack("+", a / 60 + 1, a % 60);
  }

  /** For a negative offset that is not whole hours, the floor lies one hour beyond the truncation. */
  lemma FloorOfFractionalNegative(offsetInMinutes: int)
    requires offsetInMinutes < 0 && offsetInMinutes % 60 != 0
    ensures Abs(offsetInMinutes / 60) == Abs(offsetInMinutes) / 60 + 1
    ensures Abs(offsetInMinutes) == (Abs(offsetInMinutes) / 60) * 60 + Abs(offsetInMinutes) % 60
  {
    var a := -offsetInMinutes;
    var h, m := a / 60, a % 60;
    assert a == h * 60 + m;
    if m == 0 {
      DivideBy60(offsetInMinutes, -h, 0);
      assert false;
    }
    DivideBy60(offsetInMinutes, -h - 1, 60 - m);
  }

  /** `dateTimeStr` as written: `date`, "T", `time`, ":00" and the offset as written. */
  function DateTimeStr(date: string, time: string, offsetInMinutes: int): (r: string)
    ensures StartsWith(r, date + "T" + time + ":00")
    ensures r[|date + "T" + time + ":00"|..] == GetLocalOffset(offsetInMinutes)
  {
    (date + "T" + time + ":00") + GetLocalOffset(offsetInMinutes)
  }

  /** `dateTimeStr` with the corrected offset: the timestamp carries the zone's true distance from UTC. */
  function LocalDateTimeStr(date: string, time: string, offsetInMinutes: int): (r: string)
    ensures StartsWith(r, date + "T" + time + ":00")
    ensures r[|date + "T" + time + ":00"|..] == LocalOffset(offsetInMinutes)
  {
    (date + "T" + time + ":00") + LocalOffset(offsetInMinutes)
  }

  /**
   * `formatDate`: "" for a falsy input; any other input is rendered by the
   * browser's locale formatting, passed in as `localeFormat`.
   */
  function FormatDate(dateString: Js.Value, localeFormat: Js.Value -> string): (r: string)
    ensures !Js.Truthy(dateString) ==> r == ""
    ensures Js.Truthy(dateString) ==> r == localeFormat(dateString)
  {
    if !Js.Truthy(dateString) then "" else localeFormat(dateString)
  }
}
