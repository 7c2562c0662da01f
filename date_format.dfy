/**
 * `formatDate` of the front end: renders a date as `<day><suffix> <Month> <year>`,
 * for instance "1st January 2024", or "{invalid date}" for a date whose day is NaN.
 */
module DateFormat {

  /**
   * What `Date.getDate()`, `getMonth()` and `getFullYear()` return: NaN for an
   * invalid date, otherwise a day of the month, a month index and a year.
   */
  datatype DateParts = InvalidDate | DateOf(day: int, month: int, year: int)

  /** The ranges JavaScript guarantees for a valid date. */
  predicate WellFormed(d: DateParts)
  {
    d.DateOf? ==> 1 <= d.day <= 31 && 0 <= d.month < 12
  }

  const InvalidText: string := "{invalid date}"

  const Months: seq<string> := ["January", "February", "March", "April", "May", "June", "July",
                                "August", "September", "October", "November", "December"]

  /** The `switch (day % 10)` followed by the override for 11, 12 and 13. */
  function Suffix(day: int): (s: string)
    requires 1 <= day
  {
    var bySwitch := match day % 10
      case 1 => "st"
      case 2 => "nd"
      case 3 => "rd"
      case _ => "th";
    if 11 <= day <= 13 then "th" else bySwitch
  }

  /** English ordinals for days of the month, listed outright. */
  function EnglishOrdinalSuffix(day: int): string
  {
    if day in {1, 21, 31} then "st"
    else if day in {2, 22} then "nd"
    else if day in {3, 23} then "rd"
    else "th"
  }

  /** On every day of a month, the source's rule gives the English ordinal suffix. */
  lemma SuffixIsEnglishOrdinal(day: int)
    requires 1 <= day <= 31
    ensures Suffix(day) == EnglishOrdinalSuffix(day)
    ensures 11 <= day <= 13 ==> Suffix(day) == "th"
  {
  }

  function DigitChar(d: int): char
    requires 0 <= d < 10
  {
    "0123456789"[d]
  }

  /** Decimal rendering of a natural number, as JavaScript's number-to-string gives it. */
  function NatToString(n: nat): (s: string)
    ensures |s| >= 1
    ensures forall i :: 0 <= i < |s| ==> '0' <= s[i] <= '9'
    decreases n
  {
    if n < 10 then [DigitChar(n)] else NatToString(n / 10) + [DigitChar(n % 10)]
  }

  /** Decimal rendering of an integer, with a leading `-` for negatives. */
  function IntToString(n: int): (s: string)
    ensures |s| >= 1
  {
    if n < 0 then "-" + NatToString(-n) else NatToString(n)
  }

  function DigitValue(c: char): int
  {
    c as int - '0' as int
  }

  /** Reads back a string of decimal digits. */
  function ParseNat(s: string): int
  {
    if s == [] then 0 else ParseNat(s[..|s| - 1]) * 10 + DigitValue(s[|s| - 1])
  }

  /** The rendering of a number reads back as that number. */
  lemma {:induction false} NatToStringRoundTrip(n: nat)
    ensures ParseNat(NatToString(n)) == n
    decreases n
  {
    if n >= 10 {
      NatToStringRoundTrip(n / 10);
      var s := NatToString(n);
      assert s[..|s| - 1] == NatToString(n / 10);
    }
  }

  /** `formatDate` */
  function FormatDate(d: DateParts): (r: string)
    requires WellFormed(d)
    ensures d.InvalidDate? ==> r == InvalidText
    ensures d.DateOf? ==> r == IntToString(d.day) + EnglishOrdinalSuffix(d.day) + " " + Months[d.month] + " " + IntToString(d.year)
  {
    match d
    case InvalidDate => InvalidText
    case DateOf(day, month, year) =>
      SuffixIsEnglishOrdinal(day);
      IntToString(day) + Suffix(day) + " " + Months[month] + " " + IntToString(year)
  }

  /** The output starts with the day's digits, which read back as the day. */
  lemma FormatDateStartsWithDay(d: DateParts)
    requires WellFormed(d) && d.DateOf?
    ensures var r := FormatDate(d); var k := |NatToString(d.day)|;
      k <= |r| && ParseNat(r[..k]) == d.day && (k < |r| ==> !('0' <= r[k] <= '9'))
  {
    var r := FormatDate(d);
    var k := |NatToString(d.day)|;
    assert r[..k] == NatToString(d.day);
    NatToStringRoundTrip(d.day);
    SuffixIsEnglishOrdinal(d.day);
  }
}
