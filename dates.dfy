/**
 * Date handling of the cleaning pipeline: finding `YYYY年MM月DD日 HH:MM`,
 * reformatting it as `YYYY-MM-DD HH:MM` the way
 * datetime.strptime / strftime do, and removing it from the text.
 */
module Dates {
  import opened Wrappers
  import opened Strings
  import Scan

  /** The sentinel written when no date is found or the date does not parse. */
  const Unknown: string := "Неизвестно"

  /** Length of every match of the date pattern. */
  const DateLength: nat := 17

  predicate IsDigit(c: char) { '0' <= c <= '9' }

  /** `\d{4}年\d{2}月\d{2}日 \d{2}:\d{2}` matches the first 17 characters of `t`. */
  predicate DateShapeAt(t: string) {
    && |t| >= DateLength
    && IsDigit(t[0]) && IsDigit(t[1]) && IsDigit(t[2]) && IsDigit(t[3]) && t[4] == '年'
    && IsDigit(t[5]) && IsDigit(t[6]) && t[7] == '月'
    && IsDigit(t[8]) && IsDigit(t[9]) && t[10] == '日' && t[11] == ' '
    && IsDigit(t[12]) && IsDigit(t[13]) && t[14] == ':'
    && IsDigit(t[15]) && IsDigit(t[16])
  }

  /** The date pattern as a matcher: 17 where a date starts, 0 elsewhere. */
  function DateMatcher(t: string): (n: nat)
    ensures n == 0 || n == DateLength
  {
    if DateShapeAt(t) then DateLength else 0
  }

  datatype DateTime = DateTime(year: nat, month: nat, day: nat, hour: nat, minute: nat)

  predicate IsLeapYear(y: nat) {
    y % 4 == 0 && (y % 100 != 0 || y % 400 == 0)
  }

  function DaysInMonth(y: nat, m: nat): nat
    requires 1 <= m <= 12
  {
    if m == 2 then (if IsLeapYear(y) then 29 else 28)
    else if m == 4 || m == 6 || m == 9 || m == 11 then 30
    else 31
  }

  /** What datetime accepts: years 1 to 9999 (MINYEAR, MAXYEAR), real calendar days, 24-hour time. */
  predicate IsValid(d: DateTime) {
    && 1 <= d.year <= 9999
    && 1 <= d.month <= 12
    && 1 <= d.day <= DaysInMonth(d.year, d.month)
    && d.hour <= 23
    && d.minute <= 59
  }

  function DigitValue(c: char): (v: nat)
    requires IsDigit(c)
    ensures v < 10 && DigitChar(v) == c
  {
    c as int - '0' as int
  }

  /** The two-digit number at t[i..i + 2]. */
  function Num2(t: string, i: nat): (v: nat)
    requires i + 1 < |t| && IsDigit(t[i]) && IsDigit(t[i + 1])
    ensures v < 100
  {
    10 * DigitValue(t[i]) + DigitValue(t[i + 1])
  }

  /** The fields the matched text spells, before any range check. */
  function Fields(s: string): (d: DateTime)
    requires DateShapeAt(s)
    ensures d.year < 10000
  {
    DateTime(100 * Num2(s, 0) + Num2(s, 2), Num2(s, 5), Num2(s, 8), Num2(s, 12), Num2(s, 15))
  }

  /**
   * datetime.strptime(s, '%Y年%m月%d日 %H:%M') on a string that starts with the date
   * shape: it succeeds when nothing follows the shape and the fields form a real date.
   */
  function Parse(s: string): (r: Option<DateTime>)
    requires DateShapeAt(s)
    ensures r.Some? ==> IsValid(r.value) && |s| == DateLength
  {
    if |s| == DateLength && IsValid(Fields(s)) then Some(Fields(s)) else None
  }

  /** n as exactly two decimal digits. */
  function Pad2(n: nat): (r: string)
    requires n < 100
    ensures |r| == 2 && IsDigit(r[0]) && IsDigit(r[1])
    ensures Num2(r, 0) == n
  {
    [DigitChar(n / 10), DigitChar(n % 10)]
  }

  /** n as exactly four decimal digits. */
  function Pad4(n: nat): (r: string)
    requires n < 10000
    ensures |r| == 4 && IsDigit(r[0]) && IsDigit(r[1]) && IsDigit(r[2]) && IsDigit(r[3])
    ensures 100 * Num2(r, 0) + Num2(r, 2) == n
  {
    Pad2(n / 100) + Pad2(n % 100)
  }

  /** `YYYY-MM-DD HH:MM`: sixteen characters, digits everywhere but the four separators. */
  predicate IsoShape(r: string) {
    && |r| == 16
    && IsDigit(r[0]) && IsDigit(r[1]) && IsDigit(r[2]) && IsDigit(r[3]) && r[4] == '-'
    && IsDigit(r[5]) && IsDigit(r[6]) && r[7] == '-'
    && IsDigit(r[8]) && IsDigit(r[9]) && r[10] == ' '
    && IsDigit(r[11]) && IsDigit(r[12]) && r[13] == ':'
    && IsDigit(r[14]) && IsDigit(r[15])
  }

  /** dt.strftime('%Y-%m-%d %H:%M'): the ISO layout, from whose digits every field reads back. */
  function FormatIso(d: DateTime): (r: string)
    requires IsValid(d)
    ensures IsoShape(r)
    ensures 100 * Num2(r, 0) + Num2(r, 2) == d.year
    ensures Num2(r, 5) == d.month && Num2(r, 8) == d.day
    ensures Num2(r, 11) == d.hour && Num2(r, 14) == d.minute
  {
    var y, mo, da, h, mi := Pad4(d.year), Pad2(d.month), Pad2(d.day), Pad2(d.hour), Pad2(d.minute);
    var r := y + "-" + mo + "-" + da + " " + h + ":" + mi;
    assert r[0..4] == y && r[5..7] == mo && r[8..10] == da && r[11..13] == h && r[14..16] == mi;
    r
  }

  /** The date as the pattern writes it: `YYYY年MM月DD日 HH:MM`. */
  function FormatJapanese(d: DateTime): (r: string)
    requires d.year < 10000 && d.month < 100 && d.day < 100 && d.hour < 100 && d.minute < 100
    ensures |r| == DateLength
  {
    Pad4(d.year) + "年" + Pad2(d.month) + "月" + Pad2(d.day) + "日 " + Pad2(d.hour) + ":" + Pad2(d.minute)
  }

  /** strptime reads back every valid date written in the pattern's layout. */
  lemma ParseFormatJapanese(d: DateTime)
    requires IsValid(d)
    ensures DateShapeAt(FormatJapanese(d)) && Parse(FormatJapanese(d)) == Some(d)
  {
    var y, mo, da, h, mi := Pad4(d.year), Pad2(d.month), Pad2(d.day), Pad2(d.hour), Pad2(d.minute);
    var r := FormatJapanese(d);
    assert r[0..4] == y && r[5..7] == mo && r[8..10] == da && r[12..14] == h && r[15..17] == mi;
    assert Fields(r) == d;
  }

  /** convert_date_format: the reformatted date, or the sentinel when strptime raises ValueError. */
  function ConvertDateFormat(s: string): (r: string)
    requires DateShapeAt(s)
    ensures IsoShape(r) || r == Unknown
  {
    match Parse(s)
    case Some(d) => FormatIso(d)
    case None => Unknown
  }

  /** Two matched digits print back as themselves. */
  lemma Pad2Num2(t: string, i: nat)
    requires i + 1 < |t| && IsDigit(t[i]) && IsDigit(t[i + 1])
    ensures Pad2(Num2(t, i)) == t[i..i + 2]
  {
    var a, b := DigitValue(t[i]), DigitValue(t[i + 1]);
    assert (10 * a + b) / 10 == a && (10 * a + b) % 10 == b;
  }

  lemma Pad4Year(s: string)
    requires DateShapeAt(s)
    ensures Pad4(Fields(s).year) == s[..4]
  {
    var hi, lo := Num2(s, 0), Num2(s, 2);
    assert (100 * hi + lo) / 100 == hi && (100 * hi + lo) % 100 == lo;
    Pad2Num2(s, 0);
    Pad2Num2(s, 2);
  }

  /**
   * A valid `YYYY年MM月DD日 HH:MM` becomes `YYYY-MM-DD HH:MM` with the very same
   * digits in every field.
   */
  lemma ConvertKeepsFields(s: string)
    requires DateShapeAt(s) && |s| == DateLength && IsValid(Fields(s))
    ensures ConvertDateFormat(s) == s[..4] + "-" + s[5..7] + "-" + s[8..10] + " " + s[12..14] + ":" + s[15..17]
  {
    Pad4Year(s);
    Pad2Num2(s, 5);
    Pad2Num2(s, 8);
    Pad2Num2(s, 12);
    Pad2Num2(s, 15);
  }

  /** The sentinel comes back exactly when strptime would raise. */
  lemma ConvertRejects(s: string)
    requires DateShapeAt(s)
    ensures ConvertDateFormat(s) == Unknown <==> (|s| != DateLength || !IsValid(Fields(s)))
  {
    if |s| == DateLength && IsValid(Fields(s)) {
      assert IsDigit(ConvertDateFormat(s)[0]);
      assert Unknown[0] == 'Н';
    }
  }

  /** A valid date keeps its digits in the new layout. */
  lemma ConvertExample()
    ensures ConvertDateFormat("2023年06月21日 14:30") == "2023-06-21 14:30"
  {
    ConvertKeepsFields("2023年06月21日 14:30");
  }

  /** 29 February exists only in leap years. */
  lemma ConvertLeapDay()
    ensures ConvertDateFormat("2024年02月29日 10:00") == "2024-02-29 10:00"
  {
    var s := "2024年02月29日 10:00";
    assert Fields(s) == DateTime(2024, 2, 29, 10, 0);
    assert IsLeapYear(2024);
    ConvertKeepsFields(s);
  }

  lemma ConvertCommonYearLeapDay()
    ensures ConvertDateFormat("2023年02月29日 10:00") == Unknown
  {
    var s := "2023年02月29日 10:00";
    assert Fields(s) == DateTime(2023, 2, 29, 10, 0);
    assert !IsLeapYear(2023);
  }

  /** Month 13, hour 24, minute 60 and year 0 are all out of range. */
  lemma ConvertOutOfRange()
    ensures ConvertDateFormat("2023年13月01日 10:00") == Unknown
    ensures ConvertDateFormat("2023年06月21日 24:00") == Unknown
    ensures ConvertDateFormat("2023年06月21日 14:60") == Unknown
    ensures ConvertDateFormat("0000年01月01日 00:00") == Unknown
  {
    assert Fields("2023年13月01日 10:00").month == 13;
    assert Fields("2023年06月21日 24:00").hour == 24;
    assert Fields("2023年06月21日 14:60").minute == 60;
    assert Fields("0000年01月01日 00:00").year == 0;
  }

  datatype DatedText = DatedText(date: string, text: string)

  /** A date found at position i is the 17 characters from i. */
  lemma DateShapePrefix(text: string, i: nat)
    requires i <= |text| && DateShapeAt(text[i..])
    ensures i + DateLength <= |text| && DateShapeAt(text[i..i + DateLength])
  {
    var t := text[i..];
    assert text[i..i + DateLength] == t[..DateLength];
  }

  /** The converted date of the match at position i. */
  function DateFoundAt(text: string, i: nat): string
    requires i <= |text| && DateShapeAt(text[i..])
  {
    DateShapePrefix(text, i);
    ConvertDateFormat(text[i..i + DateLength])
  }

  /**
   * extract_date as the pipeline calls it (the second definition in the file):
   * the date of the leftmost match, and the text with every match removed, not stripped.
   */
  function ExtractDate(text: string): (r: DatedText)
    ensures IsoShape(r.date) || r.date == Unknown
    ensures Scan.NoMatch(text, DateMatcher) ==> r.date == Unknown
    ensures IsSubseq(r.text, text)
  {
    var date := match Scan.FirstMatch(text, DateMatcher)
      case Some(i) => DateFoundAt(text, i)
      case None => Unknown;
    DatedText(date, Scan.RemoveAll(text, DateMatcher))
  }

  /** Without a date the text comes back untouched with the sentinel; with one, the text changes. */
  lemma ExtractDateNoMatch(text: string)
    ensures Scan.NoMatch(text, DateMatcher) ==> ExtractDate(text) == DatedText(Unknown, text)
    ensures ExtractDate(text).text == text <==> Scan.NoMatch(text, DateMatcher)
  {
    Scan.RemoveAllUnchanged(text, DateMatcher);
  }

  /** The date comes from the leftmost match: no date starts anywhere before it. */
  lemma ExtractDateLeftmost(text: string, i: nat)
    requires i + DateLength <= |text| && DateShapeAt(text[i..])
    requires forall j :: 0 <= j < i ==> !DateShapeAt(text[j..])
    ensures ExtractDate(text).date == ConvertDateFormat(text[i..i + DateLength])
  {
    var f := Scan.FirstMatch(text, DateMatcher);
    assert Scan.MatchesAt(DateMatcher, text[i..]);
    assert f.Some? && f.value == i;
  }

  /** Whole dates are removed and nothing else: the text ExtractDate returns is 17 characters shorter per match. */
  lemma {:induction false} ExtractDateRemovesWholeMatches(s: string)
    ensures (|s| - |Scan.RemoveAll(s, DateMatcher)|) % DateLength == 0
    decreases |s|
  {
    if s != [] {
      if Scan.MatchesAt(DateMatcher, s) {
        ExtractDateRemovesWholeMatches(s[DateLength..]);
      } else {
        ExtractDateRemovesWholeMatches(s[1..]);
      }
    }
  }


  /**
   * Every occurrence is removed, not only the first: two dates back to back
   * both disappear, and the first one gives the date.
   */
  lemma ExtractDateRemovesEveryDate(d1: string, d2: string)
    requires |d1| == DateLength && DateShapeAt(d1)
    requires |d2| == DateLength && DateShapeAt(d2)
    ensures ExtractDate(d1 + d2) == DatedText(ConvertDateFormat(d1), [])
  {
    var s := d1 + d2;
    assert s[..DateLength] == d1;
    assert s[0..] == s;
    ExtractDateLeftmost(s, 0);
    DateRemovedWhole(d1, d2);
    DateRemovedWhole(d2, []);
    assert d2 + [] == d2;
  }

  /** A date at the front is one match, and the substitution resumes right after it. */
  lemma DateRemovedWhole(d: string, t: string)
    requires |d| == DateLength && DateShapeAt(d)
    ensures Scan.RemoveAll(d + t, DateMatcher) == Scan.RemoveAll(t, DateMatcher)
  {
    assert (d + t)[..DateLength] == d;
    assert DateShapeAt(d + t);
    assert (d + t)[DateLength..] == t;
  }
}
