/**
 * The date codec the service gets from luxon: parsing a strict three-field layout such as
 * `dd.MM.yyyy` into a calendar date (proleptic Gregorian, no time of day) and printing a
 * date back in a layout. `dd` and `MM` read exactly two ASCII digits and `yyyy` exactly four;
 * the whole string must match. A parsed date is valid only if its month is 1..12 and its
 * day exists in that month.
 */
module Dates {
  import opened Wrappers
  import opened Decimal

  datatype Date = Date(year: nat, month: nat, day: nat)

  /** A layout token: `dd`, `MM` or `yyyy`. */
  datatype Field = DayField | MonthField | YearField

  /** Three tokens with one separator character between neighbours, e.g. `dd.MM.yyyy`. */
  datatype Layout = Layout(first: Field, second: Field, third: Field, sep: char)

  /** The user-facing layout `dd.MM.yyyy`. */
  const UserLayout := Layout(DayField, MonthField, YearField, '.')

  /** The layout of the site's page paths, `yyyy-MM-dd`. */
  const SiteLayout := Layout(YearField, MonthField, DayField, '-')

  /** Each token of the layout names a different field. */
  predicate WellFormed(l: Layout)
  {
    l.first != l.second && l.second != l.third && l.first != l.third
  }

  /** Gregorian leap years: divisible by 4, except centuries not divisible by 400. */
  predicate IsLeapYear(y: nat)
  {
    y % 4 == 0 && (y % 100 != 0 || y % 400 == 0)
  }

  function DaysInMonth(y: nat, m: nat): nat
    requires 1 <= m <= 12
  {
    if m == 2 then (if IsLeapYear(y) then 29 else 28)
    else if m == 4 || m == 6 || m == 9 || m == 11 then 30
    else 31
  }

  /** A real calendar date whose year fits the four digits of `yyyy`. */
  predicate IsValid(d: Date)
  {
    d.year < 10000 && 1 <= d.month <= 12 && 1 <= d.day <= DaysInMonth(d.year, d.month)
  }

  /** The number of digits a token reads and the minimum it prints. */
  function Width(f: Field): nat
  {
    if f == YearField then 4 else 2
  }

  function FieldOf(d: Date, f: Field): nat
  {
    match f
    case DayField => d.day
    case MonthField => d.month
    case YearField => d.year
  }

  /** `DateTime.toFormat(layout)`: each field zero-padded to its token's width. */
  function Format(l: Layout, d: Date): string
  {
    Pad(FieldOf(d, l.first), Width(l.first)) + [l.sep]
      + Pad(FieldOf(d, l.second), Width(l.second)) + [l.sep]
      + Pad(FieldOf(d, l.third), Width(l.third))
  }

  /** The value read for field `f`, given the values read for the three tokens in order. */
  function Pick(l: Layout, f: Field, a: nat, b: nat, c: nat): nat
  {
    if l.first == f then a else if l.second == f then b else c
  }

  /**
   * `DateTime.fromFormat(s, layout)` followed by `.isValid`: `None` when `s` does not match
   * the layout exactly or does not denote a real date.
   */
  function Parse(l: Layout, s: string): (r: Option<Date>)
    ensures r.Some? ==> IsValid(r.value)
  {
    var w1, w2, w3 := Width(l.first), Width(l.second), Width(l.third);
    if |s| != w1 + w2 + w3 + 2 || s[w1] != l.sep || s[w1 + 1 + w2] != l.sep then None
    else
      var p1, p2, p3 := s[..w1], s[w1 + 1..w1 + 1 + w2], s[w1 + 2 + w2..];
      if !(AllDigits(p1) && AllDigits(p2) && AllDigits(p3)) then None
      else
        var a, b, c := Value(p1), Value(p2), Value(p3);
        var d := Date(Pick(l, YearField, a, b, c), Pick(l, MonthField, a, b, c), Pick(l, DayField, a, b, c));
        if IsValid(d) then Some(d) else None
  }

  /** Picking each field from the values printed for the three tokens gives back the date. */
  lemma PickFields(l: Layout, d: Date)
    requires WellFormed(l)
    ensures Date(Pick(l, YearField, FieldOf(d, l.first), FieldOf(d, l.second), FieldOf(d, l.third)),
                 Pick(l, MonthField, FieldOf(d, l.first), FieldOf(d, l.second), FieldOf(d, l.third)),
                 Pick(l, DayField, FieldOf(d, l.first), FieldOf(d, l.second), FieldOf(d, l.third))) == d
  {
  }

  /** The three pieces of a printed layout are found at the offsets `Parse` reads. */
  lemma Pieces(x: string, y: string, z: string, sep: char)
    ensures var s := x + [sep] + y + [sep] + z;
      && |s| == |x| + |y| + |z| + 2
      && s[|x|] == sep && s[|x| + 1 + |y|] == sep
      && s[..|x|] == x && s[|x| + 1..|x| + 1 + |y|] == y && s[|x| + 2 + |y|..] == z
  {
  }

  /** A valid date printed in a layout parses back to the same date. */
  lemma ParseFormat(l: Layout, d: Date)
    requires WellFormed(l) && IsValid(d)
    ensures Parse(l, Format(l, d)) == Some(d)
  {
    var a, b, c := FieldOf(d, l.first), FieldOf(d, l.second), FieldOf(d, l.third);
    var w1, w2, w3 := Width(l.first), Width(l.second), Width(l.third);
    PadLength(a, w1);
    PadLength(b, w2);
    PadLength(c, w3);
    ValuePad(a, w1);
    ValuePad(b, w2);
    ValuePad(c, w3);
    Pieces(Pad(a, w1), Pad(b, w2), Pad(c, w3), l.sep);
    PickFields(l, d);
  }

  /** A string a layout accepts is exactly the printing of the date it denotes. */
  lemma FormatParse(l: Layout, s: string)
    requires WellFormed(l) && Parse(l, s).Some?
    ensures Format(l, Parse(l, s).value) == s
  {
    var w1, w2, w3 := Width(l.first), Width(l.second), Width(l.third);
    var p1, p2, p3 := s[..w1], s[w1 + 1..w1 + 1 + w2], s[w1 + 2 + w2..];
    PadValue(p1);
    PadValue(p2);
    PadValue(p3);
    var d := Parse(l, s).value;
    assert FieldOf(d, l.first) == Value(p1) && FieldOf(d, l.second) == Value(p2) && FieldOf(d, l.third) == Value(p3);
    Reassemble(s, w1, w2, l.sep);
  }

  /** A string with the separator at both offsets is its three pieces put back together. */
  lemma Reassemble(s: string, w1: nat, w2: nat, sep: char)
    requires |s| >= w1 + w2 + 2 && s[w1] == sep && s[w1 + 1 + w2] == sep
    ensures s == s[..w1] + [sep] + s[w1 + 1..w1 + 1 + w2] + [sep] + s[w1 + 2 + w2..]
  {
    var t := s[..w1] + [sep] + s[w1 + 1..w1 + 1 + w2] + [sep] + s[w1 + 2 + w2..];
    forall k | 0 <= k < |s|
      ensures t[k] == s[k]
    {
      if k < w1 {
      } else if k == w1 {
      } else if k < w1 + 1 + w2 {
        assert t[k] == s[w1 + 1..w1 + 1 + w2][k - w1 - 1];
      } else if k == w1 + 1 + w2 {
      } else {
        assert t[k] == s[w1 + 2 + w2..][k - w1 - 2 - w2];
      }
    }
  }

  /**
   * A layout accepts a string if and only if the string is the printing of some valid date:
   * a wrong shape, a non-digit, a month outside 1..12 or a day the month does not have is rejected.
   */
  lemma ParseAcceptsExactlyPrintedDates(l: Layout, s: string)
    requires WellFormed(l)
    ensures Parse(l, s).Some? <==> exists d :: IsValid(d) && Format(l, d) == s
  {
    if Parse(l, s).Some? {
      FormatParse(l, s);
    }
    if d :| IsValid(d) && Format(l, d) == s {
      ParseFormat(l, d);
    }
  }

  /**
   * The service's conversion chain: a date accepted in the user layout, printed in the site
   * layout and parsed back, prints in the user layout as the very string the user gave.
   */
  lemma UserSiteRoundTrip(s: string)
    requires Parse(UserLayout, s).Some?
    ensures Parse(SiteLayout, Format(SiteLayout, Parse(UserLayout, s).value)) == Parse(UserLayout, s)
    ensures Format(UserLayout, Parse(UserLayout, s).value) == s
  {
    ParseFormat(SiteLayout, Parse(UserLayout, s).value);
    FormatParse(UserLayout, s);
  }

  /** A date the user layout accepts is digits and dots only, so it holds no other separator. */
  lemma UserDateCharacters(s: string, c: char)
    requires Parse(UserLayout, s).Some?
    requires c != '.' && !IsDigit(c)
    ensures c !in s
  {
    var p1, p2, p3 := s[..2], s[3..5], s[6..];
    assert s == p1 + ['.'] + p2 + ['.'] + p3;
    assert c !in p1 && c !in p2 && c !in p3;
  }

  /** The value of a four-digit run, digit by digit. */
  lemma ValueOfYear(s: string)
    requires |s| == 4 && AllDigits(s)
    ensures Value(s) == 1000 * DigitValue(s[0]) + 100 * DigitValue(s[1]) + 10 * DigitValue(s[2]) + DigitValue(s[3])
  {
    assert s[..3][..2] == s[..2] && s[..3][2] == s[2];
    assert s[..2][..1] == s[..1] && s[..2][1] == s[1];
    assert s[..1][..0] == [] && s[..1][0] == s[0];
    assert Value(s[..1]) == DigitValue(s[0]);
    assert Value(s[..2]) == 10 * DigitValue(s[0]) + DigitValue(s[1]);
    assert Value(s[..3]) == 100 * DigitValue(s[0]) + 10 * DigitValue(s[1]) + DigitValue(s[2]);
  }

  /** The value of a two-digit run. */
  lemma ValueOfPair(s: string)
    requires |s| == 2 && AllDigits(s)
    ensures Value(s) == 10 * DigitValue(s[0]) + DigitValue(s[1])
  {
    assert s[..1][..0] == [] && s[..1][0] == s[0];
  }

  /** How the user layout reads a string made of two, two and four digits around two dots. */
  lemma ParseUserPieces(dd: string, mm: string, yyyy: string)
    requires |dd| == 2 && |mm| == 2 && |yyyy| == 4
    requires AllDigits(dd) && AllDigits(mm) && AllDigits(yyyy)
    ensures var d := Date(Value(yyyy), Value(mm), Value(dd));
      Parse(UserLayout, dd + "." + mm + "." + yyyy) == if IsValid(d) then Some(d) else None
  {
    Pieces(dd, mm, yyyy, '.');
    assert dd + "." + mm + "." + yyyy == dd + ['.'] + mm + ['.'] + yyyy;
  }

  /** 31 February never exists. */
  lemma RejectsFebruary31()
    ensures Parse(UserLayout, "31.02.2024") == None
  {
    ValueOfPair("31");
    ValueOfYear("2024");
    assert "31.02.2024" == "31" + "." + "02" + "." + "2024";
    RejectsDay("31", "02", "2024");
  }

  /** 29 February is accepted exactly in leap years: years divisible by 4, except centuries not divisible by 400. */
  lemma LeapDay(yyyy: string)
    requires |yyyy| == 4 && AllDigits(yyyy)
    ensures Parse(UserLayout, "29.02." + yyyy)
         == if IsLeapYear(Value(yyyy)) then Some(Date(Value(yyyy), 2, 29)) else None
  {
    ValueOfPair("29");
    ValueOfPair("02");
    assert "29.02." + yyyy == "29" + "." + "02" + "." + yyyy;
    ParseUserPieces("29", "02", yyyy);
  }

  /** A day beyond the end of February is rejected whatever the year's digits. */
  lemma RejectsDay(dd: string, mm: string, yyyy: string)
    requires |dd| == 2 && |mm| == 2 && |yyyy| == 4
    requires AllDigits(dd) && AllDigits(mm) && AllDigits(yyyy)
    requires mm == "02"
    requires Value(dd) > DaysInMonth(Value(yyyy), 2)
    ensures Parse(UserLayout, dd + "." + mm + "." + yyyy) == None
  {
    ValueOfPair(mm);
    ParseUserPieces(dd, mm, yyyy);
  }

  /** 29 February 2000 exists: 2000 is a century divisible by 400. */
  lemma AcceptsLeapDay()
    ensures Parse(UserLayout, "29.02.2000") == Some(Date(2000, 2, 29))
  {
    assert AllDigits("29") && AllDigits("02") && AllDigits("2000");
    ValueOfYear("2000");
    ValueOfPair("29");
    ValueOfPair("02");
    assert "29.02.2000" == "29" + "." + "02" + "." + "2000";
    assert IsLeapYear(2000) && IsValid(Date(2000, 2, 29));
    ParseUserPieces("29", "02", "2000");
  }

  /** Only exactly two digits, a dot, two digits, a dot and four digits are read. */
  lemma RejectsWrongShape()
    ensures Parse(UserLayout, "5.01.2025") == None
    ensures Parse(UserLayout, "05/01/2025") == None
    ensures Parse(UserLayout, "05.01.25") == None
  {
  }
}
