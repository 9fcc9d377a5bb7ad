/**
 The `parseDate` helper of the query endpoint: the text before the first
 'T' is split at '-', each field is converted with `Number`, and the fields
 are handed to `new Date(year, month - 1, day)`.
 */
module DateText {
  import opened Wrappers
  import opened Calendar

  /** `s.split(sep)` for a one-character separator. */
  function Split(s: string, sep: char): (parts: seq<string>)
    ensures |parts| >= 1
    ensures Join(parts, sep) == s
    decreases |s|
  {
    if s == [] then [[]]
    else
      var rest := Split(s[1..], sep);
      if s[0] == sep then
        assert s == [sep] + s[1..];
        [[]] + rest
      else
        JoinCons(s[0], rest, sep);
        assert s == [s[0]] + s[1..];
        [[s[0]] + rest[0]] + rest[1..]
  }

  /** `parts.join(sep)`, the inverse of Split. */
  function Join(parts: seq<string>, sep: char): string
    requires |parts| >= 1
  {
    if |parts| == 1 then parts[0] else parts[0] + [sep] + Join(parts[1..], sep)
  }

  /** No part of a split holds the separator. */
  lemma {:induction false} SplitPartsFree(s: string, sep: char)
    ensures forall i :: 0 <= i < |Split(s, sep)| ==> sep !in Split(s, sep)[i]
    decreases |s|
  {
    if s != [] {
      SplitPartsFree(s[1..], sep);
      var rest := Split(s[1..], sep);
      if s[0] != sep {
        var parts := Split(s, sep);
        assert parts[0] == [s[0]] + rest[0];
        assert forall i :: 1 <= i < |parts| ==> parts[i] == rest[i];
      }
    }
  }

  /** Prefixing the first part prefixes the joined text. */
  lemma JoinCons(c: char, parts: seq<string>, sep: char)
    requires |parts| >= 1
    ensures Join([[c] + parts[0]] + parts[1..], sep) == [c] + Join(parts, sep)
  {
    var ps := [[c] + parts[0]] + parts[1..];
    assert ps[1..] == parts[1..];
  }

  /** Splitting a join of separator-free parts gives the parts back. */
  lemma {:induction false} SplitJoin(parts: seq<string>, sep: char)
    requires |parts| >= 1
    requires forall i :: 0 <= i < |parts| ==> sep !in parts[i]
    ensures Split(Join(parts, sep), sep) == parts
    decreases |Join(parts, sep)|
  {
    var s := Join(parts, sep);
    if parts[0] == [] {
      if |parts| > 1 {
        assert s == [sep] + Join(parts[1..], sep);
        assert s[1..] == Join(parts[1..], sep);
        SplitJoin(parts[1..], sep);
        assert parts == [[]] + parts[1..];
      }
    } else {
      var c, tail := parts[0][0], parts[0][1..];
      var shorter := [tail] + parts[1..];
      assert parts[0] == [c] + tail;
      assert shorter[1..] == parts[1..];
      assert forall i :: 0 <= i < |shorter| ==> sep !in shorter[i] by {
        forall i | 0 <= i < |shorter| ensures sep !in shorter[i] {
          if i == 0 {
            assert forall k :: 0 <= k < |tail| ==> tail[k] == parts[0][k + 1];
          } else {
            assert shorter[i] == parts[i];
          }
        }
      }
      JoinCons(c, shorter, sep);
      assert [[c] + shorter[0]] + shorter[1..] == parts;
      assert s == [c] + Join(shorter, sep);
      assert s[1..] == Join(shorter, sep);
      SplitJoin(shorter, sep);
    }
  }

  /** The first field of a split is the text before the first separator. */
  lemma {:induction false} SplitFirst(a: string, b: string, sep: char)
    requires sep !in a
    ensures Split(a + [sep] + b, sep)[0] == a
    decreases |a|
  {
    var s := a + [sep] + b;
    if a != [] {
      assert s[1..] == a[1..] + [sep] + b;
      SplitFirst(a[1..], b, sep);
      assert a == [a[0]] + a[1..];
    }
  }

  predicate IsDigit(c: char) {
    '0' <= c <= '9'
  }

  predicate AllDigits(s: string) {
    forall i :: 0 <= i < |s| ==> IsDigit(s[i])
  }

  /** The value of a run of decimal digits, most significant first. */
  function DecimalValue(s: string): nat
    requires AllDigits(s)
  {
    if s == [] then 0 else DecimalValue(s[..|s| - 1]) * 10 + (s[|s| - 1] as int - '0' as int)
  }

  /**
   `Number(field)` for a field produced by splitting at '-': the empty field
   is 0, a run of decimal digits is its value, anything else is NaN (None).
   */
  function NumberOf(field: string): (r: Option<int>)
    ensures r.Some? <==> AllDigits(field)
    ensures field == [] ==> r == Some(0)
    ensures r.Some? ==> r.value >= 0
  {
    if AllDigits(field) then Some(DecimalValue(field)) else None
  }

  /**
   The decimal text of `n`, left-padded with zeros to at least `width`
   digits (the padding `toISOString` applies to year, month and day).
   */
  function PaddedDigits(n: nat, width: nat): string
    decreases n + width
  {
    if n == 0 && width == 0 then []
    else PaddedDigits(n / 10, if width > 0 then width - 1 else 0) + [('0' as int + n % 10) as char]
  }

  /** `Number` reads a zero-padded decimal back as its value. */
  lemma {:induction false} NumberOfPadded(n: nat, width: nat)
    ensures AllDigits(PaddedDigits(n, width))
    ensures NumberOf(PaddedDigits(n, width)) == Some(n)
    decreases n + width
  {
    if !(n == 0 && width == 0) {
      var shorter := PaddedDigits(n / 10, if width > 0 then width - 1 else 0);
      NumberOfPadded(n / 10, if width > 0 then width - 1 else 0);
      var s := PaddedDigits(n, width);
      assert s[..|s| - 1] == shorter;
    }
  }

  /** What `new Date(y, ...)` does to a year argument: 0..99 mean 1900..1999. */
  function FullYear(y: int): (r: int)
    ensures 0 <= y <= 99 ==> r == 1900 + y
    ensures !(0 <= y <= 99) ==> r == y
  {
    if 0 <= y <= 99 then 1900 + y else y
  }

  /** The value `parseDate` returns: null, an invalid Date, or a local midnight. */
  datatype JsDate = NullDate | InvalidDate | LocalDate(date: ValidDate)

  /**
   `new Date(year, month - 1, day)` for the first three fields of a date
   part, read with `Number`; fewer than three fields or a field that is not
   a number give an invalid Date.
   */
  function DateOfFields(fields: seq<string>): (r: JsDate)
    ensures r != NullDate
    ensures r.LocalDate? <==> |fields| >= 3 && AllDigits(fields[0]) && AllDigits(fields[1]) && AllDigits(fields[2])
  {
    if |fields| < 3 then InvalidDate
    else match (NumberOf(fields[0]), NumberOf(fields[1]), NumberOf(fields[2]))
      case (Some(year), Some(month), Some(day)) => LocalDate(MakeDate(FullYear(year), month - 1, day))
      case _ => InvalidDate
  }

  /** `parseDate(dateString)` */
  function ParseDate(s: string): (r: JsDate)
    ensures r.NullDate? <==> s == []
  {
    if s == [] then NullDate else DateOfFields(Split(Split(s, 'T')[0], '-'))
  }

  /** `date.toISOString().split('T')[0]` for a year in 0..9999, time zones aside. */
  function IsoDate(d: Date): string
    requires Valid(d) && 0 <= d.year <= 9999
  {
    PaddedDigits(d.year, 4) + "-" + PaddedDigits(d.month, 2) + "-" + PaddedDigits(d.day, 2)
  }

  lemma DigitsHoldNoLetters(s: string)
    requires AllDigits(s)
    ensures '-' !in s && 'T' !in s
  {
  }

  /** The ISO text of a date holds no 'T' and splits at '-' into its three padded fields. */
  lemma IsoDateFields(d: Date)
    requires Valid(d) && 0 <= d.year <= 9999
    ensures 'T' !in IsoDate(d)
    ensures Split(IsoDate(d), '-') == [PaddedDigits(d.year, 4), PaddedDigits(d.month, 2), PaddedDigits(d.day, 2)]
  {
    var y, m, dd := PaddedDigits(d.year, 4), PaddedDigits(d.month, 2), PaddedDigits(d.day, 2);
    NumberOfPadded(d.year, 4);
    NumberOfPadded(d.month, 2);
    NumberOfPadded(d.day, 2);
    DigitsHoldNoLetters(y);
    DigitsHoldNoLetters(m);
    DigitsHoldNoLetters(dd);
    JoinThree(y, m, dd, '-');
    SplitJoin([y, m, dd], '-');
  }

  lemma JoinThree(a: string, b: string, c: string, sep: char)
    ensures Join([a, b, c], sep) == a + [sep] + b + [sep] + c
  {
    assert [a, b, c][1..] == [b, c] && [b, c][1..] == [c];
    assert Join([b, c], sep) == b + [sep] + Join([c], sep);
    assert Join([a, b, c], sep) == a + [sep] + (b + [sep] + c);
  }

  /** The padded year, month and day fields of `d` build `new Date(FullYear(d.year), d.month - 1, d.day)`. */
  lemma PaddedFieldsDate(d: Date)
    requires Valid(d) && 0 <= d.year
    ensures DateOfFields([PaddedDigits(d.year, 4), PaddedDigits(d.month, 2), PaddedDigits(d.day, 2)]) ==
            LocalDate(MakeDate(FullYear(d.year), d.month - 1, d.day))
  {
    NumberOfPadded(d.year, 4);
    NumberOfPadded(d.month, 2);
    NumberOfPadded(d.day, 2);
    NumberedFieldsDate([PaddedDigits(d.year, 4), PaddedDigits(d.month, 2), PaddedDigits(d.day, 2)], d.year, d.month, d.day);
  }

  /** Three fields that read as the numbers `year`, `month` and `day` build `new Date(FullYear(year), month - 1, day)`. */
  lemma NumberedFieldsDate(fields: seq<string>, year: int, month: int, day: int)
    requires |fields| >= 3
    requires NumberOf(fields[0]) == Some(year) && NumberOf(fields[1]) == Some(month) && NumberOf(fields[2]) == Some(day)
    ensures DateOfFields(fields) == LocalDate(MakeDate(FullYear(year), month - 1, day))
  {
  }

  /**
   Text whose part before the first 'T' is the ISO text of `d` parses to
   `new Date(FullYear(d.year), d.month - 1, d.day)`.
   */
  lemma ParseDatePart(s: string, d: Date)
    requires Valid(d) && 0 <= d.year <= 9999
    requires s != [] && Split(s, 'T')[0] == IsoDate(d)
    ensures ParseDate(s) == LocalDate(MakeDate(FullYear(d.year), d.month - 1, d.day))
  {
    IsoDateFields(d);
    assert ParseDate(s) == DateOfFields(Split(IsoDate(d), '-'));
    PaddedFieldsDate(d);
  }

  /** Text whose part before the first 'T' is the ISO text of `d` parses to `d` (years 100..9999). */
  lemma ParseFromDatePart(s: string, d: Date)
    requires Valid(d) && 100 <= d.year <= 9999
    requires s != [] && Split(s, 'T')[0] == IsoDate(d)
    ensures ParseDate(s) == LocalDate(d)
  {
    ParseDatePart(s, d);
    MakeDateOfValid(d);
  }

  /**
   A date written as YYYY-MM-DD, optionally followed by a time part, parses
   back to itself (years 100..9999; two-digit years are read as 19xx).
   */
  lemma ParseIsoDate(d: Date, timePart: string)
    requires Valid(d) && 100 <= d.year <= 9999
    ensures ParseDate(IsoDate(d)) == LocalDate(d)
    ensures ParseDate(IsoDate(d) + "T" + timePart) == LocalDate(d)
  {
    var text := IsoDate(d);
    IsoDateFields(d);
    SplitJoin([text], 'T');
    assert Split(text, 'T')[0] == text;
    ParseFromDatePart(text, d);
    SplitFirst(text, timePart, 'T');
    ParseFromDatePart(text + "T" + timePart, d);
  }

  /**
   A date whose year is 0..99, written as YYYY-MM-DD (optionally followed
   by a time part), parses to the date 1900 years later: the `Date`
   constructor reads the year field as 19xx.
   */
  lemma ParseTwoDigitYear(d: Date, timePart: string)
    requires Valid(d) && 0 <= d.year <= 99
    ensures ParseDate(IsoDate(d)) == LocalDate(AddYears(d, 1900))
    ensures ParseDate(IsoDate(d) + "T" + timePart) == LocalDate(AddYears(d, 1900))
  {
    var text := IsoDate(d);
    IsoDateFields(d);
    SplitJoin([text], 'T');
    assert Split(text, 'T')[0] == text;
    ParseTwoDigitFromDatePart(text, d);
    SplitFirst(text, timePart, 'T');
    ParseTwoDigitFromDatePart(text + "T" + timePart, d);
  }

  /** Text whose part before the first 'T' is the ISO text of `d` (year 0..99) parses to `d` 1900 years later. */
  lemma ParseTwoDigitFromDatePart(s: string, d: Date)
    requires Valid(d) && 0 <= d.year <= 99
    requires s != [] && Split(s, 'T')[0] == IsoDate(d)
    ensures ParseDate(s) == LocalDate(AddYears(d, 1900))
  {
    ParseDatePart(s, d);
    TwoDigitYearDate(d);
  }

  /** `new Date(y, m, d)` with a year 0..99 builds the date 1900 years later. */
  lemma TwoDigitYearDate(d: Date)
    requires 0 <= d.year <= 99
    ensures MakeDate(FullYear(d.year), d.month - 1, d.day) == AddYears(d, 1900)
  {
  }

  /** "0000-02-29" parses to 1 March 1900, because 1900 is not a leap year. */
  lemma YearZeroLeapDayExample()
    ensures ParseDate(IsoDate(Date(0, 2, 29))) == LocalDate(Date(1900, 3, 1))
  {
    var d := Date(0, 2, 29);
    assert !IsLeapYear(1900);
    ParseTwoDigitYear(d, "");
    AddYearsRollsOver(d, 1900);
  }
}
