/** `_parse_date`: a date tag written `YYYY:MM:DD HH:MM:SS` is shown as
    `DD.MM.YYYY HH:MM`; anything else is shown as it is.

    The accepted inputs are those of `datetime.strptime(s, '%Y:%m:%d %H:%M:%S')`
    in CPython: `%Y` is exactly four digits; `%m`, `%H`, `%M` and `%S` are one or
    two digits within range; `%d` is one or two digits or a space and one
    non-zero digit; the space of the format matches any non-empty run of
    whitespace; the whole string must be consumed; and the values must make a
    real date and time (years 1..9999, leap years, seconds below 60). */
module Dates {
  import opened Optional
  import opened Text
  import opened Tags

  datatype DateTime = DateTime(year: nat, month: nat, day: nat, hour: nat, minute: nat, second: nat)

  predicate IsLeapYear(y: nat) {
    y % 4 == 0 && (y % 100 != 0 || y % 400 == 0)
  }

  function DaysInMonth(y: nat, m: nat): nat {
    if m == 2 then (if IsLeapYear(y) then 29 else 28)
    else if m == 4 || m == 6 || m == 9 || m == 11 then 30
    else 31
  }

  /** What the `datetime` constructor accepts. */
  predicate Valid(dt: DateTime) {
    1 <= dt.year <= 9999 && 1 <= dt.month <= 12 && 1 <= dt.day <= DaysInMonth(dt.year, dt.month)
    && dt.hour <= 23 && dt.minute <= 59 && dt.second <= 59
  }

  /** Every field fits the width it is written with. */
  predicate Fits(dt: DateTime) {
    dt.year < 10000 && dt.month < 100 && dt.day < 100
    && dt.hour < 100 && dt.minute < 100 && dt.second < 100
  }

  predicate AllDigits(s: string) {
    forall i :: 0 <= i < |s| ==> IsDigit(s[i])
  }

  function DigitValue(c: char): nat
    requires IsDigit(c)
  {
    c as int - '0' as int
  }

  /** The decimal value of a string of ASCII digits. */
  function Value(s: string): nat
    requires AllDigits(s)
  {
    if s == [] then 0 else 10 * Value(s[..|s| - 1]) + DigitValue(s[|s| - 1])
  }

  /** Length of the run of ASCII digits that starts at `i`. */
  function DigitRun(s: string, i: nat): (k: nat)
    requires i <= |s|
    ensures i + k <= |s|
    ensures forall j :: i <= j < i + k ==> IsDigit(s[j])
    ensures AllDigits(s[i..i + k])
    ensures i + k < |s| ==> !IsDigit(s[i + k])
    decreases |s| - i
  {
    if i < |s| && IsDigit(s[i]) then 1 + DigitRun(s, i + 1) else 0
  }

  /** Length of the run of whitespace that starts at `i`. */
  function SpaceRun(s: string, i: nat): (k: nat)
    requires i <= |s|
    ensures i + k <= |s|
    ensures i + k < |s| ==> !IsSpace(s[i + k])
    decreases |s| - i
  {
    if i < |s| && IsSpace(s[i]) then 1 + SpaceRun(s, i + 1) else 0
  }

  /** The six fields as the pattern `%Y:%m:%d\s+%H:%M:%S` cuts the string. */
  datatype Fields = Fields(year: string, month: string, day: string,
                           hour: string, minute: string, second: string)

  /** Cuts `s` at its separators: four digits and ':', a digit run and ':',
      an optional single space and a digit run, whitespace, then three digit
      runs separated by ':' that end the string. */
  function Split(s: string): (r: Option<Fields>)
    ensures r.Some? ==> |r.value.year| == 4 && AllDigits(r.value.year)
  {
    if DigitRun(s, 0) != 4 || |s| <= 4 || s[4] != ':' then None
    else
      assert s[..4] == s[0..0 + 4];
      var me := 5 + DigitRun(s, 5);
      if me >= |s| || s[me] != ':' then None
      else
        var ds := me + 1;
        var lead := if ds < |s| && s[ds] == ' ' then 1 else 0;
        var de := ds + lead + DigitRun(s, ds + lead);
        var hs := de + SpaceRun(s, de);
        if hs == de then None
        else
          var he := hs + DigitRun(s, hs);
          if he >= |s| || s[he] != ':' then None
          else
            var ne := he + 1 + DigitRun(s, he + 1);
            if ne >= |s| || s[ne] != ':' then None
            else if ne + 1 + DigitRun(s, ne + 1) != |s| then None
            else Some(Fields(s[..4], s[5..me], s[ds..de], s[hs..he], s[he + 1..ne], s[ne + 1..]))
  }

  /** One or two digits with a value in `lo..hi`: the patterns of `%m`
      (1..12), `%H` (0..23), `%M` and `%S` (0..59; the pattern's 60 and 61
      are refused by the `datetime` constructor). */
  function Small(f: string, lo: nat, hi: nat): Option<nat> {
    if 1 <= |f| <= 2 && AllDigits(f) && lo <= Value(f) <= hi then Some(Value(f)) else None
  }

  /** `%d`: one or two digits in 1..31, or a space and one non-zero digit. */
  function Day(f: string): Option<nat> {
    if |f| == 2 && f[0] == ' ' && IsDigit(f[1]) && f[1] != '0' then Some(DigitValue(f[1]))
    else Small(f, 1, 31)
  }

  /** `datetime.strptime(s, '%Y:%m:%d %H:%M:%S')`, `None` for its `ValueError`. */
  function ParseExif(s: string): (r: Option<DateTime>)
    ensures r.Some? ==> Valid(r.value) && Fits(r.value)
  {
    match Split(s)
    case None => None
    case Some(f) =>
      match (Small(f.month, 1, 12), Day(f.day), Small(f.hour, 0, 23),
             Small(f.minute, 0, 59), Small(f.second, 0, 59))
      case (Some(mo), Some(d), Some(h), Some(mi), Some(se)) =>
        var dt := DateTime(Value(f.year), mo, d, h, mi, se);
        if Valid(dt) then Some(dt) else None
      case _ => None
  }

  function Digit(n: nat): char
    requires n < 10
  {
    (n + '0' as int) as char
  }

  function Pad2(n: nat): string
    requires n < 100
  {
    [Digit(n / 10), Digit(n % 10)]
  }

  function Pad4(n: nat): string
    requires n < 10000
  {
    [Digit(n / 1000), Digit(n / 100 % 10), Digit(n / 10 % 10), Digit(n % 10)]
  }

  /** `strftime('%d.%m.%Y %H:%M')`: zero-padded, seconds dropped. */
  function Format(dt: DateTime): string
    requires Fits(dt)
  {
    Pad2(dt.day) + "." + Pad2(dt.month) + "." + Pad4(dt.year) + " "
    + Pad2(dt.hour) + ":" + Pad2(dt.minute)
  }

  /** The layout in which cameras write date tags: `YYYY:MM:DD HH:MM:SS`. */
  function Canonical(dt: DateTime): string
    requires Fits(dt)
  {
    Pad4(dt.year) + ":" + Pad2(dt.month) + ":" + Pad2(dt.day) + " "
    + Pad2(dt.hour) + ":" + Pad2(dt.minute) + ":" + Pad2(dt.second)
  }

  /** What `_parse_date` is called with: nothing, a string, or a decoded tag
      (which has no truth value of its own, so it is always truthy). */
  datatype DateArg = NoArg | StrArg(s: string) | TagArg(tag: TagValue)

  predicate Truthy(a: DateArg) {
    match a
    case NoArg => false
    case StrArg(s) => s != []
    case TagArg(_) => true
  }

  /** `str(a)`. */
  function StrOf(a: DateArg): string {
    match a
    case NoArg => "None"
    case StrArg(s) => s
    case TagArg(t) => t.printable
  }

  /** `_parse_date`: "-" for a falsy argument, the reformatted date when the
      stripped text parses, and otherwise the unstripped text. */
  function ParseDate(a: DateArg): string {
    if !Truthy(a) then "-"
    else
      var parsed := ParseExif(Strip(StrOf(a)));
      if parsed.Some? then Format(parsed.value) else StrOf(a)
  }

  /** A run of `k` digits closed by the end of the string or a non-digit. */
  lemma {:induction false} DigitRunExact(s: string, i: nat, k: nat)
    requires i + k <= |s| && AllDigits(s[i..i + k])
    requires i + k == |s| || !IsDigit(s[i + k])
    ensures DigitRun(s, i) == k
    decreases k
  {
    if k > 0 {
      assert s[i..i + k][0] == s[i];
      assert s[i + 1..i + 1 + (k - 1)] == s[i..i + k][1..];
      DigitRunExact(s, i + 1, k - 1);
    }
  }

  lemma Pad2Value(n: nat)
    requires n < 100
    ensures AllDigits(Pad2(n)) && Value(Pad2(n)) == n
  {
    var p := Pad2(n);
    assert p[..1] == [Digit(n / 10)];
    assert Value(p[..1]) == n / 10;
  }

  lemma Pad4Value(n: nat)
    requires n < 10000
    ensures AllDigits(Pad4(n)) && Value(Pad4(n)) == n
  {
    var p := Pad4(n);
    assert p[..1] == [Digit(n / 1000)];
    assert Value(p[..1]) == n / 1000;
    assert p[..2][..1] == p[..1];
    assert Value(p[..2]) == n / 100;
    assert p[..3][..2] == p[..2];
    assert Value(p[..3]) == n / 10;
  }

  /** How `Split` cuts nineteen characters laid out as `dddd:dd:dd dd:dd:dd`. */
  lemma SplitLayout(s: string)
    requires |s| == 19
    requires s[4] == ':' && s[7] == ':' && s[10] == ' ' && s[13] == ':' && s[16] == ':'
    requires AllDigits(s[0..4]) && AllDigits(s[5..7]) && AllDigits(s[8..10])
    requires AllDigits(s[11..13]) && AllDigits(s[14..16]) && AllDigits(s[17..19])
    ensures Split(s) == Some(Fields(s[..4], s[5..7], s[8..10], s[11..13], s[14..16], s[17..]))
  {
    DigitRunExact(s, 0, 4);
    DigitRunExact(s, 5, 2);
    assert s[8] == s[8..10][0];
    DigitRunExact(s, 8, 2);
    assert s[11] == s[11..13][0];
    assert SpaceRun(s, 11) == 0;
    assert SpaceRun(s, 10) == 1;
    DigitRunExact(s, 11, 2);
    DigitRunExact(s, 14, 2);
    DigitRunExact(s, 17, 2);
  }

  /** How `Split` cuts a string in the canonical layout. */
  lemma SplitCanonical(dt: DateTime)
    requires Fits(dt)
    ensures Split(Canonical(dt)) == Some(Fields(Pad4(dt.year), Pad2(dt.month), Pad2(dt.day),
                                                Pad2(dt.hour), Pad2(dt.minute), Pad2(dt.second)))
  {
    var s := Canonical(dt);
    Pad4Value(dt.year);
    Pad2Value(dt.month);
    Pad2Value(dt.day);
    Pad2Value(dt.hour);
    Pad2Value(dt.minute);
    Pad2Value(dt.second);
    CanonicalSlices(dt);
    SplitLayout(s);
  }

  /** Where each field sits in the canonical layout. */
  lemma CanonicalSlices(dt: DateTime)
    requires Fits(dt)
    ensures var s := Canonical(dt);
      && |s| == 19 && s[4] == ':' && s[7] == ':' && s[10] == ' ' && s[13] == ':' && s[16] == ':'
      && s[..4] == s[0..4] == Pad4(dt.year) && s[5..7] == Pad2(dt.month) && s[8..10] == Pad2(dt.day)
      && s[11..13] == Pad2(dt.hour) && s[14..16] == Pad2(dt.minute) && s[17..] == s[17..19] == Pad2(dt.second)
  {
    var s := Canonical(dt);
    var p1 := Pad4(dt.year) + ":";
    var p2 := p1 + Pad2(dt.month) + ":";
    var p3 := p2 + Pad2(dt.day) + " ";
    var p4 := p3 + Pad2(dt.hour) + ":";
    var p5 := p4 + Pad2(dt.minute) + ":";
    assert s == p5 + Pad2(dt.second);
    assert p5[..14] == p4[..14];
    assert p5[..11] == p4[..11] == p3;
    assert p3[..8] == p2;
    assert p2[..5] == p1;
    assert s[..17] == p5;
    assert s[..4] == p1[..4];
    assert s[5..7] == p2[5..7];
    assert s[8..10] == p3[8..10];
    assert s[11..13] == p4[11..13];
    assert s[14..16] == p5[14..16];
  }

  /** A date written in the canonical layout parses back to itself exactly when
      it is a real date and time; otherwise `strptime` refuses it. */
  lemma CanonicalParses(dt: DateTime)
    requires Fits(dt)
    ensures ParseExif(Canonical(dt)) == if Valid(dt) then Some(dt) else None
  {
    SplitCanonical(dt);
    Pad4Value(dt.year);
    Pad2Value(dt.month);
    Pad2Value(dt.day);
    Pad2Value(dt.hour);
    Pad2Value(dt.minute);
    Pad2Value(dt.second);
  }

  /** A well-formed date tag, with any whitespace around it, is shown as
      `DD.MM.YYYY HH:MM` of the same date and time. */
  lemma ParseDateWellFormed(dt: DateTime, pre: string, post: string)
    requires Valid(dt)
    requires AllSpaces(pre) && AllSpaces(post)
    ensures ParseDate(StrArg(pre + Canonical(dt) + post)) == Format(dt)
  {
    var c := Canonical(dt);
    assert !IsSpace(c[0]) && !IsSpace(c[|c| - 1]);
    StripPadded(pre, c, post);
    CanonicalParses(dt);
    assert |pre + c + post| >= |c|;
  }

  /** A canonical-looking date that is not on the calendar (the 29th of February
      of a common year, the 31st of April, hour 24, second 60) is shown as it
      was given. */
  lemma ParseDateKeepsImpossible(dt: DateTime)
    requires Fits(dt) && !Valid(dt)
    ensures ParseDate(StrArg(Canonical(dt))) == Canonical(dt)
  {
    var c := Canonical(dt);
    assert !IsSpace(c[0]) && !IsSpace(c[|c| - 1]);
    TrimLeftPadded([], c);
    TrimRightPadded(c, []);
    assert [] + c == c && c + [] == c;
    assert Strip(c) == c;
    CanonicalParses(dt);
    assert ParseExif(Strip(c)) == None;
  }

  /** The displayed text carries the day, month, year, hour and minute of the
      parsed value at fixed places, so nothing but the seconds is lost. */
  lemma FormatFields(dt: DateTime)
    requires Valid(dt)
    ensures var out := Format(dt);
      && |out| == 16 && out[2] == '.' && out[5] == '.' && out[10] == ' ' && out[13] == ':'
      && AllDigits(out[0..2]) && Value(out[0..2]) == dt.day
      && AllDigits(out[3..5]) && Value(out[3..5]) == dt.month
      && AllDigits(out[6..10]) && Value(out[6..10]) == dt.year
      && AllDigits(out[11..13]) && Value(out[11..13]) == dt.hour
      && AllDigits(out[14..16]) && Value(out[14..16]) == dt.minute
  {
    var out := Format(dt);
    var p1 := Pad2(dt.day) + ".";
    var p2 := p1 + Pad2(dt.month) + ".";
    var p3 := p2 + Pad4(dt.year) + " ";
    var p4 := p3 + Pad2(dt.hour) + ":";
    assert out == p4 + Pad2(dt.minute);
    assert out[..14] == p4 && p4[..11] == p3 && p3[..6] == p2 && p2[..3] == p1;
    assert out[0..2] == p1[0..2];
    assert out[3..5] == p2[3..5];
    assert out[6..10] == p3[6..10];
    assert out[11..13] == p4[11..13];
    assert out[14..16] == Pad2(dt.minute);
    Pad2Value(dt.day);
    Pad2Value(dt.month);
    Pad4Value(dt.year);
    Pad2Value(dt.hour);
    Pad2Value(dt.minute);
  }

  /** "-" comes out only for a falsy argument or for the text "-" itself:
      a reformatted date is never "-". */
  lemma ParseDateDash(a: DateArg)
    ensures ParseDate(a) == "-" <==> !Truthy(a) || StrOf(a) == "-"
  {
    if Truthy(a) {
      var p := ParseExif(Strip(StrOf(a)));
      if p.Some? {
        FormatFields(p.value);
        if StrOf(a) == "-" {
          DashStrips();
        }
      }
    }
  }

  lemma DashStrips()
    ensures ParseExif(Strip("-")) == None
  {
    assert TrimLeft("-") == "-";
    assert TrimRight("-") == "-";
    assert DigitRun("-", 0) == 0;
  }

  /** 2024 is a leap year: its 29th of February is reformatted. */
  lemma LeapDayExample(s: string)
    requires s == "2024:02:29 23:59:59"
    ensures ParseDate(StrArg(s)) == "29.02.2024 23:59"
  {
    var leap := DateTime(2024, 2, 29, 23, 59, 59);
    LeapDayText(leap);
    assert s == [] + Canonical(leap) + [];
    ParseDateWellFormed(leap, [], []);
  }

  lemma LeapDayText(leap: DateTime)
    requires leap == DateTime(2024, 2, 29, 23, 59, 59)
    ensures Canonical(leap) == "2024:02:29 23:59:59"
    ensures Format(leap) == "29.02.2024 23:59"
    ensures Valid(leap)
  {
    assert Pad4(2024) == "2024";
    assert Pad2(2) == "02" && Pad2(29) == "29" && Pad2(23) == "23" && Pad2(59) == "59";
  }

  /** 2023 is not a leap year: its "29th of February" is kept as written. */
  lemma CommonYearExample(s: string)
    requires s == "2023:02:29 12:00:00"
    ensures ParseDate(StrArg(s)) == s
  {
    var common := DateTime(2023, 2, 29, 12, 0, 0);
    assert Pad4(2023) == "2023";
    assert Pad2(2) == "02" && Pad2(29) == "29" && Pad2(12) == "12" && Pad2(0) == "00";
    assert Canonical(common) == "2023:02:29 12:00:00";
    assert !IsLeapYear(2023);
    ParseDateKeepsImpossible(common);
  }

  /** Single-digit fields are accepted and shown zero-padded. */
  lemma ShortFieldsExample(s: string)
    requires s == "2024:1:5 7:3:9"
    ensures ParseDate(StrArg(s)) == "05.01.2024 07:03"
  {
    var dt := DateTime(2024, 1, 5, 7, 3, 9);
    assert ShortText(s);
    ShortFieldsParse(s, dt);
    ParseDateParsed(s, dt);
    ShortFieldsText(dt);
  }

  /** The characters of "2024:1:5 7:3:9", one by one. */
  predicate ShortText(s: string) {
    && |s| == 14
    && s[0] == '2' && s[1] == '0' && s[2] == '2' && s[3] == '4' && s[4] == ':'
    && s[5] == '1' && s[6] == ':' && s[7] == '5' && s[8] == ' '
    && s[9] == '7' && s[10] == ':' && s[11] == '3' && s[12] == ':' && s[13] == '9'
  }

  /** A stripped text that parses is shown reformatted. */
  lemma ParseDateParsed(s: string, dt: DateTime)
    requires s != [] && Stripped(s) && ParseExif(s) == Some(dt)
    ensures ParseDate(StrArg(s)) == Format(dt)
  {
    StripStripped(s);
  }

  /** How `Split` cuts fourteen characters laid out as `dddd:d:d d:d:d`. */
  lemma SplitShortLayout(s: string)
    requires |s| == 14
    requires s[4] == ':' && s[6] == ':' && s[8] == ' ' && s[10] == ':' && s[12] == ':'
    requires AllDigits(s[0..4]) && IsDigit(s[5]) && IsDigit(s[7])
    requires IsDigit(s[9]) && IsDigit(s[11]) && IsDigit(s[13])
    ensures Split(s) == Some(Fields(s[..4], s[5..6], s[7..8], s[9..10], s[11..12], s[13..]))
  {
    DigitRunExact(s, 0, 4);
    assert DigitRun(s, 5) == 1;
    assert DigitRun(s, 7) == 1;
    assert SpaceRun(s, 9) == 0;
    assert SpaceRun(s, 8) == 1;
    assert DigitRun(s, 9) == 1;
    assert DigitRun(s, 11) == 1;
    assert DigitRun(s, 13) == 1;
  }

  lemma ShortFieldsParse(s: string, dt: DateTime)
    requires ShortText(s)
    requires dt == DateTime(2024, 1, 5, 7, 3, 9)
    ensures s != [] && Stripped(s) && ParseExif(s) == Some(dt)
  {
    assert AllDigits(s[0..4]);
    SplitShortLayout(s);
    assert s[..4] == Pad4(2024);
    Pad4Value(2024);
    assert Value(s[5..6]) == 1 && Value(s[7..8]) == 5 && Value(s[9..10]) == 7;
    assert Value(s[11..12]) == 3 && Value(s[13..]) == 9;
    assert Valid(dt);
  }

  lemma ShortFieldsText(dt: DateTime)
    requires dt == DateTime(2024, 1, 5, 7, 3, 9)
    ensures Format(dt) == "05.01.2024 07:03"
  {
    assert Pad2(5) == "05" && Pad2(1) == "01" && Pad4(2024) == "2024";
    assert Pad2(7) == "07" && Pad2(3) == "03";
  }
}
