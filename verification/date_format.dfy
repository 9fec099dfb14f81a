/** The two date helpers of the graph page: `formatDateTime`, which renders a
    local calendar time as the `YYYY-MM-DDTHH:MM` text of a datetime-local
    input, and `formatDateForApi`, which turns such text into the
    `YYYY-MM-DD HH:MM` form the graph endpoint expects. A parser for both
    forms serves as their reference. */
module DateFormat {
  import opened Results
  import Text

  /** The calendar fields a JavaScript `Date` reports in local time;
      `monthIndex` is `getMonth()`, counted from 0. */
  datatype LocalDateTime = LocalDateTime(year: int, monthIndex: nat, day: nat, hours: nat, minutes: nat) {
    /** The ranges `Date` getters always stay within. */
    predicate WellFormed() {
      monthIndex < 12 && 1 <= day <= 31 && hours < 24 && minutes < 60
    }
  }

  /** `n.toString().padStart(2, '0')`. */
  function Pad2(n: nat): (s: string)
    ensures 2 <= |s| && Text.AllDigits(s)
    ensures n < 100 ==> |s| == 2 && Text.ParseNat(s) == n
  {
    var digits := Text.NatToString(n);
    Text.ParseNatToString(n);
    Text.NatToStringWidth(n);
    if |digits| < 2 then
      assert ("0" + digits)[..1] == "0";
      "0" + digits
    else digits
  }

  /** The year as JavaScript prints an integer, with a minus sign when negative. */
  function YearText(year: int): string {
    if year < 0 then "-" + Text.NatToString(-year) else Text.NatToString(year)
  }

  lemma YearWidth(year: int)
    ensures 1000 <= year < 10000 ==> |YearText(year)| == 4 && Text.ParseNat(YearText(year)) == year
  {
    if 1000 <= year < 10000 {
      Text.NatToStringWidth(year);
      Text.ParseNatToString(year);
    }
  }

  /** `YYYY-MM-DD`: the year, then month and day padded to two digits. */
  function DatePart(d: LocalDateTime): string {
    YearText(d.year) + "-" + Pad2(d.monthIndex + 1) + "-" + Pad2(d.day)
  }

  /** `HH:MM`: hour and minute padded to two digits. */
  function TimePart(d: LocalDateTime): string {
    Pad2(d.hours) + ":" + Pad2(d.minutes)
  }

  /** `formatDateTime`: the date, a `T`, and the time, as `YYYY-MM-DDTHH:MM`. */
  function FormatDateTime(d: LocalDateTime): string
    requires d.WellFormed()
  {
    DatePart(d) + "T" + TimePart(d)
  }

  /** Reads `YYYY-MM-DD<sep>HH:MM` back into calendar fields; anything of
      another shape or with a field out of range is refused. */
  function ParseStamp(s: string, sep: char): (r: Option<LocalDateTime>)
    ensures r.Some? ==> r.value.WellFormed() && |s| == 16 && s[10] == sep
  {
    if |s| == 16 && s[10] == sep then ParseParts(s[..10], s[11..]) else None
  }

  /** Reads a `YYYY-MM-DD` date and an `HH:MM` time. */
  function ParseParts(date: string, time: string): (r: Option<LocalDateTime>)
    ensures r.Some? ==> r.value.WellFormed()
  {
    if |date| == 10 && |time| == 5 && date[4] == '-' && date[7] == '-' && time[2] == ':'
       && Text.AllDigits(date[0..4]) && Text.AllDigits(date[5..7]) && Text.AllDigits(date[8..10])
       && Text.AllDigits(time[0..2]) && Text.AllDigits(time[3..5])
    then
      var month := Text.ParseNat(date[5..7]);
      var d := LocalDateTime(Text.ParseNat(date[0..4]), if month == 0 then 0 else month - 1,
                             Text.ParseNat(date[8..10]), Text.ParseNat(time[0..2]), Text.ParseNat(time[3..5]));
      if 1 <= month && d.WellFormed() then Some(d) else None
    else None
  }

  /** The date text of a four-digit year, cut into its fields; it holds
      neither a `T` nor a space. */
  lemma DatePartShape(d: LocalDateTime)
    requires d.WellFormed() && 1000 <= d.year < 10000
    ensures var p := DatePart(d);
      && |p| == 10 && p[4] == '-' && p[7] == '-'
      && p[0..4] == YearText(d.year) && p[5..7] == Pad2(d.monthIndex + 1) && p[8..10] == Pad2(d.day)
      && 'T' !in p && ' ' !in p
  {
    YearWidth(d.year);
    var y, m, dd := YearText(d.year), Pad2(d.monthIndex + 1), Pad2(d.day);
    var p := DatePart(d);
    assert p == y + "-" + m + "-" + dd;
    assert p[0..4] == y;
    assert p[5..7] == m;
    assert p[8..10] == dd;
    forall i | 0 <= i < 10
      ensures p[i] != 'T' && p[i] != ' '
    {
      if i < 4 {
        assert p[i] == y[i];
      } else if 4 < i < 7 {
        assert p[i] == m[i - 5];
      } else if 7 < i {
        assert p[i] == dd[i - 8];
      }
    }
  }

  /** The time text, cut into its fields; it holds no space. */
  lemma TimePartShape(d: LocalDateTime)
    requires d.WellFormed()
    ensures var q := TimePart(d);
      && |q| == 5 && q[2] == ':' && q[0..2] == Pad2(d.hours) && q[3..5] == Pad2(d.minutes)
      && ' ' !in q
  {
    var h, mi := Pad2(d.hours), Pad2(d.minutes);
    var q := TimePart(d);
    assert q[0..2] == h;
    assert q[3..5] == mi;
    forall i | 0 <= i < 5
      ensures q[i] != ' '
    {
      if i < 2 {
        assert q[i] == h[i];
      } else if 2 < i {
        assert q[i] == mi[i - 3];
      }
    }
  }

  /** A date, a separator and a time are read back as that date and time. */
  lemma ParseJoined(date: string, sep: char, time: string)
    requires |date| == 10 && |time| == 5
    ensures ParseStamp(date + [sep] + time, sep) == ParseParts(date, time)
  {
    var s := date + [sep] + time;
    assert s[..10] == date;
    assert s[11..] == time;
  }

  /** A rendered calendar time with a four-digit year reads back to the same
      fields. */
  lemma FormatDateTimeRoundTrip(d: LocalDateTime)
    requires d.WellFormed() && 1000 <= d.year < 10000
    ensures |FormatDateTime(d)| == 16
    ensures ParseStamp(FormatDateTime(d), 'T') == Some(d)
  {
    DatePartShape(d);
    TimePartShape(d);
    YearWidth(d.year);
    ParseJoined(DatePart(d), 'T', TimePart(d));
  }

  /** The first occurrence of `c` in `s` replaced by `with`: JavaScript's
      `replace` with a string pattern. */
  function ReplaceFirst(s: string, c: char, with: char): (r: string)
    ensures |r| == |s|
    decreases |s|
  {
    if |s| == 0 then s
    else if s[0] == c then [with] + s[1..]
    else [s[0]] + ReplaceFirst(s[1..], c, with)
  }

  /** Position by position, only the first `c` changes. */
  lemma {:induction false} ReplaceFirstAt(s: string, c: char, with: char)
    ensures forall i :: 0 <= i < |s| ==>
      ReplaceFirst(s, c, with)[i] == (if s[i] == c && c !in s[..i] then with else s[i])
    decreases |s|
  {
    if |s| > 0 && s[0] != c {
      ReplaceFirstAt(s[1..], c, with);
      forall i | 1 <= i < |s|
        ensures c in s[..i] <==> c in s[1..][..i - 1]
      {
        assert s[..i] == [s[0]] + s[1..][..i - 1];
      }
    }
  }

  /** `formatDateForApi`: empty text stays empty, text that already holds a
      space is passed through, and anything else has its first `T` turned
      into a space and is cut to 16 characters. */
  function FormatDateForApi(d: string): (r: string)
    ensures |d| == 0 ==> r == ""
    ensures ' ' in d ==> r == d
    ensures |d| > 0 && ' ' !in d ==> |r| == if |d| < 16 then |d| else 16
    ensures |d| > 0 && ' ' !in d ==>
      forall i :: 0 <= i < |r| ==> r[i] == (if d[i] == 'T' && 'T' !in d[..i] then ' ' else d[i])
  {
    if |d| == 0 then ""
    else if ' ' in d then d
    else
      var replaced := ReplaceFirst(d, 'T', ' ');
      ReplaceFirstAt(d, 'T', ' ');
      if |replaced| <= 16 then replaced else replaced[..16]
  }

  /** Formatting for the endpoint twice is the same as formatting once. */
  lemma FormatDateForApiIdempotent(d: string)
    ensures FormatDateForApi(FormatDateForApi(d)) == FormatDateForApi(d)
  {
    var r := FormatDateForApi(d);
    if |d| > 0 && ' ' !in d && ' ' !in r {
      assert 'T' !in r by {
        if 'T' in r {
          var i :| 0 <= i < |r| && r[i] == 'T';
          var k := FirstOccurrence(d, 'T', i);
        }
      }
      ReplaceFirstAt(r, 'T', ' ');
      assert ReplaceFirst(r, 'T', ' ') == r;
    }
  }

  /** Any occurrence has a first occurrence at or before it. */
  lemma {:induction false} FirstOccurrence(s: string, c: char, j: nat) returns (k: nat)
    requires j < |s| && s[j] == c
    ensures k <= j && s[k] == c && c !in s[..k]
    decreases j
  {
    if c in s[..j] {
      var j' :| 0 <= j' < j && s[j'] == c;
      k := FirstOccurrence(s, c, j');
    } else {
      k := j;
    }
  }

  /** With no space anywhere and no earlier `T`, formatting for the
      endpoint turns the `T` between a date and a time into a space. */
  lemma ApiOfJoined(date: string, time: string)
    requires 'T' !in date && ' ' !in date && ' ' !in time
    requires |date| + 1 + |time| <= 16
    ensures FormatDateForApi(date + "T" + time) == date + " " + time
  {
    var s := date + "T" + time;
    var r := FormatDateForApi(s);
    var e := date + " " + time;
    assert ' ' !in s;
    forall i | 0 <= i < |s|
      ensures r[i] == e[i]
    {
      if i < |date| {
        assert s[..i] == date[..i];
      } else if i == |date| {
        assert s[..i] == date;
      } else {
        assert s[|date|] == 'T';
      }
    }
  }

  /** Rendering a calendar time and then formatting it for the endpoint gives
      the same text with a space in place of the `T`, which reads back to the
      same fields. */
  lemma ApiStampRoundTrip(d: LocalDateTime)
    requires d.WellFormed() && 1000 <= d.year < 10000
    ensures FormatDateForApi(FormatDateTime(d)) == DatePart(d) + " " + TimePart(d)
    ensures ParseStamp(FormatDateForApi(FormatDateTime(d)), ' ') == Some(d)
  {
    DatePartShape(d);
    TimePartShape(d);
    ApiOfJoined(DatePart(d), TimePart(d));
    FormatDateTimeRoundTrip(d);
    ParseJoined(DatePart(d), 'T', TimePart(d));
    ParseJoined(DatePart(d), ' ', TimePart(d));
  }
}
