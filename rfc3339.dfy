/**
 * Timestamps of the form `YYYY-MM-DDThh:mm:ss` followed by `Z` or a `+hh:mm` /
 * `-hh:mm` offset: the spelling of `DateTime::parse_from_rfc3339`'s input that
 * this model accepts, a part of the "date-time" form of section 5.6 of RFC 3339.
 */
module Rfc3339 {
  import opened Wrappers
  import opened Text

  datatype Offset = Utc | Ahead(hours: nat, minutes: nat) | Behind(hours: nat, minutes: nat)

  /** A timestamp as written: the calendar fields are those of its own offset. */
  datatype DateTime = DateTime(year: nat, month: nat, day: nat,
                               hour: nat, minute: nat, second: nat, offset: Offset)

  predicate IsLeapYear(y: nat) {
    y % 4 == 0 && (y % 100 != 0 || y % 400 == 0)
  }

  function DaysInMonth(y: nat, m: nat): nat
    requires 1 <= m <= 12
  {
    if m == 2 then (if IsLeapYear(y) then 29 else 28)
    else if m == 4 || m == 6 || m == 9 || m == 11 then 30
    else 31
  }

  predicate ValidOffset(o: Offset) {
    match o
    case Utc => true
    case Ahead(h, m) => h <= 23 && m <= 59
    case Behind(h, m) => h <= 23 && m <= 59
  }

  /** A real Gregorian date with four-digit year and a time of day (second 60 is a leap second). */
  predicate Valid(d: DateTime) {
    && d.year <= 9999
    && 1 <= d.month <= 12
    && 1 <= d.day <= DaysInMonth(d.year, d.month)
    && d.hour <= 23 && d.minute <= 59 && d.second <= 60
    && ValidOffset(d.offset)
  }

  function ParseOffset(s: string): (r: Option<Offset>)
    ensures r.Some? ==> ValidOffset(r.value)
  {
    if s == "Z" then Some(Utc)
    else if |s| == 6 && (s[0] == '+' || s[0] == '-') && s[3] == ':'
            && AllDigits(s[1..3]) && AllDigits(s[4..6]) then
      var h, m := DigitsValue(s[1..3]), DigitsValue(s[4..6]);
      if h <= 23 && m <= 59 then Some(if s[0] == '+' then Ahead(h, m) else Behind(h, m)) else None
    else None
  }

  predicate Shaped(s: string) {
    && |s| >= 20
    && s[4] == '-' && s[7] == '-' && s[10] == 'T' && s[13] == ':' && s[16] == ':'
    && AllDigits(s[0..4]) && AllDigits(s[5..7]) && AllDigits(s[8..10])
    && AllDigits(s[11..13]) && AllDigits(s[14..16]) && AllDigits(s[17..19])
  }

  /** chrono's `DateTime::parse_from_rfc3339`, on the form described above; `None` is its error. */
  function Parse(s: string): (r: Option<DateTime>)
    ensures r.Some? ==> Valid(r.value)
  {
    if !Shaped(s) then None
    else
      match ParseOffset(s[19..])
      case None => None
      case Some(o) =>
        var d := DateTime(DigitsValue(s[0..4]), DigitsValue(s[5..7]), DigitsValue(s[8..10]),
                          DigitsValue(s[11..13]), DigitsValue(s[14..16]), DigitsValue(s[17..19]), o);
        if Valid(d) then Some(d) else None
  }

  function FormatOffset(o: Offset): string {
    match o
    case Utc => "Z"
    case Ahead(h, m) => "+" + Padded(h, 2) + ":" + Padded(m, 2)
    case Behind(h, m) => "-" + Padded(h, 2) + ":" + Padded(m, 2)
  }

  /** The canonical text of a timestamp: zero-padded fields and the offset as written. */
  function Format(d: DateTime): string
    requires Valid(d)
  {
    Padded(d.year, 4) + "-" + Padded(d.month, 2) + "-" + Padded(d.day, 2) + "T"
      + Padded(d.hour, 2) + ":" + Padded(d.minute, 2) + ":" + Padded(d.second, 2)
      + FormatOffset(d.offset)
  }

  lemma ParseFormatOffset(o: Offset)
    requires ValidOffset(o)
    ensures ParseOffset(FormatOffset(o)) == Some(o)
  {
    match o
    case Utc =>
    case Ahead(h, m) =>
      var s := FormatOffset(o);
      assert s[1..3] == Padded(h, 2) && s[4..6] == Padded(m, 2);
      PaddedValue(h, 2);
      PaddedValue(m, 2);
    case Behind(h, m) =>
      var s := FormatOffset(o);
      assert s[1..3] == Padded(h, 2) && s[4..6] == Padded(m, 2);
      PaddedValue(h, 2);
      PaddedValue(m, 2);
  }

  /** Where each field sits in the formatted text. */
  lemma FormatFields(d: DateTime)
    requires Valid(d)
    ensures var s := Format(d);
            && s[0..4] == Padded(d.year, 4) && s[5..7] == Padded(d.month, 2) && s[8..10] == Padded(d.day, 2)
            && s[11..13] == Padded(d.hour, 2) && s[14..16] == Padded(d.minute, 2) && s[17..19] == Padded(d.second, 2)
            && s[19..] == FormatOffset(d.offset)
            && s[4] == '-' && s[7] == '-' && s[10] == 'T' && s[13] == ':' && s[16] == ':'
  {
    var y, mo, da := Padded(d.year, 4), Padded(d.month, 2), Padded(d.day, 2);
    var h, mi, se := Padded(d.hour, 2), Padded(d.minute, 2), Padded(d.second, 2);
    var t4 := y + "-" + mo + "-" + da + "T" + h + ":" + mi + ":";
    var t3 := y + "-" + mo + "-" + da + "T" + h + ":";
    var t2 := y + "-" + mo + "-" + da + "T";
    var t1 := y + "-" + mo + "-";
    var t0 := y + "-";
    var s := Format(d);
    assert s == t4 + se + FormatOffset(d.offset);
    CutAt(t4 + se, FormatOffset(d.offset));
    CutAt(t4, se);
    SliceOfPrefix(s, 17, 19, 19);
    assert t4 == t3 + mi + ":";
    CutAt(t3 + mi, ":");
    CutAt(t3, mi);
    SliceOfPrefix(s, 14, 16, 16);
    assert s[..16] == t3 + mi by { SliceOfPrefix(s, 0, 16, 19); }
    assert t3 == t2 + h + ":";
    CutAt(t2 + h, ":");
    CutAt(t2, h);
    assert s[..13] == t2 + h by { SliceOfPrefix(s, 0, 13, 16); }
    SliceOfPrefix(s, 11, 13, 13);
    assert t2 == t1 + da + "T";
    CutAt(t1 + da, "T");
    CutAt(t1, da);
    assert s[..10] == t1 + da by { SliceOfPrefix(s, 0, 10, 13); }
    SliceOfPrefix(s, 8, 10, 10);
    assert t1 == t0 + mo + "-";
    CutAt(t0 + mo, "-");
    CutAt(t0, mo);
    assert s[..7] == t0 + mo by { SliceOfPrefix(s, 0, 7, 10); }
    SliceOfPrefix(s, 5, 7, 7);
    CutAt(y, "-");
    assert s[..4] == y by { SliceOfPrefix(s, 0, 4, 7); }
  }

  /** The padded fields of midnight on 30 November 1990. */
  lemma PaddedFieldsExample()
    ensures Padded(1990, 4) == "1990" && Padded(11, 2) == "11" && Padded(30, 2) == "30" && Padded(0, 2) == "00"
  {
  }

  /** Midnight UTC on 30 November 1990 is written "1990-11-30T00:00:00Z". */
  lemma FormatExample()
    ensures Valid(DateTime(1990, 11, 30, 0, 0, 0, Utc))
    ensures Format(DateTime(1990, 11, 30, 0, 0, 0, Utc)) == "1990-11-30T00:00:00Z"
  {
    PaddedFieldsExample();
    assert Format(DateTime(1990, 11, 30, 0, 0, 0, Utc))
        == "1990" + "-" + "11" + "-" + "30" + "T" + "00" + ":" + "00" + ":" + "00" + "Z";
  }

  /** Every valid timestamp survives formatting and parsing. */
  lemma ParseFormat(d: DateTime)
    requires Valid(d)
    ensures Parse(Format(d)) == Some(d)
  {
    var s := Format(d);
    FormatFields(d);
    assert Shaped(s);
    assert DigitsValue(s[0..4]) == d.year by { PaddedValue(d.year, 4); }
    assert DigitsValue(s[5..7]) == d.month by { PaddedValue(d.month, 2); }
    assert DigitsValue(s[8..10]) == d.day by { PaddedValue(d.day, 2); }
    assert DigitsValue(s[11..13]) == d.hour by { PaddedValue(d.hour, 2); }
    assert DigitsValue(s[14..16]) == d.minute by { PaddedValue(d.minute, 2); }
    assert DigitsValue(s[17..19]) == d.second by { PaddedValue(d.second, 2); }
    assert ParseOffset(s[19..]) == Some(d.offset) by { ParseFormatOffset(d.offset); }
  }

  lemma FormatParseOffset(s: string)
    requires ParseOffset(s).Some?
    ensures FormatOffset(ParseOffset(s).value) == s
  {
    if s != "Z" {
      ValuePadded(s[1..3]);
      ValuePadded(s[4..6]);
      assert s == s[..1] + s[1..3] + [':'] + s[4..6];
    }
  }

  /** Two texts of at least 19 characters that agree on every field and separator of a timestamp are equal. */
  lemma SameFields(a: string, b: string)
    requires |a| >= 19 && |b| >= 19
    requires a[0..4] == b[0..4] && a[5..7] == b[5..7] && a[8..10] == b[8..10]
    requires a[11..13] == b[11..13] && a[14..16] == b[14..16] && a[17..19] == b[17..19] && a[19..] == b[19..]
    requires a[4] == b[4] && a[7] == b[7] && a[10] == b[10] && a[13] == b[13] && a[16] == b[16]
    ensures a == b
  {
    assert |a| == 19 + |a[19..]| && |b| == 19 + |b[19..]|;
    forall i | 0 <= i < |a|
      ensures a[i] == b[i]
    {
      if i < 4 { assert a[0..4][i] == b[0..4][i]; }
      else if 5 <= i < 7 { assert a[5..7][i - 5] == b[5..7][i - 5]; }
      else if 8 <= i < 10 { assert a[8..10][i - 8] == b[8..10][i - 8]; }
      else if 11 <= i < 13 { assert a[11..13][i - 11] == b[11..13][i - 11]; }
      else if 14 <= i < 16 { assert a[14..16][i - 14] == b[14..16][i - 14]; }
      else if 17 <= i < 19 { assert a[17..19][i - 17] == b[17..19][i - 17]; }
      else if 19 <= i { assert a[19..][i - 19] == b[19..][i - 19]; }
    }
  }

  /** Parsing accepts only canonical text: formatting what was parsed gives back the input. */
  lemma FormatParse(s: string)
    requires Parse(s).Some?
    ensures Format(Parse(s).value) == s
  {
    var d := Parse(s).value;
    FormatFields(d);
    ValuePadded(s[0..4]);
    ValuePadded(s[5..7]);
    ValuePadded(s[8..10]);
    ValuePadded(s[11..13]);
    ValuePadded(s[14..16]);
    ValuePadded(s[17..19]);
    FormatParseOffset(s[19..]);
    SameFields(Format(d), s);
  }
}
