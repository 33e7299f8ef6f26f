/**
 The compact timestamp `YYYYMMDD@HHMMSS` that the program renders with the
 format `%04d%02d%02d@%02d%02d%02d`, both in the exported file and on the
 console, and a reader that inverts it.
 */
module CompactTime {
  import opened Decimal

  /**
   The six calendar fields the format is applied to, already split.  The
   program takes year, month and day from the stored time and hour, minute
   and second from its local-time view; here they are simply given.
   */
  datatype Timestamp = Timestamp(year: int, month: int, day: int, hour: int, minute: int, second: int)

  /** Every field is non-negative and fits its width: 4 digits for the year, 2 for the rest. */
  predicate Fits(t: Timestamp) {
    && 0 <= t.year < Pow10(4)
    && 0 <= t.month < Pow10(2)
    && 0 <= t.day < Pow10(2)
    && 0 <= t.hour < Pow10(2)
    && 0 <= t.minute < Pow10(2)
    && 0 <= t.second < Pow10(2)
  }

  /** Years 0 to 9999 with month, day, hour, minute and second in their calendar ranges. */
  predicate IsCalendar(t: Timestamp) {
    && 0 <= t.year <= 9999
    && 1 <= t.month <= 12
    && 1 <= t.day <= 31
    && 0 <= t.hour <= 23
    && 0 <= t.minute <= 59
    && 0 <= t.second <= 59
  }

  /** Fifteen characters: eight digits, '@', six digits. */
  predicate WellFormed(s: string) {
    && |s| == 15
    && s[8] == '@'
    && forall i :: 0 <= i < 15 && i != 8 ==> IsDigit(s[i])
  }

  /** The string `%04d%02d%02d@%02d%02d%02d` prints for the six fields. */
  function Compact(t: Timestamp): (s: string)
    ensures |s| >= 15
  {
    FormatInt(t.year, 4) + FormatInt(t.month, 2) + FormatInt(t.day, 2) + "@"
    + FormatInt(t.hour, 2) + FormatInt(t.minute, 2) + FormatInt(t.second, 2)
  }

  /** Reads a compact timestamp back into its six fields; None unless the string is well formed. */
  function ParseCompact(s: string): (r: Option<Timestamp>)
    ensures r.Some? <==> WellFormed(s)
    ensures r.Some? ==> Fits(r.value)
  {
    if WellFormed(s) then
      assert AllDigits(s[0..4]) && AllDigits(s[4..6]) && AllDigits(s[6..8]);
      assert AllDigits(s[9..11]) && AllDigits(s[11..13]) && AllDigits(s[13..15]);
      Some(Timestamp(Value(s[0..4]), Value(s[4..6]), Value(s[6..8]),
                     Value(s[9..11]), Value(s[11..13]), Value(s[13..15])))
    else None
  }

  lemma CalendarFits(t: Timestamp)
    requires IsCalendar(t)
    ensures Fits(t)
  {
    assert Pow10(2) == 100 && Pow10(4) == 10000;
  }

  /** The seven pieces of Compact(t) when every field fits its width. */
  lemma CompactPieces(t: Timestamp)
    requires Fits(t)
    ensures Compact(t) == FixedDigits(t.year, 4) + FixedDigits(t.month, 2) + FixedDigits(t.day, 2) + "@"
                        + FixedDigits(t.hour, 2) + FixedDigits(t.minute, 2) + FixedDigits(t.second, 2)
  {
    FieldRendering(t.year, 4);
    FieldRendering(t.month, 2);
    FieldRendering(t.day, 2);
    FieldRendering(t.hour, 2);
    FieldRendering(t.minute, 2);
    FieldRendering(t.second, 2);
  }

  /** Where each piece of a joined compact string sits. */
  lemma JoinedPieces(y: string, mo: string, d: string, h: string, mi: string, se: string)
    requires |y| == 4 && |mo| == 2 && |d| == 2 && |h| == 2 && |mi| == 2 && |se| == 2
    ensures var s := y + mo + d + "@" + h + mi + se;
            && |s| == 15 && s[8] == '@'
            && s[0..4] == y && s[4..6] == mo && s[6..8] == d
            && s[9..11] == h && s[11..13] == mi && s[13..15] == se
  {
  }

  /** Digit pieces of the right widths join into a well-formed string. */
  lemma JoinedWellFormed(y: string, mo: string, d: string, h: string, mi: string, se: string)
    requires |y| == 4 && |mo| == 2 && |d| == 2 && |h| == 2 && |mi| == 2 && |se| == 2
    requires AllDigits(y) && AllDigits(mo) && AllDigits(d)
    requires AllDigits(h) && AllDigits(mi) && AllDigits(se)
    ensures WellFormed(y + mo + d + "@" + h + mi + se)
  {
    var s := y + mo + d + "@" + h + mi + se;
    JoinedPieces(y, mo, d, h, mi, se);
    forall i | 0 <= i < 15 && i != 8 ensures IsDigit(s[i]) {
      if i < 4 { assert s[i] == s[0..4][i]; }
      else if i < 6 { assert s[i] == s[4..6][i - 4]; }
      else if i < 8 { assert s[i] == s[6..8][i - 6]; }
      else if i < 11 { assert s[i] == s[9..11][i - 9]; }
      else if i < 13 { assert s[i] == s[11..13][i - 11]; }
      else { assert s[i] == s[13..15][i - 13]; }
    }
  }

  /**
   Zero padding and fixed width: when the fields fit, the compact timestamp
   has 15 characters, '@' at index 8 and a decimal digit everywhere else.
   */
  lemma CompactShape(t: Timestamp)
    requires Fits(t)
    ensures WellFormed(Compact(t))
  {
    CompactPieces(t);
    JoinedWellFormed(FixedDigits(t.year, 4), FixedDigits(t.month, 2), FixedDigits(t.day, 2),
                     FixedDigits(t.hour, 2), FixedDigits(t.minute, 2), FixedDigits(t.second, 2));
  }

  /**
   The converse: a compact timestamp is well formed only when every field
   fits; a 5-digit year makes it longer, a negative field puts a '-' in it.
   */
  lemma WellFormedOnlyWhenFits(t: Timestamp)
    requires WellFormed(Compact(t))
    ensures Fits(t)
  {
    var y, mo, d := FormatInt(t.year, 4), FormatInt(t.month, 2), FormatInt(t.day, 2);
    var h, mi, se := FormatInt(t.hour, 2), FormatInt(t.minute, 2), FormatInt(t.second, 2);
    WellFormedPieces(y, mo, d, h, mi, se);
    FieldWidthExact(t.year, 4);
    FieldWidthExact(t.month, 2);
    FieldWidthExact(t.day, 2);
    FieldWidthExact(t.hour, 2);
    FieldWidthExact(t.minute, 2);
    FieldWidthExact(t.second, 2);
  }

  /** When pieces at least as wide as their fields join into a well-formed string, each has exactly its width and starts with a digit. */
  lemma WellFormedPieces(y: string, mo: string, d: string, h: string, mi: string, se: string)
    requires |y| >= 4 && |mo| >= 2 && |d| >= 2 && |h| >= 2 && |mi| >= 2 && |se| >= 2
    requires WellFormed(y + mo + d + "@" + h + mi + se)
    ensures |y| == 4 && |mo| == 2 && |d| == 2 && |h| == 2 && |mi| == 2 && |se| == 2
    ensures IsDigit(y[0]) && IsDigit(mo[0]) && IsDigit(d[0])
    ensures IsDigit(h[0]) && IsDigit(mi[0]) && IsDigit(se[0])
  {
    var s := y + mo + d + "@" + h + mi + se;
    assert IsDigit(s[0]) && IsDigit(s[4]) && IsDigit(s[6]);
    assert IsDigit(s[9]) && IsDigit(s[11]) && IsDigit(s[13]);
    assert s[0] == y[0] && s[4] == mo[0] && s[6] == d[0];
    assert s[9] == h[0] && s[11] == mi[0] && s[13] == se[0];
  }

  /** Round trip: reading back the digits before and after '@' recovers the six fields. */
  lemma CompactRoundTrip(t: Timestamp)
    requires Fits(t)
    ensures ParseCompact(Compact(t)) == Some(t)
  {
    var y, mo, d := FixedDigits(t.year, 4), FixedDigits(t.month, 2), FixedDigits(t.day, 2);
    var h, mi, se := FixedDigits(t.hour, 2), FixedDigits(t.minute, 2), FixedDigits(t.second, 2);
    assert Compact(t) == y + mo + d + "@" + h + mi + se by {
      CompactPieces(t);
    }
    JoinedPieces(y, mo, d, h, mi, se);
    JoinedWellFormed(y, mo, d, h, mi, se);
    ValueOfFixedDigits(t.year, 4);
    ValueOfFixedDigits(t.month, 2);
    ValueOfFixedDigits(t.day, 2);
    ValueOfFixedDigits(t.hour, 2);
    ValueOfFixedDigits(t.minute, 2);
    ValueOfFixedDigits(t.second, 2);
  }

  /** The other direction: every well-formed string is the compact rendering of what it parses to. */
  lemma ParseCompactInverse(s: string)
    requires WellFormed(s)
    ensures ParseCompact(s).Some? && Compact(ParseCompact(s).value) == s
  {
    var y, mo, d, h, mi, se := s[0..4], s[4..6], s[6..8], s[9..11], s[11..13], s[13..15];
    assert AllDigits(y) && AllDigits(mo) && AllDigits(d);
    assert AllDigits(h) && AllDigits(mi) && AllDigits(se);
    var t := ParseCompact(s).value;
    assert t == Timestamp(Value(y), Value(mo), Value(d), Value(h), Value(mi), Value(se));
    FieldFromDigits(y);
    FieldFromDigits(mo);
    FieldFromDigits(d);
    FieldFromDigits(h);
    FieldFromDigits(mi);
    FieldFromDigits(se);
    assert Compact(t) == y + mo + d + "@" + h + mi + se;
    SplitCompact(s);
  }

  lemma SplitCompact(s: string)
    requires |s| == 15 && s[8] == '@'
    ensures s == s[0..4] + s[4..6] + s[6..8] + "@" + s[9..11] + s[11..13] + s[13..15]
  {
    assert s[0..8] == s[0..4] + s[4..6] + s[6..8];
    assert s[9..15] == s[9..11] + s[11..13] + s[13..15];
    assert s == s[0..8] + "@" + s[9..15];
  }

  /** A one-digit value in a two-digit field gets one leading zero. */
  lemma OneDigitField(n: nat)
    requires n < 10
    ensures FixedDigits(n, 2) == ['0', DigitChar(n)]
  {
    assert FixedDigits(n / 10, 1) == FixedDigits(0, 0) + [DigitChar(0)];
  }

  /** The example date 2024-03-07 09:05:03 renders as 2024, 03, 07, '@', 09, 05, 03. */
  lemma CompactExample()
    ensures var t := Timestamp(2024, 3, 7, 9, 5, 3);
            Compact(t) == "2024" + "03" + "07" + "@" + "09" + "05" + "03"
  {
    var t := Timestamp(2024, 3, 7, 9, 5, 3);
    CalendarFits(t);
    CompactPieces(t);
    ExampleYear();
    OneDigitField(3);
    OneDigitField(7);
    OneDigitField(9);
    OneDigitField(5);
  }

  lemma ExampleYear()
    ensures FixedDigits(2024, 4) == "2024"
  {
  }

  /**
   The fields of Go's zero time read in UTC (year 1, January 1, 00:00:00)
   render as 0001, 01, 01, '@', 00, 00, 00.  In another local zone the hour
   field differs, since hour, minute and second come from the local view.
   */
  lemma CompactOfZeroTime()
    ensures var t := Timestamp(1, 1, 1, 0, 0, 0);
            Compact(t) == "0001" + "01" + "01" + "@" + "00" + "00" + "00"
  {
    var t := Timestamp(1, 1, 1, 0, 0, 0);
    CalendarFits(t);
    CompactPieces(t);
    ZeroTimeYear();
    OneDigitField(1);
    OneDigitField(0);
  }

  lemma ZeroTimeYear()
    ensures FixedDigits(1, 4) == "0001"
  {
  }
}
