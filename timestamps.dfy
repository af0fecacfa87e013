/**
 * The sort key of a chat message: its `timestamp` attribute read with the
 * layout `%Y-%m-%d %H:%M:%S` (merge.py:32).  `time.strptime` yields a
 * struct_time, and struct_time values compare as tuples.  The trailing
 * weekday, day-of-year and DST fields are functions of the first six, so
 * the comparison is decided by (year, month, day, hour, minute, second).
 */
module Timestamps {
  import opened Wrappers

  datatype Stamp = Stamp(year: nat, month: nat, day: nat, hour: nat, minute: nat, second: nat)

  /** Lexicographic order on the six fields. */
  predicate Less(a: Stamp, b: Stamp)
  {
    a.year < b.year || (a.year == b.year &&
    (a.month < b.month || (a.month == b.month &&
    (a.day < b.day || (a.day == b.day &&
    (a.hour < b.hour || (a.hour == b.hour &&
    (a.minute < b.minute || (a.minute == b.minute && a.second < b.second)))))))))
  }

  lemma LessIrreflexive(a: Stamp)
    ensures !Less(a, a)
  {
  }

  lemma LessTransitive(a: Stamp, b: Stamp, c: Stamp)
    requires Less(a, b) && Less(b, c)
    ensures Less(a, c)
  {
  }

  lemma LessTrichotomy(a: Stamp, b: Stamp)
    ensures Less(a, b) || a == b || Less(b, a)
  {
  }

  // ----- Calendar validity, as `datetime.date` demands it inside strptime -----

  predicate IsLeapYear(y: nat)
  {
    y % 4 == 0 && (y % 100 != 0 || y % 400 == 0)
  }

  function DaysInMonth(y: nat, m: nat): (d: nat)
    requires 1 <= m <= 12
    ensures 28 <= d <= 31
    ensures d == 29 <==> m == 2 && IsLeapYear(y)
  {
    if m == 2 then (if IsLeapYear(y) then 29 else 28)
    else if m == 4 || m == 6 || m == 9 || m == 11 then 30
    else 31
  }

  /**
   * The stamps strptime accepts: a year datetime can represent, a real
   * day of a real month, and the hour, minute and second ranges of the
   * `%H`, `%M` and `%S` directives (`%S` admits 60 and 61).
   */
  predicate ValidStamp(s: Stamp)
  {
    1 <= s.year <= 9999 &&
    1 <= s.month <= 12 &&
    1 <= s.day <= DaysInMonth(s.year, s.month) &&
    s.hour <= 23 && s.minute <= 59 && s.second <= 61
  }

  // ----- Fixed-width decimal fields -----

  predicate IsDigit(c: char)
  {
    '0' <= c <= '9'
  }

  predicate AllDigits(s: string)
  {
    forall i :: 0 <= i < |s| ==> IsDigit(s[i])
  }

  function Pow10(n: nat): (p: nat)
    ensures p >= 1
  {
    if n == 0 then 1 else 10 * Pow10(n - 1)
  }

  /** The value of a string of decimal digits, most significant first. */
  function DecimalValue(s: string): (v: nat)
    requires AllDigits(s)
    ensures v < Pow10(|s|)
  {
    if s == [] then 0
    else
      var v' := DecimalValue(s[..|s| - 1]);
      var d := (s[|s| - 1] as int) - ('0' as int);
      assert v' <= Pow10(|s| - 1) - 1;
      assert 10 * v' + d <= 10 * (Pow10(|s| - 1) - 1) + 9;
      10 * v' + d
  }

  /** `n` written with exactly `width` digits, zero-padded on the left. */
  function Decimal(n: nat, width: nat): (r: string)
    requires n < Pow10(width)
    ensures |r| == width && AllDigits(r)
  {
    if width == 0 then ""
    else Decimal(n / 10, width - 1) + [(('0' as int) + n % 10) as char]
  }

  lemma {:induction false} DecimalValueOfDecimal(n: nat, width: nat)
    requires n < Pow10(width)
    ensures DecimalValue(Decimal(n, width)) == n
  {
    if width > 0 {
      var r := Decimal(n, width);
      assert r[..width - 1] == Decimal(n / 10, width - 1);
      DecimalValueOfDecimal(n / 10, width - 1);
    }
  }

  lemma {:induction false} DecimalOfDecimalValue(s: string)
    requires AllDigits(s)
    ensures Decimal(DecimalValue(s), |s|) == s
  {
    if s != [] {
      var init := s[..|s| - 1];
      var d := (s[|s| - 1] as int) - ('0' as int);
      var v := DecimalValue(s);
      assert v == 10 * DecimalValue(init) + d;
      assert v / 10 == DecimalValue(init) && v % 10 == d;
      DecimalOfDecimalValue(init);
      assert s == init + [s[|s| - 1]];
    }
  }

  // ----- The layout YYYY-MM-DD HH:MM:SS -----

  /** The literal character the layout demands at position `i`, if any. */
  function SeparatorAt(i: nat): Option<char>
  {
    if i == 4 || i == 7 then Some('-')
    else if i == 10 then Some(' ')
    else if i == 13 || i == 16 then Some(':')
    else None
  }

  predicate MatchesLayout(s: string)
  {
    |s| == 19 &&
    forall i :: 0 <= i < 19 ==>
      match SeparatorAt(i)
      case Some(c) => s[i] == c
      case None => IsDigit(s[i])
  }

  /**
   * `time.strptime(s, '%Y-%m-%d %H:%M:%S')` for the canonical layout:
   * None stands for the ValueError strptime raises.
   */
  function ParseTimestamp(s: string): (r: Option<Stamp>)
    ensures r.Some? ==> MatchesLayout(s) && ValidStamp(r.value)
  {
    if !MatchesLayout(s) then None
    else
      assert AllDigits(s[0..4]) && AllDigits(s[5..7]) && AllDigits(s[8..10]);
      assert AllDigits(s[11..13]) && AllDigits(s[14..16]) && AllDigits(s[17..19]);
      var st := Stamp(DecimalValue(s[0..4]), DecimalValue(s[5..7]), DecimalValue(s[8..10]),
                      DecimalValue(s[11..13]), DecimalValue(s[14..16]), DecimalValue(s[17..19]));
      if ValidStamp(st) then Some(st) else None
  }

  /** The canonical text of a valid stamp. */
  function FormatTimestamp(st: Stamp): (s: string)
    requires ValidStamp(st)
    ensures MatchesLayout(s)
  {
    var r := Decimal(st.year, 4) + "-" + Decimal(st.month, 2) + "-" + Decimal(st.day, 2) + " " +
             Decimal(st.hour, 2) + ":" + Decimal(st.minute, 2) + ":" + Decimal(st.second, 2);
    assert forall i :: 0 <= i < 19 && SeparatorAt(i).None? ==> IsDigit(r[i]) by {
      forall i | 0 <= i < 19 && SeparatorAt(i).None? ensures IsDigit(r[i]) {
        if i < 4 { assert r[i] == Decimal(st.year, 4)[i]; }
        else if i < 7 { assert r[i] == Decimal(st.month, 2)[i - 5]; }
        else if i < 10 { assert r[i] == Decimal(st.day, 2)[i - 8]; }
        else if i < 13 { assert r[i] == Decimal(st.hour, 2)[i - 11]; }
        else if i < 16 { assert r[i] == Decimal(st.minute, 2)[i - 14]; }
        else { assert r[i] == Decimal(st.second, 2)[i - 17]; }
      }
    }
    r
  }

  /** Every valid stamp is read back from its canonical text. */
  lemma ParseFormat(st: Stamp)
    requires ValidStamp(st)
    ensures ParseTimestamp(FormatTimestamp(st)) == Some(st)
  {
    var s := FormatTimestamp(st);
    assert s[0..4] == Decimal(st.year, 4);
    assert s[5..7] == Decimal(st.month, 2);
    assert s[8..10] == Decimal(st.day, 2);
    assert s[11..13] == Decimal(st.hour, 2);
    assert s[14..16] == Decimal(st.minute, 2);
    assert s[17..19] == Decimal(st.second, 2);
    DecimalValueOfDecimal(st.year, 4);
    DecimalValueOfDecimal(st.month, 2);
    DecimalValueOfDecimal(st.day, 2);
    DecimalValueOfDecimal(st.hour, 2);
    DecimalValueOfDecimal(st.minute, 2);
    DecimalValueOfDecimal(st.second, 2);
  }

  /** A text in the layout is its six digit fields joined by the separators. */
  lemma SplitLayout(s: string)
    requires MatchesLayout(s)
    ensures s == s[0..4] + "-" + s[5..7] + "-" + s[8..10] + " " + s[11..13] + ":" + s[14..16] + ":" + s[17..19]
  {
    assert SeparatorAt(4) == Some('-') && SeparatorAt(7) == Some('-') && SeparatorAt(10) == Some(' ');
    assert SeparatorAt(13) == Some(':') && SeparatorAt(16) == Some(':');
    assert s[4] == '-' && s[7] == '-' && s[10] == ' ' && s[13] == ':' && s[16] == ':';
    assert s[4..5] == "-" && s[7..8] == "-" && s[10..11] == " " && s[13..14] == ":" && s[16..17] == ":";
    assert s == s[0..4] + s[4..5] + s[5..7] + s[7..8] + s[8..10] + s[10..11] + s[11..13] + s[13..14]
              + s[14..16] + s[16..17] + s[17..19];
  }

  /** A text that parses is the canonical text of its stamp: parsing is injective. */
  lemma FormatParse(s: string)
    requires ParseTimestamp(s).Some?
    ensures FormatTimestamp(ParseTimestamp(s).value) == s
  {
    assert AllDigits(s[0..4]) && AllDigits(s[5..7]) && AllDigits(s[8..10]);
    assert AllDigits(s[11..13]) && AllDigits(s[14..16]) && AllDigits(s[17..19]);
    DecimalOfDecimalValue(s[0..4]);
    DecimalOfDecimalValue(s[5..7]);
    DecimalOfDecimalValue(s[8..10]);
    DecimalOfDecimalValue(s[11..13]);
    DecimalOfDecimalValue(s[14..16]);
    DecimalOfDecimalValue(s[17..19]);
    SplitLayout(s);
  }

  /** The texts that parse are exactly the canonical texts of valid stamps. */
  lemma ParseAccepts(s: string)
    ensures ParseTimestamp(s).Some? <==> exists st :: ValidStamp(st) && FormatTimestamp(st) == s
  {
    if ParseTimestamp(s).Some? {
      FormatParse(s);
      assert ValidStamp(ParseTimestamp(s).value);
    }
    if st :| ValidStamp(st) && FormatTimestamp(st) == s {
      ParseFormat(st);
    }
  }
}
