/** Dates written as text: the `YYYY-MM-DD` form the journal stores in
    `tradeDate` and builds as calendar lookup keys, and its reading back as a
    calendar date (the date-only form of the ECMAScript Date Time String Format). */
module DateText {
  import opened Types
  import opened Text
  import opened Gregorian

  /** `${year}-${String(month + 1).padStart(2, '0')}-${String(day).padStart(2, '0')}`
      for a 0-based month. */
  function DateKey(c: Civil): string
    requires 0 <= c.month < 12 && c.day >= 0
  {
    IntString(c.year) + "-" + Pad2(c.month + 1) + "-" + Pad2(c.day)
  }

  /** A `YYYY-MM-DD` string naming an existing calendar date; anything else
      (wrong shape, month 13, February 30th) is an invalid date. */
  function ParseIsoDate(s: string): (r: Option<Civil>)
    ensures r.Some? ==> ValidCivil(r.value) && 0 <= r.value.year <= 9999
  {
    var parts := Split(s, '-');
    if |parts| == 3 && |parts[0]| == 4 && |parts[1]| == 2 && |parts[2]| == 2
       && AllDigits(parts[0]) && AllDigits(parts[1]) && AllDigits(parts[2])
    then
      var c := Civil(DigitsValue(parts[0]), DigitsValue(parts[1]) - 1, DigitsValue(parts[2]));
      assert DigitsValue(parts[0]) < 10000 by { DigitsBound(parts[0]); }
      if ValidCivil(c) then Some(c) else None
    else None
  }

  lemma {:induction false} DigitsBound(s: string)
    requires AllDigits(s)
    ensures DigitsValue(s) < Pow10(|s|)
    decreases |s|
  {
    if s != [] {
      DigitsBound(s[..|s| - 1]);
    }
  }

  lemma DigitsHaveNoDash(s: string)
    requires AllDigits(s)
    ensures '-' !in s
  {
    forall i | 0 <= i < |s| ensures s[i] != '-' { assert IsDigit(s[i]); }
  }

  /** Every valid date of a four-digit year reads back from its key. */
  lemma ParseDateKey(c: Civil)
    requires ValidCivil(c) && 1000 <= c.year <= 9999
    ensures ParseIsoDate(DateKey(c)) == Some(c)
  {
    var y, m, d := IntString(c.year), Pad2(c.month + 1), Pad2(c.day);
    DigitsHaveNoDash(y);
    DigitsHaveNoDash(m);
    DigitsHaveNoDash(d);
    assert DateKey(c) == y + ['-'] + (m + ['-'] + d);
    SplitFirst(y, '-', m + ['-'] + d);
    SplitFirst(m, '-', d);
    SplitNone(d, '-');
    assert Split(DateKey(c), '-') == [y, m, d];
  }

  /** A valid `YYYY-MM-DD` date of a four-digit year is already written as its
      key: reading and re-writing it gives the same text. */
  lemma IsoDateIsKey(s: string, c: Civil)
    requires ParseIsoDate(s) == Some(c) && c.year >= 1000
    ensures DateKey(c) == s
  {
    var parts := Split(s, '-');
    var y, m, d := DecimalString(c.year), Pad2(c.month + 1), Pad2(c.day);
    DigitsInjective(y, parts[0]);
    DigitsInjective(m, parts[1]);
    DigitsInjective(d, parts[2]);
    JoinSplit(s, '-');
    JoinThree(parts, '-');
    assert DateKey(c) == y + ['-'] + (m + ['-'] + d);
  }

  lemma JoinThree(parts: seq<string>, sep: char)
    requires |parts| == 3
    ensures Join(parts, sep) == parts[0] + [sep] + (parts[1] + [sep] + parts[2])
  {
    assert Join(parts[2..], sep) == parts[2];
    assert parts[1..][1..] == parts[2..];
    assert Join(parts[1..], sep) == parts[1] + [sep] + parts[2];
  }
}
