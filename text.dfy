/** The JavaScript string and number conversions the journal relies on:
    `String(n)`, `parseInt`/`parseFloat`/`Number` on decimal text, `padStart`,
    `toLowerCase`, `includes` and `split`. Only plain decimal notation is
    modelled. */
module Text {
  import opened Types

  predicate IsDigit(c: char) { '0' <= c <= '9' }

  predicate AllDigits(s: string) { forall i :: 0 <= i < |s| ==> IsDigit(s[i]) }

  function DigitValue(c: char): nat
    requires IsDigit(c)
  {
    c as int - '0' as int
  }

  function DigitChar(d: nat): (c: char)
    requires d < 10
    ensures IsDigit(c) && DigitValue(c) == d
  {
    ('0' as int + d) as char
  }

  /** The number a string of decimal digits denotes (the empty string denotes 0). */
  function DigitsValue(s: string): nat
    requires AllDigits(s)
    decreases |s|
  {
    if s == [] then 0 else DigitsValue(s[..|s| - 1]) * 10 + DigitValue(s[|s| - 1])
  }

  function Pow10(k: nat): (r: nat)
    ensures r >= 1
  {
    if k == 0 then 1 else 10 * Pow10(k - 1)
  }

  /** `String(n)` for a natural number: its decimal digits, without leading zeros.
      Reading the digits back gives `n`. */
  function DecimalString(n: nat): (r: string)
    ensures 1 <= |r| && AllDigits(r) && DigitsValue(r) == n
    ensures |r| == 1 || r[0] != '0'
    ensures (n < 10 <==> |r| == 1) && (10 <= n < 100 <==> |r| == 2)
    ensures 1000 <= n < 10000 <==> |r| == 4
    decreases n
  {
    if n < 10 then [DigitChar(n)]
    else
      var front := DecimalString(n / 10);
      var r := front + [DigitChar(n % 10)];
      assert r[..|r| - 1] == front;
      r
  }

  /** `String(i)` for an integer. */
  function IntString(i: int): string
  {
    if i < 0 then "-" + DecimalString(-i) else DecimalString(i)
  }

  /** A non-empty run of decimal digits, read as a natural number. */
  function ParseNat(s: string): (r: Option<nat>)
    ensures r.Some? <==> s != [] && AllDigits(s)
  {
    if s != [] && AllDigits(s) then Some(DigitsValue(s)) else None
  }

  /** `parseInt(s, 10)` on an optional minus sign followed by digits; anything else is NaN (`None`). */
  function ParseInt(s: string): Option<int>
  {
    if |s| > 0 && s[0] == '-' then
      match ParseNat(s[1..])
      case Some(n) => var v: int := n; Some(-v)
      case None => None
    else
      match ParseNat(s)
      case Some(n) => Some(n)
      case None => None
  }

  /** `parseInt(String(i), 10) == i` for every integer. */
  lemma ParseIntString(i: int)
    ensures ParseInt(IntString(i)) == Some(i)
  {
    if i < 0 {
      assert IntString(i)[1..] == DecimalString(-i);
    } else {
      assert IsDigit(IntString(i)[0]);
    }
  }

  /** The longest run of digits at the front of `s`. */
  function DigitPrefix(s: string): (r: string)
    ensures AllDigits(r) && |r| <= |s| && r == s[..|r|]
    ensures |r| < |s| ==> !IsDigit(s[|r|])
  {
    if s == [] || !IsDigit(s[0]) then []
    else [s[0]] + DigitPrefix(s[1..])
  }

  /** A string of digits is its own digit prefix. */
  lemma {:induction false} DigitPrefixAll(s: string)
    requires AllDigits(s)
    ensures DigitPrefix(s) == s
  {
    if s != [] {
      DigitPrefixAll(s[1..]);
    }
  }

  /** `parseInt(s, 10)` as JavaScript reads it: an optional sign, then as many
      digits as there are; the rest of the text is ignored. No digit at all is
      NaN (`None`). */
  function LeadingInt(s: string): (r: Option<int>)
    ensures r.Some? <==> (if |s| > 0 && (s[0] == '-' || s[0] == '+') then |s| > 1 && IsDigit(s[1])
                          else |s| > 0 && IsDigit(s[0]))
  {
    var signed := |s| > 0 && (s[0] == '-' || s[0] == '+');
    var digits := DigitPrefix(if signed then s[1..] else s);
    if digits == [] then None
    else
      var n: int := DigitsValue(digits);
      Some(if signed && s[0] == '-' then -n else n)
  }

  /** On the text `parseInt` reads entirely, it agrees with the whole-string reading. */
  lemma LeadingIntExtends(s: string)
    requires ParseInt(s).Some?
    ensures LeadingInt(s) == ParseInt(s)
  {
    if |s| > 0 && s[0] == '-' {
      DigitPrefixAll(s[1..]);
    } else {
      DigitPrefixAll(s);
    }
  }

  /** `String(n).padStart(2, '0')`. */
  function Pad2(n: nat): (r: string)
    ensures n < 100 ==> |r| == 2 && AllDigits(r) && DigitsValue(r) == n
  {
    if n < 10 then
      var r := "0" + DecimalString(n);
      assert r[..1] == "0";
      r
    else DecimalString(n)
  }

  function LowerChar(c: char): char
  {
    if 'A' <= c <= 'Z' then (c as int - 'A' as int + 'a' as int) as char else c
  }

  /** `s.toLowerCase()` on ASCII letters. */
  function ToLower(s: string): (r: string)
    ensures |r| == |s|
  {
    seq(|s|, i requires 0 <= i < |s| => LowerChar(s[i]))
  }

  predicate OccursAt(s: string, sub: string, i: int)
  {
    0 <= i && i + |sub| <= |s| && s[i..i + |sub|] == sub
  }

  /** `s.includes(sub)`. */
  predicate Contains(s: string, sub: string)
  {
    exists i :: 0 <= i <= |s| - |sub| && OccursAt(s, sub, i)
  }

  /** `s.split(sep)` for a one-character separator. */
  function Split(s: string, sep: char): (parts: seq<string>)
    ensures |parts| >= 1
    decreases |s|
  {
    if s == [] then [""]
    else
      var rest := Split(s[1..], sep);
      if s[0] == sep then [""] + rest else [[s[0]] + rest[0]] + rest[1..]
  }

  /** A string without the separator is one part. */
  lemma {:induction false} SplitNone(a: string, sep: char)
    requires sep !in a
    ensures Split(a, sep) == [a]
    decreases |a|
  {
    if a != [] {
      SplitNone(a[1..], sep);
      assert [a[0]] + a[1..] == a;
    }
  }

  /** A separator-free prefix followed by the separator becomes the first part. */
  lemma {:induction false} SplitFirst(a: string, sep: char, b: string)
    requires sep !in a
    ensures Split(a + [sep] + b, sep) == [a] + Split(b, sep)
    decreases |a|
  {
    if a == [] {
      assert a + [sep] + b == [sep] + b;
      assert ([sep] + b)[1..] == b;
    } else {
      var s := a + [sep] + b;
      assert s[1..] == a[1..] + [sep] + b;
      SplitFirst(a[1..], sep, b);
      assert [a[0]] + a[1..] == a;
    }
  }

  /** The unsigned decimal number at the front of `body`: digits, then
      optionally a point and more digits, with at least one digit before or just
      after the point. The result is the number and the length of the text it
      takes up; nothing when the text does not start with a number. */
  function LeadingUnsigned(body: string): Option<(real, nat)>
  {
    var whole := DigitPrefix(body);
    var rest := body[|whole|..];
    var pointed := |rest| > 0 && rest[0] == '.';
    var frac := if pointed then DigitPrefix(rest[1..]) else "";
    if whole == "" && frac == "" then None
    else Some((DecimalValue(whole, frac), |whole| + if pointed then 1 + |frac| else 0))
  }

  /** The number written with the digits `whole` before a point and `frac` after it. */
  function DecimalValue(whole: string, frac: string): real
    requires AllDigits(whole) && AllDigits(frac)
  {
    DigitsValue(whole) as real + Fraction(frac)
  }

  /** The text starts with a digit, or with a point followed by a digit. */
  predicate StartsNumber(body: string)
  {
    (|body| > 0 && IsDigit(body[0])) || (|body| > 1 && body[0] == '.' && IsDigit(body[1]))
  }

  /** The decimal number at the front of `s`, as `parseFloat` and `Number` read
      one: an optional sign, then an unsigned number. */
  function LeadingDecimal(s: string): Option<(real, nat)>
  {
    if |s| > 0 && (s[0] == '-' || s[0] == '+') then
      match LeadingUnsigned(s[1..])
      case None => None
      case Some((m, length)) => Some((if s[0] == '-' then -m else m, length + 1))
    else LeadingUnsigned(s)
  }

  /** `parseFloat(s)`: the number at the front of the text, whatever follows
      it; NaN (`None`) when, after an optional sign, the text starts with
      neither a digit nor a point followed by a digit. */
  function ParseDecimal(s: string): (r: Option<real>)
    ensures var body := if |s| > 0 && (s[0] == '-' || s[0] == '+') then s[1..] else s;
      r.Some? <==> StartsNumber(body)
  {
    match LeadingDecimal(s)
    case Some((v, _)) => Some(v)
    case None => None
  }

  /** `Number(s)` on decimal text: "" is 0; any other text must be one number
      from its first character to its last, or it is NaN (`None`). Where
      `Number` reads a number, `parseFloat` reads the same one. */
  function JsNumber(s: string): (r: Option<real>)
    ensures s == "" ==> r == Some(0.0)
    ensures s != "" && r.Some? ==> ParseDecimal(s) == r
  {
    if s == "" then Some(0.0)
    else
      match LeadingDecimal(s)
      case Some((v, length)) => if length == |s| then Some(v) else None
      case None => None
  }

  /** The value of the digits after a decimal point. */
  function Fraction(frac: string): real
    requires AllDigits(frac)
  {
    DigitsValue(frac) as real / Pow10(|frac|) as real
  }

  /** Digits followed by text that does not start with a digit: the digits are
      the digit prefix. */
  lemma {:induction false} DigitPrefixStop(d: string, rest: string)
    requires AllDigits(d) && (rest == [] || !IsDigit(rest[0]))
    ensures DigitPrefix(d + rest) == d
    decreases |d|
  {
    if d == [] {
      assert d + rest == rest;
    } else {
      DigitPrefixStop(d[1..], rest);
      assert (d + rest)[1..] == d[1..] + rest;
      assert [d[0]] + d[1..] == d;
    }
  }

  /** Digits alone are read from end to end as the integer they denote. */
  lemma ReadWholeText(d: string)
    requires AllDigits(d) && d != []
    ensures LeadingUnsigned(d) == Some((DecimalValue(d, ""), |d|))
  {
    var u := LeadingUnsigned(d);
    assert u.Some? && u.value.1 == |d| && u.value.0 == DecimalValue(d, "") by {
      assert DigitPrefix(d) == d by { DigitPrefixAll(d); }
      assert d[|d|..] == [];
    }
  }

  /** Digits, a point and more digits are read from end to end as the whole
      part plus the fraction. */
  lemma ReadPointText(d: string, f: string)
    requires AllDigits(d) && d != [] && AllDigits(f)
    ensures LeadingUnsigned(d + "." + f) == Some((DecimalValue(d, f), |d| + 1 + |f|))
  {
    var body := d + "." + f;
    var u := LeadingUnsigned(body);
    assert u.Some? && u.value.1 == |d| + 1 + |f| && u.value.0 == DecimalValue(d, f) by {
      var whole := DigitPrefix(body);
      assert whole == d by {
        assert body == d + ("." + f);
        DigitPrefixStop(d, "." + f);
      }
      var rest := body[|whole|..];
      assert rest[0] == '.' && rest[1..] == f;
      assert DigitPrefix(rest[1..]) == f by { DigitPrefixAll(f); }
    }
  }

  /** A sign in front of an unsigned number read from end to end negates it. */
  lemma ReadSignedText(neg: bool, body: string, m: real)
    requires body != [] && IsDigit(body[0]) && LeadingUnsigned(body) == Some((m, |body|))
    ensures var s := (if neg then "-" else "") + body;
      LeadingDecimal(s) == Some((if neg then -m else m, |s|))
  {
    var s := (if neg then "-" else "") + body;
    if neg {
      assert s[0] == '-' && s[1..] == body;
      assert LeadingUnsigned(s[1..]) == Some((m, |body|));
    } else {
      assert s == body;
      assert !(s[0] == '-' || s[0] == '+');
    }
  }

  /** A sign, digits, and possibly a point with more digits are read from end
      to end, as the whole part plus the fraction. */
  lemma ReadDecimalText(neg: bool, d: string, pointed: bool, f: string)
    requires AllDigits(d) && d != [] && AllDigits(f) && (!pointed ==> f == [])
    ensures var s := (if neg then "-" else "") + (d + (if pointed then "." + f else ""));
      var m := DecimalValue(d, f);
      LeadingDecimal(s) == Some((if neg then -m else m, |s|))
  {
    var body := d + (if pointed then "." + f else "");
    if pointed {
      assert body == d + "." + f;
      ReadPointText(d, f);
    } else {
      assert body == d && f == "";
      ReadWholeText(d);
    }
    ReadSignedText(neg, body, DecimalValue(d, f));
  }

  /** Text read from end to end as a number is that number for both `parseFloat`
      and `Number`. */
  lemma WholeTextReads(s: string, v: real)
    requires LeadingDecimal(s) == Some((v, |s|))
    ensures ParseDecimal(s) == Some(v) && JsNumber(s) == Some(v)
  {
  }

  /** A run of digits is read by `Number` as the integer it denotes. */
  lemma JsNumberDigits(s: string)
    requires s != [] && AllDigits(s)
    ensures JsNumber(s) == Some(DigitsValue(s) as real)
  {
    ReadDigitsText(s);
    WholeDigitsValue(s);
  }

  lemma ReadDigitsText(s: string)
    requires s != [] && AllDigits(s)
    ensures JsNumber(s) == Some(DecimalValue(s, ""))
  {
    var v, n: nat := DecimalValue(s, ""), |s|;
    assert LeadingDecimal(s) == Some((v, n)) by {
      ReadWholeText(s);
      ReadSignedText(false, s, v);
      assert "" + s == s;
    }
    WholeTextReads(s, v);
  }

  lemma WholeDigitsValue(s: string)
    requires AllDigits(s)
    ensures DecimalValue(s, "") == DigitsValue(s) as real
  {
  }

  /** ECMAScript's `ToIntegerOrInfinity` on a finite number: the integer part,
      cut toward zero. */
  function Truncate(x: real): (r: int)
    ensures x >= 0.0 ==> r >= 0 && r as real <= x < r as real + 1.0
    ensures x < 0.0 ==> r <= 0 && r as real - 1.0 < x <= r as real
  {
    if x >= 0.0 then x.Floor else -((-x).Floor)
  }

  lemma TruncateInt(k: int)
    ensures Truncate(k as real) == k
  {
  }

  /** Digits after a point amount to less than one. */
  lemma {:induction false} DigitsBelowPow10(f: string)
    requires AllDigits(f)
    ensures DigitsValue(f) < Pow10(|f|)
    decreases |f|
  {
    if f != [] {
      var n := |f| - 1;
      DigitsBelowPow10(f[..n]);
      assert DigitsValue(f) == DigitsValue(f[..n]) * 10 + DigitValue(f[n]);
      assert DigitsValue(f[..n]) * 10 <= (Pow10(n) - 1) * 10;
    }
  }

  lemma FractionBelowOne(f: string)
    requires AllDigits(f)
    ensures 0.0 <= Fraction(f) < 1.0
  {
    DigitsBelowPow10(f);
    var a, b := DigitsValue(f) as real, Pow10(|f|) as real;
    assert a < b;
    RatioBelowOne(a, b);
  }

  lemma RatioBelowOne(a: real, b: real)
    requires 0.0 <= a < b
    ensures 0.0 <= a / b < 1.0
  {
  }

  /** A number written with a fraction is cut down to its digits before the point. */
  lemma TruncateDecimal(d: string, f: string)
    requires AllDigits(d) && AllDigits(f)
    ensures Truncate(DecimalValue(d, f)) == DigitsValue(d)
  {
    FractionBelowOne(f);
  }

  function Abs(x: real): real { if x < 0.0 then -x else x }

  /** A price written with at most two decimals (whole paise). */
  predicate IsHundredths(x: real)
  {
    (x * 100.0).Floor as real == x * 100.0
  }

  function FractionText(f: nat): string
    requires f < 100
  {
    if f == 0 then ""
    else if f % 10 == 0 then "." + [DigitChar(f / 10)]
    else "." + [DigitChar(f / 10), DigitChar(f % 10)]
  }

  /** The whole hundredths in the magnitude of `x`, the rest cut off. */
  function TruncatedCents(x: real): nat
  {
    var n := (Abs(x) * 100.0).Floor;
    assert n >= 0;
    n
  }

  /** A sign, the whole part of `cents / 100` and up to two decimals without
      trailing zeros. */
  function CentsNumberText(neg: bool, cents: nat): (r: string)
    ensures |r| > 0 && (IsDigit(r[0]) || (neg && r[0] == '-'))
  {
    var d := DecimalString(cents / 100);
    assert IsDigit(d[0]);
    (if neg then "-" else "") + (d + FractionText(cents % 100))
  }

  /** `String(x)` for a price: sign, whole part and up to two decimals without
      trailing zeros. The text starts with a digit unless it is negative. */
  function NumberString(x: real): (r: string)
    ensures |r| > 0 && (IsDigit(r[0]) || (x < 0.0 && r[0] == '-'))
  {
    CentsNumberText(x < 0.0 && TruncatedCents(x) > 0, TruncatedCents(x))
  }

  lemma FractionTextValue(f: nat)
    requires f < 100
    ensures FractionText(f) == "" || (FractionText(f)[0] == '.' && '.' !in FractionText(f)[1..])
    ensures FractionText(f) == "" ==> f == 0
    ensures FractionText(f) != "" ==>
      var ds := FractionText(f)[1..];
      AllDigits(ds) && Fraction(ds) == f as real / 100.0
  {
    if f != 0 {
      var ds := FractionText(f)[1..];
      assert Pow10(1) == 10;
      if f % 10 == 0 {
        assert ds == [DigitChar(f / 10)];
        assert ds[..0] == [];
        assert DigitsValue(ds) == f / 10;
        assert Fraction(ds) == (f / 10) as real / 10.0;
      } else {
        assert ds == [DigitChar(f / 10), DigitChar(f % 10)];
        assert ds[..1] == [DigitChar(f / 10)];
        assert ds[..1][..0] == [];
        assert DigitsValue(ds[..1]) == f / 10;
        assert DigitsValue(ds) == (f / 10) * 10 + f % 10 == f;
        assert Pow10(2) == 100;
        assert Fraction(ds) == f as real / 100.0;
      }
    }
  }

  lemma CentsSplit(c: nat)
    ensures (c / 100) as real + (c % 100) as real / 100.0 == c as real / 100.0
  {
    assert c == 100 * (c / 100) + c % 100;
    assert c as real == 100.0 * (c / 100) as real + (c % 100) as real;
  }

  lemma HundredthsCents(x: real)
    requires IsHundredths(x)
    ensures TruncatedCents(x) as real / 100.0 == Abs(x)
    ensures x < 0.0 ==> TruncatedCents(x) > 0
  {
    if x < 0.0 {
      assert Abs(x) * 100.0 == -(x * 100.0);
      assert (-(x * 100.0)).Floor == -((x * 100.0).Floor);
    }
  }

  /** `String(x)` for a price is read from end to end as the signed whole
      cents it shows. */
  lemma ReadNumberCents(x: real)
    ensures LeadingDecimal(NumberString(x))
      == Some(((if x < 0.0 && TruncatedCents(x) > 0 then -(TruncatedCents(x) as real / 100.0)
                else TruncatedCents(x) as real / 100.0),
               |NumberString(x)|))
  {
    ReadCentsText(x < 0.0 && TruncatedCents(x) > 0, TruncatedCents(x));
  }

  /** A sign, the whole part of `cents / 100` and its fraction text are read
      from end to end as the signed cents. */
  lemma ReadCentsText(neg: bool, cents: nat)
    ensures LeadingDecimal(CentsNumberText(neg, cents))
      == Some(((if neg then -(cents as real / 100.0) else cents as real / 100.0), |CentsNumberText(neg, cents)|))
  {
    var d := DecimalString(cents / 100);
    var t := FractionText(cents % 100);
    FractionTextValue(cents % 100);
    var f := if t != "" then t[1..] else "";
    assert t == (if t != "" then "." + f else "");
    assert CentsNumberText(neg, cents) == (if neg then "-" else "") + (d + t);
    ReadDecimalText(neg, d, t != "", f);
    CentsValue(cents, f);
  }

  /** The digits of the whole part and of the fraction text denote the cents. */
  lemma CentsValue(cents: nat, f: string)
    requires AllDigits(f)
    requires f == (if FractionText(cents % 100) != "" then FractionText(cents % 100)[1..] else "")
    ensures DecimalValue(DecimalString(cents / 100), f) == cents as real / 100.0
  {
    FractionTextValue(cents % 100);
    CentsSplit(cents);
  }

  /** For a price with at most two decimals, `parseFloat(String(x)) == x`, and
      `Number(String(x)) == x` too. */
  lemma ParseNumberString(x: real)
    requires IsHundredths(x)
    ensures ParseDecimal(NumberString(x)) == Some(x)
    ensures JsNumber(NumberString(x)) == Some(x)
  {
    ReadNumberCents(x);
    HundredthsCents(x);
    assert (if x < 0.0 && TruncatedCents(x) > 0 then -(TruncatedCents(x) as real / 100.0)
            else TruncatedCents(x) as real / 100.0) == x;
    WholeTextReads(NumberString(x), x);
  }

  /** The hundredths nearest to the magnitude of `x`, halves rounded up. */
  function RoundedCents(x: real): nat
  {
    var n := (Abs(x) * 100.0 + 0.5).Floor;
    assert n >= 0;
    n
  }

  /** A sign, then `n` hundredths written with a point and two decimals. */
  function CentsText(neg: bool, n: nat): (r: string)
    ensures |r| >= 4 && r[|r| - 3] == '.' && IsDigit(r[|r| - 2]) && IsDigit(r[|r| - 1])
  {
    var p := Pad2(n % 100);
    var digits := DecimalString(n / 100) + "." + p;
    assert digits[|digits| - 2..] == p;
    (if neg then "-" else "") + digits
  }

  /** `x.toFixed(2)`: a minus sign for a negative number, then the hundredths
      nearest to its magnitude (halves rounded up), always with a point and two
      decimals at the end. */
  function FixedTwo(x: real): (r: string)
    ensures |r| >= 4 && r[|r| - 3] == '.' && IsDigit(r[|r| - 2]) && IsDigit(r[|r| - 1])
  {
    CentsText(x < 0.0, RoundedCents(x))
  }

  lemma RoundHalfUp(y: real)
    ensures var n := (y + 0.5).Floor;
      y - 0.5 < n as real <= y + 0.5 && (y.Floor as real == y ==> n as real == y)
  {
    if y.Floor as real == y {
      assert (y + 0.5).Floor == y.Floor;
    }
  }

  /** Rounding to the nearest hundredth moves a number by at most half a
      hundredth, and not at all when it had at most two decimals. */
  lemma RoundCents(x: real)
    requires x >= 0.0
    ensures var n := (x * 100.0 + 0.5).Floor;
      n >= 0 && -0.005 <= n as real / 100.0 - x <= 0.005
      && ((x * 100.0).Floor as real == x * 100.0 ==> n as real / 100.0 == x)
  {
    var y := x * 100.0;
    RoundHalfUp(y);
    var n := (y + 0.5).Floor;
    assert n as real / 100.0 - x == (n as real - y) / 100.0;
  }

  /** Hundredths written with a point and two decimals read back as the
      signed hundredths. */
  lemma ParseCentsText(neg: bool, n: nat)
    ensures ParseDecimal(CentsText(neg, n)) == Some(if neg then -(n as real / 100.0) else n as real / 100.0)
  {
    var v := if neg then -(n as real / 100.0) else n as real / 100.0;
    var t := (if neg then "-" else "") + (DecimalString(n / 100) + ("." + Pad2(n % 100)));
    assert CentsText(neg, n) == t;
    ReadFixedText(neg, n);
    WholeTextReads(t, v);
  }

  /** A sign, the whole part of `n / 100`, a point and two digits are read
      from end to end as the signed hundredths. */
  lemma ReadFixedText(neg: bool, n: nat)
    ensures var s := (if neg then "-" else "") + (DecimalString(n / 100) + ("." + Pad2(n % 100)));
      LeadingDecimal(s) == Some(((if neg then -(n as real / 100.0) else n as real / 100.0), |s|))
  {
    ReadDecimalText(neg, DecimalString(n / 100), true, Pad2(n % 100));
    FixedTwoValue(n);
  }

  /** The digits `toFixed(2)` writes denote the hundredths it was given. */
  lemma FixedTwoValue(n: nat)
    ensures DecimalValue(DecimalString(n / 100), Pad2(n % 100)) == n as real / 100.0
  {
    var p := Pad2(n % 100);
    assert Pow10(|p|) == 100 by {
      assert |p| == 2;
      assert Pow10(1) == 10;
    }
    CentsSplit(n);
  }

  /** `toFixed(2)` text reads back as a number within half a hundredth of the
      original, and as the original itself when it had at most two decimals. */
  lemma ParseFixedTwo(x: real)
    ensures ParseDecimal(FixedTwo(x)).Some?
    ensures var v := ParseDecimal(FixedTwo(x)).value;
      -0.005 <= v - x <= 0.005 && (IsHundredths(x) ==> v == x)
  {
    ParseCentsText(x < 0.0, RoundedCents(x));
    SignedRoundCents(x);
  }

  /** The signed hundredths `toFixed(2)` shows lie within half a hundredth of
      the number, and are the number itself when it had at most two decimals. */
  lemma SignedRoundCents(x: real)
    ensures var n := (Abs(x) * 100.0 + 0.5).Floor;
      var v := if x < 0.0 then -(n as real / 100.0) else n as real / 100.0;
      -0.005 <= v - x <= 0.005 && (IsHundredths(x) ==> v == x)
  {
    RoundCents(Abs(x));
    if IsHundredths(x) && x < 0.0 {
      assert Abs(x) * 100.0 == -(x * 100.0);
      assert (-(x * 100.0)).Floor == -((x * 100.0).Floor);
    }
  }

  lemma DigitsHaveNo(s: string, c: char)
    requires AllDigits(s) && !IsDigit(c)
    ensures c !in s
  {
    forall i | 0 <= i < |s| ensures s[i] != c { assert IsDigit(s[i]); }
  }

  /** `parts.join(sep)` for a one-character separator. */
  function Join(parts: seq<string>, sep: char): string
    decreases |parts|
  {
    if parts == [] then ""
    else if |parts| == 1 then parts[0]
    else parts[0] + [sep] + Join(parts[1..], sep)
  }

  /** Joining parts free of the separator and splitting again gives the parts back. */
  lemma {:induction false} SplitJoin(parts: seq<string>, sep: char)
    requires parts != []
    requires forall k :: 0 <= k < |parts| ==> sep !in parts[k]
    ensures Split(Join(parts, sep), sep) == parts
    decreases |parts|
  {
    if |parts| == 1 {
      SplitNone(parts[0], sep);
    } else {
      SplitJoin(parts[1..], sep);
      SplitFirst(parts[0], sep, Join(parts[1..], sep));
      assert [parts[0]] + parts[1..] == parts;
    }
  }

  /** Joining after an empty first part starts with the separator. */
  lemma JoinEmptyFront(rest: seq<string>, sep: char)
    requires rest != []
    ensures Join([""] + rest, sep) == [sep] + Join(rest, sep)
  {
    assert ([""] + rest)[1..] == rest;
  }

  /** Joining after a character is prepended to the first part puts that
      character in front. */
  lemma JoinConsFront(c: char, rest: seq<string>, sep: char)
    requires rest != []
    ensures Join([[c] + rest[0]] + rest[1..], sep) == [c] + Join(rest, sep)
  {
    var parts := [[c] + rest[0]] + rest[1..];
    assert parts[1..] == rest[1..];
    if |rest| > 1 {
      assert Join(rest, sep) == rest[0] + [sep] + Join(rest[1..], sep);
    }
  }

  /** Splitting and joining again gives the text back. */
  lemma {:induction false} JoinSplit(s: string, sep: char)
    ensures Join(Split(s, sep), sep) == s
    decreases |s|
  {
    if s != [] {
      JoinSplit(s[1..], sep);
      var rest := Split(s[1..], sep);
      if s[0] == sep {
        JoinEmptyFront(rest, sep);
      } else {
        JoinConsFront(s[0], rest, sep);
      }
      assert [s[0]] + s[1..] == s;
    }
  }

  /** Digit strings of the same length and value are the same string. */
  lemma {:induction false} DigitsInjective(a: string, b: string)
    requires AllDigits(a) && AllDigits(b) && |a| == |b|
    requires DigitsValue(a) == DigitsValue(b)
    ensures a == b
    decreases |a|
  {
    if a != [] {
      var n := |a| - 1;
      assert DigitsValue(a) % 10 == DigitValue(a[n]);
      assert DigitsValue(b) % 10 == DigitValue(b[n]);
      assert DigitsValue(a[..n]) == DigitsValue(a) / 10;
      assert DigitsValue(b[..n]) == DigitsValue(b) / 10;
      DigitsInjective(a[..n], b[..n]);
      assert a == a[..n] + [a[n]] && b == b[..n] + [b[n]];
    }
  }
}
