/**
 * Calendar dates as text in the ISO 8601 extended calendar-date form
 * `YYYY-MM-DD` (ISO 8601:2004, section 4.1.2.2), which is what
 * `strptime`/`strftime` with '%Y-%m-%d' read and write, and the text
 * order SQLite compares such strings with.
 */
module IsoDate {
  import opened Wrappers
  import opened Calendar

  /**
   * SQLite's BINARY collation on text: code-point lexicographic order,
   * a proper prefix coming first.  (UTF-8 byte order agrees with it.)
   */
  predicate TextLe(a: string, b: string) {
    if a == [] then true
    else if b == [] then false
    else if a[0] != b[0] then a[0] < b[0]
    else TextLe(a[1..], b[1..])
  }

  lemma {:induction false} TextLeReflexive(a: string)
    ensures TextLe(a, a)
  {
    if a != [] {
      TextLeReflexive(a[1..]);
    }
  }

  lemma {:induction false} TextLeTotal(a: string, b: string)
    ensures TextLe(a, b) || TextLe(b, a)
  {
    if a != [] && b != [] && a[0] == b[0] {
      TextLeTotal(a[1..], b[1..]);
    }
  }

  lemma {:induction false} TextLeAntisymmetric(a: string, b: string)
    requires TextLe(a, b) && TextLe(b, a)
    ensures a == b
  {
    if a != [] && b != [] {
      TextLeAntisymmetric(a[1..], b[1..]);
      assert a == [a[0]] + a[1..];
      assert b == [b[0]] + b[1..];
    }
  }

  lemma {:induction false} TextLeTransitive(a: string, b: string, c: string)
    requires TextLe(a, b) && TextLe(b, c)
    ensures TextLe(a, c)
  {
    if a != [] && b != [] && c != [] && a[0] == b[0] && b[0] == c[0] {
      TextLeTransitive(a[1..], b[1..], c[1..]);
    }
  }

  /** Behind a common-length prefix, text order is decided by the prefixes unless they agree. */
  lemma {:induction false} TextLeAppend(p: string, a: string, q: string, b: string)
    requires |p| == |q|
    ensures TextLe(p + a, q + b) == if p == q then TextLe(a, b) else TextLe(p, q)
  {
    if p == [] {
      assert p + a == a && q + b == b;
    } else {
      assert (p + a)[1..] == p[1..] + a;
      assert (q + b)[1..] == q[1..] + b;
      TextLeAppend(p[1..], a, q[1..], b);
      if p[0] == q[0] && p[1..] == q[1..] {
        assert p == [p[0]] + p[1..];
        assert q == [q[0]] + q[1..];
      }
    }
  }

  predicate IsDigit(c: char) {
    '0' <= c <= '9'
  }

  predicate AllDigits(s: string) {
    forall i :: 0 <= i < |s| ==> IsDigit(s[i])
  }

  function DigitChar(v: int): (c: char)
    requires 0 <= v <= 9
    ensures IsDigit(c)
  {
    ('0' as int + v) as char
  }

  function Pow10(k: nat): (p: nat)
    ensures p >= 1
  {
    if k == 0 then 1 else 10 * Pow10(k - 1)
  }

  /** The k-digit, zero-padded decimal numeral for x. */
  function Digits(x: nat, k: nat): (s: string)
    requires x < Pow10(k)
    ensures |s| == k && AllDigits(s)
  {
    if k == 0 then [] else Digits(x / 10, k - 1) + [DigitChar(x % 10)]
  }

  /** The number a numeral denotes. */
  function Value(s: string): (v: nat)
    requires AllDigits(s)
    ensures v < Pow10(|s|)
  {
    if s == [] then 0
    else Value(s[..|s| - 1]) * 10 + (s[|s| - 1] as int - '0' as int)
  }

  lemma {:induction false} ValueOfDigits(x: nat, k: nat)
    requires x < Pow10(k)
    ensures Value(Digits(x, k)) == x
  {
    if k > 0 {
      var s := Digits(x, k);
      assert s[..k - 1] == Digits(x / 10, k - 1);
      ValueOfDigits(x / 10, k - 1);
    }
  }

  lemma {:induction false} DigitsOfValue(s: string)
    requires AllDigits(s)
    ensures Digits(Value(s), |s|) == s
  {
    if s != [] {
      var init := s[..|s| - 1];
      DigitsOfValue(init);
      assert Value(s) / 10 == Value(init);
      assert s == init + [s[|s| - 1]];
    }
  }

  /** For numerals of one width, text order is numeric order. */
  lemma SingleCharOrder(a: char, b: char)
    ensures TextLe([a], [b]) <==> a <= b
  {
    assert [a][1..] == [] && [b][1..] == [];
  }

  /** Comparing numbers by their leading digits, then by their last digit. */
  lemma LeadingDigitsOrder(x: nat, y: nat)
    ensures x / 10 == y / 10 ==> (x <= y <==> x % 10 <= y % 10)
    ensures x / 10 != y / 10 ==> (x <= y <==> x / 10 < y / 10)
  {
  }

  lemma DigitsInjective(x: nat, y: nat, k: nat)
    requires x < Pow10(k) && y < Pow10(k) && x != y
    ensures Digits(x, k) != Digits(y, k)
  {
    ValueOfDigits(x, k);
    ValueOfDigits(y, k);
  }

  lemma {:induction false} DigitsOrder(x: nat, y: nat, k: nat)
    requires x < Pow10(k) && y < Pow10(k)
    ensures TextLe(Digits(x, k), Digits(y, k)) <==> x <= y
  {
    if k > 0 {
      var hx, hy := x / 10, y / 10;
      var px, py := Digits(hx, k - 1), Digits(hy, k - 1);
      var cx, cy := DigitChar(x % 10), DigitChar(y % 10);
      assert Digits(x, k) == px + [cx];
      assert Digits(y, k) == py + [cy];
      TextLeAppend(px, [cx], py, [cy]);
      LeadingDigitsOrder(x, y);
      if hx == hy {
        SingleCharOrder(cx, cy);
      } else {
        DigitsOrder(hx, hy, k - 1);
        DigitsInjective(hx, hy, k - 1);
      }
    }
  }

  /** `strftime('%Y-%m-%d')`. */
  function Format(d: Date): (s: string)
    requires Valid(d)
    ensures |s| == 10 && s[4] == '-' && s[7] == '-'
  {
    Digits(d.year, 4) + ("-" + (Digits(d.month, 2) + ("-" + Digits(d.day, 2))))
  }

  /**
   * `strptime(s, '%Y-%m-%d')` on the zero-padded form: None where Python
   * raises ValueError (wrong shape, or no such day).
   */
  function Parse(s: string): (r: Option<Date>)
    ensures r.Some? ==> Valid(r.value)
  {
    if |s| == 10 && s[4] == '-' && s[7] == '-'
       && AllDigits(s[..4]) && AllDigits(s[5..7]) && AllDigits(s[8..])
    then
      var d := Date(Value(s[..4]), Value(s[5..7]), Value(s[8..]));
      if Valid(d) then Some(d) else None
    else None
  }

  lemma FormatParts(d: Date)
    requires Valid(d)
    ensures Format(d)[..4] == Digits(d.year, 4)
    ensures Format(d)[5..7] == Digits(d.month, 2)
    ensures Format(d)[8..] == Digits(d.day, 2)
  {
  }

  /** Parsing what was formatted gives the date back. */
  lemma ParseFormat(d: Date)
    requires Valid(d)
    ensures Parse(Format(d)) == Some(d)
  {
    var s := Format(d);
    FormatParts(d);
    ValueOfDigits(d.year, 4);
    ValueOfDigits(d.month, 2);
    ValueOfDigits(d.day, 2);
  }

  /** Formatting what was parsed gives the same text back. */
  lemma FormatParse(s: string)
    requires Parse(s).Some?
    ensures Format(Parse(s).value) == s
  {
    var d := Parse(s).value;
    DigitsOfValue(s[..4]);
    DigitsOfValue(s[5..7]);
    DigitsOfValue(s[8..]);
    assert s == s[..4] + "-" + s[5..7] + "-" + s[8..];
  }

  /** Text order of the `-MM-DD` tails is (month, day) order. */
  lemma MonthDayOrder(a: Date, b: Date)
    requires Valid(a) && Valid(b)
    ensures TextLe("-" + (Digits(a.month, 2) + ("-" + Digits(a.day, 2))),
                   "-" + (Digits(b.month, 2) + ("-" + Digits(b.day, 2))))
            <==> a.month < b.month || (a.month == b.month && a.day <= b.day)
  {
    var ma, mb := Digits(a.month, 2), Digits(b.month, 2);
    var da, db := Digits(a.day, 2), Digits(b.day, 2);
    TextLeAppend("-", ma + ("-" + da), "-", mb + ("-" + db));
    TextLeAppend(ma, "-" + da, mb, "-" + db);
    TextLeAppend("-", da, "-", db);
    DigitsOrder(a.month, b.month, 2);
    DigitsOrder(a.day, b.day, 2);
    ValueOfDigits(a.month, 2);
    ValueOfDigits(b.month, 2);
  }

  /** On formatted dates, text order is chronological order. */
  lemma FormatOrder(a: Date, b: Date)
    requires Valid(a) && Valid(b)
    ensures TextLe(Format(a), Format(b)) <==> Ordinal(a) <= Ordinal(b)
  {
    var ya, yb := Digits(a.year, 4), Digits(b.year, 4);
    TextLeAppend(ya, "-" + (Digits(a.month, 2) + ("-" + Digits(a.day, 2))),
                 yb, "-" + (Digits(b.month, 2) + ("-" + Digits(b.day, 2))));
    DigitsOrder(a.year, b.year, 4);
    ValueOfDigits(a.year, 4);
    ValueOfDigits(b.year, 4);
    MonthDayOrder(a, b);
    OrdinalOrder(a, b);
  }

  /**
   * Well-formed `YYYY-MM-DD` strings compare as text exactly as their dates
   * compare on the calendar, which the queries' string comparisons rely on.
   */
  lemma TextOrderIsChronological(s: string, t: string)
    requires Parse(s).Some? && Parse(t).Some?
    ensures TextLe(s, t) <==> Ordinal(Parse(s).value) <= Ordinal(Parse(t).value)
  {
    FormatParse(s);
    FormatParse(t);
    FormatOrder(Parse(s).value, Parse(t).value);
  }
}
