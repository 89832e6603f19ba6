/** Rendering of a duration in seconds as `MM:SS` or `HH:MM:SS`, and a parser
    for that rendering that recovers the whole seconds. */
module ClockText {
  import opened Base

  /** Python's `int()` on a number: rounds toward zero. */
  function Truncate(v: real): (n: int)
    ensures v >= 0.0 ==> n >= 0 && n as real <= v < n as real + 1.0
    ensures v < 0.0 ==> n <= 0 && n as real - 1.0 < v <= n as real
  {
    if v >= 0.0 then v.Floor else -((-v).Floor)
  }

  function DigitChar(d: nat): (c: char)
    requires d < 10
    ensures '0' <= c <= '9' && (c - '0') as int == d
  {
    ('0' as int + d) as char
  }

  predicate IsDigit(c: char) {
    '0' <= c <= '9'
  }

  function DigitValue(c: char): (d: nat)
    requires IsDigit(c)
    ensures d < 10
  {
    (c - '0') as nat
  }

  /** Decimal digits of `n`, most significant first, without padding. */
  function Digits(n: nat): (s: string)
    ensures |s| >= 1
    ensures forall i :: 0 <= i < |s| ==> IsDigit(s[i])
    ensures n < 10 <==> |s| == 1
    ensures n < 100 <==> |s| <= 2
    ensures s[0] == '0' <==> n == 0
  {
    if n < 10 then [DigitChar(n)] else Digits(n / 10) + [DigitChar(n % 10)]
  }

  /** The number a string of decimal digits denotes. */
  function ParseDigits(s: string): nat
    requires forall i :: 0 <= i < |s| ==> IsDigit(s[i])
  {
    if |s| == 0 then 0 else ParseDigits(s[..|s| - 1]) * 10 + DigitValue(s[|s| - 1])
  }

  lemma {:induction false} ParseDigitsOfDigits(n: nat)
    ensures ParseDigits(Digits(n)) == n
  {
    var s := Digits(n);
    if n >= 10 {
      ParseDigitsOfDigits(n / 10);
      assert s[..|s| - 1] == Digits(n / 10);
    }
  }

  /** `f"{n:02d}"` for a non-negative `n`: the decimal digits of `n`, with a
      leading zero only when `n` has a single digit. */
  function Pad2(n: nat): (s: string)
    ensures |s| >= 2 && (n < 100 <==> |s| == 2)
    ensures forall i :: 0 <= i < |s| ==> IsDigit(s[i])
    ensures ParseDigits(s) == n
    ensures n >= 10 ==> s[0] != '0'
  {
    if n < 10 then
      var s := ['0', DigitChar(n)];
      assert s[..1] == "0" && s[..1][..0] == [];
      assert ParseDigits(s[..1]) == 0;
      s
    else
      ParseDigitsOfDigits(n);
      Digits(n)
  }

  /** Whole hours, minutes within the hour and seconds within the minute of
      a whole number of seconds, with Python's floor division and modulo
      (which agree with Dafny's for a positive divisor). */
  datatype Clock = Clock(hours: int, minutes: nat, secs: nat) {
    /** The number of seconds the fields stand for. */
    function Seconds(): int {
      hours * 3600 + minutes * 60 + secs
    }
  }

  function Decompose(total: int): (c: Clock)
    ensures c.minutes < 60 && c.secs < 60
    ensures c.hours * 3600 + c.minutes * 60 + c.secs == total
  {
    Clock(total / 3600, (total % 3600) / 60, total % 60)
  }

  /** `format_seconds`: the truncated seconds as `HH:MM:SS` when there is at
      least one whole hour, else `MM:SS`; each field has at least two digits. */
  function FormatSeconds(seconds: real): (s: string)
    ensures forall i :: 0 <= i < |s| ==> IsDigit(s[i]) || s[i] == ':'
    ensures Truncate(seconds) < 3600 ==> |s| == 5 && s[2] == ':'
    ensures Truncate(seconds) >= 3600 ==>
              && |s| >= 8 && s[|s| - 6] == ':' && s[|s| - 3] == ':'
              && (Truncate(seconds) < 360000 <==> |s| == 8)
  {
    var total := Truncate(seconds);
    var c := Decompose(total);
    if c.hours > 0 then Pad2(c.hours) + ":" + Pad2(c.minutes) + ":" + Pad2(c.secs)
    else Pad2(c.minutes) + ":" + Pad2(c.secs)
  }

  /** The colon-separated fields of a string. */
  function Fields(s: string): (r: seq<string>)
    ensures |r| >= 1
    ensures ':' !in s <==> |r| == 1
    ensures forall i :: 0 <= i < |r| ==> ':' !in r[i]
  {
    if |s| == 0 then [""]
    else
      var rest := Fields(s[1..]);
      if s[0] == ':' then [""] + rest
      else [[s[0]] + rest[0]] + rest[1..]
  }

  lemma {:induction false} FieldsOfPlain(a: string, b: string)
    requires ':' !in a
    ensures Fields(a + b) == [a + Fields(b)[0]] + Fields(b)[1..]
  {
    if |a| > 0 {
      assert (a + b)[1..] == a[1..] + b;
      FieldsOfPlain(a[1..], b);
      var fb := Fields(b);
      var rest := Fields(a[1..] + b);
      assert rest[0] == a[1..] + fb[0] && rest[1..] == fb[1..];
      assert [a[0]] + rest[0] == a + fb[0];
    } else {
      assert a + b == b;
      var f := Fields(b);
      assert f == [f[0]] + f[1..];
      assert a + f[0] == f[0];
    }
  }

  lemma FieldsOfSeparated(a: string, b: string)
    requires ':' !in a
    ensures Fields(a + ":" + b) == [a] + Fields(b)
  {
    FieldsOfPlain(a, ":" + b);
    assert a + ":" + b == a + (":" + b);
    assert (":" + b)[1..] == b;
    assert Fields(":" + b) == [""] + Fields(b);
    assert a + "" == a;
  }

  lemma FieldsOfDigits(a: string)
    requires forall i :: 0 <= i < |a| ==> IsDigit(a[i])
    ensures Fields(a) == [a]
  {
    FieldsOfPlain(a, "");
    assert a + "" == a;
  }

  predicate AllDigits(s: string) {
    forall i :: 0 <= i < |s| ==> IsDigit(s[i])
  }

  /** Read `MM:SS` or `HH:MM:SS` back into its fields, with zero hours for
      the short form; none for any other shape. */
  function ParseClock(s: string): (r: Option<Clock>)
    ensures r.Some? ==> ':' in s && r.value.hours >= 0 && r.value.Seconds() >= 0
  {
    var f := Fields(s);
    if |f| == 2 && AllDigits(f[0]) && AllDigits(f[1]) then
      Some(Clock(0, ParseDigits(f[0]), ParseDigits(f[1])))
    else if |f| == 3 && AllDigits(f[0]) && AllDigits(f[1]) && AllDigits(f[2]) then
      Some(Clock(ParseDigits(f[0]), ParseDigits(f[1]), ParseDigits(f[2])))
    else None
  }

  lemma ParseShortClock(m: nat, sec: nat)
    ensures ParseClock(Pad2(m) + ":" + Pad2(sec)) == Some(Clock(0, m, sec))
  {
    var mm, ss := Pad2(m), Pad2(sec);
    FieldsOfDigits(ss);
    FieldsOfSeparated(mm, ss);
  }

  lemma FieldsOfLongClock(hh: string, mm: string, ss: string)
    requires AllDigits(hh) && AllDigits(mm) && AllDigits(ss)
    ensures Fields(hh + ":" + mm + ":" + ss) == [hh, mm, ss]
  {
    FieldsOfDigits(ss);
    FieldsOfSeparated(mm, ss);
    assert hh + ":" + mm + ":" + ss == hh + ":" + (mm + ":" + ss);
    FieldsOfSeparated(hh, mm + ":" + ss);
  }

  lemma ParseLongClock(h: nat, m: nat, sec: nat)
    ensures ParseClock(Pad2(h) + ":" + Pad2(m) + ":" + Pad2(sec)) == Some(Clock(h, m, sec))
  {
    FieldsOfLongClock(Pad2(h), Pad2(m), Pad2(sec));
  }

  /** Parsing the rendering gives back the fields `Decompose` computes from
      the truncated seconds, so every printed minute and second is below 60
      and the fields add up to the whole seconds. Below one hour the hours
      field is not printed, so a negative input comes back with zero hours,
      that is, as its remainder modulo an hour. */
  lemma FormatRoundTrip(seconds: real)
    ensures var c := Decompose(Truncate(seconds));
            ParseClock(FormatSeconds(seconds)) == Some(if c.hours >= 0 then c else Clock(0, c.minutes, c.secs))
    ensures var total := Truncate(seconds);
            ParseClock(FormatSeconds(seconds)).Some?
            && ParseClock(FormatSeconds(seconds)).value.Seconds() == if total >= 0 then total else total % 3600
  {
    var total := Truncate(seconds);
    var c := Decompose(total);
    if c.hours > 0 {
      ParseLongClock(c.hours, c.minutes, c.secs);
    } else {
      ParseShortClock(c.minutes, c.secs);
      assert total < 3600;
      assert total % 3600 == c.minutes * 60 + c.secs;
    }
  }
}
