/** The timestamp text of the syslog export: fixed-width fields that give back the
    timestamp to the microsecond. */
module Rfc3339 {
  import opened Base
  import opened CivilDate

  const NANOS_PER_SEC := 1_000_000_000

  function Digit(d: nat): char
    requires d < 10
  {
    "0123456789"[d]
  }

  function DigitValue(c: char): (v: nat)
    ensures v < 10
  {
    match c
    case '1' => 1
    case '2' => 2
    case '3' => 3
    case '4' => 4
    case '5' => 5
    case '6' => 6
    case '7' => 7
    case '8' => 8
    case '9' => 9
    case _ => 0
  }

  /** Decimal digits of n, zero-padded to at least `width` characters. */
  function Pad(n: nat, width: nat): string
    decreases n, width
  {
    if n == 0 && width == 0 then ""
    else Pad(n / 10, if width == 0 then 0 else width - 1) + [Digit(n % 10)]
  }

  /** The timestamp as YYYY-MM-DDTHH:MM:SS.ffffffZ. */
  function FormatRfc3339(nanos: nat): string {
    var secs := nanos / NANOS_PER_SEC;
    var subsec := nanos % NANOS_PER_SEC;
    var timeOfDay := secs % 86400;
    var d := DaysToYmd(secs / 86400);
    Pad(d.year, 4) + "-" + Pad(d.month, 2) + "-" + Pad(d.day, 2) + "T"
    + Pad(timeOfDay / 3600, 2) + ":" + Pad((timeOfDay % 3600) / 60, 2) + ":" + Pad(timeOfDay % 60, 2)
    + "." + Pad(subsec / 1000, 6) + "Z"
  }

  // ---------------------------------------------------------------------------
  // Reading the text back
  // ---------------------------------------------------------------------------

  function Number(s: string): nat {
    if s == "" then 0 else Number(s[..|s| - 1]) * 10 + DigitValue(s[|s| - 1])
  }

  /** Microseconds since the epoch named by a timestamp text, by counting calendar days. */
  function ParseMicros(s: string): int
    requires |s| == 27
  {
    var days := DaysFromCivil(Date(Number(s[..4]), Number(s[5..7]), Number(s[8..10])));
    (days * 86400 + Number(s[11..13]) * 3600 + Number(s[14..16]) * 60 + Number(s[17..19])) * 1_000_000
    + Number(s[20..26])
  }

  function Pow10(w: nat): nat {
    if w == 0 then 1 else 10 * Pow10(w - 1)
  }

  lemma {:induction false} PadWidth(n: nat, w: nat)
    requires n < Pow10(w)
    ensures |Pad(n, w)| == w
  {
    if w > 0 {
      PadWidth(n / 10, w - 1);
    }
  }

  lemma DigitRoundTrip(d: nat)
    requires d < 10
    ensures DigitValue(Digit(d)) == d
  {
  }

  lemma {:induction false} NumberOfPad(n: nat, w: nat)
    ensures Number(Pad(n, w)) == n
    decreases n, w
  {
    if n != 0 || w != 0 {
      var w' := if w == 0 then 0 else w - 1;
      NumberOfPad(n / 10, w');
      assert Pad(n, w)[..|Pad(n, w)| - 1] == Pad(n / 10, w');
      DigitRoundTrip(n % 10);
    }
  }

  lemma Field(n: nat, w: nat)
    requires n < Pow10(w)
    ensures |Pad(n, w)| == w && Number(Pad(n, w)) == n
  {
    PadWidth(n, w);
    NumberOfPad(n, w);
  }

  /** A u64 nanosecond count stays within the years 1970 to 2554. */
  lemma YearInRange(nanos: nat)
    requires nanos <= U64_MAX
    ensures DaysToYmd(nanos / NANOS_PER_SEC / 86400).year <= 2554
  {
    var days := nanos / NANOS_PER_SEC / 86400;
    assert days <= 213503;
    DaysFromCivilOfDaysToYmd(213503);
    DaysBeforeYearClosed(2555);
    var last := Date(2555, 1, 1);
    DaysFromCivilOfDaysToYmd(days);
    DaysFromCivilMonotone(DaysToYmd(days), last);
  }

  /** The text determines the timestamp to the microsecond, for every u64 value. */
  lemma ParseOfFormat(nanos: nat)
    requires nanos <= U64_MAX
    ensures |FormatRfc3339(nanos)| == 27
    ensures ParseMicros(FormatRfc3339(nanos)) == nanos / 1000
  {
    var secs := nanos / NANOS_PER_SEC;
    var tod := secs % 86400;
    var d := DaysToYmd(secs / 86400);
    YearInRange(nanos);
    Widths();
    Field(d.year, 4);
    Field(d.month, 2);
    Field(d.day, 2);
    Field(tod / 3600, 2);
    Field((tod % 3600) / 60, 2);
    Field(tod % 60, 2);
    Field(nanos % NANOS_PER_SEC / 1000, 6);
    FieldsOf(Pad(d.year, 4), Pad(d.month, 2), Pad(d.day, 2), Pad(tod / 3600, 2), Pad((tod % 3600) / 60, 2),
             Pad(tod % 60, 2), Pad(nanos % NANOS_PER_SEC / 1000, 6));
    DaysFromCivilOfDaysToYmd(secs / 86400);
    ClockSum(nanos);
  }

  lemma Widths()
    ensures Pow10(2) == 100 && Pow10(4) == 10_000 && Pow10(6) == 1_000_000
  {
    assert Pow10(3) == 1000 && Pow10(5) == 100_000;
  }

  lemma ClockSum(nanos: nat)
    ensures var secs := nanos / NANOS_PER_SEC;
            var tod := secs % 86400;
            (secs / 86400 * 86400 + tod / 3600 * 3600 + (tod % 3600) / 60 * 60 + tod % 60) * 1_000_000
            + nanos % NANOS_PER_SEC / 1000 == nanos / 1000
  {
    var tod := nanos / NANOS_PER_SEC % 86400;
    assert tod % 60 == (tod % 3600) % 60;
  }

  /** The seven fields sit at fixed places of the text. */
  lemma FieldsOf(y: string, mo: string, d: string, h: string, mi: string, s: string, f: string)
    requires |y| == 4 && |mo| == 2 && |d| == 2 && |h| == 2 && |mi| == 2 && |s| == 2 && |f| == 6
    ensures var t := y + "-" + mo + "-" + d + "T" + h + ":" + mi + ":" + s + "." + f + "Z";
            && |t| == 27 && t[..4] == y && t[5..7] == mo && t[8..10] == d
            && t[11..13] == h && t[14..16] == mi && t[17..19] == s && t[20..26] == f
  {
  }

  /** Two timestamps print alike exactly when they agree to the microsecond. */
  lemma FormatInjective(a: nat, b: nat)
    requires a <= U64_MAX && b <= U64_MAX
    ensures FormatRfc3339(a) == FormatRfc3339(b) <==> a / 1000 == b / 1000
  {
    ParseOfFormat(a);
    ParseOfFormat(b);
    MicrosDecide(a);
    MicrosDecide(b);
  }

  lemma MicrosDecide(a: nat)
    ensures a / NANOS_PER_SEC == a / 1000 / 1_000_000
    ensures a % NANOS_PER_SEC / 1000 == a / 1000 % 1_000_000
  {
  }

  // ---------------------------------------------------------------------------
  // The characters of the text
  // ---------------------------------------------------------------------------

  predicate IsDigit(c: char) {
    '0' <= c <= '9'
  }

  /** A digit's value is its distance from the character 0. */
  lemma DigitIsCharacter(d: nat)
    requires d < 10
    ensures Digit(d) as int == 48 + d && DigitValue((48 + d) as char) == d
  {
  }

  lemma {:induction false} PadIsDigits(n: nat, w: nat)
    ensures forall c | c in Pad(n, w) :: IsDigit(c)
    decreases n, w
  {
    if n != 0 || w != 0 {
      PadIsDigits(n / 10, if w == 0 then 0 else w - 1);
      DigitIsCharacter(n % 10);
    }
  }

  /** The text with its fields cut out. */
  predicate Shaped(t: string) {
    && |t| == 27 && t[4] == '-' && t[7] == '-' && t[10] == 'T' && t[13] == ':' && t[16] == ':' && t[19] == '.'
    && t[26] == 'Z'
    && forall i | 0 <= i < 27 && i !in {4, 7, 10, 13, 16, 19, 26} :: IsDigit(t[i])
  }

  lemma ShapeOf(y: string, mo: string, d: string, h: string, mi: string, s: string, f: string)
    requires |y| == 4 && |mo| == 2 && |d| == 2 && |h| == 2 && |mi| == 2 && |s| == 2 && |f| == 6
    requires forall c | c in y || c in mo || c in d || c in h || c in mi || c in s || c in f :: IsDigit(c)
    ensures Shaped(y + "-" + mo + "-" + d + "T" + h + ":" + mi + ":" + s + "." + f + "Z")
  {
    var t := y + "-" + mo + "-" + d + "T" + h + ":" + mi + ":" + s + "." + f + "Z";
    FieldsOf(y, mo, d, h, mi, s, f);
    forall i | 0 <= i < 27 && i !in {4, 7, 10, 13, 16, 19, 26}
      ensures IsDigit(t[i])
    {
      assert t[i] in y || t[i] in mo || t[i] in d || t[i] in h || t[i] in mi || t[i] in s || t[i] in f;
    }
  }

  /** For every u64 value the separators stand at their places and there are digits everywhere else. */
  lemma FormatShape(nanos: nat)
    requires nanos <= U64_MAX
    ensures Shaped(FormatRfc3339(nanos))
  {
    hide Shaped, IsDigit;
    var tod := nanos / NANOS_PER_SEC % 86400;
    var d := DaysToYmd(nanos / NANOS_PER_SEC / 86400);
    var fraction := nanos % NANOS_PER_SEC / 1000;
    YearInRange(nanos);
    Widths();
    DigitsField(d.year, 4);
    DigitsField(d.month, 2);
    DigitsField(d.day, 2);
    DigitsField(tod / 3600, 2);
    DigitsField((tod % 3600) / 60, 2);
    DigitsField(tod % 60, 2);
    DigitsField(fraction, 6);
    ShapeOf(Pad(d.year, 4), Pad(d.month, 2), Pad(d.day, 2), Pad(tod / 3600, 2), Pad((tod % 3600) / 60, 2),
            Pad(tod % 60, 2), Pad(fraction, 6));
  }

  lemma DigitsField(n: nat, w: nat)
    requires n < Pow10(w)
    ensures |Pad(n, w)| == w && forall c | c in Pad(n, w) :: IsDigit(c)
  {
    PadWidth(n, w);
    PadIsDigits(n, w);
  }
}
