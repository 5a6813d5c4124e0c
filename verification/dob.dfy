/** The date-of-birth field shared by the enrollment form and the
    edit-student modal: the keystroke mask (`handleDateChange`), the
    `dd/MM/yyyy` validity check done on submit, and the `dd/MM/yyyy` and
    `yyyy-MM-dd` renderings of a calendar date. */
module DobFormat {
  import opened Wrappers
  import opened Calendar

  /** The longest text the mask lets the field hold. */
  const MaxDobLength: int := 10

  predicate IsDigit(c: char) {
    '0' <= c <= '9'
  }

  /** Characters the mask's `/^[0-9/]*$/` test accepts. */
  predicate MaskChars(s: string) {
    forall i :: 0 <= i < |s| ==> IsDigit(s[i]) || s[i] == '/'
  }

  /** What the field can hold between keystrokes. */
  predicate MaskState(s: string) {
    MaskChars(s) && |s| <= MaxDobLength
  }

  // ---------------------------------------------------------------------
  // Keystroke mask
  // ---------------------------------------------------------------------

  /** The new field value after the browser proposes `value` while the field
      holds `prev`: a proposal with other characters, or longer than ten
      characters once the auto-slash is added, is dropped; growing from one
      to two, or from four to five, characters appends a '/'. */
  function HandleDateChange(prev: string, value: string): (r: string)
    ensures !MaskChars(value) ==> r == prev
    ensures MaskChars(value) && |value| == 2 && |prev| == 1 ==> r == value + "/"
    ensures MaskChars(value) && |value| == 5 && |prev| == 4 ==> r == value + "/"
    ensures |value| > MaxDobLength ==> r == prev
    ensures r != prev ==> MaskState(r) && |value| <= |r| && r[..|value|] == value
    ensures (MaskChars(value) && |value| <= MaxDobLength
             && !(|value| == 2 && |prev| == 1) && !(|value| == 5 && |prev| == 4)) ==> r == value
  {
    if !MaskChars(value) then prev
    else
      var slashed1 := if |value| == 2 && |prev| == 1 then value + "/" else value;
      var slashed2 := if |slashed1| == 5 && |prev| == 4 then slashed1 + "/" else slashed1;
      if |slashed2| > MaxDobLength then prev else slashed2
  }

  /** Whatever the user types, starting from a state the mask allows (the
      empty field, or a prefilled `dd/MM/yyyy` date), the field only ever
      holds digits and '/' and never more than ten characters. */
  lemma {:induction false} MaskInvariant(start: string, inputs: seq<string>)
    requires MaskState(start)
    ensures MaskState(TypeAll(start, inputs))
    decreases |inputs|
  {
    if |inputs| > 0 {
      var next := HandleDateChange(start, inputs[0]);
      MaskInvariant(next, inputs[1..]);
    }
  }

  /** The field after a sequence of proposed values. */
  function TypeAll(start: string, inputs: seq<string>): string
    decreases |inputs|
  {
    if |inputs| == 0 then start else TypeAll(HandleDateChange(start, inputs[0]), inputs[1..])
  }

  // ---------------------------------------------------------------------
  // Digits
  // ---------------------------------------------------------------------

  function DigitValue(c: char): int
    requires IsDigit(c)
  {
    c as int - '0' as int
  }

  function DigitChar(n: int): (c: char)
    requires 0 <= n <= 9
    ensures IsDigit(c) && DigitValue(c) == n
  {
    ('0' as int + n) as char
  }

  function Pad2(n: int): (s: string)
    requires 0 <= n < 100
    ensures |s| == 2 && IsDigit(s[0]) && IsDigit(s[1])
    ensures 10 * DigitValue(s[0]) + DigitValue(s[1]) == n
  {
    [DigitChar(n / 10), DigitChar(n % 10)]
  }

  function Pad4(n: int): (s: string)
    requires 0 <= n < 10000
    ensures |s| == 4 && forall i :: 0 <= i < 4 ==> IsDigit(s[i])
    ensures Value4(s) == n
  {
    var s := Pad2(n / 100) + Pad2(n % 100);
    assert Value4(s) == 100 * Value2(s[0..2]) + Value2(s[2..4]);
    s
  }

  function Value2(s: string): int
    requires |s| == 2 && IsDigit(s[0]) && IsDigit(s[1])
  {
    10 * DigitValue(s[0]) + DigitValue(s[1])
  }

  function Value4(s: string): int
    requires |s| == 4 && forall i :: 0 <= i < 4 ==> IsDigit(s[i])
  {
    1000 * DigitValue(s[0]) + 100 * DigitValue(s[1]) + 10 * DigitValue(s[2]) + DigitValue(s[3])
  }

  lemma Pad2Value(s: string)
    requires |s| == 2 && IsDigit(s[0]) && IsDigit(s[1])
    ensures Pad2(Value2(s)) == s
  {
    var n := Value2(s);
    assert n / 10 == DigitValue(s[0]) && n % 10 == DigitValue(s[1]);
  }

  lemma Pad4Value(s: string)
    requires |s| == 4 && forall i :: 0 <= i < 4 ==> IsDigit(s[i])
    ensures Pad4(Value4(s)) == s
  {
    var h, l := Value2(s[0..2]), Value2(s[2..4]);
    assert Value4(s) == 100 * h + l;
    assert Value4(s) / 100 == h && Value4(s) % 100 == l;
    Pad2Value(s[0..2]);
    Pad2Value(s[2..4]);
    assert s == s[0..2] + s[2..4];
  }

  // ---------------------------------------------------------------------
  // Parsing and rendering
  // ---------------------------------------------------------------------

  /** The shape `dd/MM/yyyy`: ten characters, '/' at positions 2 and 5,
      digits everywhere else. */
  predicate DobShape(s: string) {
    && |s| == 10
    && s[2] == '/' && s[5] == '/'
    && IsDigit(s[0]) && IsDigit(s[1]) && IsDigit(s[3]) && IsDigit(s[4])
    && IsDigit(s[6]) && IsDigit(s[7]) && IsDigit(s[8]) && IsDigit(s[9])
  }

  /** The submit-time check `isValid(parse(dob, 'dd/MM/yyyy')) && dob.length == 10`
      on a value of digits and '/': it holds exactly for the ten-character
      `dd/MM/yyyy` spellings of a real calendar date with a year above 0,
      and yields that date. */
  function ParseDob(s: string): (r: Option<Date>)
    ensures r.Some? ==> ValidDate(r.value) && r.value.year <= 9999
    ensures r.Some? ==> DobShape(s)
    ensures r.Some? ==> r.value.day == Value2(s[0..2]) && r.value.month == Value2(s[3..5])
                        && r.value.year == Value4(s[6..10])
    ensures DobShape(s) && ValidDate(Date(Value4(s[6..10]), Value2(s[3..5]), Value2(s[0..2]))) ==> r.Some?
  {
    if DobShape(s) then
      var d := Date(Value4(s[6..10]), Value2(s[3..5]), Value2(s[0..2]));
      if ValidDate(d) then Some(d) else None
    else None
  }

  /** Decimal digits of `n` without leading zeros. */
  function NatDigits(n: nat): (s: string)
    ensures |s| >= 1 && forall i :: 0 <= i < |s| ==> IsDigit(s[i])
  {
    if n < 10 then [DigitChar(n)] else NatDigits(n / 10) + [DigitChar(n % 10)]
  }

  /** `yyyy`: at least four digits, zero-padded. */
  function YearDigits(y: nat): (s: string)
    ensures y <= 9999 ==> s == Pad4(y)
    ensures forall i :: 0 <= i < |s| ==> IsDigit(s[i])
  {
    if y <= 9999 then Pad4(y) else NatDigits(y)
  }

  /** `format(d, 'dd/MM/yyyy')`: the dob field's spelling of a date, which the
      mask accepts as the field's content when the year has four digits. */
  function FormatDob(d: Date): (s: string)
    requires ValidDate(d)
    ensures d.year <= 9999 ==> DobShape(s) && MaskState(s)
  {
    Pad2(d.day) + "/" + Pad2(d.month) + "/" + YearDigits(d.year)
  }

  /** `format(d, 'yyyy-MM-dd')`, the form sent to the server: the same year,
      month and day, written in the other order. */
  function FormatIso(d: Date): (s: string)
    requires ValidDate(d) && d.year <= 9999
    ensures |s| == 10 && s[4] == '-' && s[7] == '-'
    ensures forall i :: 0 <= i < 10 && i != 4 && i != 7 ==> IsDigit(s[i])
    ensures Value4(s[0..4]) == d.year && Value2(s[5..7]) == d.month && Value2(s[8..10]) == d.day
  {
    var y, m, dd := Pad4(d.year), Pad2(d.month), Pad2(d.day);
    var s := y + "-" + m + "-" + dd;
    assert s[0..4] == y && s[5..7] == m && s[8..10] == dd;
    s
  }

  /** Rendering a valid date and checking it again gives the same date back. */
  lemma ParseFormat(d: Date)
    requires ValidDate(d) && d.year <= 9999
    ensures ParseDob(FormatDob(d)) == Some(d)
  {
    var s := FormatDob(d);
    assert s[0..2] == Pad2(d.day);
    assert s[3..5] == Pad2(d.month);
    assert s[6..10] == Pad4(d.year);
  }

  /** A value that passes the check is the canonical rendering of the date it
      denotes: the check accepts one spelling per date. */
  lemma FormatParse(s: string)
    requires ParseDob(s).Some?
    ensures FormatDob(ParseDob(s).value) == s
  {
    var d := ParseDob(s).value;
    Pad2Value(s[0..2]);
    Pad2Value(s[3..5]);
    Pad4Value(s[6..10]);
    var t := FormatDob(d);
    assert t[0..2] == s[0..2] && t[3..5] == s[3..5] && t[6..10] == s[6..10];
    assert forall i :: 0 <= i < 10 ==> t[i] == s[i] by {
      forall i | 0 <= i < 10 ensures t[i] == s[i] {
        if i < 2 { assert t[i] == t[0..2][i]; }
        else if 3 <= i < 5 { assert t[i] == t[3..5][i - 3]; }
        else if 6 <= i { assert t[i] == t[6..10][i - 6]; }
      }
    }
  }

  /** The server's reading of a `yyyy-MM-dd` value into a DATE column. */
  function ParseIso(s: string): (r: Option<Date>)
    ensures r.Some? ==> ValidDate(r.value)
  {
    if && |s| == 10 && s[4] == '-' && s[7] == '-'
       && (forall i :: 0 <= i < 10 && i != 4 && i != 7 ==> IsDigit(s[i]))
    then
      var d := Date(Value4(s[0..4]), Value2(s[5..7]), Value2(s[8..10]));
      if ValidDate(d) then Some(d) else None
    else None
  }

  /** The `yyyy-MM-dd` value sent to the server denotes the date the user
      typed: same day, month and year. */
  lemma IsoRoundTrip(d: Date)
    requires ValidDate(d) && d.year <= 9999
    ensures ParseIso(FormatIso(d)) == Some(d)
  {
  }
}
