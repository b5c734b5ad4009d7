/**
 The elapsed/total time label: whole seconds shown as minutes, a colon, and
 the remaining seconds padded to two digits ("2:05", "60:00"). Minutes have no
 leading zero. Seconds are whole and below 2^53, where a JavaScript number is
 an exact integer and `String` prints plain decimal digits.

 The string functions here only compute; what they compute is stated by the
 lemmas next to them.
 */
module TimeFormat {
  import opened Wrappers

  predicate IsDigit(c: char) {
    '0' <= c <= '9'
  }

  /** Every character is a decimal digit (checked from the last one back). */
  predicate AllDigits(s: string) {
    |s| == 0 || (IsDigit(s[|s| - 1]) && AllDigits(s[..|s| - 1]))
  }

  /** Decimal digits with no superfluous leading zero, as a number prints. */
  predicate Canonical(s: string) {
    |s| >= 1 && AllDigits(s) && (|s| > 1 ==> s[0] != '0')
  }

  function DigitValue(c: char): nat
    requires IsDigit(c)
  {
    c as int - '0' as int
  }

  function DigitChar(d: nat): (c: char)
    requires d < 10
    ensures IsDigit(c) && DigitValue(c) == d
  {
    ('0' as int + d) as char
  }

  /** The number a digit string denotes, most significant digit first. */
  function ValueOf(s: string): nat
    requires AllDigits(s)
  {
    if |s| == 0 then 0 else ValueOf(s[..|s| - 1]) * 10 + DigitValue(s[|s| - 1])
  }

  /** The decimal digits of `n`, which is what `String(n)` prints for a whole number below 2^53. */
  function Decimal(n: nat): string
    decreases n
  {
    if n < 10 then [DigitChar(n)] else Decimal(n / 10) + [DigitChar(n % 10)]
  }

  /** A printed number is canonical, denotes the number, and is one digit exactly below 10. */
  lemma {:induction false} DecimalSpec(n: nat)
    ensures Canonical(Decimal(n)) && ValueOf(Decimal(n)) == n
    ensures n < 10 <==> |Decimal(n)| == 1
    decreases n
  {
    if n >= 10 {
      DecimalSpec(n / 10);
      var s := Decimal(n);
      assert s[..|s| - 1] == Decimal(n / 10);
      if |Decimal(n / 10)| == 1 {
        assert s[0] == DigitChar(n / 10);
      } else {
        assert s[0] == Decimal(n / 10)[0];
      }
    }
  }

  lemma {:induction false} LeadingDigitPositive(s: string)
    requires Canonical(s) && s[0] != '0'
    ensures ValueOf(s) >= 1
    decreases |s|
  {
    if |s| > 1 {
      LeadingDigitPositive(s[..|s| - 1]);
    }
  }

  /** Printing is onto the canonical strings: each is the print of its own value. */
  lemma {:induction false} DecimalOfValue(s: string)
    requires Canonical(s)
    ensures Decimal(ValueOf(s)) == s
    decreases |s|
  {
    if |s| > 1 {
      var t := s[..|s| - 1];
      LeadingDigitPositive(t);
      DecimalOfValue(t);
      assert s == t + [s[|s| - 1]];
    }
  }

  /** One-digit numbers print as their digit. */
  lemma {:induction false} DecimalOneDigit(n: nat)
    requires n < 10
    ensures Decimal(n) == [DigitChar(n)]
  {
  }

  /** Two-digit numbers print as their tens digit then their units digit. */
  lemma {:induction false} DecimalTwoDigits(n: nat)
    requires 10 <= n < 100
    ensures Decimal(n) == [DigitChar(n / 10), DigitChar(n % 10)]
  {
    DecimalOneDigit(n / 10);
  }

  /** `s.padStart(width, fill)`: prefixes `fill` until the string is `width` long. */
  function PadStart(s: string, width: nat, fill: char): string {
    if |s| >= width then s else seq(width - |s|, _ => fill) + s
  }

  /** Padding yields the longer of `s` and `width`, keeps `s` at the end, and fills in front. */
  lemma {:induction false} PadStartSpec(s: string, width: nat, fill: char)
    ensures var r := PadStart(s, width, fill);
      && |r| == (if |s| >= width then |s| else width)
      && r[|r| - |s|..] == s
      && forall i :: 0 <= i < |r| - |s| ==> r[i] == fill
  {
  }

  /** The seconds field: two digits whose value is `v`. */
  lemma {:induction false} TwoDigitField(v: nat)
    requires v < 60
    ensures var p := PadStart(Decimal(v), 2, '0');
      |p| == 2 && AllDigits(p) && ValueOf(p) == v
  {
    if v < 10 {
      DecimalOneDigit(v);
      var p := PadStart(Decimal(v), 2, '0');
      assert p == ['0', DigitChar(v)];
      assert p[..1] == ['0'];
      assert AllDigits(p[..1]) && ValueOf(p[..1]) == 0;
    } else {
      DecimalTwoDigits(v);
      var p := PadStart(Decimal(v), 2, '0');
      assert p[..1] == [DigitChar(v / 10)];
      assert ValueOf(p[..1]) == v / 10;
      DivMod10(v);
    }
  }

  lemma {:induction false} DivMod10(v: nat)
    ensures v / 10 * 10 + v % 10 == v
  {
  }

  /** The shape of a label: canonical minutes, a colon, two digits of seconds below 60. */
  predicate IsTimeLabel(t: string) {
    && |t| >= 4
    && t[|t| - 3] == ':'
    && Canonical(t[..|t| - 3])
    && AllDigits(t[|t| - 2..])
    && ValueOf(t[|t| - 2..]) < 60
  }

  /** Reads a label back as a number of seconds; anything else is rejected. */
  function ParseTime(t: string): Option<nat> {
    if IsTimeLabel(t) then Some(ValueOf(t[..|t| - 3]) * 60 + ValueOf(t[|t| - 2..])) else None
  }

  /**
   Formats whole seconds: minutes are `seconds / 60` in decimal, then a colon,
   then `seconds % 60` padded to two digits.
   */
  function FormatTime(seconds: nat): string {
    Decimal(seconds / 60) + ":" + PadStart(Decimal(seconds % 60), 2, '0')
  }

  /** Joining a minutes field and a two-character seconds field with a colon can be undone by slicing. */
  lemma {:induction false} JoinFields(mins: string, secs: string)
    requires |secs| == 2
    ensures var t := mins + ":" + secs;
      |t| == |mins| + 3 && t[|t| - 3] == ':' && t[..|t| - 3] == mins && t[|t| - 2..] == secs
  {
    var t := mins + ":" + secs;
    assert t[..|t| - 3] == mins;
    assert t[|t| - 2..] == secs;
  }

  /**
   Every formatted time is a label whose minutes denote `seconds / 60` and whose
   two-digit field denotes `seconds % 60`.
   */
  lemma {:induction false} FormatTimeIsLabel(seconds: nat)
    ensures var t := FormatTime(seconds);
      && IsTimeLabel(t)
      && ValueOf(t[..|t| - 3]) == seconds / 60
      && ValueOf(t[|t| - 2..]) == seconds % 60
  {
    DecimalSpec(seconds / 60);
    TwoDigitField(seconds % 60);
    JoinFields(Decimal(seconds / 60), PadStart(Decimal(seconds % 60), 2, '0'));
  }

  lemma {:induction false} DivMod(seconds: nat)
    ensures seconds / 60 * 60 + seconds % 60 == seconds
  {
  }

  /** Reading a label back gives the seconds it was made from. */
  lemma {:induction false} ParseFormat(seconds: nat)
    ensures ParseTime(FormatTime(seconds)) == Some(seconds)
  {
    FormatTimeIsLabel(seconds);
    DivMod(seconds);
  }

  /** Whole seconds split into minutes and a remainder below a minute. */
  lemma {:induction false} SplitSeconds(m: nat, s: nat)
    requires s < 60
    ensures (m * 60 + s) / 60 == m && (m * 60 + s) % 60 == s
  {
  }

  /** The label of `m` minutes and `s < 60` seconds is built from those two fields. */
  lemma {:induction false} FormatOfParts(m: nat, s: nat)
    requires s < 60
    ensures FormatTime(m * 60 + s) == Decimal(m) + ":" + PadStart(Decimal(s), 2, '0')
  {
    SplitSeconds(m, s);
  }

  /** Two two-digit strings with the same value are the same string. */
  lemma {:induction false} TwoDigitsDetermined(a: string, b: string)
    requires |a| == 2 && |b| == 2 && AllDigits(a) && AllDigits(b) && ValueOf(a) == ValueOf(b)
    ensures a == b
  {
    assert a[..1] == [a[0]] && b[..1] == [b[0]];
    assert a == [a[0], a[1]] && b == [b[0], b[1]];
  }

  /** Every two-digit seconds field below 60 is the padded print of its value. */
  lemma {:induction false} SecondsFieldOfValue(f: string)
    requires |f| == 2 && AllDigits(f) && ValueOf(f) < 60
    ensures PadStart(Decimal(ValueOf(f)), 2, '0') == f
  {
    TwoDigitField(ValueOf(f));
    TwoDigitsDetermined(PadStart(Decimal(ValueOf(f)), 2, '0'), f);
  }

  /** Canonical minutes and a two-digit seconds field below 60 are the label of the seconds they denote. */
  lemma {:induction false} FormatOfFields(mins: string, secs: string)
    requires Canonical(mins) && |secs| == 2 && AllDigits(secs) && ValueOf(secs) < 60
    ensures FormatTime(ValueOf(mins) * 60 + ValueOf(secs)) == mins + ":" + secs
  {
    FormatOfParts(ValueOf(mins), ValueOf(secs));
    DecimalOfValue(mins);
    SecondsFieldOfValue(secs);
  }

  lemma {:induction false} ParseLabel(t: string)
    requires IsTimeLabel(t)
    ensures ParseTime(t) == Some(ValueOf(t[..|t| - 3]) * 60 + ValueOf(t[|t| - 2..]))
  {
  }

  /** A label is its minutes field, a colon, and its seconds field. */
  lemma {:induction false} LabelSplits(t: string)
    requires |t| >= 3 && t[|t| - 3] == ':'
    ensures t == t[..|t| - 3] + ":" + t[|t| - 2..]
  {
    assert t[|t| - 3..] == [t[|t| - 3]] + t[|t| - 2..];
    assert t == t[..|t| - 3] + t[|t| - 3..];
  }

  /** Every well-shaped label is read back, and is the format of the seconds it denotes. */
  lemma {:induction false} FormatParse(t: string)
    requires IsTimeLabel(t)
    ensures ParseTime(t).Some? && FormatTime(ParseTime(t).value) == t
  {
    var mins, secs := t[..|t| - 3], t[|t| - 2..];
    ParseLabel(t);
    LabelSplits(t);
    FormatOfFields(mins, secs);
  }

  lemma {:induction false} FormatTimeExample125()
    ensures FormatTime(125) == "2:05"
  {
    FormatOfParts(2, 5);
    DecimalOneDigit(2);
    DecimalOneDigit(5);
    assert [DigitChar(2)] + ":" + PadStart([DigitChar(5)], 2, '0') == "2:05";
  }

  lemma {:induction false} FormatTimeExample59()
    ensures FormatTime(59) == "0:59"
  {
    FormatOfParts(0, 59);
    DecimalOneDigit(0);
    DecimalTwoDigits(59);
    assert [DigitChar(0)] + ":" + PadStart([DigitChar(5), DigitChar(9)], 2, '0') == "0:59";
  }

  lemma {:induction false} FormatTimeExample3600()
    ensures FormatTime(3600) == "60:00"
  {
    FormatOfParts(60, 0);
    DecimalTwoDigits(60);
    DecimalOneDigit(0);
    assert [DigitChar(6), DigitChar(0)] + ":" + PadStart([DigitChar(0)], 2, '0') == "60:00";
  }
}
