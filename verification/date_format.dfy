/**
  Zero-padded text forms of a date: `YYYY-MM-DD`, the form stored in a calendar
  cell, and `DD.MM.YYYY`, the form shown to the user; plus a parser for the
  first, so that the two directions can be checked against each other.
 */
module DateFormat {
  import opened Gregorian

  datatype Option<T> = None | Some(value: T)

  predicate IsDigit(c: char) {
    '0' <= c <= '9'
  }

  predicate AllDigits(s: string) {
    forall i :: 0 <= i < |s| ==> IsDigit(s[i])
  }

  function DigitChar(v: int): (c: char)
    requires 0 <= v <= 9
    ensures IsDigit(c)
  {
    ('0' as int + v) as char
  }

  function DigitValue(c: char): (v: int)
    requires IsDigit(c)
    ensures 0 <= v <= 9 && DigitChar(v) == c
  {
    c as int - '0' as int
  }

  function Pow10(k: nat): (p: nat)
    ensures p >= 1
  {
    if k == 0 then 1 else 10 * Pow10(k - 1)
  }

  /** The last `width` decimal digits of `n`, with leading zeros. */
  function PadDigits(n: nat, width: nat): (s: string)
    ensures |s| == width
    ensures AllDigits(s)
  {
    if width == 0 then "" else PadDigits(n / 10, width - 1) + [DigitChar(n % 10)]
  }

  /** The number a string of decimal digits denotes. */
  function DigitsValue(s: string): (n: nat)
    requires AllDigits(s)
    ensures n < Pow10(|s|)
  {
    if |s| == 0 then 0 else DigitsValue(s[..|s| - 1]) * 10 + DigitValue(s[|s| - 1])
  }

  /** Reading back a padded number gives the number, when it fits in the width. */
  lemma {:induction false} DigitsValuePadDigits(n: nat, width: nat)
    requires n < Pow10(width)
    ensures DigitsValue(PadDigits(n, width)) == n
    decreases width
  {
    if width > 0 {
      var s := PadDigits(n, width);
      DigitsValuePadDigits(n / 10, width - 1);
      assert s[..|s| - 1] == PadDigits(n / 10, width - 1);
    }
  }

  /** Padding the value of a digit string to its own length gives the string back. */
  lemma {:induction false} PadDigitsDigitsValue(s: string)
    requires AllDigits(s)
    ensures PadDigits(DigitsValue(s), |s|) == s
    decreases |s|
  {
    if |s| > 0 {
      var init := s[..|s| - 1];
      PadDigitsDigitsValue(init);
      var n := DigitsValue(s);
      assert n / 10 == DigitsValue(init) && n % 10 == DigitValue(s[|s| - 1]);
      assert s == init + [s[|s| - 1]];
    }
  }

  /** A date whose year has at most four digits and whose month and day at most two. */
  predicate Renderable(d: Date) {
    0 <= d.year <= 9999 && 0 <= d.month <= 99 && 0 <= d.day <= 99
  }

  /** `YYYY-MM-DD`, zero-padded. */
  function FormatIso(d: Date): (s: string)
    requires Renderable(d)
    ensures |s| == 10 && s[4] == '-' && s[7] == '-'
    ensures AllDigits(s[..4]) && AllDigits(s[5..7]) && AllDigits(s[8..])
  {
    var s := PadDigits(d.year, 4) + "-" + PadDigits(d.month, 2) + "-" + PadDigits(d.day, 2);
    assert s[..4] == PadDigits(d.year, 4);
    assert s[5..7] == PadDigits(d.month, 2);
    assert s[8..] == PadDigits(d.day, 2);
    s
  }

  /** `DD.MM.YYYY`, zero-padded: the fields of the ISO form in reverse order. */
  function FormatDisplay(d: Date): (s: string)
    requires Renderable(d)
    ensures s == FormatIso(d)[8..] + "." + FormatIso(d)[5..7] + "." + FormatIso(d)[..4]
  {
    var iso := FormatIso(d);
    assert iso[..4] == PadDigits(d.year, 4);
    assert iso[5..7] == PadDigits(d.month, 2);
    assert iso[8..] == PadDigits(d.day, 2);
    PadDigits(d.day, 2) + "." + PadDigits(d.month, 2) + "." + PadDigits(d.year, 4)
  }

  /** Reads a `YYYY-MM-DD` string; anything else, or a day that does not exist, gives `None`. */
  function ParseIso(s: string): (r: Option<Date>)
    ensures r.Some? ==> IsValid(r.value) && Renderable(r.value)
  {
    if |s| == 10 && s[4] == '-' && s[7] == '-'
       && AllDigits(s[..4]) && AllDigits(s[5..7]) && AllDigits(s[8..]) then
      var d := Date(DigitsValue(s[..4]), DigitsValue(s[5..7]), DigitsValue(s[8..]));
      if IsValid(d) then Some(d) else None
    else
      None
  }

  /** Every existing date with a four-digit year survives formatting and parsing. */
  lemma ParseFormatIso(d: Date)
    requires IsValid(d) && 0 <= d.year <= 9999
    ensures ParseIso(FormatIso(d)) == Some(d)
  {
    var s := FormatIso(d);
    assert s[..4] == PadDigits(d.year, 4);
    assert s[5..7] == PadDigits(d.month, 2);
    assert s[8..] == PadDigits(d.day, 2);
    DigitsValuePadDigits(d.year, 4);
    DigitsValuePadDigits(d.month, 2);
    DigitsValuePadDigits(d.day, 2);
  }

  /** Every string the parser accepts is the formatted form of the date it reads. */
  lemma FormatParseIso(s: string)
    requires ParseIso(s).Some?
    ensures FormatIso(ParseIso(s).value) == s
  {
    PadDigitsDigitsValue(s[..4]);
    PadDigitsDigitsValue(s[5..7]);
    PadDigitsDigitsValue(s[8..]);
    assert s == s[..4] + "-" + s[5..7] + "-" + s[8..];
  }

  /** 1 February 2024 is shown as "01.02.2024". */
  lemma DisplayExample()
    ensures FormatDisplay(Date(2024, 2, 1)) == "01.02.2024"
  {
  }
}
