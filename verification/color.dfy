/** pkg/log/color.go: ANSI select-graphic-rendition (SGR) colouring of log
    fields. A coloured string is `ESC [ <codes> m`, the text, then
    `ESC [ <reset> m`, with every code written in decimal as `%d` does. */
module Color {
  /** The escape character `\033`. */
  const Esc: char := 27 as char

  /** Foreground colours, `iota + 30`: black .. white. */
  const Black := 30
  const Red := Black + 1
  const Green := Black + 2
  const Yellow := Black + 3
  const Blue := Black + 4
  const Magenta := Black + 5
  const Cyan := Black + 6
  const White := Black + 7

  /** Bright foreground colours, `iota + 90`. */
  const BrightBlack := 90
  const BrightRed := BrightBlack + 1
  const BrightGreen := BrightBlack + 2
  const BrightYellow := BrightBlack + 3
  const BrightBlue := BrightBlack + 4
  const BrightMagenta := BrightBlack + 5
  const BrightCyan := BrightBlack + 6
  const BrightWhite := BrightBlack + 7

  /** Reset and intensity codes. */
  const Reset := 0
  const IncreasedIntensity := 1
  const DecreasedIntensity := 2
  const NormalIntensity := 22

  predicate IsDigit(ch: char) {
    '0' <= ch <= '9'
  }

  /** The decimal digits of a natural number, most significant first, with
      no leading zero. */
  function Digits(n: nat): (s: string)
    ensures |s| >= 1 && (|s| > 1 ==> s[0] != '0')
    ensures forall k :: 0 <= k < |s| ==> IsDigit(s[k])
    decreases n
  {
    if n < 10 then [('0' as int + n) as char]
    else Digits(n / 10) + [('0' as int + n % 10) as char]
  }

  /** The number a string of digits denotes. */
  function DigitsValue(s: string): nat
    requires forall k :: 0 <= k < |s| ==> IsDigit(s[k])
  {
    if s == [] then 0
    else assert IsDigit(s[|s| - 1]); 10 * DigitsValue(s[..|s| - 1]) + (s[|s| - 1] as int - '0' as int)
  }

  /** Reading back the digits gives the number: `%d` loses nothing. */
  lemma {:induction false} DigitsRoundTrip(n: nat)
    ensures DigitsValue(Digits(n)) == n
    decreases n
  {
    var s := Digits(n);
    if n >= 10 {
      DigitsRoundTrip(n / 10);
      assert s[..|s| - 1] == Digits(n / 10);
    }
  }

  /** `%d` of an integer. */
  function Decimal(n: int): string {
    if n < 0 then "-" + Digits(-n) else Digits(n)
  }

  /** Characters that may stand between `ESC [` and `m`. */
  predicate IsParam(ch: char) {
    IsDigit(ch) || ch == ';'
  }

  /** The SGR sequence with the given codes. */
  function Sgr(codes: string): string {
    [Esc, '['] + codes + "m"
  }

  /** `colorize`: the text unchanged when colouring is disabled, otherwise
      between the colour code and the reset code. The ensures is the format
      string itself; what it means for a terminal is `ColorizeVisible`. */
  function Colorize(text: string, c: int, r: int, disabled: bool): (s: string)
    ensures disabled ==> s == text
    ensures !disabled ==> s == Sgr(Decimal(c)) + text + Sgr(Decimal(r))
  {
    if disabled then text
    else Sgr(Decimal(c)) + text + Sgr(Decimal(r))
  }

  /** `colorAndIntensify`: as `Colorize`, with the colour and the intensity
      code in one sequence separated by `;`. The ensures is the format string;
      its meaning is `ColorAndIntensifyVisible`. */
  function ColorAndIntensify(text: string, c: int, t: int, r: int, disabled: bool): (s: string)
    ensures disabled ==> s == text
    ensures !disabled ==> s == Sgr(Decimal(c) + ";" + Decimal(t)) + text + Sgr(Decimal(r))
  {
    if disabled then text
    else Sgr(Decimal(c) + ";" + Decimal(t)) + text + Sgr(Decimal(r))
  }

  /** The index of the first character at or after `i` that is not a code
      character. */
  function ParamsEnd(s: string, i: nat): (k: nat)
    requires i <= |s|
    ensures i <= k <= |s|
    ensures forall j :: i <= j < k ==> IsParam(s[j])
    ensures k < |s| ==> !IsParam(s[k])
    decreases |s| - i
  {
    if i < |s| && IsParam(s[i]) then ParamsEnd(s, i + 1) else i
  }

  /** What a terminal shows: the string with every complete SGR sequence
      `ESC [ <codes> m` removed. */
  function Visible(s: string): string
    decreases |s|
  {
    if |s| >= 2 && s[0] == Esc && s[1] == '[' && ParamsEnd(s, 2) < |s| && s[ParamsEnd(s, 2)] == 'm' then
      Visible(s[ParamsEnd(s, 2) + 1..])
    else if s == [] then []
    else [s[0]] + Visible(s[1..])
  }

  lemma {:induction false} ParamsEndAt(s: string, i: nat, k: nat)
    requires i <= k < |s|
    requires forall j :: i <= j < k ==> IsParam(s[j])
    requires !IsParam(s[k])
    ensures ParamsEnd(s, i) == k
    decreases k - i
  {
    if i < k {
      ParamsEndAt(s, i + 1, k);
    }
  }

  /** An SGR sequence is invisible. */
  lemma SgrInvisible(params: string, rest: string)
    requires forall j :: 0 <= j < |params| ==> IsParam(params[j])
    ensures Visible(Sgr(params) + rest) == Visible(rest)
  {
    var s := Sgr(params) + rest;
    forall j | 2 <= j < 2 + |params| ensures IsParam(s[j]) {
      assert s[j] == params[j - 2];
    }
    assert s[2 + |params|] == 'm';
    ParamsEndAt(s, 2, 2 + |params|);
    assert s[|params| + 2 + 1..] == rest;
  }

  /** Text without escape characters is shown as it is. */
  lemma {:induction false} PlainVisible(text: string, rest: string)
    requires Esc !in text
    ensures Visible(text + rest) == text + Visible(rest)
  {
    if text != [] {
      assert (text + rest)[1..] == text[1..] + rest;
      PlainVisible(text[1..], rest);
    } else {
      assert text + rest == rest;
    }
  }

  lemma DecimalParams(n: nat)
    ensures forall j :: 0 <= j < |Decimal(n)| ==> IsParam(Decimal(n)[j])
  {
    assert Decimal(n) == Digits(n);
  }

  /** Text between two SGR sequences is all that is shown. */
  lemma Framed(codes: string, text: string, reset: string)
    requires forall j :: 0 <= j < |codes| ==> IsParam(codes[j])
    requires forall j :: 0 <= j < |reset| ==> IsParam(reset[j])
    requires Esc !in text
    ensures Visible(Sgr(codes) + text + Sgr(reset)) == text
  {
    var tail := Sgr(reset);
    var body := text + tail;
    assert Visible(tail) == [] by {
      SgrInvisible(reset, []);
      assert tail + [] == tail;
    }
    assert Visible(body) == text by {
      PlainVisible(text, tail);
    }
    SgrInvisible(codes, body);
    assert Sgr(codes) + text + tail == Sgr(codes) + body;
  }

  /** Colouring never changes what is shown: for text without escapes and
      non-negative codes, a terminal shows exactly the text. */
  lemma ColorizeVisible(text: string, c: nat, r: nat, disabled: bool)
    requires Esc !in text
    ensures Visible(Colorize(text, c, r, disabled)) == text
  {
    if disabled {
      PlainVisible(text, []);
      assert text + [] == text;
    } else {
      DecimalParams(c);
      DecimalParams(r);
      Framed(Decimal(c), text, Decimal(r));
    }
  }

  /** The same for the two-code form. */
  lemma ColorAndIntensifyVisible(text: string, c: nat, t: nat, r: nat, disabled: bool)
    requires Esc !in text
    ensures Visible(ColorAndIntensify(text, c, t, r, disabled)) == text
  {
    if disabled {
      PlainVisible(text, []);
      assert text + [] == text;
    } else {
      var codes := Decimal(c) + ";" + Decimal(t);
      DecimalParams(c);
      DecimalParams(t);
      forall j | 0 <= j < |codes| ensures IsParam(codes[j]) {
        if j < |Decimal(c)| {
          assert codes[j] == Decimal(c)[j];
        } else if j > |Decimal(c)| {
          assert codes[j] == Decimal(t)[j - |Decimal(c)| - 1];
        }
      }
      DecimalParams(r);
      Framed(codes, text, Decimal(r));
    }
  }

  /** The decimal forms of the codes the field formatters use. */
  lemma CodeDigits()
    ensures Decimal(Reset) == "0" && Decimal(DecreasedIntensity) == "2"
    ensures Decimal(NormalIntensity) == "22" && Decimal(BrightRed) == "91"
  {
    assert Digits(2) == "2";
    assert Digits(9) == "9";
    assert Digits(22) == Digits(2) + "2";
    assert Digits(91) == Digits(9) + "1";
  }

  /** The `NoColor` field the formatters of `NewColorWriter` capture. Nothing
      sets it before they are built, and the writer handed back is a copy, so
      the captured value is always Go's zero value. */
  const NoColor := false

  /** `FormatFieldName` of `NewColorWriter`: `name=` dimmed, then back to
      normal intensity. */
  function FormatFieldName(name: string): (s: string)
    ensures s == [Esc] + "[2m" + name + "=" + [Esc] + "[22m"
  {
    CodeDigits();
    Colorize(name + "=", DecreasedIntensity, NormalIntensity, NoColor)
  }

  /** `FormatErrFieldName`: `name=` in bright red and dimmed, then reset. */
  function FormatErrFieldName(name: string): (s: string)
    ensures s == [Esc] + "[91;2m" + name + "=" + [Esc] + "[0m"
  {
    CodeDigits();
    ColorAndIntensify(name + "=", BrightRed, DecreasedIntensity, Reset, NoColor)
  }

  /** `FormatErrFieldValue`: the value in bright red, then reset. */
  function FormatErrFieldValue(value: string): (s: string)
    ensures s == [Esc] + "[91m" + value + [Esc] + "[0m"
  {
    CodeDigits();
    Colorize(value, BrightRed, Reset, NoColor)
  }

  /** The field formatters only add colour: a terminal shows the field name
      with its `=`, and the value, unchanged. */
  lemma FormattersVisible(name: string, value: string)
    requires Esc !in name && Esc !in value
    ensures Visible(FormatFieldName(name)) == name + "="
    ensures Visible(FormatErrFieldName(name)) == name + "="
    ensures Visible(FormatErrFieldValue(value)) == value
  {
    ColorizeVisible(name + "=", DecreasedIntensity, NormalIntensity, NoColor);
    ColorAndIntensifyVisible(name + "=", BrightRed, DecreasedIntensity, Reset, NoColor);
    ColorizeVisible(value, BrightRed, Reset, NoColor);
  }
}
