/** What each directive of the logging printf prints. */
module LogDirectives {
  import opened LogPrintf
  import opened Numerals
  import opened Words

  function Unpadded(s: string): string {
    if s != "" && s[0] == ' ' then Unpadded(s[1..]) else s
  }

  function Unsigned(s: string): string {
    if s != "" && s[0] == '-' then s[1..] else s
  }

  predicate IsDigit(c: char, base: nat, upper: bool) {
    || ('0' <= c <= '9' && DigitValue(c) < base)
    || (base == 16 && if upper then 'A' <= c <= 'F' else 'a' <= c <= 'f')
  }

  /** The text is the value in this base, at least as wide as asked for and wider only when its own digits
      and sign are; what fills it up is spaces before the sign or zeros after it. */
  predicate Shows(text: string, value: int, base: nat, upper: bool, width: int, zeros: bool) {
    var body := Unpadded(text);
    var digits := Unsigned(body);
    && ReadInteger(text, base) == value && (value >= 0 ==> digits == body)
    && digits != "" && (forall i | 0 <= i < |digits| :: IsDigit(digits[i], base, upper))
    && |text| >= width
    && (zeros || |text| > width ==> body == text)
    && (!zeros || |text| > width ==> digits[0] != '0' || |digits| == 1)
  }

  lemma DigitCharIsDigit(d: nat, base: nat, upper: bool)
    requires IsBase(base) && d < base
    ensures d < 16 && IsDigit(DigitChar(d, upper), base, upper)
  {}

  lemma {:induction false} NumeralDigits(m: nat, base: nat, upper: bool)
    requires IsBase(base)
    ensures forall i | 0 <= i < |Numeral(m, base, upper)| :: IsDigit(Numeral(m, base, upper)[i], base, upper)
  {
    hide IsDigit, DigitChar;
    if m < base {
      DigitCharIsDigit(m, base, upper);
    } else {
      NumeralDigits(m / base, base, upper);
      DigitCharIsDigit(m % base, base, upper);
    }
  }

  lemma {:induction false} SpacesDropped(n: int, s: string)
    requires s == "" || s[0] != ' '
    ensures Unpadded(Repeat(' ', n) + s) == s
    decreases n
  {
    if n <= 0 {
      assert Repeat(' ', n) + s == s;
    } else {
      assert (Repeat(' ', n) + s)[1..] == Repeat(' ', n - 1) + s;
      SpacesDropped(n - 1, s);
    }
  }

  lemma FieldBody(sign: string, digits: string, n: int, zeros: bool)
    requires (sign == "-" || sign == "") && digits != "" && digits[0] != ' ' && digits[0] != '-'
    ensures var text := if zeros then sign + Repeat('0', n) + digits else Repeat(' ', n) + sign + digits;
            && Unpadded(text) == (if zeros then text else sign + digits)
            && Unsigned(Unpadded(text)) == if zeros then Repeat('0', n) + digits else digits
  {
    if zeros {
      assert sign + Repeat('0', n) + digits == sign + (Repeat('0', n) + digits);
    } else {
      assert Repeat(' ', n) + sign + digits == Repeat(' ', n) + (sign + digits);
      SpacesDropped(n, sign + digits);
    }
  }

  lemma ZerosAreDigits(n: int, digits: string, base: nat, upper: bool)
    requires IsBase(base) && forall i | 0 <= i < |digits| :: IsDigit(digits[i], base, upper)
    ensures forall i | 0 <= i < |Repeat('0', n) + digits| :: IsDigit((Repeat('0', n) + digits)[i], base, upper)
  {}

  lemma NothingFilled(sign: string, digits: string, n: int, zeros: bool)
    requires n <= 0
    ensures (if zeros then sign + Repeat('0', n) + digits else Repeat(' ', n) + sign + digits) == sign + digits
    ensures Repeat('0', n) + digits == digits
  {}

  /** Sign, digits and what fills them up to the width show the value that they are read as. */
  lemma FieldShows(sign: string, digits: string, value: int, base: nat, upper: bool, width: int, zeros: bool)
    requires IsBase(base) && (sign == "-" || sign == "") && (value >= 0 ==> sign == "")
    requires digits != "" && digits[0] != ' ' && digits[0] != '-' && (digits[0] == '0' ==> |digits| == 1)
    requires forall i | 0 <= i < |digits| :: IsDigit(digits[i], base, upper)
    ensures var n := width - |sign| - |digits|;
            var text := if zeros then sign + Repeat('0', n) + digits else Repeat(' ', n) + sign + digits;
            |text| >= width && ReadInteger(text, base) == value ==> Shows(text, value, base, upper, width, zeros)
  {
    hide ReadInteger, IsDigit, Unpadded, Unsigned, IsBase;
    var n := width - |sign| - |digits|;
    FieldBody(sign, digits, n, zeros);
    ZerosAreDigits(n, digits, base, upper);
    if n <= 0 {
      NothingFilled(sign, digits, n, zeros);
    }
  }

  /** The text of an integer is the one that shows its value. */
  lemma TextShows(v: u32, width: int, zeros: bool, style: Style)
    requires IsBase(style.base)
    ensures Shows(IntegerText(v, width, zeros, style), NumberOf(v, style.signed), style.base, style.upper, width, zeros)
  {
    hide Numeral, ReadInteger, IsDigit, Shows, IsBase, Repeat;
    var m, base, upper := Magnitude(v, style.signed), style.base, style.upper;
    var digits, sign := Numeral(m, base, upper), MinusSign(v, style.signed);
    IntegerReadsBack(v, width, zeros, style);
    NumeralReads(m, base, upper);
    NumeralDigits(m, base, upper);
    assert digits[0] in digits;
    FieldShows(sign, digits, NumberOf(v, style.signed), base, upper, width, zeros);
  }

  // ---- Directives ----

  /** An integer directive, with any width, zero flag, precision and l, prints the word in its next
      argument: signed for d and i, and unsigned in its base for the others. */
  lemma IntegerDirective(width: nat, zeros: bool, more: string, letter: char, rest: string, args: Args, k: nat)
    returns (text: string)
    requires NoWidthIn(more) && letter in "diuoxX"
    ensures Render("%" + (if zeros then "0" else "") + Field(width, more, letter) + rest, args, k) ==
            text + Render(rest, args, k + 1)
    ensures var v, w := args.word(k), if width == 0 then -1 else width;
            && (letter in "di" ==> Shows(text, if v < 0x8000_0000 then v else v - WORD, 10, false, w, zeros))
            && (letter == 'u' ==> Shows(text, v, 10, false, w, zeros))
            && (letter == 'o' ==> Shows(text, v, 8, false, w, zeros))
            && (letter == 'x' ==> Shows(text, v, 16, false, w, zeros))
            && (letter == 'X' ==> Shows(text, v, 16, true, w, zeros))
  {
    hide Render, Shows, Field, IntegerText;
    var w := if width == 0 then -1 else width;
    text := IntegerText(args.word(k), w, zeros, StyleOf(letter));
    WidthIsRead(width, zeros, more, letter, rest, args, k);
    TextShows(args.word(k), w, zeros, StyleOf(letter));
  }

  /** The text ends with s and has spaces before it, as many as the width asks for. */
  predicate FilledUp(text: string, s: string, width: int) {
    && |text| == (if width > |s| then width else |s|) && text[|text| - |s|..] == s
    && forall i | 0 <= i < |text| - |s| :: text[i] == ' '
  }

  lemma SpacesFill(s: string, width: int)
    ensures FilledUp(Repeat(' ', width - |s|) + s, s, width)
  {}

  /** c prints the low byte of its argument and s the string, filled up with spaces even with a zero
      flag; any other letter, a percent sign after flags included, prints nothing and takes no argument. */
  lemma OtherDirective(width: nat, zeros: bool, more: string, letter: char, rest: string, args: Args, k: nat)
    returns (text: string)
    requires NoWidthIn(more) && !IsFlag(letter) && letter !in "diuoxX"
    requires letter == '%' ==> zeros || width > 0 || more != ""
    ensures Render("%" + (if zeros then "0" else "") + Field(width, more, letter) + rest, args, k) ==
            text + Render(rest, args, if letter in "cs" then k + 1 else k)
    ensures var w := if width == 0 then -1 else width;
            && (letter == 'c' ==> FilledUp(text, [(args.word(k) % 256) as char], w))
            && (letter == 's' ==> FilledUp(text, args.text(k), w))
            && (letter !in "cs" ==> text == "")
  {
    hide Render, FilledUp, Field;
    var w := if width == 0 then -1 else width;
    text := Converted(letter, w, zeros, args, k);
    WidthIsRead(width, zeros, more, letter, rest, args, k);
    if letter == 'c' {
      SpacesFill([(args.word(k) % 256) as char], w);
    } else if letter == 's' {
      SpacesFill(args.text(k), w);
    }
  }

  /** A directive that the format ends in prints nothing. */
  lemma UnfinishedDirective(flags: string, args: Args, k: nat)
    requires forall i | 0 <= i < |flags| :: IsFlag(flags[i])
    ensures Render("%" + flags, args, k) == ""
  {
    assert ("%" + flags)[1..] == flags;
    if flags != "" {
      var zeros := flags[0] == '0';
      var more := if zeros then flags[1..] else flags;
      FlagsCollected(more, "", "", zeros, args, k);
      assert more + "" == more;
    }
  }
}
