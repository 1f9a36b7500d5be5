/** The logging printf of alt_log_printf.c. */
module LogPrintf {
  import opened Numerals
  import opened Words

  /** The characters of a C string. */
  type cstring = s: string | '\0' !in s

  /** What the slots of a variable argument list hold, read as a word and read as a string. */
  datatype Args = Args(word: nat -> u32, text: nat -> cstring)

  function Repeat(c: char, n: int): string {
    if n <= 0 then "" else seq(n, i => c)
  }

  // ---- What a format means ----

  predicate Negative(v: u32, signed: bool) {
    signed && v >= 0x8000_0000
  }

  /** The number that a word stands for. */
  function NumberOf(v: u32, signed: bool): int {
    if Negative(v, signed) then v - WORD else v
  }

  function Magnitude(v: u32, signed: bool): u32 {
    if Negative(v, signed) then WORD - v else v
  }

  function MinusSign(v: u32, signed: bool): string {
    if Negative(v, signed) then "-" else ""
  }

  datatype Style = Style(base: nat, signed: bool, upper: bool)

  function IntegerText(v: u32, width: int, zeros: bool, style: Style): string
    requires IsBase(style.base)
  {
    var sign := MinusSign(v, style.signed);
    var digits := Numeral(Magnitude(v, style.signed), style.base, style.upper);
    var n := width - |sign| - |digits|;
    if zeros then sign + Repeat('0', n) + digits else Repeat(' ', n) + sign + digits
  }

  predicate IsFlag(c: char) {
    '0' <= c <= '9' || c == '.' || c == 'l'
  }

  function BeforePoint(flags: string): string {
    if flags == "" || flags[0] == '.' then "" else [flags[0]] + BeforePoint(flags[1..])
  }

  function DigitsIn(s: string): string {
    if s == "" then "" else (if '0' <= s[0] <= '9' then [s[0]] else "") + DigitsIn(s[1..])
  }

  /** The field width: the number before the point, or -1 when there is none. */
  function Width(flags: string): int {
    var digits := DigitsIn(BeforePoint(flags));
    if digits == "" then -1 else ReadNumeral(digits, 10)
  }

  function StyleOf(letter: char): (s: Style)
    ensures IsBase(s.base)
  {
    Style(if letter == 'o' then 8 else if letter == 'x' || letter == 'X' then 16 else 10,
          letter == 'd' || letter == 'i',
          letter == 'X')
  }

  predicate IsInteger(letter: char) {
    letter in "diuoxX"
  }

  predicate TakesArgument(letter: char) {
    IsInteger(letter) || letter == 'c' || letter == 's'
  }

  function Converted(letter: char, width: int, zeros: bool, args: Args, k: nat): string {
    if IsInteger(letter) then IntegerText(args.word(k), width, zeros, StyleOf(letter))
    else if letter == 'c' then Repeat(' ', width - 1) + [(args.word(k) % 256) as char]
    else if letter == 's' then Repeat(' ', width - |args.text(k)|) + args.text(k)
    else ""
  }

  /** What is printed for the rest of a format, when the next argument is in slot k. */
  function Render(s: string, args: Args, k: nat): string
    decreases |s|, 2
  {
    if s == "" then ""
    else if s[0] == '%' then Directive(s[1..], args, k)
    else [s[0]] + Render(s[1..], args, k)
  }

  function Directive(s: string, args: Args, k: nat): string
    decreases |s|, 1
  {
    if s == "" then ""
    else if s[0] == '%' then "%" + Render(s[1..], args, k)
    else if s[0] == '0' then Conversion(s[1..], "", true, args, k)
    else Conversion(s, "", false, args, k)
  }

  function Conversion(s: string, flags: string, zeros: bool, args: Args, k: nat): string
    decreases |s|, 0
  {
    if s == "" then ""
    else if IsFlag(s[0]) then Conversion(s[1..], flags + [s[0]], zeros, args, k)
    else Converted(s[0], Width(flags), zeros, args, k) +
         Render(s[1..], args, if TakesArgument(s[0]) then k + 1 else k)
  }

  // ---- Integers read back ----

  function ReadInteger(s: string, base: nat): int {
    if s != "" && s[0] == ' ' then ReadInteger(s[1..], base)
    else if s != "" && s[0] == '-' then 0 - ReadNumeral(s[1..], base)
    else ReadNumeral(s, base)
  }

  lemma {:induction false} ReadSpaces(n: int, s: string, base: nat)
    ensures ReadInteger(Repeat(' ', n) + s, base) == ReadInteger(s, base)
    decreases n
  {
    if n <= 0 {
      assert Repeat(' ', n) + s == s;
    } else {
      assert (Repeat(' ', n) + s)[1..] == Repeat(' ', n - 1) + s;
      ReadSpaces(n - 1, s, base);
    }
  }

  lemma ReadZeros(n: int, s: string, base: nat)
    ensures ReadNumeral(Repeat('0', n) + s, base) == ReadNumeral(s, base)
  {
    if n <= 0 {
      assert Repeat('0', n) + s == s;
    } else {
      LeadingZeros(n, s, base);
      assert Repeat('0', n) + s == seq(n, i => '0') + s;
    }
  }

  /** Whatever the width, the padding and the base, the text of an integer reads back as its value,
      takes exactly the width unless its digits and sign need more, and has no zeros in front but
      those that pad it. */
  lemma IntegerReadsBack(v: u32, width: int, zeros: bool, style: Style)
    requires IsBase(style.base)
    ensures var text := IntegerText(v, width, zeros, style);
            var digits := Numeral(Magnitude(v, style.signed), style.base, style.upper);
            var least := |digits| + (if Negative(v, style.signed) then 1 else 0);
            && ReadInteger(text, style.base) == NumberOf(v, style.signed)
            && |text| == (if width > least then width else least)
            && (digits[0] == '0' <==> v == 0) && (v == 0 ==> |digits| == 1)
  {
    hide Numeral, ReadNumeral, ReadInteger;
    var m, base := Magnitude(v, style.signed), style.base;
    var digits, sign := Numeral(m, base, style.upper), MinusSign(v, style.signed);
    NumeralReads(m, base, style.upper);
    assert digits[0] in digits;
    PaddedReads(sign, digits, width - |sign| - |digits|, zeros, base);
  }

  lemma PaddedReads(sign: string, digits: string, n: int, zeros: bool, base: nat)
    requires (sign == "-" || sign == "") && digits != "" && digits[0] != ' ' && digits[0] != '-'
    ensures ReadInteger(if zeros then sign + Repeat('0', n) + digits else Repeat(' ', n) + sign + digits, base) ==
            if sign == "" then ReadNumeral(digits, base) else 0 - ReadNumeral(digits, base)
  {
    hide ReadInteger, ReadNumeral;
    if zeros {
      ReadZeros(n, digits, base);
      assert sign + Repeat('0', n) + digits == sign + (Repeat('0', n) + digits);
      SignedReads(sign, Repeat('0', n) + digits, base);
    } else {
      SignedReads(sign, digits, base);
      ReadSpaces(n, sign + digits, base);
      assert Repeat(' ', n) + sign + digits == Repeat(' ', n) + (sign + digits);
    }
  }

  lemma SignedReads(sign: string, digits: string, base: nat)
    requires (sign == "-" || sign == "") && digits != "" && digits[0] != ' ' && digits[0] != '-'
    ensures ReadInteger(sign + digits, base) ==
            if sign == "" then ReadNumeral(digits, base) else 0 - ReadNumeral(digits, base)
  {
    if sign == "" {
      assert sign + digits == digits;
    } else {
      assert (sign + digits)[1..] == digits;
    }
  }

  // ---- Formats ----

  function Escaped(text: string): string {
    if text == "" then "" else (if text[0] == '%' then "%%" else [text[0]]) + Escaped(text[1..])
  }

  /** Text whose percent signs are doubled is printed as it is, and what follows it is not affected. */
  lemma {:induction false} EscapedIsLiteral(text: string, rest: string, args: Args, k: nat)
    ensures Render(Escaped(text) + rest, args, k) == text + Render(rest, args, k)
  {
    hide Render;
    if text == "" {
      assert Escaped(text) + rest == rest;
    } else {
      var first := if text[0] == '%' then "%%" else [text[0]];
      EscapedIsLiteral(text[1..], rest, args, k);
      LiteralCharacter(text[0], Escaped(text[1..]) + rest, args, k);
      assert Escaped(text) + rest == first + (Escaped(text[1..]) + rest);
      assert text + Render(rest, args, k) == [text[0]] + (text[1..] + Render(rest, args, k));
    }
  }

  lemma LiteralCharacter(c: char, rest: string, args: Args, k: nat)
    ensures Render((if c == '%' then "%%" else [c]) + rest, args, k) == [c] + Render(rest, args, k)
  {
    var s := (if c == '%' then "%%" else [c]) + rest;
    if c == '%' {
      assert s[1..] == "%" + rest && s[1..][1..] == rest;
    } else {
      assert s[1..] == rest;
    }
  }

  /** Flag characters that carry no width: digits come after a point only. */
  predicate NoWidthIn(more: string) {
    && (forall i | 0 <= i < |more| :: IsFlag(more[i]))
    && (forall i | 0 <= i < |more| && '0' <= more[i] <= '9' :: exists j | 0 <= j < i :: more[j] == '.')
  }

  /** A directive after its percent sign and zero flag: the width, zero standing for none, flag characters
      without a width, and the letter. */
  function Field(width: nat, more: string, letter: char): string {
    (if width == 0 then "" else Numeral(width, 10, false)) + more + [letter]
  }

  /** A width written in decimal, with or without a zero before it, is the width of the field; a point, a
      precision and l do not change it. */
  lemma WidthIsRead(width: nat, zeros: bool, more: string, letter: char, rest: string, args: Args, k: nat)
    requires NoWidthIn(more) && !IsFlag(letter) && (letter == '%' ==> zeros || width > 0 || more != "")
    ensures Render("%" + (if zeros then "0" else "") + Field(width, more, letter) + rest, args, k) ==
            Converted(letter, if width == 0 then -1 else width, zeros, args, k) +
            Render(rest, args, if TakesArgument(letter) then k + 1 else k)
  {
    hide Width, Converted, Numeral, IsFlag, Render, Directive, Conversion;
    var flags, tail := (if width == 0 then "" else Numeral(width, 10, false)) + more, [letter] + rest;
    FlagsOfWidth(width, more);
    Regroup("%", if zeros then "0" else "", flags, [letter], rest);
    if !zeros {
      FirstOfField(flags, letter, rest);
    }
    DirectiveStarts(zeros, flags + tail, args, k);
    FlagsCollected(flags, "", tail, zeros, args, k);
    LetterConverts(flags, letter, rest, zeros, args, k);
    assert "" + flags == flags;
  }

  lemma Regroup(a: string, b: string, c: string, d: string, e: string)
    ensures a + b + (c + d) + e == a + (b + (c + (d + e)))
  {}

  lemma FirstOfField(flags: string, letter: char, rest: string)
    requires (forall i | 0 <= i < |flags| :: IsFlag(flags[i])) && (flags != "" ==> flags[0] != '0')
    requires !IsFlag(letter) && (letter == '%' ==> flags != "")
    ensures (flags + ([letter] + rest))[0] != '0' && (flags + ([letter] + rest))[0] != '%'
  {}

  lemma LetterConverts(flags: string, letter: char, rest: string, zeros: bool, args: Args, k: nat)
    requires !IsFlag(letter)
    ensures Conversion([letter] + rest, flags, zeros, args, k) ==
            Converted(letter, Width(flags), zeros, args, k) +
            Render(rest, args, if TakesArgument(letter) then k + 1 else k)
  {
    hide Width, Converted, Render;
    assert ([letter] + rest)[1..] == rest;
  }

  lemma FlagsOfWidth(width: nat, more: string)
    requires NoWidthIn(more)
    ensures var flags := (if width == 0 then "" else Numeral(width, 10, false)) + more;
            && Width(flags) == (if width == 0 then -1 else width)
            && (forall i | 0 <= i < |flags| :: IsFlag(flags[i])) && (flags != "" ==> flags[0] != '0')
  {
    var digits := if width == 0 then "" else Numeral(width, 10, false);
    if width > 0 {
      NumeralReads(width, 10, false);
      DecimalDigits(width);
    }
    assert more != "" ==> !('0' <= more[0] <= '9');
    NoDigitsBeforePoint(more);
    WidthOfDigits(digits, more);
  }

  lemma {:induction false} NoDigitsBeforePoint(more: string)
    requires forall i | 0 <= i < |more| && '0' <= more[i] <= '9' :: exists j | 0 <= j < i :: more[j] == '.'
    ensures DigitsIn(BeforePoint(more)) == ""
  {
    if more != "" && more[0] != '.' {
      assert !('0' <= more[0] <= '9');
      forall i | 0 <= i < |more[1..]| && '0' <= more[1..][i] <= '9'
        ensures exists j | 0 <= j < i :: more[1..][j] == '.'
      {
        var j :| 0 <= j < i + 1 && more[j] == '.';
        assert more[1..][j - 1] == '.';
      }
      NoDigitsBeforePoint(more[1..]);
    }
  }

  lemma DirectiveStarts(zeros: bool, s: string, args: Args, k: nat)
    requires zeros || (s != "" && s[0] != '0' && s[0] != '%')
    ensures Render("%" + ((if zeros then "0" else "") + s), args, k) == Conversion(s, "", zeros, args, k)
  {
    var d := (if zeros then "0" else "") + s;
    assert ("%" + d)[1..] == d;
    if zeros {
      assert d[1..] == s;
    } else {
      assert d == s;
    }
  }

  lemma {:induction false} DecimalDigits(m: nat)
    ensures forall i | 0 <= i < |Numeral(m, 10, false)| :: '0' <= Numeral(m, 10, false)[i] <= '9'
  {
    if m >= 10 {
      DecimalDigits(m / 10);
    }
  }

  lemma {:induction false} WidthOfDigits(s: string, more: string)
    requires forall i | 0 <= i < |s| :: '0' <= s[i] <= '9'
    requires DigitsIn(BeforePoint(more)) == ""
    ensures DigitsIn(BeforePoint(s + more)) == s
  {
    if s == "" {
      assert s + more == more;
    } else {
      assert (s + more)[1..] == s[1..] + more;
      WidthOfDigits(s[1..], more);
      assert BeforePoint(s + more)[1..] == BeforePoint(s[1..] + more);
    }
  }

  lemma {:induction false} FlagsCollected(more: string, flags: string, tail: string, zeros: bool, args: Args, k: nat)
    requires forall i | 0 <= i < |more| :: IsFlag(more[i])
    ensures Conversion(more + tail, flags, zeros, args, k) == Conversion(tail, flags + more, zeros, args, k)
    decreases |more|
  {
    if more == "" {
      assert more + tail == tail && flags + more == flags;
    } else {
      assert (more + tail)[1..] == more[1..] + tail;
      FlagsCollected(more[1..], flags + [more[0]], tail, zeros, args, k);
      assert flags + more == flags + [more[0]] + more[1..];
    }
  }
}
