/** The code of the logging printf, which sends characters to a device one at a time. */
module LogPrinter {
  import opened LogPrintf
  import opened Numerals
  import opened Words

  datatype FormatState = Chars | FirstFmtChar | OtherFmtChar

  class Port {
    /** The characters that the device has received. */
    var sent: string

    constructor ()
      ensures sent == ""
    {
      sent := "";
    }

    method TxChar(c: char)
      modifies this
      ensures sent == old(sent) + [c]
    {
      sent := sent + [c];
    }

    method RepChar(c: char, count: int)
      modifies this
      ensures sent == old(sent) + Repeat(c, count)
    {
      var r := count;
      ghost var done := 0;
      while r > 0
        invariant done == count - r && done >= 0 && (r >= 0 || done == 0)
        invariant sent == old(sent) + Repeat(c, done)
      {
        TxChar(c);
        r, done := r - 1, done + 1;
        assert Repeat(c, done) == Repeat(c, done - 1) + [c];
      }
    }

    /** Counts the digits of v and finds the place value of the first; no product wraps around. */
    method CountDigits(v: u32, base: nat, ghost upper: bool) returns (p: u32, digitCount: nat)
      requires IsBase(base)
      ensures digitCount == |Numeral(v, base, upper)| && p == Power(base, digitCount - 1)
    {
      CountStarts(v, base, upper);
      hide Numeral, Power, PlacesLeft, IsBase;
      var vShrink: nat := v / base;
      p, digitCount := 1, 1;
      while vShrink > 0
        invariant digitCount > 0 && p == Power(base, digitCount - 1)
        invariant PlacesLeft(v, vShrink, p, base)
        invariant |Numeral(v, base, upper)| ==
                  digitCount + (if vShrink == 0 then 0 else |Numeral(vShrink, base, upper)|)
      {
        CountStep(v, vShrink, p, base, digitCount, upper);
        digitCount := digitCount + 1;
        p := p * base % WORD;
        vShrink := vShrink / base;
      }
    }

    method PrintDigit(digit: nat, upper: bool)
      requires digit < 16
      modifies this
      ensures sent == old(sent) + [DigitChar(digit, upper)]
    {
      var d := digit + '0' as int;
      if d > '9' as int {
        d := d + (if upper then 'A' else 'a') as int - '0' as int - 10;
      }
      TxChar(d as char);
    }

    /** The digits of the value from the place p down. */
    method PrintDigits(value: u32, place: u32, base: nat, upper: bool)
      requires IsBase(base) && place == Power(base, |Numeral(value, base, upper)| - 1)
      modifies this
      ensures sent == old(sent) + Numeral(value, base, upper)
    {
      ghost var n: nat := |Numeral(value, base, upper)|;
      ghost var all := sent + Numeral(value, base, upper);
      NumeralIsPlaces(value, base, upper);
      var v: nat, p: nat := value, place;
      while p > 0
        invariant p == if n == 0 then 0 else Power(base, n - 1)
        invariant v < Power(base, n) && sent + Places(v, base, n, upper) == all
        decreases n
      {
        hide *;
        ghost var q, r := PrintStep(v, p, base, n, upper);
        PlaceBelow(base, n);
        Reassociate(sent, [DigitChar(q, upper)], Places(r, base, n - 1, upper));
        PrintDigit(v / p, upper);
        v := v % p;
        p := p / base;
        n := n - 1;
      }
    }

    /** The padding and the sign, when the digits leave room for width more characters. */
    method PrintSign(sign: bool, fmtLeadingZero: bool, width: int)
      modifies this
      ensures var minus := if sign then "-" else "";
              var n := width - |minus|;
              sent == old(sent) + if fmtLeadingZero then minus + Repeat('0', n) else Repeat(' ', n) + minus
    {
      hide Repeat;
      var fmtBeforeDecimal := width;
      if fmtLeadingZero {
        if sign {
          TxChar('-');
          fmtBeforeDecimal := fmtBeforeDecimal - 1;
        }
        RepChar('0', fmtBeforeDecimal);
      } else {
        if sign {
          fmtBeforeDecimal := fmtBeforeDecimal - 1;
        }
        RepChar(' ', fmtBeforeDecimal);
        if sign {
          TxChar('-');
        }
      }
    }

    /** The label doIntegerPrint. */
    method PrintInteger(value: u32, fmtLeadingZero: bool, fmtBeforeDecimal: int, style: Style)
      requires IsBase(style.base)
      modifies this
      ensures sent == old(sent) + IntegerText(value, fmtBeforeDecimal, fmtLeadingZero, style)
    {
      hide Numeral, Power, Repeat, IsBase;
      var v, sign := value, false;
      if style.signed && v >= 0x8000_0000 {
        v := (WORD - 1 - v + 1) % WORD;
        sign := true;
      }
      var p, digitCount := CountDigits(v, style.base, style.upper);
      PrintSign(sign, fmtLeadingZero, fmtBeforeDecimal - digitCount);
      PrintDigits(v, p, style.base, style.upper);
    }

    /** The letter that determines the type, with the arguments from slot k on; k' is the next slot. */
    method Convert(c: char, fmtLeadingZero: bool, fmtBeforeDecimal: int, args: Args, k: nat) returns (k': nat)
      modifies this
      ensures sent == old(sent) + Converted(c, fmtBeforeDecimal, fmtLeadingZero, args, k)
      ensures k' == if TakesArgument(c) then k + 1 else k
    {
      hide IntegerText, Repeat;
      var fmtBase, fmtSigned, fmtCase := 10, true, false;
      k' := k;
      if c in "diuoxX" {
        if c == 'u' || c == 'o' || c == 'x' || c == 'X' {
          fmtSigned := false;
        }
        if c == 'o' {
          fmtBase := 8;
        } else if c == 'x' {
          fmtBase := 16;
        } else if c == 'X' {
          fmtBase, fmtCase := 16, true;
        }
        PrintInteger(args.word(k), fmtLeadingZero, fmtBeforeDecimal, Style(fmtBase, fmtSigned, fmtCase));
        k' := k + 1;
      } else if c == 'c' {
        RepChar(' ', fmtBeforeDecimal - 1);
        TxChar((args.word(k) % 256) as char);
        k' := k + 1;
      } else if c == 's' {
        var s := args.text(k);
        RepChar(' ', fmtBeforeDecimal - |s|);
        PutString(s);
        k' := k + 1;
      }
    }

    method PutString(s: string)
      modifies this
      ensures sent == old(sent) + s
    {
      for i := 0 to |s|
        invariant sent == old(sent) + s[..i]
      {
        TxChar(s[i]);
      }
    }

    /** A character before the letter: a digit, the point, or l, which asks for a long and changes
        nothing because a long is as wide as an int. */
    method FlagChar(c: char, before: int, after: int, ghost flags: string)
      returns (fmtBeforeDecimal: int, fmtAfterDecimal: int)
      requires IsFlag(c) && before == Width(flags) && (after >= 0 <==> '.' in flags)
      ensures fmtBeforeDecimal == Width(flags + [c]) && (fmtAfterDecimal >= 0 <==> '.' in flags + [c])
    {
      WidthExtends(flags, c);
      fmtBeforeDecimal, fmtAfterDecimal := before, after;
      if c == '.' {
        fmtAfterDecimal := 0;
      } else if '0' <= c <= '9' {
        var d := c as int - '0' as int;
        if fmtAfterDecimal < 0 {
          if fmtBeforeDecimal < 0 {
            fmtBeforeDecimal := 0;
          } else {
            fmtBeforeDecimal := fmtBeforeDecimal * 10;
          }
          fmtBeforeDecimal := fmtBeforeDecimal + d;
        } else {
          fmtAfterDecimal := fmtAfterDecimal * 10 + d;
        }
      }
    }

    method PrivatePrintf(fmt: cstring, args: Args)
      modifies this
      ensures sent == old(sent) + Render(fmt, args, 0)
    {
      hide Render, Directive, Conversion, Converted, Width;
      var state, i, k := Chars, 0, 0;
      var fmtLeadingZero := false;
      var fmtBeforeDecimal, fmtAfterDecimal := 0, 0;
      ghost var flags := "";
      ghost var all := sent + Render(fmt, args, 0);
      assert fmt[0..] == fmt && Width("") == -1 by { NoWidth(); }
      while i < |fmt|
        invariant i <= |fmt|
        invariant all == sent + Remaining(state, fmt[i..], flags, fmtLeadingZero, args, k)
        invariant state.FirstFmtChar? ==> !fmtLeadingZero && fmtBeforeDecimal == fmtAfterDecimal == -1
        invariant state.OtherFmtChar? ==> fmtBeforeDecimal == Width(flags) && (fmtAfterDecimal >= 0 <==> '.' in flags)
      {
        assert fmt[i..][1..] == fmt[i + 1..];
        CharsStep(fmt[i..], args, k);
        FirstStep(fmt[i..], args, k);
        OtherStep(fmt[i..], if state == OtherFmtChar then flags else "", fmtLeadingZero, args, k);
        var c := fmt[i];
        i := i + 1;
        if state == Chars {
          if c == '%' {
            fmtLeadingZero := false;
            fmtBeforeDecimal, fmtAfterDecimal := -1, -1;
            state := FirstFmtChar;
          } else {
            Reassociate(sent, [c], Render(fmt[i..], args, k));
            TxChar(c);
          }
        } else if state == FirstFmtChar && c == '0' {
          fmtLeadingZero := true;
          state, flags := OtherFmtChar, "";
        } else if state == FirstFmtChar && c == '%' {
          Reassociate(sent, "%", Render(fmt[i..], args, k));
          TxChar(c);
          state := Chars;
        } else {
          if state == FirstFmtChar {
            state, flags := OtherFmtChar, "";
          }
          if IsFlag(c) {
            fmtBeforeDecimal, fmtAfterDecimal := FlagChar(c, fmtBeforeDecimal, fmtAfterDecimal, flags);
            flags := flags + [c];
          } else {
            ghost var before, text := sent, Converted(c, fmtBeforeDecimal, fmtLeadingZero, args, k);
            k := Convert(c, fmtLeadingZero, fmtBeforeDecimal, args, k);
            Reassociate(before, text, Render(fmt[i..], args, k));
            state := Chars;
          }
        }
      }
      assert fmt[i..] == "";
      NothingLeft(state, flags, fmtLeadingZero, args, k);
    }
  }

  lemma Reassociate(a: string, b: string, c: string)
    ensures a + b + c == a + (b + c)
  {}

  /** Dividing v by the place value p and the base leaves at least this. */
  predicate PlacesLeft(v: u32, vShrink: nat, p: nat, base: nat) {
    vShrink * (p * base) <= v
  }

  lemma CountStarts(v: u32, base: nat, upper: bool)
    requires IsBase(base)
    ensures PlacesLeft(v, v / base, 1, base) && Power(base, 0) == 1 && base > 0
    ensures |Numeral(v, base, upper)| == 1 + (if v / base == 0 then 0 else |Numeral(v / base, base, upper)|)
  {}

  lemma CountStep(v: u32, vShrink: nat, p: nat, base: nat, n: nat, upper: bool)
    requires IsBase(base) && vShrink > 0 && n > 0 && p == Power(base, n - 1) && PlacesLeft(v, vShrink, p, base)
    ensures p * base % WORD == p * base == Power(base, n) && 0 <= vShrink / base < vShrink
    ensures PlacesLeft(v, vShrink / base, p * base, base)
    ensures |Numeral(vShrink, base, upper)| ==
            1 + (if vShrink / base == 0 then 0 else |Numeral(vShrink / base, base, upper)|)
  {
    hide PlacesLeft;
    PlaceFits(v, vShrink, p, base);
    PlacesStep(v, vShrink, p, base);
  }

  lemma PlaceFits(v: u32, vShrink: nat, p: nat, base: nat)
    requires vShrink > 0 && PlacesLeft(v, vShrink, p, base)
    ensures p * base <= v
  {}

  lemma PlacesStep(v: u32, vShrink: nat, p: nat, base: nat)
    requires IsBase(base) && PlacesLeft(v, vShrink, p, base)
    ensures PlacesLeft(v, vShrink / base, p * base, base)
  {}

  lemma PrintStep(v: nat, p: nat, base: nat, n: nat, upper: bool) returns (d: nat, r: nat)
    requires IsBase(base) && n > 0 && p > 0 && p == Power(base, n - 1) && v < Power(base, n)
    ensures d == v / p && r == v % p && d < base <= 16 && r < p
    ensures Places(v, base, n, upper) == [DigitChar(d, upper)] + Places(r, base, n - 1, upper)
  {
    BelowPower(base, n);
    hide Places, Power, Compose, DigitChar;
    d, r := TakeDigit(v, base, p);
    LargestPlaceFirst(d, r, base, n - 1, upper);
  }

  lemma PlaceBelow(base: nat, n: nat)
    requires IsBase(base) && n > 0
    ensures Power(base, n - 1) / base == if n == 1 then 0 else Power(base, n - 2)
  {}

  lemma BelowPower(base: nat, n: nat)
    requires n > 0
    ensures Power(base, n) == base * Power(base, n - 1)
  {}

  /** What a format has yet to print in each state. */
  function Remaining(state: FormatState, s: string, flags: string, zeros: bool, args: Args, k: nat): string {
    match state
    case Chars => Render(s, args, k)
    case FirstFmtChar => Directive(s, args, k)
    case OtherFmtChar => Conversion(s, flags, zeros, args, k)
  }

  lemma CharsStep(s: string, args: Args, k: nat)
    requires s != ""
    ensures Render(s, args, k) ==
            if s[0] == '%' then Directive(s[1..], args, k) else [s[0]] + Render(s[1..], args, k)
  {}

  lemma FirstStep(s: string, args: Args, k: nat)
    requires s != ""
    ensures Directive(s, args, k) ==
            if s[0] == '%' then "%" + Render(s[1..], args, k)
            else if s[0] == '0' then Conversion(s[1..], "", true, args, k)
            else Conversion(s, "", false, args, k)
  {}

  lemma OtherStep(s: string, flags: string, zeros: bool, args: Args, k: nat)
    requires s != ""
    ensures Conversion(s, flags, zeros, args, k) ==
            if IsFlag(s[0]) then Conversion(s[1..], flags + [s[0]], zeros, args, k)
            else Converted(s[0], Width(flags), zeros, args, k) +
                 Render(s[1..], args, if TakesArgument(s[0]) then k + 1 else k)
  {}

  lemma NothingLeft(state: FormatState, flags: string, zeros: bool, args: Args, k: nat)
    ensures Remaining(state, "", flags, zeros, args, k) == ""
  {}

  /** One more flag character changes the width as the code does. */
  lemma WidthExtends(flags: string, c: char)
    requires IsFlag(c)
    ensures Width(flags + [c]) ==
            if '.' in flags || !('0' <= c <= '9') then Width(flags)
            else (if Width(flags) < 0 then 0 else Width(flags) * 10) + (c as int - '0' as int)
  {
    BeforePointExtends(flags, c);
    var s := BeforePoint(flags);
    DigitsInExtends(s, c);
    if '.' !in flags && '0' <= c <= '9' {
      assert (DigitsIn(s) + [c])[..|DigitsIn(s)|] == DigitsIn(s);
      assert ReadNumeral("", 10) == 0;
      assert BeforePoint(flags + [c]) == s + [c];
      assert ReadNumeral(DigitsIn(s + [c]), 10) == ReadNumeral(DigitsIn(s), 10) * 10 + DigitValue(c);
    } else {
      assert DigitsIn(BeforePoint(flags + [c])) == DigitsIn(s);
    }
  }

  lemma NoWidth()
    ensures Width("") == -1
  {}

  lemma {:induction false} BeforePointExtends(flags: string, c: char)
    ensures BeforePoint(flags + [c]) ==
            if '.' in flags || c == '.' then BeforePoint(flags) else BeforePoint(flags) + [c]
  {
    if flags != "" {
      assert (flags + [c])[1..] == flags[1..] + [c];
      BeforePointExtends(flags[1..], c);
      assert '.' in flags <==> flags[0] == '.' || '.' in flags[1..];
    }
  }

  lemma {:induction false} DigitsInExtends(s: string, c: char)
    ensures DigitsIn(s + [c]) == DigitsIn(s) + if '0' <= c <= '9' then [c] else ""
  {
    if s != "" {
      assert (s + [c])[1..] == s[1..] + [c];
      DigitsInExtends(s[1..], c);
    }
  }
}
