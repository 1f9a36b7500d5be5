/** The small printf of alt_printf.c, with its shift-and-mask hex printer. */
module AltPrintf {
  import opened HexWords
  import opened LogPrintf
  import opened LogPrinter
  import opened Numerals
  import opened Words

  /** What alt_printf prints for the rest of a format. */
  function AltRender(s: string, args: Args, k: nat): string {
    if s == "" then ""
    else if s[0] != '%' then [s[0]] + AltRender(s[1..], args, k)
    else if |s| == 1 then ""
    else AltConverted(s[1], args, k) + AltRender(s[2..], args, if s[1] in "cxs" then k + 1 else k)
  }

  function AltConverted(c: char, args: Args, k: nat): string {
    if c == '%' then "%"
    else if c == 'c' then [(args.word(k) % 256) as char]
    else if c == 'x' then Numeral(args.word(k), 16, false)
    else if c == 's' then args.text(k)
    else ""
  }

  // ---- The code ----

  /** v in hexadecimal: the shift goes to the first digit that is not zero, then down. */
  method PutHex(port: Port, number: u32)
    modifies port
    ensures port.sent == old(port.sent) + Numeral(number, 16, false)
  {
    var v := WordOf(number, 8);
    assert number < Power(16, 8);
    ZeroWord(number);
    if v == 0 {
      port.TxChar('0');
      assert Numeral(0, 16, false) == [DigitChar(0, false)];
      return;
    }
    var digitShift, n := 28, 7;
    while Masked(v, digitShift) == 0
      invariant 0 <= n < 8 && digitShift == 4 * n && port.sent == old(port.sent)
      invariant forall i | n < i < 8 :: DigitAt(number, i) == 0
      decreases n
    {
      hide *;
      MaskReads(number, n);
      NotLast(number, n);
      digitShift, n := digitShift - 4, n - 1;
    }
    hide *;
    MaskReads(number, n);
    FirstDigitFound(number, n, 8);
    PutDigits(port, v, digitShift, number, n);
  }

  lemma ZeroWord(number: u32)
    requires number < Power(16, 8)
    ensures WordOf(number, 8) == 0 <==> number == 0
  {
    hide Power, WordOf;
    if WordOf(number, 8) == 0 {
      forall i | 0 <= i < 8
        ensures DigitAt(number, i) == 0
      {
        ReadDigit(number, i);
        NibbleOfZero(i);
      }
      AllZero(number, 8);
    } else if number == 0 {
      ZeroIsZeroWord();
    }
  }

  lemma ZeroIsZeroWord()
    ensures WordOf(0, 8) == 0
  {}

  /** The search ends: a number that is not zero has a digit that is not. */
  lemma NotLast(number: u32, n: nat)
    requires number < Power(16, 8) && number != 0 && n < 8 && forall i | n <= i < 8 :: DigitAt(number, i) == 0
    ensures n > 0
  {
    if n == 0 {
      AllZero(number, 8);
    }
  }

  /** The digits of a number from one place down. */
  method PutDigits(port: Port, v: bv32, shift: nat, ghost number: nat, ghost place: nat)
    requires place < 8 && shift == 4 * place && v == WordOf(number, 8)
    modifies port
    ensures port.sent == old(port.sent) + Places(number, 16, place + 1, false)
  {
    var digitShift: int, n: int := shift, place;
    ghost var digits := Places(number, 16, place + 1, false);
    while digitShift >= 0
      invariant -1 <= n <= place && digitShift == 4 * n
      invariant port.sent == old(port.sent) + digits[..place - n]
    {
      hide *;
      ReadDigit(number, n);
      PlaceDigit(number, place + 1, n);
      var digit := Shifted(Masked(v, digitShift), digitShift);
      PutDigit(port, digit as int);
      digitShift, n := digitShift - 4, n - 1;
    }
  }

  method PutDigit(port: Port, digit: nat)
    requires digit < 16
    modifies port
    ensures port.sent == old(port.sent) + [DigitChar(digit, false)]
  {
    var c := if digit <= 9 then '0' + digit as char else 'a' + (digit - 10) as char;
    port.TxChar(c);
  }

  method Printf(port: Port, fmt: cstring, args: Args)
    modifies port
    ensures port.sent == old(port.sent) + AltRender(fmt, args, 0)
  {
    hide AltRender, AltConverted, Numeral;
    var i, k := 0, 0;
    ghost var all := port.sent + AltRender(fmt, args, 0);
    assert fmt[0..] == fmt;
    while i < |fmt|
      invariant i <= |fmt| && all == port.sent + AltRender(fmt[i..], args, k)
    {
      AltStep(fmt[i..], args, k);
      var c := fmt[i];
      i := i + 1;
      ghost var before := port.sent;
      if c != '%' {
        assert fmt[i - 1..][1..] == fmt[i..];
        Reassociate(before, [c], AltRender(fmt[i..], args, k));
        port.TxChar(c);
      } else if i < |fmt| {
        c := fmt[i];
        i := i + 1;
        assert fmt[i - 2..][2..] == fmt[i..];
        ghost var text := AltConverted(c, args, k);
        k := AltConvert(port, c, args, k);
        Reassociate(before, text, AltRender(fmt[i..], args, k));
      } else {
        assert AltRender(fmt[i - 1..], args, k) == "";
        return;
      }
    }
    assert fmt[i..] == "";
    AltEnd(args, k);
  }

  method AltConvert(port: Port, c: char, args: Args, k: nat) returns (k': nat)
    modifies port
    ensures port.sent == old(port.sent) + AltConverted(c, args, k)
    ensures k' == if c in "cxs" then k + 1 else k
  {
    hide Numeral;
    k' := k;
    if c == '%' {
      port.TxChar(c);
    } else if c == 'c' {
      port.TxChar((args.word(k) % 256) as char);
      k' := k + 1;
    } else if c == 'x' {
      PutHex(port, args.word(k));
      k' := k + 1;
    } else if c == 's' {
      port.PutString(args.text(k));
      k' := k + 1;
    }
  }

  lemma AltStep(s: string, args: Args, k: nat)
    requires s != ""
    ensures AltRender(s, args, k) ==
            if s[0] != '%' then [s[0]] + AltRender(s[1..], args, k)
            else if |s| == 1 then ""
            else AltConverted(s[1], args, k) + AltRender(s[2..], args, if s[1] in "cxs" then k + 1 else k)
  {}

  lemma AltEnd(args: Args, k: nat)
    ensures AltRender("", args, k) == ""
  {}

  /** A percent sign and a character that is none of the four stand for nothing, whatever comes next: not
      even the characters of a field width take the next one with them. */
  lemma UnknownIsDropped(c: char, rest: string, args: Args, k: nat)
    requires c !in "%cxs"
    ensures AltRender("%" + [c] + rest, args, k) == AltRender(rest, args, k)
  {
    assert ("%" + [c] + rest)[2..] == rest;
  }

  // ---- The two printers agree ----

  /** Every directive is one that alt_printf supports, or one that neither printer knows. */
  predicate Common(s: string) {
    if s == "" then true
    else if s[0] != '%' then Common(s[1..])
    else |s| == 1 || (!IsFlag(s[1]) && s[1] !in "diuoX" && Common(s[2..]))
  }

  /** On such a format the two print the same characters. In particular their two ways to print
      hexadecimal numbers give the same digits for every word. */
  lemma {:induction false} PrintersAgree(s: string, args: Args, k: nat)
    requires Common(s)
    ensures AltRender(s, args, k) == Render(s, args, k)
    decreases |s|
  {
    hide Numeral;
    if s == "" || s == "%" {
    } else if s[0] != '%' {
      PrintersAgree(s[1..], args, k);
    } else {
      var k' := if s[1] in "cxs" then k + 1 else k;
      PrintersAgree(s[2..], args, k');
      assert s[1..][1..] == s[2..];
      ConversionsAgree(s[1], args, k);
      CharsStep(s, args, k);
      FirstStep(s[1..], args, k);
      OtherStep(s[1..], "", false, args, k);
    }
  }

  lemma ConversionsAgree(c: char, args: Args, k: nat)
    requires !IsFlag(c) && c !in "diuoX"
    ensures c != '%' ==> AltConverted(c, args, k) == Converted(c, Width(""), false, args, k)
    ensures c in "cxs" <==> TakesArgument(c)
  {}

  /** The printers agree on a directive with this character whatever format follows that they agree on. */
  ghost predicate AgreeAfter(c: char) {
    forall t: string, args: Args, k: nat | Common(t) ::
      AltRender("%" + [c] + t, args, k) == Render("%" + [c] + t, args, k)
  }

  /** They do exactly for the characters that Common allows: not for the letters of the other integer
      formats, which only the logging printf knows, and not for the characters of a field width, after
      which alt_printf takes the next character for text. */
  lemma AgreeAfterIff(c: char)
    ensures AgreeAfter(c) <==> !IsFlag(c) && c !in "diuoX"
  {
    if IsFlag(c) || c in "diuoX" {
      var args, t := Args(k => 0, k => ""), if IsFlag(c) then "z" else "";
      Unlike(c, args);
      assert Common(t) && AltRender("%" + [c] + t, args, 0) != Render("%" + [c] + t, args, 0);
    } else {
      forall t: string, args: Args, k: nat | Common(t)
        ensures AltRender("%" + [c] + t, args, k) == Render("%" + [c] + t, args, k)
      {
        assert ("%" + [c] + t)[2..] == t;
        PrintersAgree("%" + [c] + t, args, k);
      }
    }
  }

  /** For example, only the logging printf knows %d. */
  lemma PrintersDiffer(args: Args, k: nat)
    ensures AltRender("%d", args, k) == "" && Render("%d", args, k) != ""
  {}

  lemma Unlike(c: char, args: Args)
    requires IsFlag(c) || c in "diuoX"
    ensures var s := "%" + [c] + if IsFlag(c) then "z" else "";
            AltRender(s, args, 0) != Render(s, args, 0)
  {
    hide Numeral;
    var s := "%" + [c] + if IsFlag(c) then "z" else "";
    CharsStep(s, args, 0);
    FirstStep(s[1..], args, 0);
    if IsFlag(c) {
      assert s[1..][1..] == "z" && s[2..] == "z";
      OtherStep(s[1..], "", false, args, 0);
      OtherStep("z", "" + [c], false, args, 0);
      OtherStep("z", "", true, args, 0);
    } else {
      OtherStep(s[1..], "", false, args, 0);
      assert s[2..] == "";
      AltEnd(args, 0);
    }
  }
}
