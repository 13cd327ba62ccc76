/** Rates in thousandths of a megabit per second, and their decimal text. */
module TrafficRate {
  import opened Common
  import opened Decimal

  // ----- Printing -----

  function FormatRateMbps(milli: nat): string {
    var fraction := milli % 1000;
    if fraction == 0 then Print(milli / 1000)
    else Print(milli / 1000) + "." + TrimTrailing(PadStart(Print(fraction), 3))
  }

  // ----- Parsing -----

  /** White space and line terminators of section 22.1.3.32 of ECMA-262. */
  predicate IsSpace(c: char) {
    c in {'\t', '\n', '\U{b}', '\U{c}', '\r', ' ', '\U{a0}', '\U{1680}', '\U{2028}', '\U{2029}', '\U{202f}',
          '\U{205f}', '\U{3000}', '\U{feff}'}
    || '\U{2000}' <= c <= '\U{200a}'
  }

  /** The same by code: white space of section 12.2 and line terminators of section 12.3 of ECMA-262. */
  lemma SpaceByCode(c: char)
    ensures IsSpace(c) <==>
              || c as int in {9, 11, 12, 65_279, 32, 160, 5_760, 8_239, 8_287, 12_288} || 8_192 <= c as int <= 8_202
              || c as int in {10, 13, 8_232, 8_233}
  {
  }

  function TrimStart(s: string): string {
    if s != [] && IsSpace(s[0]) then TrimStart(s[1..]) else s
  }

  function TrimEnd(s: string): string {
    if s != [] && IsSpace(s[|s| - 1]) then TrimEnd(s[..|s| - 1]) else s
  }

  function Trim(s: string): string {
    TrimEnd(TrimStart(s))
  }

  function Whole(text: string): string {
    text[..PointAt(text)]
  }

  function Fraction(text: string): string {
    if PointAt(text) < |text| then text[PointAt(text) + 1..] else ""
  }

  /** Digits, and optionally a point and more digits. */
  predicate IsDecimal(text: string) {
    IsNumeral(Whole(text)) && (PointAt(text) < |text| ==> IsNumeral(Fraction(text)))
  }

  function ParseRateMbps(value: string): (r: Result<nat>) {
    var text := Trim(value);
    if !IsDecimal(text) then Err("Invalid rateMbps: " + value)
    else if |Fraction(text)| > 3 then Err("rateMbps supports a maximum of 3 decimal places")
    else
      var result: nat := Read(Whole(text)) * 1000 + Read(PadEnd(Fraction(text), 3));
      if result <= 0 then Err("rateMbps must be greater than 0") else Ok(result)
  }

  // ----- What a text denotes -----

  function Pow10(n: nat): (r: nat)
    ensures r > 0
  {
    if n == 0 then 1 else 10 * Pow10(n - 1)
  }

  /** The number a decimal text denotes. */
  function Denoted(text: string): real
    requires IsDecimal(text)
  {
    Read(Whole(text)) as real + Read(Fraction(text)) as real / Pow10(|Fraction(text)|) as real
  }

  lemma {:induction false} ReadOfPaddedEnd(s: string, n: nat)
    requires (forall i | 0 <= i < |s| :: IsDigit(s[i])) && |s| <= n
    ensures Read(PadEnd(s, n)) == Read(s) * Pow10(n - |s|)
    decreases n - |s|
  {
    if |s| < n {
      ReadOfPaddedEnd(s + ['0'], n);
      assert (s + ['0'])[..|s|] == s;
      assert Read(s + ['0']) == 10 * Read(s);
      Regroup(Read(s), Pow10(n - |s| - 1));
    }
  }

  lemma Regroup(a: nat, b: nat)
    ensures (10 * a) * b == a * (10 * b)
  {
  }

  lemma PowersOfTen()
    ensures Pow10(0) == 1 && Pow10(1) == 10 && Pow10(2) == 100 && Pow10(3) == 1000
  {
  }

  lemma FractionIsDigits(text: string)
    requires IsDecimal(text)
    ensures forall i | 0 <= i < |Fraction(text)| :: IsDigit(Fraction(text)[i])
  {
  }

  lemma Scaled(w: nat, f: nat, places: nat)
    requires places <= 3
    ensures (w * 1000 + f * Pow10(3 - places)) as real == 1000.0 * (w as real + f as real / Pow10(places) as real)
  {
    PowersOfTen();
    if places == 0 {
    } else if places == 1 {
    } else if places == 2 {
    }
  }

  /** A text is accepted exactly when it is a positive decimal of at most three places, and its rate is exact. */
  lemma ParseIsExact(value: string)
    ensures var text := Trim(value);
            ParseRateMbps(value).Ok? <==> IsDecimal(text) && |Fraction(text)| <= 3 && Denoted(text) > 0.0
    ensures ParseRateMbps(value).Ok? ==> ParseRateMbps(value).value as real == 1000.0 * Denoted(Trim(value))
  {
    hide Trim, Whole, Fraction, Read, PadEnd, Pow10;
    var text := Trim(value);
    if IsDecimal(text) && |Fraction(text)| <= 3 {
      FractionIsDigits(text);
      ReadOfPaddedEnd(Fraction(text), 3);
      PowersOfTen();
      Scaled(Read(Whole(text)), Read(Fraction(text)), |Fraction(text)|);
    }
  }

  // ----- Printing and parsing undo each other -----

  lemma NumeralsAreTrimmed(s: string)
    requires s != [] && IsDigit(s[0]) && IsDigit(s[|s| - 1])
    ensures Trim(s) == s
  {
  }

  /** A text made of a whole part and a fraction comes apart the same way. */
  lemma PartsOf(whole: string, fraction: string)
    requires IsNumeral(whole) && (forall i | 0 <= i < |fraction| :: IsDigit(fraction[i]))
    ensures var text := Text(whole, fraction);
            && IsDecimal(text) && Whole(text) == whole && Fraction(text) == fraction && Trim(text) == text
  {
    var text := Text(whole, fraction);
    if fraction == [] {
      PointAfterDigits(whole, "");
      assert whole + "" == whole;
    } else {
      PointAfterDigits(whole, "." + fraction);
      assert text == whole + ("." + fraction);
    }
    NumeralsAreTrimmed(text);
  }

  function Text(whole: string, fraction: string): string {
    if fraction == [] then whole else whole + "." + fraction
  }

  /** The printed fraction: its three digits without the trailing zeros. */
  function PrintedFraction(milli: nat): string {
    if milli % 1000 == 0 then "" else TrimTrailing(PadStart(Print(milli % 1000), 3))
  }

  lemma FractionOfPrinted(milli: nat)
    ensures forall i | 0 <= i < |PrintedFraction(milli)| :: IsDigit(PrintedFraction(milli)[i])
    ensures |PrintedFraction(milli)| <= 3 && Read(PadEnd(PrintedFraction(milli), 3)) == milli % 1000
    ensures PrintedFraction(milli) != [] ==> PrintedFraction(milli)[|PrintedFraction(milli)| - 1] != '0'
    ensures milli % 1000 != 0 ==> PrintedFraction(milli) != []
  {
    var f := milli % 1000;
    if f == 0 {
      ReadOfZeros();
    } else {
      ThreeDigits(f);
      ReadOfPadded(Print(f), 3);
      ReadOfPrint(f);
      var padded := PadStart(Print(f), 3);
      PaddingUndoesTrimming(padded);
      if TrimTrailing(padded) == [] {
        ReadOfZeros();
        assert false;
      }
    }
  }

  lemma ReadOfZeros()
    ensures PadEnd("", 3) == "000" && Read("000") == 0
  {
    assert PadEnd("00" + ['0'], 3) == "00" + ['0'] == "000";
    assert PadEnd("0" + ['0'], 3) == PadEnd("00", 3) by { assert "0" + ['0'] == "00"; }
    assert PadEnd("" + ['0'], 3) == PadEnd("0", 3) by { assert "" + ['0'] == "0"; }
    assert "000"[..2] == "00";
    assert "00"[..1] == "0";
    assert "0"[..0] == "";
  }

  /** Parsing a printed rate gives the rate back. */
  lemma ParseOfFormat(milli: nat)
    requires milli > 0
    ensures ParseRateMbps(FormatRateMbps(milli)) == Ok(milli)
  {
    hide Print, PadStart, PadEnd, TrimTrailing, Trim, Whole, Fraction, Read;
    FormatIsText(milli);
    FractionOfPrinted(milli);
    PartsOf(Print(milli / 1000), PrintedFraction(milli));
    ReadOfPrint(milli / 1000);
  }

  lemma FormatIsText(milli: nat)
    ensures FormatRateMbps(milli) == Text(Print(milli / 1000), PrintedFraction(milli))
  {
    hide Print, PadStart, Read;
    FractionOfPrinted(milli);
  }

  /** No leading zero before another digit, and no trailing zero after the point. */
  predicate IsCanonical(text: string) {
    && IsDecimal(text)
    && (Whole(text)[0] == '0' ==> |Whole(text)| == 1)
    && (Fraction(text) != [] ==> Fraction(text)[|Fraction(text)| - 1] != '0')
  }

  lemma FormatIsCanonical(milli: nat)
    ensures IsCanonical(FormatRateMbps(milli))
  {
    hide Print, PadStart, PadEnd, TrimTrailing, Trim, Whole, Fraction, Read;
    FormatIsText(milli);
    FractionOfPrinted(milli);
    PartsOf(Print(milli / 1000), PrintedFraction(milli));
  }

  /** Printing what was parsed gives a canonical text back unchanged. */
  lemma FormatOfParse(text: string)
    requires IsCanonical(text) && Trim(text) == text && ParseRateMbps(text).Ok?
    ensures FormatRateMbps(ParseRateMbps(text).value) == text
  {
    hide ParseRateMbps, FormatRateMbps, IsCanonical, IsDecimal, Text, PrintedFraction;
    hide Trim, Whole, Fraction, Read, PadEnd, Print, PadStart, TrimTrailing, PointAt;
    ParsedValue(text);
    WholePrints(text);
    FractionPrints(text);
    PartsOfText(text);
    PrintedParts(Read(Whole(text)), Read(PadEnd(Fraction(text), 3)));
  }

  lemma WholePrints(text: string)
    requires IsCanonical(text)
    ensures IsNumeral(Whole(text)) && Print(Read(Whole(text))) == Whole(text)
  {
    hide Whole, Print, Read;
    PrintOfRead(Whole(text));
  }

  lemma FractionPrints(text: string)
    requires IsCanonical(text) && |Fraction(text)| <= 3
    ensures forall i | 0 <= i < |PadEnd(Fraction(text), 3)| :: IsDigit(PadEnd(Fraction(text), 3)[i])
    ensures Read(PadEnd(Fraction(text), 3)) < 1000
    ensures PrintedFraction(Read(PadEnd(Fraction(text), 3))) == Fraction(text)
  {
    FractionIsDigits(text);
    hide Fraction, PadEnd, PrintedFraction, Read;
    FractionIsPrinted(Fraction(text));
  }

  lemma ParsedValue(text: string)
    requires Trim(text) == text && ParseRateMbps(text).Ok?
    ensures IsDecimal(text) && |Fraction(text)| <= 3
    ensures (forall i | 0 <= i < |PadEnd(Fraction(text), 3)| :: IsDigit(PadEnd(Fraction(text), 3)[i]))
    ensures ParseRateMbps(text).value == Read(Whole(text)) * 1000 + Read(PadEnd(Fraction(text), 3))
  {
    hide Trim, Whole, Fraction, Read, PadEnd;
    FractionIsDigits(text);
  }

  lemma PrintedParts(a: nat, b: nat)
    requires b < 1000
    ensures FormatRateMbps(a * 1000 + b) == Text(Print(a), PrintedFraction(b))
  {
    hide Print, PadStart, TrimTrailing, Text, FormatRateMbps;
    Thousands(a, b);
    Thousands(0, b);
    FormatIsText(a * 1000 + b);
  }

  lemma PartsOfText(text: string)
    requires IsDecimal(text)
    ensures text == Text(Whole(text), Fraction(text)) && IsNumeral(Whole(text))
  {
    hide PointAt;
    if PointAt(text) < |text| {
      assert text == text[..PointAt(text)] + "." + text[PointAt(text) + 1..];
    } else {
      assert text[..PointAt(text)] == text;
    }
  }

  lemma Thousands(a: nat, b: nat)
    requires b < 1000
    ensures (a * 1000 + b) / 1000 == a && (a * 1000 + b) % 1000 == b
  {
  }

  /** Three digits denote less than a thousand. */
  lemma ReadBelow(s: string)
    requires |s| == 3 && forall i | 0 <= i < 3 :: IsDigit(s[i])
    ensures Read(s) < 1000
  {
    assert s[..2][..1][..0] == "";
    assert Read(s[..2][..1]) < 10;
    assert Read(s[..2]) < 100;
  }

  lemma FractionIsPrinted(f: string)
    requires |f| <= 3 && (forall i | 0 <= i < |f| :: IsDigit(f[i]))
    requires f != [] ==> f[|f| - 1] != '0'
    ensures Read(PadEnd(f, 3)) < 1000 && PrintedFraction(Read(PadEnd(f, 3))) == f
  {
    hide Print, PadStart, TrimTrailing, PadEnd, Read, StripLeading;
    var padded := PadEnd(f, 3);
    ReadBelow(padded);
    TrimmingUndoesPadding(f, 3);
    PrintOfReadStrips(padded);
    PaddingUndoesStripping(padded);
    ReadOfZeros();
    TrimZeros();
    if Read(padded) == 0 {
      ReadZeroIsZeros(padded);
    }
  }

  lemma TrimZeros()
    ensures TrimTrailing("000") == ""
  {
    assert "000"[..2] == "00";
    assert "00"[..1] == "0";
    assert "0"[..0] == "";
  }

  lemma ReadZeroIsZeros(s: string)
    requires |s| == 3 && (forall i | 0 <= i < 3 :: IsDigit(s[i])) && Read(s) == 0
    ensures s == "000"
  {
    assert s[..2][..1][..0] == "";
    assert Read(s[..2][..1]) == 0;
    assert Read(s[..2]) == 0;
  }

  /** Two accepted texts print alike exactly when they denote the same number. */
  lemma PrintsAlikeIffEqual(a: string, b: string)
    requires ParseRateMbps(a).Ok? && ParseRateMbps(b).Ok?
    ensures FormatRateMbps(ParseRateMbps(a).value) == FormatRateMbps(ParseRateMbps(b).value)
            <==> Denoted(Trim(a)) == Denoted(Trim(b))
  {
    hide FormatRateMbps, Denoted, Trim, ParseRateMbps, IsDecimal;
    ParseIsExact(a);
    ParseIsExact(b);
    ParsedIsPositive(a);
    ParsedIsPositive(b);
    ParseOfFormat(ParseRateMbps(a).value);
    ParseOfFormat(ParseRateMbps(b).value);
  }

  lemma ParsedIsPositive(a: string)
    requires ParseRateMbps(a).Ok?
    ensures ParseRateMbps(a).value > 0
  {
  }
}
