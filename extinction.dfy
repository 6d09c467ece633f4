/**
 * Molar extinction coefficients of the detected peaks (Beer-Lambert law for
 * a 1 cm cell: epsilon = A / c) and the text the viewer shows for them.
 */
module Extinction {
  import opened Wrappers
  import opened Text
  import opened DspParser
  import opened Peaks

  /** 10 raised to an integer power. */
  function Pow10(e: int): (p: real)
    ensures p > 0.0
  {
    if e >= 0 then PowTen(e) as real else 1.0 / PowTen(-e) as real
  }

  /** A power of ten and its opposite cancel. */
  lemma Pow10Inverse(e: int)
    ensures Pow10(e) * Pow10(-e) == 1.0
  {
    var p := if e >= 0 then PowTen(e) as real else PowTen(-e) as real;
    assert p * (1.0 / p) == 1.0;
  }

  /** The concentration significand * 10^exponent mol/L as one number. */
  function Molarity(c: Concentration): real
  {
    c.significand * Pow10(c.exponent)
  }

  /** The extinction at absorbance `a`: a / significand * 10^(-exponent). */
  function ExtinctionOf(a: real, c: Concentration): real
    requires c.significand != 0.0
  {
    a / c.significand * Pow10(-c.exponent)
  }

  /** Beer-Lambert: the coefficient times the molarity gives back the absorbance. */
  lemma BeerLambert(a: real, c: Concentration)
    requires c.significand != 0.0
    ensures ExtinctionOf(a, c) * Molarity(c) == a
  {
    Pow10Inverse(c.exponent);
    var s, p, q := c.significand, Pow10(c.exponent), Pow10(-c.exponent);
    calc {
      ExtinctionOf(a, c) * Molarity(c);
      (a / s * q) * (s * p);
      (a / s * s) * (q * p);
      { assert q * p == 1.0; }
      a / s * s;
      a;
    }
  }

  /**
   * Python's `round` on a number: the nearest integer, ties to the even
   * neighbour.
   */
  function RoundHalfEven(x: real): (n: int)
    ensures -0.5 <= x - n as real <= 0.5
    ensures (x - n as real == 0.5 || x - n as real == -0.5) ==> n % 2 == 0
  {
    var f := x.Floor;
    var frac := x - f as real;
    if frac < 0.5 then f
    else if frac > 0.5 then f + 1
    else if f % 2 == 0 then f
    else f + 1
  }

  /** An integer closer than one half is the rounded value. */
  lemma RoundNearest(x: real, n: int)
    requires -0.5 < x - n as real < 0.5
    ensures RoundHalfEven(x) == n
  {
  }

  /** What `format_float_num` returns: an int or a float with one decimal. */
  datatype Display = Whole(n: int) | Tenths(tenths: int)

  /** The number a display stands for. */
  function DisplayValue(r: Display): real
  {
    match r
    case Whole(n) => n as real
    case Tenths(t) => t as real / 10.0
  }

  /**
   * `round(x)` when it equals `round(x, 1)`, otherwise `round(x, 1)`: the
   * value shown is x rounded to one decimal (ties to even), written without
   * a decimal when that decimal is 0.
   */
  function FormatFloatNum(x: real): (r: Display)
    ensures DisplayValue(r) == RoundHalfEven(10.0 * x) as real / 10.0
    ensures -0.05 <= DisplayValue(r) - x <= 0.05
    ensures r.Whole? <==> RoundHalfEven(10.0 * x) % 10 == 0
    ensures r.Tenths? ==> r.tenths % 10 != 0
  {
    var whole := RoundHalfEven(x);
    var tenths := RoundHalfEven(10.0 * x);
    assert tenths % 10 == 0 ==> whole == tenths / 10 by {
      if tenths % 10 == 0 {
        RoundNearest(x, tenths / 10);
      }
    }
    if whole as real == tenths as real / 10.0 then Whole(whole) else Tenths(tenths)
  }

  /**
   * Python's `str()` of the display: an int, or a float with one decimal;
   * it starts with '-' exactly when the number is negative.
   */
  function RenderDisplay(r: Display): (s: string)
    ensures |s| >= 1
    ensures s[0] == '-' <==> (r.Whole? && r.n < 0) || (r.Tenths? && r.tenths < 0)
  {
    match r
    case Whole(n) => FormatInt(n)
    case Tenths(t) =>
      if t < 0 then "-" + TenthsText(-t) else TenthsText(t)
  }

  /**
   * A count of tenths written as a decimal with one digit after the dot:
   * digits, a dot, one digit, and no leading zero before a further digit.
   */
  function TenthsText(u: nat): (s: string)
    ensures |s| >= 3 && s[|s| - 2] == '.' && IsDigit(s[|s| - 1])
    ensures forall k :: 0 <= k < |s| - 2 ==> IsDigit(s[k])
    ensures s[0] == '0' ==> u < 10 && |s| == 3
  {
    DigitsNoLeadingZero(u / 10);
    Digits(u / 10) + "." + [DigitChar(u % 10)]
  }

  /** The first dot after a run of digits is the one right after it. */
  lemma DotAfterDigits(whole: string, frac: string)
    requires AllDigits(whole)
    ensures IndexOf(whole + "." + frac, '.') == Some(|whole|)
  {
    var s := whole + "." + frac;
    assert forall j :: 0 <= j < |whole| ==> s[j] == whole[j] && IsDigit(whole[j]);
    IndexOfFirst(s, '.', |whole|);
  }

  /** Digits, a dot and digits: the dot found is the one after the first run of digits. */
  lemma PointedDecimal(whole: string, frac: string)
    requires AllDigits(whole)
    ensures ParseUnsignedDecimal(whole + "." + frac) == PointedValue(whole, frac)
  {
    var s := whole + "." + frac;
    DotAfterDigits(whole, frac);
    assert s[..|whole|] == whole && s[|whole| + 1..] == frac;
  }

  /** A number of tenths splits into its whole part and its last digit. */
  lemma TenthsSplit(u: nat)
    ensures (u / 10) as real + (u % 10) as real / 10.0 == u as real / 10.0
  {
    assert u == 10 * (u / 10) + u % 10;
  }

  /** One digit after the dot is worth a tenth of its value. */
  lemma FractionOfDigit(n: nat)
    requires n < 10
    ensures Fraction([DigitChar(n)]) == n as real / 10.0
  {
    var frac := [DigitChar(n)];
    assert DigitsValue(frac) == n by {
      assert frac[..0] == [];
    }
    assert PowTen(|frac|) == 10;
  }

  /** Digits followed by a dot and one digit read back as a decimal. */
  lemma ReadTenths(u: nat)
    ensures ParseUnsignedDecimal(TenthsText(u)) == Some(u as real / 10.0)
  {
    var whole := Digits(u / 10);
    var frac := [DigitChar(u % 10)];
    PointedDecimal(whole, frac);
    FractionOfDigit(u % 10);
    assert PointedValue(whole, frac) == Some((u / 10) as real + (u % 10) as real / 10.0);
    TenthsSplit(u);
  }

  /** A sign in front of an unsigned decimal that starts with a digit. */
  lemma SignedDecimal(body: string, v: real)
    requires |body| > 0 && IsDigit(body[0]) && ParseUnsignedDecimal(body) == Some(v)
    ensures ParseDecimal(body) == Some(v)
    ensures ParseDecimal("-" + body) == Some(-v)
  {
    var signed := "-" + body;
    assert signed[0] == '-' && signed[1..] == body;
    assert body[0] != '-' && body[0] != '+';
  }

  /** How a display with a decimal is written, sign first. */
  lemma RenderTenths(t: int, u: nat)
    requires u == if t < 0 then -t else t
    ensures RenderDisplay(Tenths(t)) == if t < 0 then "-" + TenthsText(u) else TenthsText(u)
  {
  }

  /** A negative display with a decimal reads back. */
  lemma NegativeTenthsReadBack(t: int)
    requires t < 0
    ensures ParseDecimal(RenderDisplay(Tenths(t))) == Some(t as real / 10.0)
  {
    var u: nat := -t;
    ReadTenths(u);
    NegatedTenths(t, u);
    NegatedRead(TenthsText(u), u as real / 10.0, t as real / 10.0);
    RenderTenths(t, u);
  }

  lemma NegatedTenths(t: int, u: nat)
    requires u == -t
    ensures -(u as real / 10.0) == t as real / 10.0
  {
  }

  /** A minus sign before an unsigned decimal worth v reads as -v. */
  lemma NegatedRead(body: string, v: real, w: real)
    requires |body| > 0 && IsDigit(body[0]) && ParseUnsignedDecimal(body) == Some(v)
    requires -v == w
    ensures ParseDecimal("-" + body) == Some(w)
  {
    SignedDecimal(body, v);
  }

  /** A display with a decimal reads back, sign included. */
  lemma TenthsReadBack(t: int)
    ensures ParseDecimal(RenderDisplay(Tenths(t))) == Some(t as real / 10.0)
  {
    if t < 0 {
      NegativeTenthsReadBack(t);
    } else {
      ReadTenths(t);
      SignedDecimal(TenthsText(t), t as real / 10.0);
      RenderTenths(t, t);
    }
  }

  /** Every display reads back, through `float()`, as the number it stands for. */
  lemma DisplayReadsBack(r: Display)
    ensures ParseDecimal(RenderDisplay(r)) == Some(DisplayValue(r))
  {
    match r
    case Whole(n) =>
      ParseFormatInt(n);
      ParseDecimalOfInt(FormatInt(n), n);
    case Tenths(t) =>
      TenthsReadBack(t);
  }

  /** The coefficient as an entry shows it. */
  function EntryValueText(p: Peak, c: Concentration): string
    requires c.significand != 0.0
  {
    RenderDisplay(FormatFloatNum(ExtinctionOf(p.absorbance, c)))
  }

  /** One entry of the report: the wavelength and, in parentheses, the coefficient. */
  function PeakEntry(p: Peak, c: Concentration): string
    requires c.significand != 0.0
  {
    FormatInt(p.wavelength) + " (" + EntryValueText(p, c) + ")"
  }

  function Entries(peaks: seq<Peak>, c: Concentration): (entries: seq<string>)
    requires c.significand != 0.0 || |peaks| == 0
    ensures |entries| == |peaks|
  {
    seq(|peaks|, k requires 0 <= k < |peaks| => PeakEntry(peaks[k], c))
  }

  /** One more peak adds its entry at the end. */
  lemma EntriesAppend(peaks: seq<Peak>, c: Concentration, i: nat)
    requires i < |peaks| && c.significand != 0.0
    ensures Entries(peaks[..i + 1], c) == Entries(peaks[..i], c) + [PeakEntry(peaks[i], c)]
  {
    var a, b := Entries(peaks[..i + 1], c), Entries(peaks[..i], c) + [PeakEntry(peaks[i], c)];
    forall k | 0 <= k < |a|
      ensures a[k] == b[k]
    {
      assert peaks[..i + 1][k] == peaks[k];
    }
  }

  const Prompt := "Enter molar concentration!"
  const ReportHeader := "λ max, nm (ε): "

  /**
   * The text the extinction button produces from the peaks and the two
   * concentration fields, or None when the handler raises (a field that
   * `float()` or `int()` rejects, or a zero significand once there is a
   * peak to divide).
   */
  function Report(peaks: seq<Peak>, signifText: string, expText: string): Option<string>
  {
    if signifText == "" || expText == "" then Some(Prompt)
    else
      match (ParseDecimal(signifText), ParseInt(expText))
      case (Some(s), Some(e)) =>
        if s == 0.0 && |peaks| > 0 then None
        else Some(ReportHeader + JoinWith(Entries(peaks, Concentration(s, e)), ", "))
      case _ => None
  }

  /** Building the report one peak at a time, as the handler does. */
  method CalculateExtinction(peaks: seq<Peak>, signifText: string, expText: string) returns (r: Option<string>)
    ensures r == Report(peaks, signifText, expText)
  {
    if signifText == "" || expText == "" {
      return Some(Prompt);
    }
    var significand := ParseDecimal(signifText);
    if significand.None? {
      return None;
    }
    var exponent := ParseInt(expText);
    if exponent.None? {
      return None;
    }
    var c := Concentration(significand.value, exponent.value);
    var substrings: seq<string> := [];
    var i := 0;
    while i < |peaks|
      invariant 0 <= i <= |peaks|
      invariant i > 0 ==> c.significand != 0.0
      invariant substrings == Entries(peaks[..i], c)
    {
      if c.significand == 0.0 {
        return None;
      }
      var extinction := ExtinctionOf(peaks[i].absorbance, c);
      var substring := FormatInt(peaks[i].wavelength) + " (" + RenderDisplay(FormatFloatNum(extinction)) + ")";
      EntriesAppend(peaks, c, i);
      substrings := substrings + [substring];
      i := i + 1;
    }
    assert peaks[..i] == peaks;
    r := Some(ReportHeader + JoinWith(substrings, ", "));
  }

  /**
   * The three outcomes: the prompt exactly when a field is empty, an error
   * exactly when the fields are filled but unreadable or the significand is
   * zero with peaks present, the report otherwise.
   */
  lemma ReportOutcomes(peaks: seq<Peak>, signifText: string, expText: string)
    ensures Report(peaks, signifText, expText) == Some(Prompt) <==> signifText == "" || expText == ""
    ensures Report(peaks, signifText, expText).None? <==>
      signifText != "" && expText != "" &&
      (ParseDecimal(signifText).None? || ParseInt(expText).None? ||
       (ParseDecimal(signifText).value == 0.0 && |peaks| > 0))
    ensures var r := Report(peaks, signifText, expText);
      r.Some? && r != Some(Prompt) ==> r.value[..|ReportHeader|] == ReportHeader
  {
    var r := Report(peaks, signifText, expText);
    if signifText != "" && expText != "" && r.Some? {
      var c := Concentration(ParseDecimal(signifText).value, ParseInt(expText).value);
      var listing := JoinWith(Entries(peaks, c), ", ");
      assert r.value == ReportHeader + listing;
      assert r.value[0] == ReportHeader[0] != Prompt[0];
    }
  }

  /** A shown coefficient reads back, through `float()`, to within 0.05 of x. */
  lemma ShownValueReadsBack(x: real)
    ensures ParseDecimal(RenderDisplay(FormatFloatNum(x))).Some?
    ensures -0.05 <= ParseDecimal(RenderDisplay(FormatFloatNum(x))).value - x <= 0.05
  {
    DisplayReadsBack(FormatFloatNum(x));
  }

  /**
   * Each entry reads back: the wavelength through `int()`, and the
   * coefficient through `float()` to within 0.05 of the exact one.
   */
  lemma EntryReadsBack(p: Peak, c: Concentration)
    requires c.significand != 0.0
    ensures PeakEntry(p, c)[..|FormatInt(p.wavelength)|] == FormatInt(p.wavelength)
    ensures ParseInt(FormatInt(p.wavelength)) == Some(p.wavelength)
    ensures ParseDecimal(EntryValueText(p, c)).Some?
    ensures -0.05 <= ParseDecimal(EntryValueText(p, c)).value - ExtinctionOf(p.absorbance, c) <= 0.05
  {
    ParseFormatInt(p.wavelength);
    ShownValueReadsBack(ExtinctionOf(p.absorbance, c));
  }

  /** Rounding examples: ties go to the even neighbour. */
  lemma RoundingExamples()
    ensures RoundHalfEven(2.5) == 2 && RoundHalfEven(3.5) == 4 && RoundHalfEven(-2.5) == -2
    ensures FormatFloatNum(2.96) == Whole(3) && FormatFloatNum(2.94) == Tenths(29)
    ensures FormatFloatNum(2.5) == Tenths(25) && FormatFloatNum(3.0) == Whole(3)
  {
  }

  /** The default UV concentration fields read as 5 and -5. */
  lemma DefaultUvFields()
    ensures ParseDecimal("5") == Some(5.0) && ParseInt("-5") == Some(-5)
  {
    assert ParseInt("5") == Some(5);
    ParseDecimalOfInt("5", 5);
    assert "-5"[1..] == "5";
  }

  /** Absorbance 0.5 at the default UV concentration gives the coefficient 10000. */
  lemma DefaultUvEntry()
    ensures PeakEntry(Peak(450, 0.5), Concentration(5.0, -5)) == "450 (10000)"
  {
    var c := Concentration(5.0, -5);
    assert Pow10(5) == 100000.0;
    assert ExtinctionOf(0.5, c) == 10000.0;
    assert RoundHalfEven(10.0 * 10000.0) == 100000;
    assert FormatFloatNum(10000.0) == Whole(10000);
    assert EntryValueText(Peak(450, 0.5), c) == "10000";
    assert FormatInt(450) == "450";
  }

  /**
   * With the default UV concentration in the fields ("5" and "-5"), a peak
   * of absorbance 0.5 at 450 nm is reported with the coefficient 10000.
   */
  lemma DefaultUvReport()
    ensures Report([Peak(450, 0.5)], "5", "-5") == Some(ReportHeader + "450 (10000)")
  {
    DefaultUvFields();
    DefaultUvEntry();
    assert Entries([Peak(450, 0.5)], Concentration(5.0, -5)) == ["450 (10000)"];
  }
}
