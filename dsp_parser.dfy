/**
 * The DSP text format of the spectrophotometer export: a file-name line, the
 * unit marker line "nm", three integer lines (start, end and step of the
 * scan, in nm), and after the marker line "#DATA" one absorbance reading per
 * non-empty line.  The parser turns already decoded text into a spectrum;
 * what the viewer shows as a side effect while parsing (the metadata message
 * and the default concentration it writes into the two entry fields) is
 * returned as the spectrum's Metadata.
 */
module DspParser {
  import opened Wrappers
  import opened Text

  /** A molar concentration significand * 10^exponent mol/L. */
  datatype Concentration = Concentration(significand: real, exponent: int)

  /** The parts of the viewer's configuration the parser reads. */
  datatype Config = Config(uvVisBorder: int, uvDefaultConc: Concentration, visDefaultConc: Concentration)

  /** The factory configuration: border at 500 nm, UV 5e-5 mol/L, visible 1e-2 mol/L. */
  const DefaultConfig := Config(500, Concentration(5.0, -5), Concentration(1.0, -2))

  const UnitMarker := "nm"
  const DataMarker := "#DATA"

  datatype SpectrumType = UV | Visible

  /**
   * What the viewer learns from the header: the file-name line, the three
   * integers, the classification and the default concentration it selects.
   */
  datatype Metadata = Metadata(
    fileName: string,
    start: int,
    end: int,
    step: int,
    spectrumType: SpectrumType,
    concentration: Concentration)

  datatype Spectrum = Spectrum(name: string, wavelengths: seq<int>, absorbances: seq<real>, meta: Metadata)

  /**
   * Why a file cannot be read.  The header lines are numbered 1 (start),
   * 2 (end) and 3 (step).  The last two errors arise after the metadata
   * has already been shown and the default concentration applied, so they
   * carry that metadata.
   */
  datatype ParseError =
    | NoUnitMarker
    | MissingHeaderLine(field: nat)
    | BadHeaderInteger(field: nat)
    | NoDataMarker(shown: Metadata)
    | BadReading(shown: Metadata)

  /** `i` is the first position of `x` in `s`. */
  predicate FirstIndex(s: seq<string>, x: string, i: nat)
  {
    i < |s| && s[i] == x && x !in s[..i]
  }

  /**
   * The classification: UV when the midpoint of the scan lies below the
   * border, visible otherwise; the matching default concentration goes
   * with it.  For integers, a midpoint below the border is the same as
   * start + end < 2 * border.
   */
  function Classify(fileName: string, start: int, end: int, step: int, config: Config): (meta: Metadata)
    ensures meta.spectrumType == UV <==> start + end < 2 * config.uvVisBorder
    ensures meta.concentration == (if start + end < 2 * config.uvVisBorder then config.uvDefaultConc else config.visDefaultConc)
    ensures meta.fileName == fileName && meta.start == start && meta.end == end && meta.step == step
  {
    if (start + end) as real / 2.0 < config.uvVisBorder as real then
      Metadata(fileName, start, end, step, UV, config.uvDefaultConc)
    else
      Metadata(fileName, start, end, step, Visible, config.visDefaultConc)
  }

  /**
   * The line before the unit marker at m, as Python's `lines[m - 1]` reads
   * it: index -1, the last line, when the marker is the first line.
   */
  function FileNameLine(lines: seq<string>, m: nat): string
    requires m < |lines|
  {
    if m == 0 then lines[|lines| - 1] else lines[m - 1]
  }

  /** Header line `field` (1, 2 or 3) after the unit marker at `m`, read as an integer. */
  function HeaderField(lines: seq<string>, m: nat, field: nat): Result<int, ParseError>
  {
    if m + field >= |lines| then Err(MissingHeaderLine(field))
    else
      match ParseInt(lines[m + field])
      case None => Err(BadHeaderInteger(field))
      case Some(v) => Ok(v)
  }

  /** The three header integers after the unit marker at `m`, read in order. */
  function ParseHeader(lines: seq<string>, m: nat): Result<(int, int, int), ParseError>
  {
    var start :- HeaderField(lines, m, 1);
    var end :- HeaderField(lines, m, 2);
    var step :- HeaderField(lines, m, 3);
    Ok((start, end, step))
  }

  /** The non-empty lines, in their order. */
  function NonEmptyLines(lines: seq<string>): seq<string>
  {
    if lines == [] then []
    else (if lines[0] == "" then [] else [lines[0]]) + NonEmptyLines(lines[1..])
  }

  /** The kept lines are exactly the non-empty ones, and there are no more of them than lines. */
  lemma {:induction false} NonEmptyLinesSpec(lines: seq<string>)
    ensures |NonEmptyLines(lines)| <= |lines|
    ensures forall x :: x in NonEmptyLines(lines) <==> x in lines && x != ""
  {
    if lines != [] {
      NonEmptyLinesSpec(lines[1..]);
      assert lines == [lines[0]] + lines[1..];
    }
  }

  /** Filtering distributes over concatenation: the kept lines stay in file order. */
  lemma {:induction false} NonEmptyLinesAppend(a: seq<string>, b: seq<string>)
    ensures NonEmptyLines(a + b) == NonEmptyLines(a) + NonEmptyLines(b)
  {
    if a != [] {
      assert (a + b)[0] == a[0];
      assert (a + b)[1..] == a[1..] + b;
      NonEmptyLinesAppend(a[1..], b);
    } else {
      assert a + b == b;
    }
  }

  /** Lines that are all non-empty are kept as they are. */
  lemma {:induction false} NonEmptyLinesOfNonEmpty(lines: seq<string>)
    requires forall k :: 0 <= k < |lines| ==> lines[k] != ""
    ensures NonEmptyLines(lines) == lines
  {
    if lines != [] {
      NonEmptyLinesOfNonEmpty(lines[1..]);
      assert lines == [lines[0]] + lines[1..];
    }
  }

  /** Every line read as a decimal number, in order; None when one of them is not a number. */
  function ParseAll(lines: seq<string>): Option<seq<real>>
  {
    if lines == [] then Some([])
    else
      match (ParseDecimal(lines[0]), ParseAll(lines[1..]))
      case (Some(v), Some(vs)) => Some([v] + vs)
      case _ => None
  }

  /** ParseAll succeeds exactly when every line is a number, and then reads each in place. */
  lemma {:induction false} ParseAllSpec(lines: seq<string>)
    ensures ParseAll(lines).Some? <==> forall k :: 0 <= k < |lines| ==> ParseDecimal(lines[k]).Some?
    ensures ParseAll(lines).Some? ==>
      |ParseAll(lines).value| == |lines| &&
      forall k :: 0 <= k < |lines| ==> ParseDecimal(lines[k]) == Some(ParseAll(lines).value[k])
  {
    if lines != [] {
      ParseAllSpec(lines[1..]);
      assert forall k :: 1 <= k < |lines| ==> lines[k] == lines[1..][k - 1];
    }
  }

  /** The readings: the non-empty lines, each read as a decimal number, in order. */
  function ParseReadings(lines: seq<string>): Option<seq<real>>
  {
    ParseAll(NonEmptyLines(lines))
  }

  /**
   * Reading the data succeeds exactly when every non-empty line is a
   * number; the readings are then the non-empty lines, read in order.
   */
  lemma ReadingsSpec(lines: seq<string>)
    ensures ParseReadings(lines).Some? <==>
      forall k :: 0 <= k < |lines| && lines[k] != "" ==> ParseDecimal(lines[k]).Some?
    ensures ParseReadings(lines).Some? ==>
      |ParseReadings(lines).value| == |NonEmptyLines(lines)| &&
      forall k :: 0 <= k < |NonEmptyLines(lines)| ==>
        ParseDecimal(NonEmptyLines(lines)[k]) == Some(ParseReadings(lines).value[k])
  {
    var kept := NonEmptyLines(lines);
    NonEmptyLinesSpec(lines);
    ParseAllSpec(kept);
    if forall k :: 0 <= k < |lines| && lines[k] != "" ==> ParseDecimal(lines[k]).Some? {
      forall j | 0 <= j < |kept|
        ensures ParseDecimal(kept[j]).Some?
      {
        assert kept[j] in lines;
      }
    }
    if forall j :: 0 <= j < |kept| ==> ParseDecimal(kept[j]).Some? {
      forall k | 0 <= k < |lines| && lines[k] != ""
        ensures ParseDecimal(lines[k]).Some?
      {
        assert lines[k] in kept;
      }
    }
  }

  /**
   * The reference definition of parsing, on the lines of the file.  The
   * file-name line is the one before the first "nm" line (Python's index -1,
   * the last line, when "nm" is the first line); the wavelength axis starts
   * at `start` and advances by `step` once per reading.
   */
  function ParseLines(lines: seq<string>, config: Config): Result<Spectrum, ParseError>
    requires |lines| >= 1
  {
    match IndexOf(lines, UnitMarker)
    case None => Err(NoUnitMarker)
    case Some(m) =>
      var fileName := FileNameLine(lines, m);
      var header :- ParseHeader(lines, m);
      ParseData(lines, IndexOf(lines, DataMarker), fileName, header, Classify(fileName, header.0, header.1, header.2, config))
  }

  /**
   * The part after the header, given where the first "#DATA" line is (if
   * anywhere): the readings after it.  The metadata has been shown by then,
   * so both errors carry it.
   */
  function ParseData(lines: seq<string>, dataIdx: Option<nat>, fileName: string, header: (int, int, int), meta: Metadata): Result<Spectrum, ParseError>
    requires dataIdx.Some? ==> dataIdx.value < |lines|
  {
    match dataIdx
    case None => Err(NoDataMarker(meta))
    case Some(d) => ReadingsResult(ParseReadings(lines[d + 1..]), fileName, header, meta)
  }

  /** The outcome once the readings are parsed: the spectrum, or the error for a bad reading. */
  function ReadingsResult(readings: Option<seq<real>>, fileName: string, header: (int, int, int), meta: Metadata): Result<Spectrum, ParseError>
  {
    match readings
    case None => Err(BadReading(meta))
    case Some(values) => Ok(Assemble(fileName, header, values, meta))
  }

  /** The spectrum of a parsed file: its name, the wavelength axis, the readings and the metadata. */
  function Assemble(fileName: string, header: (int, int, int), readings: seq<real>, meta: Metadata): Spectrum
  {
    Spectrum(StripExtension(fileName), Axis(header.0, header.2, |readings|), readings, meta)
  }

  /** The wavelength axis: `count` values from `start`, `step` apart. */
  function Axis(start: int, step: int, count: nat): (axis: seq<int>)
    ensures |axis| == count
    ensures forall i :: 0 <= i < count ==> axis[i] == start + i * step
  {
    seq(count, i => start + i * step)
  }

  /** Parsing a whole text: split at line feeds, then `ParseLines`. */
  function ParseText(text: string, config: Config): Result<Spectrum, ParseError>
  {
    ParseLines(SplitLines(text), config)
  }

  /** Building the wavelength axis one reading at a time. */
  method BuildWavelengths(start: int, step: int, count: nat) returns (wavelengths: seq<int>)
    ensures wavelengths == Axis(start, step, count)
  {
    wavelengths := [];
    var current := start;
    var i := 0;
    while i < count
      invariant 0 <= i <= count
      invariant |wavelengths| == i
      invariant current == start + i * step
      invariant forall j :: 0 <= j < i ==> wavelengths[j] == start + j * step
    {
      wavelengths := wavelengths + [current];
      current := current + step;
      i := i + 1;
    }
    assert wavelengths == Axis(start, step, count);
  }

  /**
   * Parsing as the viewer does it, step by step; it agrees with the
   * reference definition, and a spectrum it returns has one wavelength per
   * reading, `start + i * step` at position i.
   */
  method ParseDsp(text: string, config: Config) returns (r: Result<Spectrum, ParseError>)
    ensures r == ParseText(text, config)
    ensures r.Ok? ==>
      |r.value.wavelengths| == |r.value.absorbances| &&
      forall i :: 0 <= i < |r.value.wavelengths| ==>
        r.value.wavelengths[i] == r.value.meta.start + i * r.value.meta.step
  {
    var lines := SplitLines(text);
    var unitIdx := IndexOf(lines, UnitMarker);
    if unitIdx.None? {
      return Err(NoUnitMarker);
    }
    var m := unitIdx.value;
    var fileName := FileNameLine(lines, m);
    var name := StripExtension(fileName);
    var start := HeaderField(lines, m, 1);
    if start.Err? {
      return Err(start.error);
    }
    var end := HeaderField(lines, m, 2);
    if end.Err? {
      return Err(end.error);
    }
    var step := HeaderField(lines, m, 3);
    if step.Err? {
      return Err(step.error);
    }
    assert ParseHeader(lines, m) == Ok((start.value, end.value, step.value));
    var meta := Classify(fileName, start.value, end.value, step.value, config);
    var dataIdx := IndexOf(lines, DataMarker);
    if dataIdx.None? {
      return Err(NoDataMarker(meta));
    }
    var readings := ParseReadings(lines[dataIdx.value + 1..]);
    if readings.None? {
      return Err(BadReading(meta));
    }
    var wavelengths := BuildWavelengths(start.value, step.value, |readings.value|);
    r := Ok(Spectrum(name, wavelengths, readings.value, meta));
    HeaderOk(lines, config, m, (start.value, end.value, step.value));
    DataOk(lines, dataIdx, fileName, (start.value, end.value, step.value), meta, dataIdx.value);
  }

  /** Past a readable header, parsing goes on with the data part. */
  lemma HeaderOk(lines: seq<string>, config: Config, m: nat, header: (int, int, int))
    requires |lines| >= 1 && m < |lines|
    requires IndexOf(lines, UnitMarker) == Some(m) && ParseHeader(lines, m) == Ok(header)
    ensures ParseLines(lines, config) ==
      ParseData(lines, IndexOf(lines, DataMarker), FileNameLine(lines, m), header,
                Classify(FileNameLine(lines, m), header.0, header.1, header.2, config))
  {
  }

  /** After the first "#DATA" line at d, the outcome is decided by the readings after it. */
  lemma DataOk(lines: seq<string>, dataIdx: Option<nat>, fileName: string, header: (int, int, int), meta: Metadata, d: nat)
    requires d < |lines| && dataIdx == Some(d)
    ensures ParseData(lines, dataIdx, fileName, header, meta) ==
      ReadingsResult(ParseReadings(lines[d + 1..]), fileName, header, meta)
  {
  }

  /** The first position is what `list.index` finds. */
  lemma FirstIndexIsIndexOf(lines: seq<string>, x: string, i: nat)
    ensures FirstIndex(lines, x, i) <==> IndexOf(lines, x) == Some(i)
  {
  }

  /** The lines after position d, as ParseReadings sees them. */
  lemma ReadingsAfter(lines: seq<string>, d: nat)
    requires d < |lines|
    ensures (forall j :: d < j < |lines| && lines[j] != "" ==> ParseDecimal(lines[j]).Some?) <==>
            ParseReadings(lines[d + 1..]).Some?
  {
    ReadingsSpec(lines[d + 1..]);
    assert forall j :: d < j < |lines| ==> lines[j] == lines[d + 1..][j - d - 1];
  }

  /** The header reads when its three lines exist and are integers. */
  lemma HeaderReads(lines: seq<string>, m: nat)
    ensures ParseHeader(lines, m).Ok? <==>
      m + 3 < |lines| &&
      ParseInt(lines[m + 1]).Some? && ParseInt(lines[m + 2]).Some? && ParseInt(lines[m + 3]).Some?
    ensures ParseHeader(lines, m).Ok? ==>
      ParseHeader(lines, m).value ==
        (ParseInt(lines[m + 1]).value, ParseInt(lines[m + 2]).value, ParseInt(lines[m + 3]).value)
  {
  }

  /**
   * When parsing succeeds, with the first "nm" line at m and the first
   * "#DATA" line at d: three integer lines follow "nm" and every non-empty
   * line after "#DATA" is a number; and conversely.
   */
  lemma ParseSucceedsIff(lines: seq<string>, config: Config, m: nat, d: nat)
    requires |lines| >= 1
    requires FirstIndex(lines, UnitMarker, m) && FirstIndex(lines, DataMarker, d)
    ensures ParseLines(lines, config).Ok? <==>
      m + 3 < |lines| &&
      ParseInt(lines[m + 1]).Some? && ParseInt(lines[m + 2]).Some? && ParseInt(lines[m + 3]).Some? &&
      forall j :: d < j < |lines| && lines[j] != "" ==> ParseDecimal(lines[j]).Some?
  {
    FirstIndexIsIndexOf(lines, UnitMarker, m);
    FirstIndexIsIndexOf(lines, DataMarker, d);
    HeaderReads(lines, m);
    ReadingsAfter(lines, d);
  }

  /**
   * What a parsed spectrum holds, in terms of the first "nm" line at m and
   * the first "#DATA" line at d (found independently of each other).
   */
  lemma ParsedSpectrum(lines: seq<string>, config: Config, m: nat, d: nat)
    requires |lines| >= 1
    requires FirstIndex(lines, UnitMarker, m) && FirstIndex(lines, DataMarker, d)
    requires ParseLines(lines, config).Ok?
    ensures var s := ParseLines(lines, config).value;
      && m + 3 < |lines|
      && ParseInt(lines[m + 1]) == Some(s.meta.start)
      && ParseInt(lines[m + 2]) == Some(s.meta.end)
      && ParseInt(lines[m + 3]) == Some(s.meta.step)
      && s.meta.fileName == FileNameLine(lines, m)
      && s.name == StripExtension(s.meta.fileName)
      && |s.absorbances| == |NonEmptyLines(lines[d + 1..])|
      && (forall k :: 0 <= k < |s.absorbances| ==>
            ParseDecimal(NonEmptyLines(lines[d + 1..])[k]) == Some(s.absorbances[k]))
      && |s.wavelengths| == |s.absorbances|
      && (forall i :: 0 <= i < |s.wavelengths| ==> s.wavelengths[i] == s.meta.start + i * s.meta.step)
      && (s.meta.spectrumType == UV <==> s.meta.start + s.meta.end < 2 * config.uvVisBorder)
      && s.meta.concentration == (if s.meta.spectrumType == UV then config.uvDefaultConc else config.visDefaultConc)
  {
    FirstIndexIsIndexOf(lines, UnitMarker, m);
    FirstIndexIsIndexOf(lines, DataMarker, d);
    HeaderReads(lines, m);
    var fileName := FileNameLine(lines, m);
    var header := ParseHeader(lines, m).value;
    var readings := ParseReadings(lines[d + 1..]);
    ReadingsSpec(lines[d + 1..]);
    assert readings.Some?;
    var meta := Classify(fileName, header.0, header.1, header.2, config);
    assert ParseLines(lines, config).value ==
      Spectrum(StripExtension(fileName), Axis(header.0, header.2, |readings.value|), readings.value, meta);
  }

  /**
   * A bad header: with the first k-1 header lines readable, a k-th header
   * line that is missing or not an integer decides the error.
   */
  lemma HeaderErrors(lines: seq<string>, config: Config, m: nat, k: nat)
    requires |lines| >= 1 && FirstIndex(lines, UnitMarker, m) && 1 <= k <= 3
    requires k >= 2 ==> m + 1 < |lines| && ParseInt(lines[m + 1]).Some?
    requires k >= 3 ==> m + 2 < |lines| && ParseInt(lines[m + 2]).Some?
    requires m + k >= |lines| || ParseInt(lines[m + k]).None?
    ensures ParseLines(lines, config) ==
      Err(if m + k >= |lines| then MissingHeaderLine(k) else BadHeaderInteger(k))
  {
    FirstIndexIsIndexOf(lines, UnitMarker, m);
    assert ParseHeader(lines, m) == Err(if m + k >= |lines| then MissingHeaderLine(k) else BadHeaderInteger(k));
  }

  /**
   * Missing marker lines: without "nm" nothing is read; without "#DATA" the
   * file is refused, and when the header was readable its metadata has
   * already been produced.
   */
  lemma MissingMarkers(lines: seq<string>, config: Config, m: nat)
    requires |lines| >= 1
    ensures UnitMarker !in lines ==> ParseLines(lines, config) == Err(NoUnitMarker)
    ensures DataMarker !in lines ==> ParseLines(lines, config).Err?
    ensures DataMarker !in lines && FirstIndex(lines, UnitMarker, m) && m + 3 < |lines| &&
            ParseInt(lines[m + 1]).Some? && ParseInt(lines[m + 2]).Some? && ParseInt(lines[m + 3]).Some? ==>
      ParseLines(lines, config) == Err(NoDataMarker(Classify(
        FileNameLine(lines, m),
        ParseInt(lines[m + 1]).value, ParseInt(lines[m + 2]).value, ParseInt(lines[m + 3]).value, config)))
  {
    FirstIndexIsIndexOf(lines, UnitMarker, m);
    HeaderReads(lines, m);
  }

  /** A DSP text with the given header and one reading per line. */
  function RenderDsp(fileName: string, start: int, end: int, step: int, readingLines: seq<string>): string
  {
    JoinWith(RenderedLines(fileName, start, end, step, readingLines), "\n")
  }

  /**
   * Round trip: parsing a rendered DSP text gives back the readings
   * unchanged, the axis start + i * step, the file name without its
   * extension and the classification of the header.
   */
  lemma {:induction false} ParseRenderedDsp(
    fileName: string, start: int, end: int, step: int,
    readingLines: seq<string>, values: seq<real>, config: Config)
    requires '\n' !in fileName && fileName != UnitMarker && fileName != DataMarker
    requires |readingLines| == |values|
    requires forall k :: 0 <= k < |readingLines| ==>
      readingLines[k] != "" && '\n' !in readingLines[k] && ParseDecimal(readingLines[k]) == Some(values[k])
    ensures ParseText(RenderDsp(fileName, start, end, step, readingLines), config) ==
      Ok(Spectrum(StripExtension(fileName), Axis(start, step, |values|), values,
                  Classify(fileName, start, end, step, config)))
  {
    var lines := RenderedLines(fileName, start, end, step, readingLines);
    RenderedSplit(fileName, start, end, step, readingLines);
    RenderedMarkers(fileName, start, end, step, readingLines);
    RenderedHeader(fileName, start, end, step, readingLines);
    NonEmptyLinesOfNonEmpty(readingLines);
    ReadingsSpec(readingLines);
    var readings := ParseReadings(readingLines);
    assert readings.Some?;
    assert readings.value == values;
    HeaderOk(lines, config, 1, (start, end, step));
    DataOk(lines, IndexOf(lines, DataMarker), fileName, (start, end, step), Classify(fileName, start, end, step, config), 5);
    assert FileNameLine(lines, 1) == fileName;
  }

  /** The lines of a rendered file. */
  function RenderedLines(fileName: string, start: int, end: int, step: int, readingLines: seq<string>): (lines: seq<string>)
    ensures |lines| == 6 + |readingLines| && lines[6..] == readingLines
    ensures lines[0] == fileName && lines[1] == UnitMarker && lines[5] == DataMarker
    ensures lines[2] == FormatInt(start) && lines[3] == FormatInt(end) && lines[4] == FormatInt(step)
  {
    [fileName, UnitMarker, FormatInt(start), FormatInt(end), FormatInt(step), DataMarker] + readingLines
  }

  /** A printed integer is a line of its own and neither marker. */
  lemma FormatIntLine(x: int)
    ensures '\n' !in FormatInt(x) && FormatInt(x) != UnitMarker && FormatInt(x) != DataMarker
  {
    assert FormatInt(x)[0] != DataMarker[0] && FormatInt(x)[0] != UnitMarker[0];
  }

  /** No line of a rendered file holds a line feed. */
  lemma RenderedLinesNoFeed(fileName: string, start: int, end: int, step: int, readingLines: seq<string>)
    requires '\n' !in fileName
    requires forall k :: 0 <= k < |readingLines| ==> '\n' !in readingLines[k]
    ensures var lines := RenderedLines(fileName, start, end, step, readingLines);
      forall k :: 0 <= k < |lines| ==> '\n' !in lines[k]
  {
    FormatIntLine(start);
    FormatIntLine(end);
    FormatIntLine(step);
    NoFeedLines([fileName, UnitMarker, FormatInt(start), FormatInt(end), FormatInt(step), DataMarker], readingLines);
  }

  /** Two runs of lines free of line feeds make one. */
  lemma NoFeedLines(head: seq<string>, tail: seq<string>)
    requires forall k :: 0 <= k < |head| ==> '\n' !in head[k]
    requires forall k :: 0 <= k < |tail| ==> '\n' !in tail[k]
    ensures forall k :: 0 <= k < |head + tail| ==> '\n' !in (head + tail)[k]
  {
    forall k | 0 <= k < |head + tail|
      ensures '\n' !in (head + tail)[k]
    {
      if k >= |head| {
        assert (head + tail)[k] == tail[k - |head|];
      }
    }
  }

  /** Splitting a rendered file gives back its lines. */
  lemma RenderedSplit(fileName: string, start: int, end: int, step: int, readingLines: seq<string>)
    requires '\n' !in fileName
    requires forall k :: 0 <= k < |readingLines| ==> '\n' !in readingLines[k]
    ensures SplitLines(RenderDsp(fileName, start, end, step, readingLines)) ==
      RenderedLines(fileName, start, end, step, readingLines)
  {
    RenderedLinesNoFeed(fileName, start, end, step, readingLines);
    SplitJoinLines(RenderedLines(fileName, start, end, step, readingLines));
  }

  /** In a rendered file the markers sit at lines 1 and 5. */
  lemma RenderedMarkers(fileName: string, start: int, end: int, step: int, readingLines: seq<string>)
    requires fileName != UnitMarker && fileName != DataMarker
    ensures var lines := RenderedLines(fileName, start, end, step, readingLines);
      IndexOf(lines, UnitMarker) == Some(1) && IndexOf(lines, DataMarker) == Some(5)
  {
    var lines := RenderedLines(fileName, start, end, step, readingLines);
    FormatIntLine(start);
    FormatIntLine(end);
    FormatIntLine(step);
    MarkersAt(lines);
  }

  /** Markers at lines 1 and 5, and neither marker on the other lines before them. */
  lemma MarkersAt(lines: seq<string>)
    requires |lines| >= 6 && lines[1] == UnitMarker && lines[5] == DataMarker
    requires forall j :: 0 <= j < 5 && j != 1 ==> lines[j] != UnitMarker && lines[j] != DataMarker
    ensures IndexOf(lines, UnitMarker) == Some(1) && IndexOf(lines, DataMarker) == Some(5)
  {
    IndexOfFirst(lines, UnitMarker, 1);
    IndexOfFirst(lines, DataMarker, 5);
  }

  /** The header of a rendered file reads back as written. */
  lemma RenderedHeader(fileName: string, start: int, end: int, step: int, readingLines: seq<string>)
    ensures ParseHeader(RenderedLines(fileName, start, end, step, readingLines), 1) == Ok((start, end, step))
  {
    var lines := RenderedLines(fileName, start, end, step, readingLines);
    ParseFormatInt(start);
    ParseFormatInt(end);
    ParseFormatInt(step);
    HeaderReads(lines, 1);
  }

  /** The sample name of the scenario below: "sample.dsp" loses its extension. */
  lemma ScenarioName()
    ensures StripExtension("sample.dsp") == "sample"
  {
    var name := "sample.dsp";
    assert '/' !in name && name[6] == '.' && name[0] != '.';
    assert name[7] != '.' && name[8] != '.' && name[9] != '.' && |name| == 10;
    assert LastIndexOf(name, '.') == 6;
    assert StripExtension(name) == name[..6] == "sample";
  }

  /**
   * A UV sample: "sample.dsp" scanned from 400 to 402 nm in steps of 1, read
   * with the factory configuration (midpoint 401 nm, below the 500 nm
   * border): the axis is 400, 401, ..., the UV default 5e-5 mol/L is chosen.
   */
  lemma UvScenario(readingLines: seq<string>, values: seq<real>)
    requires |readingLines| == |values|
    requires forall k :: 0 <= k < |readingLines| ==>
      readingLines[k] != "" && '\n' !in readingLines[k] && ParseDecimal(readingLines[k]) == Some(values[k])
    ensures ParseText(RenderDsp("sample.dsp", 400, 402, 1, readingLines), DefaultConfig) ==
      Ok(Spectrum("sample", Axis(400, 1, |values|), values,
                  Metadata("sample.dsp", 400, 402, 1, UV, Concentration(5.0, -5))))
  {
    var name := "sample.dsp";
    assert '\n' !in name && name != UnitMarker && name != DataMarker;
    ParseRenderedDsp(name, 400, 402, 1, readingLines, values, DefaultConfig);
    ScenarioName();
    ScenarioClassify();
  }

  /** Midpoint 401 nm is below the 500 nm border of the factory configuration. */
  lemma ScenarioClassify()
    ensures Classify("sample.dsp", 400, 402, 1, DefaultConfig) ==
      Metadata("sample.dsp", 400, 402, 1, UV, Concentration(5.0, -5))
  {
  }
}
