# UV-vis DSP viewer: a verified model of the spectral pipeline

The UV-vis DSP viewer opens a spectrophotometer export (a `.dsp` text file),
plots the absorbance spectrum, finds the absorbance maxima and reports their
molar extinction coefficients. This project models the computational part of
that pipeline in Dafny and proves properties about it:

- `text.dfy` (module `Text`): the Python primitives the pipeline relies on.
  These are `str.split('\n')`, `list.index`, `int()` and `float()` on a line,
  `str()` of an int, and `os.path.splitext(...)[0]`.
- `dsp_parser.dfy` (module `DspParser`): `parse_dsp_string`.
  - The reference definition is `ParseLines` / `ParseText`.
  - The method `ParseDsp` follows the viewer step by step, including the loop
    that builds the wavelength axis, and is proved equal to the reference.
  - The default configuration is the constant `DefaultConfig`.
- `peaks.dfy` (module `Peaks`): `find_peaks` and `remove_peak`.
  - The specification is the scan function `Scan`.
  - The viewer's global peak list is the field of class `Session`. Its
    `FindPeaks` loop is proved to compute `DetectedPeaks`.
- `ticks.dfy` (module `Ticks`): `generate_y_ticks`, a loop proved to stop at
  the first multiple of the step that reaches 110% of the maximum.
- `extinction.dfy` (module `Extinction`): `calculate_extinction` and
  `format_float_num`.
  - Python's `round` is modelled with ties to even.
  - The handler's loop is proved to build the text that `Report` defines.
- `wrappers.dfy`: `Option` and `Result`.

Where the viewer raises `ValueError`, `IndexError` or `ZeroDivisionError`,
the model returns an error value.
`Err` from the parser and `None` from the report stand for the exception. The
parser's `ParseError` carries the metadata whenever the viewer had already
shown it before failing.

The model follows the code in these details:

- Peak detection: the counter is not a count of *consecutive* rises. Level
  steps and drops that report nothing leave it unchanged, so it counts all
  rises since the last reported peak (`uv-vis-dsp-viewer.py:112-116`).
- Tick generation stops at the first tick that *reaches* (`>=`) the limit,
  not one that exceeds it (`uv-vis-dsp-viewer.py:72`).
- The parser does not check that `step` is positive; the model accepts any
  integer step. The strict ordering of wavelengths is stated under `step > 0`.
- When `"nm"` is the first line, the file-name line is the last line of the
  file (Python's index -1). `FileNameLine` models this.

## Model

| member | source | states |
|---|---|---|
| Text.SplitLines | uv-vis-dsp-viewer.py:39 | splitting on '\n' yields at least one line, no line contains '\n', and joining the lines with '\n' gives back the text |
| Text.SplitJoinLines | uv-vis-dsp-viewer.py:39 | lines free of '\n', joined and split again, come back unchanged |
| Text.SplitLinesPrefix | uv-vis-dsp-viewer.py:39 | a prefix without '\n' stays glued to the first line of what follows |
| Text.JoinWith | uv-vis-dsp-viewer.py:148 | `sep.join(pieces)`: the pieces with `sep` between neighbours, "" for no pieces; `SplitJoinLines` proves that splitting undoes the join with '\n' |
| Text.IndexOf | uv-vis-dsp-viewer.py:40 | `list.index` fails exactly when the element is absent; otherwise it returns a position holding it with no earlier occurrence |
| Text.IndexOfFirst | uv-vis-dsp-viewer.py:56 | a first occurrence is the position `list.index` returns |
| Text.Digits | uv-vis-dsp-viewer.py:146 | the decimal digits of a natural number are non-empty, all digits, and have that value |
| Text.DigitsNoLeadingZero | uv-vis-dsp-viewer.py:146 | the digits `str()` writes have no leading zero: a first digit '0' occurs only for 0, which is written "0" |
| Text.FormatInt | uv-vis-dsp-viewer.py:146 | `str()` of an int is non-empty, starts with '-' exactly when the number is negative, has digits everywhere else, and has no leading zero except in "0" itself |
| Text.ParseInt | uv-vis-dsp-viewer.py:43-45 | `int()` on a line: an optional sign and at least one digit give that integer, anything else is a ValueError (None); `ParseFormatInt` proves it reads every printed integer back |
| Text.ParseFormatInt | uv-vis-dsp-viewer.py:43-45 | `int()` reads back every printed integer as itself |
| Text.ParseDecimal | uv-vis-dsp-viewer.py:58 | `float()` on a line: an optional sign, then digits with at most one '.' and at least one digit, read as that number, anything else is a ValueError (None); `ParseDecimalOfInt` and `DisplayReadsBack` relate it to `int()` and to the printed coefficient |
| Text.ParseDecimalOfInt | uv-vis-dsp-viewer.py:141 | every literal `int()` accepts is read by `float()` as the same number |
| Text.LastIndexOf | uv-vis-dsp-viewer.py:42 | the result is the last position of the character, or -1 when it does not occur |
| Text.StripExtension | uv-vis-dsp-viewer.py:42 | the sample name is a prefix of the file name |
| Text.StripExtensionSpec | uv-vis-dsp-viewer.py:42 | anything stripped starts at a dot, holds no further dot or '/', and follows a non-dot character of the last path component; if nothing is stripped, every dot in that component has only dots before it |
| DspParser.Classify | uv-vis-dsp-viewer.py:46-53 | UV exactly when start + end < 2 * border (the midpoint lies below the border), and the default concentration of that class is chosen |
| DspParser.FileNameLine | uv-vis-dsp-viewer.py:41 | `dsp_lines[meta_inf_idx-1]`: the line before "nm", or the last line when "nm" is line 0 (index -1); `ParsedSpectrum` states that the parsed name comes from it |
| DspParser.HeaderField | uv-vis-dsp-viewer.py:43-45 | header line `field` after "nm", read by `int()`: IndexError (`MissingHeaderLine`) past the end of the file, ValueError (`BadHeaderInteger`) when not an integer; `HeaderErrors` states which one decides |
| DspParser.ParseHeader | uv-vis-dsp-viewer.py:43-45 | start, end and step read in that order, the first failing line deciding the error; `HeaderReads` states when it succeeds and with which values |
| DspParser.NonEmptyLines | uv-vis-dsp-viewer.py:58 | the `if i != ''` filter: the non-empty lines in file order; `NonEmptyLinesSpec` and `NonEmptyLinesAppend` state this |
| DspParser.NonEmptyLinesSpec | uv-vis-dsp-viewer.py:58 | the kept lines are exactly the non-empty ones, and there are no more of them than lines |
| DspParser.NonEmptyLinesAppend | uv-vis-dsp-viewer.py:58 | filtering distributes over concatenation, so file order is kept |
| DspParser.NonEmptyLinesOfNonEmpty | uv-vis-dsp-viewer.py:58 | lines that are all non-empty are kept unchanged |
| DspParser.ParseAll | uv-vis-dsp-viewer.py:58 | `[float(i) for i in ...]`: each line read by `float()`, in order, failing when any line is not a number; `ParseAllSpec` states this |
| DspParser.ParseAllSpec | uv-vis-dsp-viewer.py:58 | the list comprehension succeeds exactly when every line is a number; then value k is the k-th line read by `float()` |
| DspParser.ParseReadings | uv-vis-dsp-viewer.py:57-58 | the readings: the comprehension over the non-empty lines; `ReadingsSpec` states its outcome |
| DspParser.ReadingsSpec | uv-vis-dsp-viewer.py:57-58 | reading the data succeeds exactly when every non-empty line is a number; the readings are those lines, read in order |
| DspParser.Axis | uv-vis-dsp-viewer.py:59-63 | one wavelength per reading, start + i * step at position i |
| DspParser.BuildWavelengths | uv-vis-dsp-viewer.py:59-63 | the accumulating loop produces exactly the axis start + i * step |
| DspParser.ParseLines | uv-vis-dsp-viewer.py:40-64 | the reference definition of `parse_dsp_string` on split lines: "nm" located by `list.index`, file-name line, header, classification, "#DATA", readings, axis; `ParseSucceedsIff`, `ParsedSpectrum`, `HeaderErrors` and `MissingMarkers` state its outcomes |
| DspParser.ParseText | uv-vis-dsp-viewer.py:38-64 | `parse_dsp_string` on a text: split at '\n', then `ParseLines`; `ParseDsp` is proved equal to it and `ParseRenderedDsp` states its round trip |
| DspParser.ParseDsp | uv-vis-dsp-viewer.py:38-64 | the step-by-step parser equals the reference definition; a parsed spectrum has one wavelength per reading, start + i * step |
| DspParser.HeaderOk | uv-vis-dsp-viewer.py:40-53 | once "nm" is found and the header reads, the outcome is that of the data part, with the file-name line and the classification of the header |
| DspParser.DataOk | uv-vis-dsp-viewer.py:56-58 | once "#DATA" is found, the outcome is decided by the readings after it |
| DspParser.FirstIndexIsIndexOf | uv-vis-dsp-viewer.py:40 | "first position of x" and the result of `list.index` coincide |
| DspParser.ReadingsAfter | uv-vis-dsp-viewer.py:56-58 | reading the data succeeds exactly when every non-empty line after the "#DATA" line is a number |
| DspParser.HeaderReads | uv-vis-dsp-viewer.py:43-45 | the header reads exactly when three lines follow "nm" and each is an integer; its values are those integers |
| DspParser.ParseSucceedsIff | uv-vis-dsp-viewer.py:38-64 | with both markers present, parsing succeeds if and only if the three header lines are integers and every non-empty data line is a number |
| DspParser.ParsedSpectrum | uv-vis-dsp-viewer.py:38-64 | a parsed spectrum has the file name from the line before "nm", its extension stripped, the readings of the non-empty data lines, the axis start + i * step, and the classification with its concentration |
| DspParser.HeaderErrors | uv-vis-dsp-viewer.py:43-45 | the first missing or non-integer header line decides the error |
| DspParser.MissingMarkers | uv-vis-dsp-viewer.py:40-56 | without "nm" the parse fails at once; without "#DATA" it fails, carrying the metadata already shown when the header was readable |
| DspParser.RenderedSplit | uv-vis-dsp-viewer.py:39 | a rendered DSP text splits back into its lines |
| DspParser.RenderedMarkers | uv-vis-dsp-viewer.py:40 | in a rendered text `list.index` finds "nm" at line 1 and "#DATA" at line 5 |
| DspParser.RenderedHeader | uv-vis-dsp-viewer.py:43-45 | the header of a rendered text reads back as written |
| DspParser.ParseRenderedDsp | uv-vis-dsp-viewer.py:38-64 | round trip: parsing a rendered DSP text gives the readings unchanged, the axis start + i * step, the name without extension and the header's classification |
| DspParser.ScenarioName | uv-vis-dsp-viewer.py:42 | "sample.dsp" gives the sample name "sample" |
| DspParser.ScenarioClassify | uv-vis-dsp-viewer.py:226-231 | under the factory configuration, a 400-402 nm scan is UV with concentration 5e-5 mol/L |
| DspParser.UvScenario | uv-vis-dsp-viewer.py:38-64 | the 400-402 nm, step 1 sample gives the axis 400, 401, ..., the readings unchanged, the UV class and 5e-5 mol/L |
| Peaks.Rises | uv-vis-dsp-viewer.py:112-113 | a range holds at most as many rises as positions, and position 0 never rises |
| Peaks.Scan | uv-vis-dsp-viewer.py:104-116 | every reporting drop lies at a position in [1, n), so the reading before it exists |
| Peaks.ScanInvariant | uv-vis-dsp-viewer.py:104-116 | the reporting drops increase, and the counter equals the number of rises since the last report |
| Peaks.PeaksAtAppend | uv-vis-dsp-viewer.py:115 | reporting a drop at i appends the peak (wavelength, absorbance) read at i - 1 |
| Peaks.PeaksAt | uv-vis-dsp-viewer.py:115 | the peak recorded for each reporting drop at i: the wavelength and absorbance at i - 1, in the order of the drops; `PeaksAtAppend` states the one-drop step |
| Peaks.DetectedPeaks | uv-vis-dsp-viewer.py:104-116 | the peaks of the whole scan, which `Session.FindPeaks` is proved to compute; `PeakShape`, `EmissionRule` and `PeakWavelengthsIncrease` state their properties |
| Peaks.RemoveAt | uv-vis-dsp-viewer.py:123 | `del` removes exactly the element at i and keeps the others in order; the multiset loses just that element |
| Peaks.ScanPrefix | uv-vis-dsp-viewer.py:109-116 | scanning further only appends peaks, and those come later in the series |
| Peaks.ScanStep | uv-vis-dsp-viewer.py:109-116 | one step of the scan reports the current drop or nothing |
| Peaks.DropsBefore | uv-vis-dsp-viewer.py:109-116 | the peaks reported before the k-th are exactly the first k |
| Peaks.StepAt | uv-vis-dsp-viewer.py:110-116 | position i reports if and only if it drops and more than 5 rises occurred since the last report |
| Peaks.EmissionRule | uv-vis-dsp-viewer.py:112-116 | the reporting rule (a drop after more than 5 rises since the last report) holds for every position of the whole scan |
| Peaks.CountAfterDrop | uv-vis-dsp-viewer.py:114-116 | right after a drop the counter is at most the threshold |
| Peaks.PeakShape | uv-vis-dsp-viewer.py:104-116 | each peak is strictly above its right neighbour and not below its left one; the first lies at position 6 or later, each later one at least 7 positions after the previous |
| Peaks.PeakWavelengthsIncrease | uv-vis-dsp-viewer.py:115 | on an increasing axis the peaks come in strictly increasing wavelength order |
| Peaks.NoPeaksWithoutDrop | uv-vis-dsp-viewer.py:104-116 | a series that never falls has no peaks |
| Peaks.NoReportWithoutDrop | uv-vis-dsp-viewer.py:114-116 | over a stretch that never falls the scan reports nothing |
| Peaks.RisesOfClimb | uv-vis-dsp-viewer.py:112-113 | a strict climb of hi readings counts hi - 1 rises |
| Peaks.FirstDropAfterClimb | uv-vis-dsp-viewer.py:104-116 | the first drop after a non-falling stretch reports exactly when the stretch holds more than 5 rises; a strict climb of 5 steps then a drop reports nothing, one of 6 steps reports one peak |
| Peaks.RemoveKeepsOrder | uv-vis-dsp-viewer.py:119-124 | removing a peak keeps the rest in increasing wavelength order |
| Peaks.Session.constructor | uv-vis-dsp-viewer.py:25-33 | loading a spectrum stores its two series and clears the peak list |
| Peaks.Session.FindPeaks | uv-vis-dsp-viewer.py:104-117 | the loop replaces the peak list with exactly the peaks the scan specification reports |
| Peaks.Session.RemovePeak | uv-vis-dsp-viewer.py:119-124 | with a selection, the first selected peak is deleted; with none, the list is unchanged; the series are untouched |
| Ticks.Max | uv-vis-dsp-viewer.py:72 | the maximum is a reading and bounds every reading from above |
| Ticks.Min | uv-vis-dsp-viewer.py:68 | the minimum is a reading and bounds every reading from below |
| Ticks.TickStep | uv-vis-dsp-viewer.py:68-69 | the step is 0.5 exactly when max - min < 2, otherwise 1 |
| Ticks.GenerateYTicks | uv-vis-dsp-viewer.py:66-75 | ticks are 0, step, 2 step, ..., ending at the first one that reaches 1.1 * max |
| Ticks.ReachesUnique | uv-vis-dsp-viewer.py:70-74 | only one tick list stops at the first multiple reaching the limit, so the loop's result is determined |
| Ticks.TopTick | uv-vis-dsp-viewer.py:66-75 | the top tick is at least every reading and overshoots the limit by less than a step (or is the lone tick 0); readings all at most 0 give just [0] |
| Ticks.TicksExample | uv-vis-dsp-viewer.py:66-75 | readings 0.1 and 1.8 give the ticks 0, 0.5, 1, 1.5, 2 |
| Extinction.Pow10 | uv-vis-dsp-viewer.py:145 | 10 ** e is positive for every integer e |
| Extinction.Pow10Inverse | uv-vis-dsp-viewer.py:145 | 10 ** e * 10 ** -e == 1 |
| Extinction.ExtinctionOf | uv-vis-dsp-viewer.py:145 | `absorbance / significand * 10 ** (exponent * -1)`; `BeerLambert` proves the coefficient times the molarity is the absorbance |
| Extinction.BeerLambert | uv-vis-dsp-viewer.py:145 | the coefficient times the molarity gives back the absorbance |
| Extinction.RoundHalfEven | uv-vis-dsp-viewer.py:154 | `round` lies within 0.5 of its argument, and ties go to the even integer |
| Extinction.RoundNearest | uv-vis-dsp-viewer.py:154 | an integer within less than 0.5 is the rounded value |
| Extinction.FormatFloatNum | uv-vis-dsp-viewer.py:153-158 | the shown value is x rounded to one decimal, within 0.05 of x; it is an int exactly when that decimal is 0 |
| Extinction.RenderDisplay | uv-vis-dsp-viewer.py:146 | how the f-string prints the result of `format_float_num`: non-empty and starting with '-' exactly when the number is negative; `DisplayReadsBack` proves `float()` reads it back as the number |
| Extinction.TenthsText | uv-vis-dsp-viewer.py:146 | a float with one decimal as Python prints it: digits, a dot and one digit, with no leading zero before a further digit |
| Extinction.PointedDecimal | uv-vis-dsp-viewer.py:146 | in digits, a dot and digits, `float()` splits at that dot |
| Extinction.FractionOfDigit | uv-vis-dsp-viewer.py:146 | one digit after the dot is worth a tenth of its value |
| Extinction.ReadTenths | uv-vis-dsp-viewer.py:146 | a number printed with one decimal reads back as its value |
| Extinction.SignedDecimal | uv-vis-dsp-viewer.py:146 | a minus sign before a printed decimal negates the value read back |
| Extinction.NegativeTenthsReadBack | uv-vis-dsp-viewer.py:146 | a negative one-decimal value reads back |
| Extinction.TenthsReadBack | uv-vis-dsp-viewer.py:146 | every one-decimal value, sign included, reads back |
| Extinction.DisplayReadsBack | uv-vis-dsp-viewer.py:146 | `float()` of the printed result of `format_float_num` is the number it stands for |
| Extinction.Entries | uv-vis-dsp-viewer.py:143-147 | one entry per peak |
| Extinction.EntriesAppend | uv-vis-dsp-viewer.py:144-147 | one more peak appends its entry |
| Extinction.PeakEntry | uv-vis-dsp-viewer.py:146 | the entry `f'{peak[0]} ({format_float_num(extinction)})'`; `EntryReadsBack` states that it starts with the wavelength `int()` reads back and that its coefficient reads back to within 0.05 |
| Extinction.CalculateExtinction | uv-vis-dsp-viewer.py:139-151 | the handler's loop builds exactly the report text, or fails where `float()`, `int()` or the division raise |
| Extinction.Report | uv-vis-dsp-viewer.py:139-151 | the text the handler sets: the prompt when a field is empty, otherwise the "λ max" header and the entries joined with ", ", or None where `float()`, `int()` or the division raise; `ReportOutcomes` states its cases and `CalculateExtinction` is proved to build it |
| Extinction.ReportOutcomes | uv-vis-dsp-viewer.py:139-151 | the prompt appears exactly when a field is empty; a failure happens exactly when a field is unreadable, or the significand is 0 with peaks present; otherwise the text starts with the "λ max" header |
| Extinction.ShownValueReadsBack | uv-vis-dsp-viewer.py:146 | the shown coefficient reads back to within 0.05 of the exact one |
| Extinction.EntryReadsBack | uv-vis-dsp-viewer.py:146 | an entry starts with the wavelength, which `int()` reads back, and its coefficient reads back to within 0.05 |
| Extinction.RoundingExamples | uv-vis-dsp-viewer.py:153-158 | 2.5 rounds to 2, 3.5 to 4, and -2.5 to -2; 2.96 shows as 3, 2.94 as 2.9, 2.5 as 2.5 |
| Extinction.DefaultUvFields | uv-vis-dsp-viewer.py:226-231 | the UV default concentration fields "5" and "-5" read as 5.0 and -5 |
| Extinction.DefaultUvEntry | uv-vis-dsp-viewer.py:145-146 | absorbance 0.5 at 450 nm and 5e-5 mol/L gives the entry "450 (10000)" |
| Extinction.DefaultUvReport | uv-vis-dsp-viewer.py:139-151 | with the UV default fields, that peak gives the report "λ max, nm (ε): 450 (10000)" |

## Left out

- The Tk window, the listbox and its refresh (`refresh_peaks_listbox`), the buttons, the menus, the settings dialog, the language selection and `gettext`: user-interface code. Labels are the English ones ("nm", "UV").
- Plotting with matplotlib (`build_plot`): only the tick list it uses is modelled.
- File dialogs, reading the file and decoding with `chardet` and `str.replace('\r', '')`: I/O. The parser takes text that is already decoded and free of carriage returns.
- Saving and loading the configuration (JSON) and the custom settings branch of `set_config`: I/O and UI. The parser takes any `Config` as a parameter, and `DefaultConfig` is the factory one.
- Copying the report to the clipboard and writing it into the text variable: UI. The report text is the result of `Report`.
- Floating point: readings, ticks and coefficients are exact reals, so IEEE rounding is not modelled. This covers `max * 1.1`, the division in the extinction, and `round` acting on the nearest double. Python's `repr` switching to exponent notation for very large or very small values is also not modelled.
- Extinction.Report: returns the exact coefficient where the viewer raises `OverflowError`. This happens when `10 ** (conc_exponent * -1)` is an int too large to convert to a float (an exponent field such as "-400", `uv-vis-dsp-viewer.py:145`), or when the coefficient overflows to infinity and `round` rejects it (`uv-vis-dsp-viewer.py:154`). Values are exact reals, so these float limits are not modelled.
- The classification's `(start + end) / 2 < border` is exact on integers. Float rounding for integers beyond 2**53 is not modelled.
- Text.ParseInt: accepts only an optional sign followed by ASCII digits. Python's `int()` also accepts surrounding whitespace, underscores and other Unicode digits.
- Text.ParseDecimal: accepts only plain decimal notation. Python's `float()` also accepts exponents, "inf", "nan", whitespace and underscores.
- Text.StripExtension: treats only '/' as a path separator (POSIX `os.path`). The Windows separator '\\' is not modelled.
- Ticks.GenerateYTicks: requires a non-empty series. The viewer can reach the plot with empty lists: `load_file` plots a file whose "#DATA" line has no readings after it (`uv-vis-dsp-viewer.py:33-36`), and "Update plot" plots the lists cleared at line 25 after a failed load (line 343). In both cases `min(wavelength_list)` at line 83 raises before `generate_y_ticks` is called at line 91, so the ticks are never computed for an empty series.
- Peaks.Session.RemovePeak: requires the selected position to be in range. The listbox shows exactly the peak list, so its selection always is.
- Exceptions the viewer leaves uncaught (`ValueError`, `IndexError`, `ZeroDivisionError`) are modelled as `Err` or `None` results. Whatever the UI did before the exception is carried only as the metadata inside `NoDataMarker` and `BadReading`.
