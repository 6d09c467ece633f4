/**
 * The string and list primitives that the DSP parser and the extinction
 * report rely on: splitting into lines and joining, the first index of an
 * element, integer and decimal literals, and the extension of a file name.
 */
module Text {
  import opened Wrappers

  /** The pieces joined with `sep` between neighbours (the empty list joins to ""). */
  function JoinWith(pieces: seq<string>, sep: string): string
  {
    if |pieces| == 0 then ""
    else if |pieces| == 1 then pieces[0]
    else pieces[0] + sep + JoinWith(pieces[1..], sep)
  }

  /**
   * Splitting on every line feed: there is always at least one line, no
   * line holds a line feed, and joining the lines back gives the text.
   */
  function SplitLines(s: string): (lines: seq<string>)
    ensures |lines| >= 1
    ensures forall k :: 0 <= k < |lines| ==> '\n' !in lines[k]
    ensures JoinWith(lines, "\n") == s
    decreases |s|
  {
    if s == [] then [""]
    else
      var rest := SplitLines(s[1..]);
      if s[0] == '\n' then
        assert s == "\n" + s[1..];
        [""] + rest
      else
        var lines := [[s[0]] + rest[0]] + rest[1..];
        assert lines[1..] == rest[1..];
        assert s == [s[0]] + s[1..];
        lines
  }

  /** Splitting a line free of line feeds in front of any text. */
  lemma {:induction false} SplitLinesPrefix(w: string, t: string)
    requires '\n' !in w
    ensures SplitLines(w + t) == [w + SplitLines(t)[0]] + SplitLines(t)[1..]
    decreases |w|
  {
    if w != [] {
      assert (w + t)[1..] == w[1..] + t;
      assert (w + t)[0] == w[0];
      SplitLinesPrefix(w[1..], t);
      assert [w[0]] + (w[1..] + SplitLines(t)[0]) == w + SplitLines(t)[0];
    } else {
      assert w + t == t;
      assert w + SplitLines(t)[0] == SplitLines(t)[0];
      assert SplitLines(t) == [SplitLines(t)[0]] + SplitLines(t)[1..];
    }
  }

  /** Lines without line feeds survive a join followed by a split. */
  lemma {:induction false} SplitJoinLines(lines: seq<string>)
    requires |lines| >= 1
    requires forall k :: 0 <= k < |lines| ==> '\n' !in lines[k]
    ensures SplitLines(JoinWith(lines, "\n")) == lines
  {
    if |lines| == 1 {
      SplitLinesPrefix(lines[0], "");
      assert lines[0] + "" == lines[0];
    } else {
      var tail := JoinWith(lines[1..], "\n");
      SplitJoinLines(lines[1..]);
      SplitLinesPrefix(lines[0], "\n" + tail);
      assert ("\n" + tail)[1..] == tail;
      assert SplitLines("\n" + tail) == [""] + lines[1..];
      assert lines[0] + "" == lines[0];
      assert lines == [lines[0]] + lines[1..];
      assert lines[0] + "\n" + tail == lines[0] + ("\n" + tail);
    }
  }

  /** Python's `list.index`: the first position of `x`, or None when `x` is absent. */
  function IndexOf<T(==)>(s: seq<T>, x: T): (r: Option<nat>)
    ensures r.None? <==> x !in s
    ensures r.Some? ==> r.value < |s| && s[r.value] == x && x !in s[..r.value]
  {
    if s == [] then None
    else if s[0] == x then Some(0)
    else
      match IndexOf(s[1..], x)
      case None => None
      case Some(k) =>
        assert s[..k + 1] == [s[0]] + s[1..][..k];
        Some(k + 1)
  }

  /** A first occurrence is the one `list.index` finds. */
  lemma {:induction false} IndexOfFirst<T>(s: seq<T>, x: T, i: nat)
    requires i < |s| && s[i] == x
    requires forall j :: 0 <= j < i ==> s[j] != x
    ensures IndexOf(s, x) == Some(i)
  {
    if i > 0 {
      IndexOfFirst(s[1..], x, i - 1);
    }
  }

  predicate IsDigit(c: char)
  {
    '0' <= c <= '9'
  }

  predicate AllDigits(s: string)
  {
    forall k :: 0 <= k < |s| ==> IsDigit(s[k])
  }

  function DigitChar(n: nat): (c: char)
    requires n < 10
    ensures IsDigit(c) && (c as int) - ('0' as int) == n
  {
    (('0' as int) + n) as char
  }

  /** The value of a string of decimal digits, most significant first. */
  function DigitsValue(s: string): nat
    requires AllDigits(s)
  {
    if s == [] then 0
    else DigitsValue(s[..|s| - 1]) * 10 + ((s[|s| - 1] as int) - ('0' as int))
  }

  /**
   * Python's `int()` on a line: an optional sign followed by at least one
   * decimal digit; anything else is a ValueError (None).
   */
  function ParseInt(s: string): Option<int>
  {
    if |s| > 0 && (s[0] == '-' || s[0] == '+') then
      var digits := s[1..];
      if digits != [] && AllDigits(digits) then
        var n: int := DigitsValue(digits);
        var v: int := if s[0] == '-' then -n else n;
        Some(v)
      else None
    else if s != [] && AllDigits(s) then Some(DigitsValue(s))
    else None
  }

  /** The decimal digits of `n`, without leading zeros. */
  function Digits(n: nat): (s: string)
    ensures |s| >= 1 && AllDigits(s)
    ensures DigitsValue(s) == n
  {
    if n < 10 then [DigitChar(n)]
    else
      var s := Digits(n / 10) + [DigitChar(n % 10)];
      assert s[..|s| - 1] == Digits(n / 10);
      s
  }

  /** `str()` writes no leading zero: only 0 itself is written with a first digit '0'. */
  lemma {:induction false} DigitsNoLeadingZero(n: nat)
    ensures Digits(n)[0] == '0' ==> n == 0
    ensures n == 0 ==> Digits(n) == "0"
  {
    if n >= 10 {
      DigitsNoLeadingZero(n / 10);
      assert Digits(n)[0] == Digits(n / 10)[0];
    }
  }

  /**
   * Python's `str()` of an int: a '-' first exactly for a negative number,
   * digits everywhere else, and no leading zero except in "0" itself.
   */
  function FormatInt(n: int): (s: string)
    ensures |s| >= 1
    ensures IsDigit(s[0]) || s[0] == '-'
    ensures s[0] == '-' <==> n < 0
    ensures forall k :: 1 <= k < |s| ==> IsDigit(s[k])
    ensures s[0] == '0' ==> n == 0 && |s| == 1
    ensures n < 0 ==> |s| >= 2 && s[1] != '0'
  {
    if n < 0 then
      DigitsNoLeadingZero(-n);
      "-" + Digits(-n)
    else
      DigitsNoLeadingZero(n);
      Digits(n)
  }

  /** Reading back a printed integer gives the integer. */
  lemma ParseFormatInt(n: int)
    ensures ParseInt(FormatInt(n)) == Some(n)
  {
    if n < 0 {
      assert FormatInt(n)[1..] == Digits(-n);
    } else {
      assert IsDigit(FormatInt(n)[0]);
    }
  }

  function PowTen(n: nat): (p: nat)
    ensures p >= 1
  {
    if n == 0 then 1 else 10 * PowTen(n - 1)
  }

  /** A decimal literal without sign: digits, optionally one '.', at least one digit. */
  function ParseUnsignedDecimal(s: string): Option<real>
  {
    match IndexOf(s, '.')
    case None =>
      if s != [] && AllDigits(s) then Some(DigitsValue(s) as real) else None
    case Some(k) => PointedValue(s[..k], s[k + 1..])
  }

  /** The digits before and after the dot: at least one digit in all, nothing else. */
  function PointedValue(whole: string, frac: string): Option<real>
  {
    if AllDigits(whole) && AllDigits(frac) && |whole| + |frac| > 0 then
      Some(DigitsValue(whole) as real + Fraction(frac))
    else None
  }

  /** The value of the digits after a decimal point. */
  function Fraction(frac: string): real
    requires AllDigits(frac)
  {
    DigitsValue(frac) as real / PowTen(|frac|) as real
  }

  /**
   * Python's `float()` on a reading line, restricted to plain decimal
   * notation: an optional sign and a decimal literal.
   */
  function ParseDecimal(s: string): Option<real>
  {
    if |s| > 0 && (s[0] == '-' || s[0] == '+') then
      match ParseUnsignedDecimal(s[1..])
      case None => None
      case Some(v) => Some(if s[0] == '-' then -v else v)
    else ParseUnsignedDecimal(s)
  }

  /** Every integer literal is read by `float()` as the same number. */
  lemma ParseDecimalOfInt(s: string, n: int)
    requires ParseInt(s) == Some(n)
    ensures ParseDecimal(s) == Some(n as real)
  {
    if |s| > 0 && (s[0] == '-' || s[0] == '+') {
      assert !IsDigit('.');
      assert IndexOf(s[1..], '.').None?;
    } else {
      assert IndexOf(s, '.').None?;
    }
  }

  /** The last position of `c` in `s`, or -1. */
  function LastIndexOf(s: string, c: char): (k: int)
    ensures -1 <= k < |s|
    ensures k >= 0 ==> s[k] == c
    ensures forall j :: k < j < |s| ==> s[j] != c
  {
    if s == [] then -1
    else if s[|s| - 1] == c then |s| - 1
    else LastIndexOf(s[..|s| - 1], c)
  }

  /**
   * `os.path.splitext(path)[0]` with '/' as the separator: the text from the
   * last '.' on is dropped when that dot lies in the last path component and
   * something other than a dot precedes it there (".profile" keeps its name).
   */
  function StripExtension(path: string): (root: string)
    ensures |root| <= |path| && root == path[..|root|]
  {
    var dot := LastIndexOf(path, '.');
    var sep := LastIndexOf(path, '/');
    if sep < dot && exists j :: sep < j < dot && path[j] != '.' then path[..dot] else path
  }

  /**
   * What is stripped is an extension: it starts at a dot, holds no further
   * dot or separator, and the last path component keeps a character other
   * than a dot before it; when nothing is stripped, every dot in the last
   * component is preceded only by dots there.
   */
  lemma StripExtensionSpec(path: string)
    ensures var root := StripExtension(path);
      root != path ==>
        path[|root|] == '.' &&
        (forall j :: |root| < j < |path| ==> path[j] != '.' && path[j] != '/') &&
        (exists j :: LastIndexOf(path, '/') < j < |root| && path[j] != '.')
    ensures var root := StripExtension(path);
      root == path ==>
        forall j, k :: LastIndexOf(path, '/') < j < k < |path| && path[k] == '.' ==> path[j] == '.'
  {
  }
}
