/** The fixed-width `YYYYMMDDHHMM` time stamp: the CSV file name that
    save_dataframe writes (Utilities/Scripts/asnie_utils.py) and the
    command-line parse str_to_time_dict (Analysis/scripts/core_vs_roa_fss.py). */
module Timestamp {
  import opened Wrappers
  import opened Strings

  /** The source's time dictionary: year, month, day, hour, minute. */
  datatype TimeDict = TimeDict(year: int, month: int, day: int, hour: int, minute: int)

  datatype ParseError = InvalidLiteral

  // ---------------------------------------------------------------------------
  // Decimal digits

  function Pow10(n: nat): (r: nat)
    ensures r >= 1
  {
    if n == 0 then 1 else 10 * Pow10(n - 1)
  }

  function DigitChar(d: nat): char
    requires d < 10
  {
    ('0' as int + d) as char
  }

  function DigitValue(c: char): nat
    requires IsDigit(c)
  {
    c as int - '0' as int
  }

  /** Decimal representation of n without leading zeros ("0" for zero). */
  function Digits(n: nat): (s: string)
    ensures |s| >= 1 && AllDigits(s)
    ensures n >= 10 ==> s[0] != '0'
  {
    if n < 10 then [DigitChar(n)] else Digits(n / 10) + [DigitChar(n % 10)]
  }

  /** Value of a string of decimal digits, most significant first. */
  function DecimalValue(s: string): nat
    requires AllDigits(s)
  {
    if s == [] then 0 else 10 * DecimalValue(s[..|s| - 1]) + DigitValue(s[|s| - 1])
  }

  function Zeros(k: nat): (s: string)
    ensures |s| == k && forall i :: 0 <= i < k ==> s[i] == '0'
  {
    seq(k, i => '0')
  }

  /** n written with at least `width` digits, padded on the left with zeros
      (the `0<width>d` format of a non-negative integer). */
  function ZeroPad(n: nat, width: nat): (s: string)
    ensures AllDigits(s)
  {
    var d := Digits(n);
    (if |d| < width then Zeros(width - |d|) else []) + d
  }

  /** Python's `f"{x:0<width>d}"`: the sign counts towards the width and the
      zeros go between the sign and the digits. */
  function FormatInt(x: int, width: nat): string
  {
    if x < 0 then "-" + ZeroPad(-x, if width >= 1 then width - 1 else 0)
    else ZeroPad(x, width)
  }

  lemma {:induction false} DigitsValue(n: nat)
    ensures DecimalValue(Digits(n)) == n
  {
    if n >= 10 {
      var d := Digits(n);
      assert d[..|d| - 1] == Digits(n / 10);
      DigitsValue(n / 10);
    }
  }

  lemma {:induction false} DigitsLength(n: nat, w: nat)
    requires w >= 1 && n < Pow10(w)
    ensures |Digits(n)| <= w
  {
    if n >= 10 {
      assert Pow10(1) == 10;
      DigitsLength(n / 10, w - 1);
    }
  }

  lemma {:induction false} LeadingZerosValue(k: nat, s: string)
    requires AllDigits(s)
    ensures AllDigits(Zeros(k) + s) && DecimalValue(Zeros(k) + s) == DecimalValue(s)
  {
    if s == [] {
      ZerosValue(k);
      assert Zeros(k) + s == Zeros(k);
    } else {
      var t := Zeros(k) + s;
      assert t[..|t| - 1] == Zeros(k) + s[..|s| - 1];
      LeadingZerosValue(k, s[..|s| - 1]);
    }
  }

  lemma {:induction false} ZerosValue(k: nat)
    ensures DecimalValue(Zeros(k)) == 0
  {
    if k > 0 {
      assert Zeros(k)[..k - 1] == Zeros(k - 1);
      ZerosValue(k - 1);
    }
  }

  /** Zero padding keeps the value and, for n < 10^width, gives exactly `width` digits. */
  lemma ZeroPadValue(n: nat, width: nat)
    ensures DecimalValue(ZeroPad(n, width)) == n
    ensures width >= 1 && n < Pow10(width) ==> |ZeroPad(n, width)| == width
  {
    ZeroPadKeepsValue(n, width);
    if width >= 1 && n < Pow10(width) {
      ZeroPadWidth(n, width);
    }
  }

  lemma ZeroPadKeepsValue(n: nat, width: nat)
    ensures DecimalValue(ZeroPad(n, width)) == n
  {
    DigitsValue(n);
    var d := Digits(n);
    if |d| < width {
      LeadingZerosValue(width - |d|, d);
    } else {
      assert ZeroPad(n, width) == d;
    }
  }

  lemma ZeroPadWidth(n: nat, width: nat)
    requires width >= 1 && n < Pow10(width)
    ensures |ZeroPad(n, width)| == width
  {
    DigitsLength(n, width);
  }

  /** Appending a digit to a positive number appends its character. */
  lemma DigitsSnoc(v: nat, dv: nat)
    requires v >= 1 && dv < 10
    ensures Digits(10 * v + dv) == Digits(v) + [DigitChar(dv)]
  {
    var n := 10 * v + dv;
    assert n / 10 == v && n % 10 == dv;
  }

  /** A digit string is the zero padding of its own value to its own length. */
  lemma {:induction false} ZeroPadOfValue(s: string)
    requires AllDigits(s) && |s| >= 1
    ensures ZeroPad(DecimalValue(s), |s|) == s
  {
    var init, last := s[..|s| - 1], s[|s| - 1];
    assert s == init + [last];
    var dv := DigitValue(last);
    assert DigitChar(dv) == last;
    var v := DecimalValue(init);
    var n := DecimalValue(s);
    assert n == 10 * v + dv;
    if v == 0 {
      ZeroPadZero(init);
      assert init == Zeros(|init|);
      SmallPad(dv, |s|);
    } else {
      ZeroPadOfValue(init);
      ValueBound(init);
      DigitsLength(v, |init|);
      PadSnoc(v, dv, |init|);
    }
  }

  /** A one-digit number padded to width w >= 1 is w - 1 zeros and its digit. */
  lemma SmallPad(dv: nat, w: nat)
    requires dv < 10 && w >= 1
    ensures ZeroPad(dv, w) == Zeros(w - 1) + [DigitChar(dv)]
  {
    assert Digits(dv) == [DigitChar(dv)];
  }

  /** Padding 10v + dv to one more place than v's padding appends dv's digit. */
  lemma PadSnoc(v: nat, dv: nat, w: nat)
    requires v >= 1 && dv < 10 && |Digits(v)| <= w
    ensures ZeroPad(10 * v + dv, w + 1) == ZeroPad(v, w) + [DigitChar(dv)]
  {
    DigitsSnoc(v, dv);
    var d := Digits(v);
    if |d| < w {
      assert ZeroPad(10 * v + dv, w + 1) == Zeros(w - |d|) + (d + [DigitChar(dv)]);
    } else {
      assert ZeroPad(10 * v + dv, w + 1) == d + [DigitChar(dv)];
    }
  }

  /** A digit string of value zero consists of zeros only. */
  lemma {:induction false} ZeroPadZero(s: string)
    requires AllDigits(s) && DecimalValue(s) == 0
    ensures forall i :: 0 <= i < |s| ==> s[i] == '0'
  {
    if s != [] {
      ZeroPadZero(s[..|s| - 1]);
      assert forall i :: 0 <= i < |s| - 1 ==> s[..|s| - 1][i] == s[i];
    }
  }

  lemma {:induction false} ValueBound(s: string)
    requires AllDigits(s)
    ensures DecimalValue(s) < Pow10(|s|)
  {
    if s != [] {
      ValueBound(s[..|s| - 1]);
    }
  }

  // ---------------------------------------------------------------------------
  // Python int() of a string

  predicate DigitsOrUnderscores(b: string)
  {
    forall i :: 0 <= i < |b| ==> IsDigit(b[i]) || b[i] == '_'
  }

  /** Digits with single underscores between groups, as int() accepts them. */
  predicate IsDigitBody(b: string)
  {
    && |b| > 0 && IsDigit(b[0]) && IsDigit(b[|b| - 1]) && DigitsOrUnderscores(b)
    && forall i :: 0 <= i < |b| && b[i] == '_' ==> i + 1 < |b| && IsDigit(b[i + 1])
  }

  function DropUnderscores(b: string): (r: string)
    requires DigitsOrUnderscores(b)
    ensures AllDigits(r)
  {
    if b == [] then [] else (if b[0] == '_' then [] else [b[0]]) + DropUnderscores(b[1..])
  }

  lemma {:induction false} DropUnderscoresNone(b: string)
    requires AllDigits(b)
    ensures DropUnderscores(b) == b
  {
    if b != [] {
      DropUnderscoresNone(b[1..]);
    }
  }

  /** Python's int(s) in base 10: surrounding whitespace, an optional sign, then
      digits (underscores allowed between digits); anything else raises ValueError. */
  function ParseInt(s: string): Result<int, ParseError>
  {
    var t := Strip(s);
    var negative := |t| > 0 && t[0] == '-';
    var body := if |t| > 0 && (t[0] == '-' || t[0] == '+') then t[1..] else t;
    if IsDigitBody(body) then
      var v: int := DecimalValue(DropUnderscores(body));
      Success(if negative then -v else v)
    else
      Failure(InvalidLiteral)
  }

  /** A non-empty string of plain digits is read as its decimal value. */
  lemma ParseIntDigits(s: string)
    requires AllDigits(s) && s != []
    ensures ParseInt(s) == Success(DecimalValue(s))
  {
    assert IsDigit(s[0]) && IsDigit(s[|s| - 1]);
    StripUnchanged(s);
    DigitsAreBody(s);
    DropUnderscoresNone(s);
  }

  lemma DigitsAreBody(s: string)
    requires AllDigits(s) && s != []
    ensures IsDigitBody(s) && s[0] != '-' && s[0] != '+'
  {
    assert IsDigit(s[0]) && IsDigit(s[|s| - 1]);
  }

  // ---------------------------------------------------------------------------
  // File stem and its parse

  /** The file name stem `f"{year:04d}{month:02d}{day:02d}{hour:02d}{minute:02d}"`. */
  function FileStem(t: TimeDict): string
  {
    FormatInt(t.year, 4) + FormatInt(t.month, 2) + FormatInt(t.day, 2)
      + FormatInt(t.hour, 2) + FormatInt(t.minute, 2)
  }

  /** The CSV file name save_dataframe writes for time t. */
  function FileName(t: TimeDict): (name: string)
    ensures EndsWith(name, ".csv")
  {
    FileStem(t) + ".csv"
  }

  /** Python's s[i:j] for 0 <= i <= j: indexes past the end are clamped. */
  function Slice(s: string, i: nat, j: nat): (r: string)
    requires i <= j
    ensures |r| == (if j <= |s| then j - i else if i <= |s| then |s| - i else 0)
  {
    if |s| <= i then [] else if j <= |s| then s[i..j] else s[i..]
  }

  /** str_to_time_dict: the fixed slices [0:4], [4:6], [6:8], [8:10], [10:12]
      read with int(); the first slice int() rejects raises. */
  function StrToTimeDict(s: string): Result<TimeDict, ParseError>
  {
    ParseFields(Slice(s, 0, 4), Slice(s, 4, 6), Slice(s, 6, 8), Slice(s, 8, 10), Slice(s, 10, 12))
  }

  function ParseFields(y: string, mo: string, d: string, h: string, mi: string): Result<TimeDict, ParseError>
  {
    match (ParseInt(y), ParseInt(mo), ParseInt(d), ParseInt(h), ParseInt(mi))
    case (Success(y), Success(mo), Success(d), Success(h), Success(mi)) =>
      Success(TimeDict(y, mo, d, h, mi))
    case _ => Failure(InvalidLiteral)
  }

  predicate InFormatRange(t: TimeDict)
  {
    && 0 <= t.year < 10000 && 0 <= t.month < 100 && 0 <= t.day < 100
    && 0 <= t.hour < 100 && 0 <= t.minute < 100
  }

  lemma FieldRoundTrip(x: int, width: nat)
    requires width >= 1 && 0 <= x < Pow10(width)
    ensures |FormatInt(x, width)| == width && AllDigits(FormatInt(x, width))
    ensures ParseInt(FormatInt(x, width)) == Success(x)
  {
    ZeroPadValue(x, width);
    ParseIntDigits(FormatInt(x, width));
  }

  /** The five fixed slices of a concatenation of pieces of widths 4, 2, 2, 2, 2. */
  lemma StemSlices(s: string, y: string, mo: string, d: string, h: string, mi: string)
    requires |y| == 4 && |mo| == 2 && |d| == 2 && |h| == 2 && |mi| == 2
    requires s == y + mo + d + h + mi
    ensures |s| == 12
    ensures Slice(s, 0, 4) == y && Slice(s, 4, 6) == mo && Slice(s, 6, 8) == d
    ensures Slice(s, 8, 10) == h && Slice(s, 10, 12) == mi
  {
  }

  /** Parsing a concatenation of pieces of widths 4, 2, 2, 2, 2 reads each piece. */
  lemma StrToTimeDictPieces(s: string, y: string, mo: string, d: string, h: string, mi: string, t: TimeDict)
    requires |y| == 4 && |mo| == 2 && |d| == 2 && |h| == 2 && |mi| == 2
    requires s == y + mo + d + h + mi
    requires ParseInt(y) == Success(t.year) && ParseInt(mo) == Success(t.month)
    requires ParseInt(d) == Success(t.day) && ParseInt(h) == Success(t.hour)
    requires ParseInt(mi) == Success(t.minute)
    ensures StrToTimeDict(s) == Success(t)
  {
    StemSlices(s, y, mo, d, h, mi);
    assert StrToTimeDict(s) == ParseFields(y, mo, d, h, mi);
  }

  /** The stem of a time in range is twelve digits, and parsing it gives the time back. */
  lemma {:induction false} FormatParseRoundTrip(t: TimeDict)
    requires InFormatRange(t)
    ensures |FileStem(t)| == 12 && AllDigits(FileStem(t))
    ensures StrToTimeDict(FileStem(t)) == Success(t)
  {
    assert Pow10(2) == 100 && Pow10(4) == 10000;
    FieldRoundTrip(t.year, 4);
    FieldRoundTrip(t.month, 2);
    FieldRoundTrip(t.day, 2);
    FieldRoundTrip(t.hour, 2);
    FieldRoundTrip(t.minute, 2);
    StrToTimeDictPieces(FileStem(t), FormatInt(t.year, 4), FormatInt(t.month, 2),
      FormatInt(t.day, 2), FormatInt(t.hour, 2), FormatInt(t.minute, 2), t);
    var a := FormatInt(t.year, 4) + FormatInt(t.month, 2);
    AllDigitsAppend(FormatInt(t.year, 4), FormatInt(t.month, 2));
    AllDigitsAppend(a, FormatInt(t.day, 2));
    AllDigitsAppend(a + FormatInt(t.day, 2), FormatInt(t.hour, 2));
    AllDigitsAppend(a + FormatInt(t.day, 2) + FormatInt(t.hour, 2), FormatInt(t.minute, 2));
  }

  /** Distinct times in range get distinct file names. */
  lemma FileNameInjective(t1: TimeDict, t2: TimeDict)
    requires InFormatRange(t1) && InFormatRange(t2) && t1 != t2
    ensures |FileName(t1)| == |FileName(t2)| == 16 && FileName(t1) != FileName(t2)
  {
    FormatParseRoundTrip(t1);
    FormatParseRoundTrip(t2);
    var n1, n2 := FileName(t1), FileName(t2);
    assert FileStem(t1) == n1[..12] && FileStem(t2) == n2[..12];
  }

  /** Conversely, any twelve-digit string parses, and formatting the result
      gives the same string back. */
  lemma {:induction false} ParseFormatRoundTrip(s: string)
    requires |s| == 12 && AllDigits(s)
    ensures StrToTimeDict(s).Success?
    ensures InFormatRange(StrToTimeDict(s).value)
    ensures FileStem(StrToTimeDict(s).value) == s
  {
    var y, mo, d, h, mi := s[0..4], s[4..6], s[6..8], s[8..10], s[10..12];
    assert s == y + mo + d + h + mi;
    AllDigitsSlice(s, 0, 4); AllDigitsSlice(s, 4, 6); AllDigitsSlice(s, 6, 8);
    AllDigitsSlice(s, 8, 10); AllDigitsSlice(s, 10, 12);
    PiecesRoundTrip(y, mo, d, h, mi);
  }

  lemma PiecesRoundTrip(y: string, mo: string, d: string, h: string, mi: string)
    requires |y| == 4 && |mo| == 2 && |d| == 2 && |h| == 2 && |mi| == 2
    requires AllDigits(y) && AllDigits(mo) && AllDigits(d) && AllDigits(h) && AllDigits(mi)
    ensures StrToTimeDict(y + mo + d + h + mi).Success?
    ensures InFormatRange(StrToTimeDict(y + mo + d + h + mi).value)
    ensures FileStem(StrToTimeDict(y + mo + d + h + mi).value) == y + mo + d + h + mi
  {
    var t := TimeDict(DecimalValue(y), DecimalValue(mo), DecimalValue(d), DecimalValue(h), DecimalValue(mi));
    PiecesParse(y, mo, d, h, mi, t);
    PiecesFormat(y, mo, d, h, mi, t);
  }

  lemma PiecesParse(y: string, mo: string, d: string, h: string, mi: string, t: TimeDict)
    requires |y| == 4 && |mo| == 2 && |d| == 2 && |h| == 2 && |mi| == 2
    requires AllDigits(y) && AllDigits(mo) && AllDigits(d) && AllDigits(h) && AllDigits(mi)
    requires t == TimeDict(DecimalValue(y), DecimalValue(mo), DecimalValue(d), DecimalValue(h), DecimalValue(mi))
    ensures StrToTimeDict(y + mo + d + h + mi) == Success(t)
  {
    ParseIntDigits(y); ParseIntDigits(mo); ParseIntDigits(d); ParseIntDigits(h); ParseIntDigits(mi);
    StrToTimeDictPieces(y + mo + d + h + mi, y, mo, d, h, mi, t);
  }

  lemma PiecesFormat(y: string, mo: string, d: string, h: string, mi: string, t: TimeDict)
    requires |y| == 4 && |mo| == 2 && |d| == 2 && |h| == 2 && |mi| == 2
    requires AllDigits(y) && AllDigits(mo) && AllDigits(d) && AllDigits(h) && AllDigits(mi)
    requires t == TimeDict(DecimalValue(y), DecimalValue(mo), DecimalValue(d), DecimalValue(h), DecimalValue(mi))
    ensures InFormatRange(t) && FileStem(t) == y + mo + d + h + mi
  {
    DigitPiece(y); DigitPiece(mo); DigitPiece(d); DigitPiece(h); DigitPiece(mi);
    assert Pow10(2) == 100 && Pow10(4) == 10000;
  }

  /** One fixed-width digit field: int() reads its value, and formatting that
      value at the field's width gives the field back. */
  lemma DigitPiece(p: string)
    requires AllDigits(p) && |p| >= 1
    ensures DecimalValue(p) < Pow10(|p|)
    ensures FormatInt(DecimalValue(p), |p|) == p
  {
    ValueBound(p);
    ZeroPadOfValue(p);
  }
}
