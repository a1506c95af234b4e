/**
  The capture file name, `capture_%04d%02d%02d_%02d%02d%02d.webp` filled with
  the year, month, day, hour, minute and second of the local time, placed in
  the program's Temp directory.
*/
module CaptureName {
  import opened Common

  /** An unsigned 16-bit SYSTEMTIME field. */
  type Word = x: int | 0 <= x < 0x1_0000

  /** The SYSTEMTIME that GetLocalTime fills in. */
  datatype SystemTime = SystemTime(year: Word, month: Word, dayOfWeek: Word, day: Word,
                                   hour: Word, minute: Word, second: Word, milliseconds: Word)

  /** The six fields the name is made of. */
  datatype Stamp = Stamp(year: nat, month: nat, day: nat, hour: nat, minute: nat, second: nat)

  function StampOf(t: SystemTime): Stamp
  {
    Stamp(t.year, t.month, t.day, t.hour, t.minute, t.second)
  }

  /** Fields narrow enough for their conversions: %04d for the year, %02d for the rest. */
  predicate InRange(t: SystemTime)
  {
    t.year < 10000 && t.month < 100 && t.day < 100 && t.hour < 100 && t.minute < 100 && t.second < 100
  }

  predicate IsDigit(c: char)
  {
    '0' <= c <= '9'
  }

  predicate AllDigits(s: seq<char>)
  {
    forall k :: 0 <= k < |s| ==> IsDigit(s[k])
  }

  function DigitChar(d: nat): (c: char)
    requires d < 10
    ensures IsDigit(c)
  {
    ('0' as int + d) as char
  }

  /** The number a string of decimal digits spells, most significant digit first. */
  function DecimalValue(s: seq<char>): nat
    requires AllDigits(s)
  {
    if |s| == 0 then 0
    else
      assert IsDigit(s[|s| - 1]);
      10 * DecimalValue(s[..|s| - 1]) + (s[|s| - 1] as int - '0' as int)
  }

  function Pow10(n: nat): (p: nat)
    ensures p >= 1
  {
    if n == 0 then 1 else 10 * Pow10(n - 1)
  }

  /**
    `%0<width>d` of a non-negative value: its decimal digits, left-padded with
    zeros to at least `width` characters. The digits spell the value back, a
    value below 10^width takes exactly `width` characters (one for width 0),
    and a wider value is printed in full with no leading zero.
  */
  function ZeroPadded(n: nat, width: nat): (s: seq<char>)
    ensures |s| >= 1 && |s| >= width
    ensures AllDigits(s)
    ensures DecimalValue(s) == n
    ensures n < Pow10(width) ==> |s| == (if width == 0 then 1 else width)
    ensures n >= Pow10(width) ==> s[0] != '0'
    decreases n, width
  {
    if n < 10 && width <= 1 then [DigitChar(n)]
    else
      var s := ZeroPadded(n / 10, if width == 0 then 0 else width - 1) + [DigitChar(n % 10)];
      assert s[..|s| - 1] == ZeroPadded(n / 10, if width == 0 then 0 else width - 1);
      s
  }

  /** The name of the file a capture at local time t is saved under. */
  function FileName(t: SystemTime): (name: string)
    ensures InRange(t) ==> |name| == 28
    ensures |name| >= 28 && name[..8] == "capture_" && name[|name| - 5..] == ".webp"
  {
    "capture_" + ZeroPadded(t.year, 4) + ZeroPadded(t.month, 2) + ZeroPadded(t.day, 2)
      + "_" + ZeroPadded(t.hour, 2) + ZeroPadded(t.minute, 2) + ZeroPadded(t.second, 2) + ".webp"
  }

  /** The full path: the Temp directory, a backslash, and the file name. */
  function CapturePath(tempDir: string, t: SystemTime): (path: string)
    ensures |path| == |tempDir| + 1 + |FileName(t)|
    ensures path[..|tempDir|] == tempDir && path[|tempDir|] == '\\' && path[|tempDir| + 1..] == FileName(t)
  {
    var name := FileName(t);
    var path := tempDir + "\\" + name;
    assert path[|tempDir| + 1..] == name;
    path
  }

  /** Reads the six fields back from a name of the fixed 28-character layout. */
  function ParseFileName(name: string): (r: Option<Stamp>)
  {
    if |name| == 28 && name[..8] == "capture_" && name[16] == '_' && name[23..] == ".webp"
       && AllDigits(name[8..12]) && AllDigits(name[12..14]) && AllDigits(name[14..16])
       && AllDigits(name[17..19]) && AllDigits(name[19..21]) && AllDigits(name[21..23])
    then
      Some(Stamp(DecimalValue(name[8..12]), DecimalValue(name[12..14]), DecimalValue(name[14..16]),
                    DecimalValue(name[17..19]), DecimalValue(name[19..21]), DecimalValue(name[21..23])))
    else None
  }

  /** For in-range fields the name can be read back: each field is recovered exactly. */
  lemma FileNameRoundTrip(t: SystemTime)
    requires InRange(t)
    ensures ParseFileName(FileName(t)) == Some(StampOf(t))
  {
    var y := ZeroPadded(t.year, 4);
    var mo := ZeroPadded(t.month, 2);
    var d := ZeroPadded(t.day, 2);
    var h := ZeroPadded(t.hour, 2);
    var mi := ZeroPadded(t.minute, 2);
    var se := ZeroPadded(t.second, 2);
    var name := FileName(t);
    assert name == "capture_" + y + mo + d + "_" + h + mi + se + ".webp";
    assert name[8..12] == y;
    assert name[12..14] == mo;
    assert name[14..16] == d;
    assert name[16] == '_';
    assert name[17..19] == h;
    assert name[19..21] == mi;
    assert name[21..23] == se;
    assert name[23..] == ".webp";
  }

  /**
    The name carries the time to the second and no further: for in-range
    fields two captures get the same name exactly when their year, month,
    day, hour, minute and second agree, so two captures within one second
    write the same file.
  */
  lemma SameNameIffSameSecond(t1: SystemTime, t2: SystemTime)
    requires InRange(t1) && InRange(t2)
    ensures FileName(t1) == FileName(t2) <==> StampOf(t1) == StampOf(t2)
  {
    FileNameRoundTrip(t1);
    FileNameRoundTrip(t2);
  }
}
