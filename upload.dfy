/**
 * The pure steps of the upload handler's camera branch: splitting the
 * submitted data URL into its header and its base64 payload, and naming the
 * stored capture after the time it was taken.
 */
module Upload {
  import opened Wrappers

  // ---------------------------------------------------------------------------
  // Data-URL splitting: the string is cut at its first comma into exactly two
  // parts; unpacking the parts fails when there is no comma at all.

  /** The position of the first occurrence of c in s, if there is one. */
  function FirstIndex(s: string, c: char): (r: Option<nat>)
    ensures r.None? <==> c !in s
    ensures r.Some? ==> r.value < |s| && s[r.value] == c && c !in s[..r.value]
  {
    if |s| == 0 then None
    else if s[0] == c then Some(0)
    else
      match FirstIndex(s[1..], c)
      case None => None
      case Some(i) =>
        assert s[..i + 1] == [s[0]] + s[1..][..i];
        Some(i + 1)
  }

  /** The two names the handler unpacks the split into. */
  datatype DataUrl = DataUrl(header: string, encoded: string)

  /**
   * Split at the first comma. Fails exactly when there is no comma; otherwise
   * the header holds no comma and header, comma and payload rebuild the input,
   * so the payload is everything after the first comma, commas included.
   */
  function SplitDataUrl(dataUrl: string): (r: Option<DataUrl>)
    ensures r.None? <==> ',' !in dataUrl
    ensures r.Some? ==> ',' !in r.value.header
    ensures r.Some? ==> r.value.header + "," + r.value.encoded == dataUrl
  {
    match FirstIndex(dataUrl, ',')
    case None => None
    case Some(i) =>
      assert dataUrl == dataUrl[..i] + "," + dataUrl[i + 1..];
      Some(DataUrl(dataUrl[..i], dataUrl[i + 1..]))
  }

  /**
   * Joining a comma-free header and any payload with a comma and splitting
   * again gives back both parts: the split is the inverse of the join.
   */
  lemma SplitJoin(header: string, encoded: string)
    requires ',' !in header
    ensures SplitDataUrl(header + "," + encoded) == Some(DataUrl(header, encoded))
  {
    var url := header + "," + encoded;
    assert url[|header|] == ',';
    var r := SplitDataUrl(url);
    var h' := r.value.header;
    assert h' == url[..|header|] == header;
    assert r.value.encoded == url[|header| + 1..] == encoded;
  }

  // ---------------------------------------------------------------------------
  // Capture filenames: "capture_" + strftime("%Y%m%d_%H%M%S") + ".png".

  /** The broken-down local time the handler reads from the clock. */
  datatype Timestamp = Timestamp(year: int, month: int, day: int, hour: int, minute: int, second: int)

  /** The ranges a datetime value keeps its fields in. */
  predicate ValidTimestamp(t: Timestamp)
  {
    && 1 <= t.year <= 9999
    && 1 <= t.month <= 12
    && 1 <= t.day <= 31
    && 0 <= t.hour <= 23
    && 0 <= t.minute <= 59
    && 0 <= t.second <= 59
  }

  predicate IsDigit(c: char) { '0' <= c <= '9' }

  predicate AllDigits(s: string) { forall i :: 0 <= i < |s| ==> IsDigit(s[i]) }

  function DigitChar(d: int): (c: char)
    requires 0 <= d <= 9
    ensures IsDigit(c) && c as int - '0' as int == d
  {
    ('0' as int + d) as char
  }

  /** The value of a string of decimal digits, most significant first. */
  function DigitsValue(s: string): nat
    requires AllDigits(s)
  {
    if |s| == 0 then 0
    else DigitsValue(s[..|s| - 1]) * 10 + (s[|s| - 1] as int - '0' as int)
  }

  /** The shortest decimal form of n, as %Y writes a year (no zero padding). */
  function Decimal(n: nat): (r: string)
    ensures 1 <= |r| && AllDigits(r)
    ensures n < 10 <==> |r| == 1
    ensures n >= 10 ==> |r| == |Decimal(n / 10)| + 1
  {
    if n < 10 then [DigitChar(n)] else Decimal(n / 10) + [DigitChar(n % 10)]
  }

  /** Reading back the decimal form of n gives n. */
  lemma {:induction false} DecimalValue(n: nat)
    ensures DigitsValue(Decimal(n)) == n
  {
    var r := Decimal(n);
    if n >= 10 {
      assert r[..|r| - 1] == Decimal(n / 10);
      DecimalValue(n / 10);
    }
  }

  /** A four-digit year has a four-character decimal form. */
  lemma FourDigitYear(year: nat)
    requires year <= 9999
    ensures 1000 <= year ==> |Decimal(year)| == 4
  {
  }

  /** A field in 0..99 written as exactly two digits, as %m, %d, %H, %M, %S do. */
  function Pad2(n: int): (r: string)
    requires 0 <= n <= 99
    ensures |r| == 2 && AllDigits(r) && DigitsValue(r) == n
  {
    var r := [DigitChar(n / 10), DigitChar(n % 10)];
    assert r[..1][..0] == [];
    assert DigitsValue(r[..1]) == n / 10;
    r
  }

  /** strftime("%Y%m%d_%H%M%S"). */
  function Stamp(t: Timestamp): (r: string)
    requires ValidTimestamp(t)
  {
    Decimal(t.year) + Pad2(t.month) + Pad2(t.day) + "_" + Pad2(t.hour) + Pad2(t.minute) + Pad2(t.second)
  }

  /**
   * The name a camera capture is stored under. It always starts with
   * "capture_" and ends with ".png", with the digits of the date, an
   * underscore and six digits of time between; from year 1000 on it is
   * exactly 27 characters long.
   */
  function CaptureFilename(t: Timestamp): (name: string)
    requires ValidTimestamp(t)
    ensures 24 <= |name| && name[..8] == "capture_" && name[|name| - 4..] == ".png"
    ensures AllDigits(name[8..|name| - 15]) && name[|name| - 11] == '_'
    ensures AllDigits(name[|name| - 15..|name| - 11]) && AllDigits(name[|name| - 10..|name| - 4])
    ensures 1000 <= t.year ==> |name| == 27
  {
    var y := Decimal(t.year);
    FourDigitYear(t.year);
    var name := "capture_" + Stamp(t) + ".png";
    assert name[8..|name| - 15] == y;
    assert name[|name| - 15..|name| - 11] == Pad2(t.month) + Pad2(t.day);
    assert name[|name| - 10..|name| - 4] == Pad2(t.hour) + Pad2(t.minute) + Pad2(t.second);
    name
  }

  /**
   * Reads a capture filename back into the time it names; fails on any
   * string that is not laid out as CaptureFilename lays out its result.
   */
  function ParseCaptureFilename(name: string): Option<Timestamp>
  {
    if |name| < 24 || name[..8] != "capture_" || name[|name| - 4..] != ".png" then None
    else
      var y, date, time := name[8..|name| - 15], name[|name| - 15..|name| - 11], name[|name| - 10..|name| - 4];
      if name[|name| - 11] != '_' || !AllDigits(y) || !AllDigits(date) || !AllDigits(time) then None
      else
        Some(Timestamp(DigitsValue(y), DigitsValue(date[..2]), DigitsValue(date[2..]),
                       DigitsValue(time[..2]), DigitsValue(time[2..4]), DigitsValue(time[4..])))
  }

  /** Every capture filename reads back as the time it was made from. */
  lemma ParseCaptureFilenameInverse(t: Timestamp)
    requires ValidTimestamp(t)
    ensures ParseCaptureFilename(CaptureFilename(t)) == Some(t)
  {
    var name := CaptureFilename(t);
    var n := |name|;
    DecimalValue(t.year);
    assert name[8..n - 15] == Decimal(t.year);
    var date, time := name[n - 15..n - 11], name[n - 10..n - 4];
    assert date == Pad2(t.month) + Pad2(t.day);
    assert date[..2] == Pad2(t.month) && date[2..] == Pad2(t.day);
    assert time == Pad2(t.hour) + Pad2(t.minute) + Pad2(t.second);
    assert time[..2] == Pad2(t.hour) && time[2..4] == Pad2(t.minute) && time[4..] == Pad2(t.second);
  }

  /**
   * Distinct date-time readings give distinct capture names. Two captures
   * share a name only when the clock reads the same second for both.
   */
  lemma CaptureFilenameInjective(t1: Timestamp, t2: Timestamp)
    requires ValidTimestamp(t1) && ValidTimestamp(t2)
    requires t1 != t2
    ensures CaptureFilename(t1) != CaptureFilename(t2)
  {
    ParseCaptureFilenameInverse(t1);
    ParseCaptureFilenameInverse(t2);
  }
}
