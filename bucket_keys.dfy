/** The name of the bucket directory each organize function files a regular file under:
    its extension (`organize_by_type`), or the UTC date of its modification time
    (`organize_by_date`). */
module BucketKeys {
  import opened Options
  import opened Paths
  import opened Decimal
  import opened Calendar

  /** The by-type key of a file named `n`: its extension, the empty text when it has
      none (`unwrap_or_default`), and `unknown` when the extension is not valid UTF-8. */
  function TypeKey(n: Name): string {
    match ToStr(Extension(n).GetOr([]))
    case Some(s) => s
    case None => "unknown"
  }

  /** The three outcomes of the by-type key. */
  lemma TypeKeyCases(n: Name)
    ensures Extension(n).None? ==> TypeKey(n) == ""
    ensures Extension(n).Some? && (forall i :: 0 <= i < |Extension(n).value| ==> Extension(n).value[i].Char?)
            ==> Chars(TypeKey(n)) == Extension(n).value
    ensures Extension(n).Some? && (exists i :: 0 <= i < |Extension(n).value| && Extension(n).value[i].Raw?)
            ==> TypeKey(n) == "unknown"
  {
  }

  /** A file with a textual extension goes under exactly that extension. */
  lemma TypeKeyOfText(stem: Name, ext: string)
    requires stem != [] && '.' !in ext && stem + [Dot] + Chars(ext) != DotDot
    ensures TypeKey(stem + [Dot] + Chars(ext)) == ext
  {
    ExtensionOfStemDot(stem, Chars(ext));
    ToStrChars(ext);
  }

  /** A file whose name has no `.` after its first character gets the empty key. */
  lemma TypeKeyWithoutDot(n: Name)
    requires forall k :: 0 < k < |n| ==> n[k] != Dot
    ensures TypeKey(n) == ""
  {
    ExtensionCases(n);
  }

  const SecondsPerDay: nat := 86400

  /** The last year chrono's `NaiveDate` can hold. */
  const MaxYear: int := 262142

  /** `%Y`: four zero-padded digits up to 9999, a `+` and the plain numeral beyond. */
  function YearText(y: nat): string {
    if y <= 9999 then Padded(y, 4) else "+" + Numeral(y)
  }

  /** `%Y-%m-%d`. */
  function DateText(d: Date): string
    requires Valid(d)
  {
    YearText(d.year) + "-" + Padded(d.month, 2) + "-" + Padded(d.day, 2)
  }

  /** The year a `%Y` text denotes. */
  function ParseYear(t: string): Option<nat> {
    if t != [] && t[0] == '+' && AllDigits(t[1..]) then Some(ValueOf(t[1..]))
    else if AllDigits(t) then Some(ValueOf(t))
    else None
  }

  /** The date a `%Y-%m-%d` text denotes: the last six characters are `-MM-DD`, the rest
      is the year. */
  function ParseDate(t: string): Option<Date> {
    if |t| < 7 then None
    else
      var y, m, d := t[..|t| - 6], t[|t| - 5..|t| - 3], t[|t| - 2..];
      if ParseYear(y).Some? && AllDigits(m) && AllDigits(d)
      then Some(Date(ParseYear(y).value, ValueOf(m), ValueOf(d)))
      else None
  }

  lemma ParseYearText(y: nat)
    ensures ParseYear(YearText(y)) == Some(y)
  {
    if y <= 9999 {
      PaddedValue(y, 4);
    } else {
      NumeralValue(y);
      assert ("+" + Numeral(y))[1..] == Numeral(y);
    }
  }

  /** The date text reads back as the date it was printed from. */
  lemma ParseDateText(d: Date)
    requires Valid(d)
    ensures ParseDate(DateText(d)) == Some(d)
  {
    var y, m, dd := YearText(d.year), Padded(d.month, 2), Padded(d.day, 2);
    var t := DateText(d);
    assert t == y + "-" + m + "-" + dd;
    assert t[..|t| - 6] == y;
    assert t[|t| - 5..|t| - 3] == m;
    assert t[|t| - 2..] == dd;
    ParseYearText(d.year);
    PaddedValue(d.month, 2);
    PaddedValue(d.day, 2);
  }

  /** Different dates have different texts. */
  lemma DateTextInjective(a: Date, b: Date)
    requires Valid(a) && Valid(b)
    ensures DateText(a) == DateText(b) <==> a == b
  {
    ParseDateText(a);
    ParseDateText(b);
  }

  datatype DateKeyError =
    | BeforeEpoch   // `duration_since(UNIX_EPOCH).unwrap()` on an earlier time
    | OutOfRange    // `from_timestamp_opt` returns `None`, and the `unwrap` panics

  datatype DateKeyResult = Key(text: string) | Fails(error: DateKeyError)

  /** The by-date key of a file last modified `secs` whole seconds after the epoch (the
      floor of the time, so negative for any earlier time). */
  function DateKey(secs: int): DateKeyResult {
    if secs < 0 then Fails(BeforeEpoch)
    else
      var d := CivilFromDays(secs / SecondsPerDay);
      if d.year > MaxYear then Fails(OutOfRange) else Key(DateText(d))
  }

  /** A key names the UTC day its time falls on: read back, it gives that day's date,
      which is `secs / 86400` days after 1970-01-01. */
  lemma DateKeyNamesDay(secs: int)
    requires DateKey(secs).Key?
    ensures var d := ParseDate(DateKey(secs).text);
            d.Some? && Valid(d.value) && DaysFromCivil(d.value) == secs / SecondsPerDay
  {
    var d := CivilFromDays(secs / SecondsPerDay);
    ParseDateText(d);
    DaysOfCivil(secs / SecondsPerDay);
  }

  /** Two files get the same by-date bucket exactly when their times share a UTC day. */
  lemma SameKeyIffSameDay(s1: int, s2: int)
    requires DateKey(s1).Key? && DateKey(s2).Key?
    ensures DateKey(s1) == DateKey(s2) <==> s1 / SecondsPerDay == s2 / SecondsPerDay
  {
    var d1, d2 := CivilFromDays(s1 / SecondsPerDay), CivilFromDays(s2 / SecondsPerDay);
    DateTextInjective(d1, d2);
    CivilInjective(s1 / SecondsPerDay, s2 / SecondsPerDay);
  }

  /** The key exists exactly for the times from the epoch up to the end of chrono's last
      year; earlier times and later ones panic. */
  lemma DateKeyRange(secs: int)
    ensures DateKey(secs).Key?
            <==> 0 <= secs && secs / SecondsPerDay < YearsSpan(Epoch, MaxYear + 1)
    ensures DateKey(secs) == Fails(BeforeEpoch) <==> secs < 0
  {
    if secs >= 0 {
      YearBound(secs / SecondsPerDay, MaxYear + 1);
    }
  }

  lemma DateKeyNotEmpty(secs: int)
    requires DateKey(secs).Key?
    ensures DateKey(secs).text != ""
  {
    var d := CivilFromDays(secs / SecondsPerDay);
    assert |DateText(d)| >= 6;
  }

  /** Up to the year 9999 the key is ten characters, `YYYY-MM-DD`. */
  lemma DateKeyShape(secs: int)
    requires DateKey(secs).Key? && CivilFromDays(secs / SecondsPerDay).year <= 9999
    ensures var t := DateKey(secs).text;
            |t| == 10 && t[4] == '-' && t[7] == '-'
            && AllDigits(t[..4]) && AllDigits(t[5..7]) && AllDigits(t[8..])
  {
    var d := CivilFromDays(secs / SecondsPerDay);
    var t := DateText(d);
    assert t == Padded(d.year, 4) + "-" + Padded(d.month, 2) + "-" + Padded(d.day, 2);
    assert t[..4] == Padded(d.year, 4);
    assert t[5..7] == Padded(d.month, 2);
    assert t[8..] == Padded(d.day, 2);
  }
}
