/** Timestamps: exact addition, and the text of monotonic times. */
module Clock {
  import opened Bytes
  import opened Errors
  import opened Strconv

  const NS_PER_SEC: int := 1_000_000_000

  /** struct timespec. */
  datatype Timespec = Timespec(sec: int, nsec: int)

  predicate Normalised(ts: Timespec) {
    0 <= ts.nsec < NS_PER_SEC
  }

  /** The nanoseconds a timestamp stands for. */
  function Total(ts: Timespec): int {
    ts.sec * NS_PER_SEC + ts.nsec
  }

  /** C's division, which truncates toward zero, and the remainder that goes with it. */
  function TruncDiv(a: int, b: int): int
    requires b > 0
  {
    if a >= 0 then a / b else -(-a / b)
  }

  function TruncMod(a: int, b: int): (r: int)
    requires b > 0
    ensures a == TruncDiv(a, b) * b + r && -b < r < b && (a >= 0 ==> r >= 0) && (a <= 0 ==> r <= 0)
  {
    a - TruncDiv(a, b) * b
  }

  function Add(ts: Timespec, nsec: int): Timespec {
    var s, n := ts.sec + TruncDiv(nsec, NS_PER_SEC), ts.nsec + TruncMod(nsec, NS_PER_SEC);
    if n >= NS_PER_SEC then Timespec(s + 1, n - NS_PER_SEC)
    else if n < 0 then Timespec(s - 1, n + NS_PER_SEC)
    else Timespec(s, n)
  }

  /** Adding any signed number of nanoseconds is exact, and gives a normalised timestamp. */
  lemma AddIsExact(ts: Timespec, nsec: int)
    requires Normalised(ts)
    ensures Normalised(Add(ts, nsec)) && Total(Add(ts, nsec)) == Total(ts) + nsec
  {
  }

  /** Seconds are carried and borrowed at a thousand million nanoseconds. */
  lemma AddCarries(s: int)
    ensures Add(Timespec(s, 999_999_999), 1) == Timespec(s + 1, 0)
    ensures Add(Timespec(s, 0), -1) == Timespec(s - 1, 999_999_999)
    ensures Add(Timespec(s, 0), 1_000_000_000) == Timespec(s + 1, 0)
    ensures Total(Timespec(s, 0)) == 1_000_000_000 * s
  {
  }

  /** Normalised timestamps are equal when their totals are. */
  lemma TotalIsUnique(a: Timespec, b: Timespec)
    requires Normalised(a) && Normalised(b)
    ensures a == b <==> Total(a) == Total(b)
  {
  }

  /** Deltas add up, and going there and back changes nothing. */
  lemma AddTwice(ts: Timespec, x: int, y: int)
    requires Normalised(ts)
    ensures Add(Add(ts, x), y) == Add(ts, x + y)
    ensures Add(Add(ts, x), -x) == ts
  {
    hide Add, Total;
    AddIsExact(ts, x);
    AddIsExact(Add(ts, x), y);
    AddIsExact(ts, x + y);
    AddIsExact(Add(ts, x), -x);
    TotalIsUnique(Add(Add(ts, x), y), Add(ts, x + y));
    TotalIsUnique(Add(Add(ts, x), -x), ts);
  }

  /** A timestamp of one clock put on another, given the present time of both. */
  function Convert(ts: Timespec, now: Timespec, targetNow: Timespec): Timespec {
    Add(targetNow, (ts.sec - now.sec) * NS_PER_SEC + (ts.nsec - now.nsec))
  }

  /** It is as far from the other clock's present as it was from its own. */
  lemma ConvertKeepsDistance(ts: Timespec, now: Timespec, targetNow: Timespec)
    requires Normalised(targetNow)
    ensures Normalised(Convert(ts, now, targetNow))
    ensures Total(Convert(ts, now, targetNow)) - Total(targetNow) == Total(ts) - Total(now)
  {
  }

  // ----- Text ------------------------------------------------------------------------------

  /** Digits in the text of a monotonic time; a NUL follows. */
  const MONO_DIGITS: nat := 19

  /** Times whose text fits. */
  predicate Printable(ts: Timespec) {
    Normalised(ts) && 0 <= Total(ts) < Pow10(MONO_DIGITS)
  }

  lemma DigitsFit()
    ensures Pow10(MONO_DIGITS) == 10_000_000_000_000_000_000 < WORD_LIMIT
  {
    assert Pow10(4) == 10_000;
    assert Pow10(8) == 100_000_000;
    assert Pow10(12) == 1_000_000_000_000;
    assert Pow10(16) == 10_000_000_000_000_000;
  }

  method MonoStr(ts: Timespec, text: array<byte>)
    requires Printable(ts) && text.Length == MONO_DIGITS + 1
    modifies text
    ensures text[..MONO_DIGITS] == Numeral(Total(ts), MONO_DIGITS) && text[MONO_DIGITS] == 0
  {
    hide Pow10, Numeral, Value;
    DigitsFit();
    assert Total(ts) % WORD_LIMIT == Total(ts);
    var ns := (ts.sec * NS_PER_SEC + ts.nsec) % WORD_LIMIT;
    text[MONO_DIGITS] := 0;
    var first := ToStr(ns, text, 0, MONO_DIGITS);
    assert text[..MONO_DIGITS] == text[0..MONO_DIGITS];
  }

  method MonoParse(text: array<byte>) returns (r: Result<Timespec>)
    requires text.Length == MONO_DIGITS + 1
    ensures r.Ok? <==> Digits(text[..MONO_DIGITS])
    ensures r.Ok? ==> Printable(r.value) && Total(r.value) == Value(text[..MONO_DIGITS])
    ensures r.Err? ==> r.error == InvalidArg
  {
    hide Pow10, Value, Numeral;
    var ns := FromStr(text, 0, MONO_DIGITS);
    assert text[..MONO_DIGITS] == text[0..MONO_DIGITS];
    if ns.Err? { return Err(ns.error); }
    DigitsFit();
    NumeralOfValue(text[..MONO_DIGITS]);
    r := Ok(Timespec(ns.value / NS_PER_SEC, ns.value % NS_PER_SEC));
  }

  /** Parsing undoes printing: what MonoParse makes of the text of MonoStr is the same time. */
  lemma ParseUndoesPrint(ts: Timespec, parsed: Timespec)
    requires Printable(ts)
    requires var text := Numeral(Total(ts), MONO_DIGITS); Printable(parsed) && Total(parsed) == Value(text)
    ensures parsed == ts
  {
    ValueOfNumeral(Total(ts), MONO_DIGITS);
    TotalIsUnique(parsed, ts);
  }

  /** Printing undoes parsing, for every text of nineteen digits. */
  lemma PrintUndoesParse(text: seq<byte>, parsed: Timespec)
    requires |text| == MONO_DIGITS && Digits(text)
    requires Printable(parsed) && Total(parsed) == Value(text)
    ensures Numeral(Total(parsed), MONO_DIGITS) == text
  {
    NumeralOfValue(text);
  }

  /** The text orders as the times do. */
  lemma TextOrder(a: Timespec, b: Timespec)
    requires Printable(a) && Printable(b)
    ensures LexLess(Numeral(Total(a), MONO_DIGITS), Numeral(Total(b), MONO_DIGITS)) <==> Total(a) < Total(b)
    ensures Numeral(Total(a), MONO_DIGITS) == Numeral(Total(b), MONO_DIGITS) <==> a == b
  {
    hide Numeral, Value, LexLess;
    ValueOfNumeral(Total(a), MONO_DIGITS);
    ValueOfNumeral(Total(b), MONO_DIGITS);
    LexIsNumeric(Numeral(Total(a), MONO_DIGITS), Numeral(Total(b), MONO_DIGITS));
    TotalIsUnique(a, b);
  }
}
