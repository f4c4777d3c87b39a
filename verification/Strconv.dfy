/** Decimal text of unsigned 64-bit numbers, in fixed buffers. */
module Strconv {
  import opened Bytes
  import opened Errors

  const ZERO: byte := 48

  function Pow10(n: nat): (r: nat)
    ensures r > 0
  {
    if n == 0 then 1 else 10 * Pow10(n - 1)
  }

  predicate IsDigit(c: byte) {
    48 <= c <= 57
  }

  predicate Digits(s: seq<byte>) {
    forall i :: 0 <= i < |s| ==> IsDigit(s[i])
  }

  /** The number a digit string spells. */
  function Value(s: seq<byte>): nat
    requires Digits(s)
  {
    if s == [] then 0 else 10 * Value(s[..|s| - 1]) + (s[|s| - 1] - ZERO)
  }

  /** The last `width` digits of `n`, with leading zeros. */
  function Numeral(n: nat, width: nat): (s: seq<byte>)
    ensures |s| == width && Digits(s)
  {
    if width == 0 then [] else Numeral(n / 10, width - 1) + [ZERO + n % 10]
  }

  lemma {:induction false} ValueOfNumeral(n: nat, width: nat)
    requires n < Pow10(width)
    ensures Value(Numeral(n, width)) == n
    decreases width
  {
    if width > 0 {
      ValueOfNumeral(n / 10, width - 1);
      assert Numeral(n, width)[..width - 1] == Numeral(n / 10, width - 1);
    }
  }

  lemma {:induction false} NumeralOfValue(s: seq<byte>)
    requires Digits(s)
    ensures Value(s) < Pow10(|s|) && Numeral(Value(s), |s|) == s
    decreases |s|
  {
    if s != [] {
      NumeralOfValue(s[..|s| - 1]);
      assert s == s[..|s| - 1] + [s[|s| - 1]];
    }
  }

  lemma {:induction false} ValueJoins(a: seq<byte>, b: seq<byte>)
    requires Digits(a) && Digits(b)
    ensures Digits(a + b) && Value(a + b) == Value(a) * Pow10(|b|) + Value(b)
    decreases |b|
  {
    if b == [] {
      assert a + b == a;
    } else {
      var front := b[..|b| - 1];
      ValueJoins(a, front);
      assert (a + b)[..|a + b| - 1] == a + front;
      assert Value(a + b) == 10 * (Value(a) * Pow10(|front|) + Value(front)) + (b[|b| - 1] - ZERO);
      ShiftLeft(Value(a), Pow10(|front|), Value(front), b[|b| - 1] - ZERO);
    }
  }

  lemma ShiftLeft(x: nat, p: nat, f: nat, d: nat)
    ensures 10 * (x * p + f) + d == x * (10 * p) + (10 * f + d)
  {
  }

  lemma {:induction false} ZerosAreNothing(k: nat, s: seq<byte>)
    requires Digits(s)
    ensures Digits(seq(k, _ => ZERO) + s) && Value(seq(k, _ => ZERO) + s) == Value(s)
    decreases k
  {
    var zeros := seq(k, _ => ZERO);
    ZeroValue(k);
    ValueJoins(zeros, s);
  }

  lemma {:induction false} ZeroValue(k: nat)
    ensures Value(seq(k, _ => ZERO)) == 0
    decreases k
  {
    if k > 0 {
      ZeroValue(k - 1);
      assert seq(k, _ => ZERO)[..k - 1] == seq(k - 1, _ => ZERO);
    }
  }

  /** A number without leading zeros. */
  function Decimal(n: nat): (s: seq<byte>)
    ensures s != [] && Digits(s)
  {
    (if n < 10 then [] else Decimal(n / 10)) + [ZERO + n % 10]
  }

  /** The one digit string without leading zeros that spells `n`. */
  lemma {:induction false} DecimalIsUnique(s: seq<byte>, n: nat)
    requires Digits(s) && s != [] && (s[0] != ZERO || |s| == 1) && Value(s) == n
    ensures s == Decimal(n)
    decreases |s|
  {
    var front := s[..|s| - 1];
    assert s == front + [s[|s| - 1]];
    if front != [] {
      LeadingIsPositive(front);
      DecimalIsUnique(front, n / 10);
    }
  }

  /** The digits in ASCII. */
  lemma DigitsInAscii()
    ensures Decimal(907) == [57, 48, 55] && Numeral(907, 5) == [48, 48, 57, 48, 55]
    ensures Value([48, 48, 57, 48, 55]) == 907
  {
    assert Numeral(0, 2) == [48, 48];
    assert Numeral(9, 3) == [48, 48, 57];
    assert Decimal(9) == [57] && Decimal(90) == [57, 48];
    var s: seq<byte> := [48, 48, 57, 48, 55];
    assert Numeral(907, 5) == s;
    assert Pow10(2) == 100 && Pow10(4) == 10000;
    ValueOfNumeral(907, 5);
  }

  // ----- Order -------------------------------------------------------------------------

  /** Comparison byte by byte, as strcmp does for strings of one length. */
  predicate LexLess(a: seq<byte>, b: seq<byte>)
    requires |a| == |b|
  {
    a != [] && (a[0] < b[0] || (a[0] == b[0] && LexLess(a[1..], b[1..])))
  }

  lemma ValueFromFront(s: seq<byte>)
    requires Digits(s) && s != []
    ensures Value(s) == (s[0] - ZERO) * Pow10(|s| - 1) + Value(s[1..])
  {
    ValueJoins(s[..1], s[1..]);
    assert s == s[..1] + s[1..];
    assert s[..1][..0] == [];
  }

  /** Padded numerals compare as text exactly as their numbers do. */
  lemma {:induction false} LexIsNumeric(a: seq<byte>, b: seq<byte>)
    requires |a| == |b| && Digits(a) && Digits(b)
    ensures LexLess(a, b) <==> Value(a) < Value(b)
    decreases |a|
  {
    hide Numeral, Pow10;
    if a != [] {
      ValueFromFront(a);
      ValueFromFront(b);
      LexIsNumeric(a[1..], b[1..]);
      NumeralOfValue(a[1..]);
      NumeralOfValue(b[1..]);
      LeadingDigitDecides(a[0] - ZERO, b[0] - ZERO, Pow10(|a| - 1), Value(a[1..]), Value(b[1..]));
    }
  }

  lemma LeadingDigitDecides(x: nat, y: nat, p: nat, u: nat, v: nat)
    requires u < p && v < p
    ensures x < y ==> x * p + u < y * p + v
    ensures x > y ==> x * p + u > y * p + v
  {
    if x < y {
      assert (x + 1) * p <= y * p;
    } else if y < x {
      assert (y + 1) * p <= x * p;
    }
  }

  // ----- a0_u64_to_str -----------------------------------------------------------------------

  /** Byte `i` of the table of the pairs 00 to 99. */
  function DecimalDigits(i: nat): byte
    requires i < 200
  {
    if i % 2 == 0 then ZERO + i / 2 / 10 else ZERO + i / 2 % 10
  }

  /** What the loop of ToStr keeps: the digits written so far, and what is left, make up the
      number; the front has room for what is left; and no digit string starts with a zero. */
  ghost predicate Written(orig: nat, left: nat, room: nat, done: seq<byte>) {
    && Digits(done) && left < Pow10(room)
    && left * Pow10(|done|) + Value(done) == orig
    && (done == [] ==> left == orig)
    && (left == 0 && done != [] ==> done[0] != ZERO)
  }

  lemma WriteTwo(orig: nat, left: nat, room: nat, done: seq<byte>)
    requires Written(orig, left, room, done) && left >= 10
    ensures room >= 2
    ensures Written(orig, left / 100, room - 2, Pair(left % 100) + done)
  {
    TwoMore(left, room);
    var pair := Pair(left % 100);
    ValueJoins(pair, done);
    PairValue(left % 100);
    assert Pow10(|done| + 2) == 100 * Pow10(|done|);
    MoveTwo(left, Pow10(|done|), Value(done));
  }

  /** The two digits of a number below a hundred. */
  function Pair(n: nat): (s: seq<byte>)
    requires n < 100
    ensures |s| == 2
  {
    [ZERO + n / 10, ZERO + n % 10]
  }

  function Single(n: nat): (s: seq<byte>)
    requires n < 10
    ensures |s| == 1
  {
    [ZERO + n]
  }

  lemma PairValue(n: nat)
    requires n < 100
    ensures Digits(Pair(n)) && Value(Pair(n)) == n
  {
    assert Pair(n)[..1] == [ZERO + n / 10] && Pair(n)[..1][..0] == [];
    assert Value(Pair(n)[..1]) == n / 10;
  }

  lemma TwoMore(left: nat, room: nat)
    requires 10 <= left < Pow10(room)
    ensures room >= 2 && left / 100 < Pow10(room - 2)
  {
  }

  lemma MoveTwo(left: nat, p: nat, v: nat)
    ensures left / 100 * (100 * p) + (left % 100 * p + v) == left * p + v
  {
  }

  lemma WriteOne(orig: nat, left: nat, room: nat, done: seq<byte>)
    requires Written(orig, left, room, done) && 0 < left < 10
    ensures room >= 1
    ensures Written(orig, 0, room - 1, Single(left) + done)
  {
    var one := Single(left);
    ValueJoins(one, done);
    assert one[..0] == [];
    assert Value(one) == left;
  }

  method CopyPair(buf: array<byte>, ptr: nat, n: nat)
    requires ptr + 2 <= buf.Length && n < 100
    modifies buf
    ensures buf[..] == Patch(old(buf[..]), ptr, Pair(n))
    ensures forall i :: 0 <= i < buf.Length && !(ptr <= i < ptr + 2) ==> buf[i] == old(buf[i])
  {
    buf[ptr] := DecimalDigits(2 * n);
    buf[ptr + 1] := DecimalDigits(2 * n + 1);
  }

  method CopyDigit(buf: array<byte>, ptr: nat, n: nat)
    requires ptr < buf.Length && n < 10
    modifies buf
    ensures buf[..] == Patch(old(buf[..]), ptr, Single(n))
    ensures forall i :: 0 <= i < buf.Length && i != ptr ==> buf[i] == old(buf[i])
  {
    buf[ptr] := ZERO + n;
  }

  /** `s` put in front of `done`, which ends at `end`. */
  lemma PatchFront(m: seq<byte>, ptr: nat, end: nat, s: seq<byte>)
    requires ptr + |s| <= end <= |m|
    ensures Patch(m, ptr, s)[ptr..end] == s + m[ptr + |s|..end]
  {
  }

  /** The digits without padding, ending at `end`. */
  method WriteDigits(val: nat, buf: array<byte>, start: nat, end: nat) returns (ptr: nat)
    requires start <= end <= buf.Length && val < Pow10(end - start)
    modifies buf
    ensures start <= ptr <= end && Written(val, 0, ptr - start, buf[..][ptr..end])
    ensures forall i :: 0 <= i < buf.Length && !(start <= i < end) ==> buf[i] == old(buf[i])
  {
    hide Written, Value, Pow10, Pair, Patch;
    var left := val;
    ptr := end;
    WrittenStart(val, end - start);
    assert buf[..][end..end] == [];
    while left >= 10
      invariant start <= ptr <= end && Written(val, left, ptr - start, buf[..][ptr..end])
      invariant forall i :: 0 <= i < buf.Length && !(start <= i < end) ==> buf[i] == old(buf[i])
    {
      WriteTwo(val, left, ptr - start, buf[..][ptr..end]);
      ptr := ptr - 2;
      PatchFront(buf[..], ptr, end, Pair(left % 100));
      CopyPair(buf, ptr, left % 100);
      left := left / 100;
    }
    if left > 0 {
      WriteOne(val, left, ptr - start, buf[..][ptr..end]);
      ptr := ptr - 1;
      PatchFront(buf[..], ptr, end, Single(left));
      CopyDigit(buf, ptr, left);
    }
  }

  /** Fills `buf[start..end]` from the back; `first` is where the number itself starts. The number
      must fit, and the buffer must not be empty. */
  method ToStr(val: nat, buf: array<byte>, start: nat, end: nat) returns (first: nat)
    requires start < end <= buf.Length && val < WORD_LIMIT && val < Pow10(end - start)
    modifies buf
    ensures buf[start..end] == Numeral(val, end - start)
    ensures forall i :: 0 <= i < buf.Length && !(start <= i < end) ==> buf[i] == old(buf[i])
    ensures start <= first < end
    ensures buf[first..end] == Decimal(val)
  {
    hide Written, Value, Numeral, Pow10, Decimal;
    var ptr := WriteDigits(val, buf, start, end);
    ghost var done := buf[..][ptr..end];
    WrittenEnd(val, ptr - start, done);
    FillZeros(buf, start, ptr);
    assert forall k :: 0 <= k < |done| ==> buf[ptr + k] == done[k];
    assert buf[ptr..end] == done;
    JoinSlices(buf[..], start, ptr, end);
    assert buf[start..end] == buf[..][start..end] && buf[start..ptr] == buf[..][start..ptr];
    assert buf[ptr..end] == buf[..][ptr..end];
    first := ptr;
    if val == 0 {
      assert buf[start..ptr][ptr - 1 - start] == ZERO;
      first := ptr - 1;
      assert buf[first..end] == seq(1, _ => ZERO);
      ZeroValue(1);
    }
    DecimalIsUnique(buf[first..end], val);
  }

  method FillZeros(buf: array<byte>, start: nat, end: nat)
    requires start <= end <= buf.Length
    modifies buf
    ensures buf[start..end] == seq(end - start, _ => ZERO)
    ensures forall i :: 0 <= i < buf.Length && !(start <= i < end) ==> buf[i] == old(buf[i])
  {
    var i := start;
    while i < end
      invariant start <= i <= end
      invariant forall k :: start <= k < i ==> buf[k] == ZERO
      invariant forall k :: 0 <= k < buf.Length && !(start <= k < end) ==> buf[k] == old(buf[k])
    {
      buf[i] := ZERO;
      i := i + 1;
    }
  }

  lemma WrittenStart(val: nat, room: nat)
    requires val < Pow10(room)
    ensures Written(val, val, room, [])
  {
  }

  /** With nothing left and the rest filled with zeros, the buffer is the padded numeral. */
  lemma WrittenEnd(val: nat, room: nat, done: seq<byte>)
    requires Written(val, 0, room, done)
    ensures Digits(done) && Value(done) == val && (val > 0 ==> done != [] && done[0] != ZERO)
    ensures val == 0 ==> done == []
    ensures seq(room, _ => ZERO) + done == Numeral(val, room + |done|)
  {
    ZerosAreNothing(room, done);
    NumeralOfValue(seq(room, _ => ZERO) + done);
    if done != [] {
      LeadingIsPositive(done);
    }
  }

  lemma LeadingIsPositive(s: seq<byte>)
    requires Digits(s) && s != [] && s[0] != ZERO
    ensures Value(s) > 0
  {
  }

  // ----- a0_str_to_u64 -----------------------------------------------------------------------

  /** Accepts digits only; numbers beyond 64 bits wrap around. */
  method FromStr(buf: array<byte>, start: nat, end: nat) returns (r: Result<nat>)
    requires start <= end <= buf.Length
    ensures r.Ok? <==> Digits(buf[start..end])
    ensures r.Ok? ==> r.value == Value(buf[start..end]) % WORD_LIMIT
    ensures r.Err? ==> r.error == InvalidArg
  {
    var out: nat := 0;
    var ptr := start;
    while ptr < end
      invariant start <= ptr <= end
      invariant Digits(buf[start..ptr]) && out == Value(buf[start..ptr]) % WORD_LIMIT
    {
      if buf[ptr] < 48 || buf[ptr] > 57 {
        assert buf[start..end][ptr - start] == buf[ptr];
        return Err(InvalidArg);
      }
      ghost var read := buf[start..ptr];
      assert buf[start..ptr + 1][..|read|] == read;
      assert buf[start..ptr + 1] == read + [buf[ptr]];
      WrapStep(Value(read), buf[ptr] - ZERO);
      out := (out * 10 % WORD_LIMIT + (buf[ptr] - ZERO)) % WORD_LIMIT;
      ptr := ptr + 1;
    }
    r := Ok(out);
  }

  lemma WrapStep(v: nat, d: nat)
    ensures (v % WORD_LIMIT * 10 % WORD_LIMIT + d) % WORD_LIMIT == (10 * v + d) % WORD_LIMIT
  {
    var x := v % WORD_LIMIT * 10;
    assert 10 * v + d == x + d + WORD_LIMIT * (10 * (v / WORD_LIMIT));
    WholeWords(x + d, 10 * (v / WORD_LIMIT));
    WholeWords(x % WORD_LIMIT + d, x / WORD_LIMIT);
  }

  lemma WholeWords(a: nat, k: nat)
    ensures (a + WORD_LIMIT * k) % WORD_LIMIT == a % WORD_LIMIT
  {
    var q := (a + WORD_LIMIT * k) / WORD_LIMIT;
    assert WORD_LIMIT * (q - k - a / WORD_LIMIT) == a % WORD_LIMIT - (a + WORD_LIMIT * k) % WORD_LIMIT;
  }
}
