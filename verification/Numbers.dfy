/** Printing numbers: `itoa` and the conversions of `printf` that use it (lib.c). */
module Numbers {
  // `itoa` writes the digits backwards and reverses them in place.

  import opened FileSystem

  const UINT32 := 0x1_0000_0000
  const LOOKUP := "0123456789ABCDEFGHIJKLMNOPQRSTUVWXYZ"

  type Radix = r: nat | 2 <= r <= 36 witness 2

  /** The value of a digit; characters that are none count as 36. */
  function ValueOf(c: char): (d: nat) {
    if '0' <= c <= '9' then (c - '0') as int
    else if 'A' <= c <= 'Z' then (c - 'A') as int + 10
    else 36
  }

  function Digit(d: nat): (c: char)
    requires d < 36
    ensures ValueOf(c) == d
  {
    LOOKUP[d]
  }

  lemma DigitOfValue(c: char)
    requires ValueOf(c) < 36
    ensures Digit(ValueOf(c)) == c
  {
  }

  // ---------- places ----------

  // Products and quotients by a radix are written as repeated additions and subtractions,
  // which keeps the proofs about them linear; TimesIs and PlacesAre say that they are the usual ones.

  function Times(radix: nat, n: nat): nat {
    if n == 0 then 0 else Times(radix, n - 1) + radix
  }

  /** The number without its lowest place. */
  function High(value: nat, radix: Radix): (q: nat)
    ensures value > 0 ==> q < value
    ensures value < radix <==> q == 0
  {
    if value < radix then 0 else High(value - radix, radix) + 1
  }

  /** The lowest place of a number. */
  function Low(value: nat, radix: Radix): (r: nat)
    ensures r < radix
    ensures value < radix ==> r == value
  {
    if value < radix then value else Low(value - radix, radix)
  }

  lemma {:induction false} TimesIs(radix: nat, n: nat)
    ensures Times(radix, n) == radix * n
  {
    if n == 0 {
    } else {
      TimesIs(radix, n - 1);
      assert radix * n == radix * (n - 1) + radix;
    }
  }

  lemma {:induction false} HighAndLow(value: nat, radix: Radix)
    ensures Times(radix, High(value, radix)) + Low(value, radix) == value
  {
    if value < radix {
    } else {
      HighAndLow(value - radix, radix);
    }
  }

  lemma {:induction false} PlacesOf(high: nat, low: nat, radix: Radix)
    requires low < radix
    ensures High(Times(radix, high) + low, radix) == high && Low(Times(radix, high) + low, radix) == low
  {
    if high == 0 {
    } else {
      PlacesOf(high - 1, low, radix);
    }
  }

  lemma PlacesAre(value: nat, radix: Radix)
    ensures value / radix == High(value, radix) && value % radix == Low(value, radix)
  {
    HighAndLow(value, radix);
    TimesIs(radix, High(value, radix));
    DivMod(value, radix);
    Euclid(value, radix, High(value, radix), Low(value, radix), value / radix, value % radix);
  }

  lemma DivMod(value: nat, radix: nat)
    requires radix > 0
    ensures value == radix * (value / radix) + value % radix && value % radix < radix && value / radix >= 0
  {
  }

  lemma Euclid(value: nat, radix: nat, q: nat, r: nat, a: nat, b: nat)
    requires r < radix && b < radix && value == radix * q + r && value == radix * a + b
    ensures q == a && r == b
  {
    if q > a {
      assert radix * q == radix * a + radix * (q - a);
      AtLeast(radix, q - a);
    } else if q < a {
      assert radix * a == radix * q + radix * (a - q);
      AtLeast(radix, a - q);
    }
  }

  lemma {:induction false} AtLeast(radix: nat, d: nat)
    requires d > 0
    ensures radix * d >= radix
  {
    if d <= 1 {
    } else {
      AtLeast(radix, d - 1);
      assert radix * d == radix * (d - 1) + radix;
    }
  }

  // ---------- numerals ----------

  /** A number in place-value notation, the highest place first. */
  function Numeral(value: nat, radix: Radix): (s: seq<char>)
    ensures |s| > 0 && '\0' !in s && '-' !in s
    decreases value
  {
    if value < radix then [Digit(value)] else Numeral(High(value, radix), radix) + [Digit(Low(value, radix))]
  }

  predicate Digits(s: seq<char>, radix: Radix) {
    forall i | 0 <= i < |s| :: ValueOf(s[i]) < radix
  }

  function Parse(s: seq<char>, radix: Radix): (v: nat)
    requires Digits(s, radix)
  {
    if s == [] then 0 else Times(radix, Parse(s[..|s| - 1], radix)) + ValueOf(s[|s| - 1])
  }

  lemma ParseSnoc(s: seq<char>, c: char, radix: Radix)
    requires Digits(s, radix) && ValueOf(c) < radix
    ensures Digits(s + [c], radix) && Parse(s + [c], radix) == Times(radix, Parse(s, radix)) + ValueOf(c)
  {
    assert (s + [c])[..|s|] == s;
  }

  lemma {:induction false} NumeralParses(value: nat, radix: Radix)
    ensures Digits(Numeral(value, radix), radix) && Parse(Numeral(value, radix), radix) == value
    decreases value
  {
    if value < radix {
      ParseSnoc([], Digit(value), radix);
      assert [] + [Digit(value)] == [Digit(value)];
    } else {
      NumeralParses(High(value, radix), radix);
      ParseSnoc(Numeral(High(value, radix), radix), Digit(Low(value, radix)), radix);
      HighAndLow(value, radix);
    }
  }

  lemma {:induction false} NoLeadingZero(value: nat, radix: Radix)
    ensures Numeral(value, radix)[0] == '0' <==> value == 0
    ensures value == 0 ==> Numeral(value, radix) == "0"
    decreases value
  {
    if value < radix {
    } else {
      NoLeadingZero(High(value, radix), radix);
    }
  }

  lemma PositiveSnoc(s: seq<char>, c: char, radix: Radix)
    requires Digits(s, radix) && ValueOf(c) < radix && (Parse(s, radix) > 0 || (s == [] && c != '0'))
    ensures Digits(s + [c], radix) && Parse(s + [c], radix) > 0
  {
    ParseSnoc(s, c, radix);
    Monotone(radix, 0, Parse(s, radix));
    DigitOfValue(c);
  }

  lemma {:induction false} PositiveParse(s: seq<char>, radix: Radix)
    requires Digits(s, radix) && s != [] && s[0] != '0'
    ensures Parse(s, radix) > 0
  {
    var n := |s| - 1;
    if n == 0 {
    } else {
      PositiveParse(s[..n], radix);
    }
    PositiveSnoc(s[..n], s[n], radix);
    assert s == s[..n] + [s[n]];
  }

  lemma NumeralSnoc(high: nat, low: nat, radix: Radix)
    requires high > 0 && low < radix
    ensures Numeral(Times(radix, high) + low, radix) == Numeral(high, radix) + [Digit(low)]
  {
    PlacesOf(high, low, radix);
  }

  lemma OneDigitPrintsAgain(c: char, radix: Radix)
    requires ValueOf(c) < radix
    ensures Numeral(Parse([c], radix), radix) == [c]
  {
    assert [c][..0] == [];
    DigitOfValue(c);
  }

  lemma MorePrintsAgain(s: seq<char>, c: char, radix: Radix)
    requires Digits(s, radix) && ValueOf(c) < radix && Parse(s, radix) > 0 && Numeral(Parse(s, radix), radix) == s
    ensures Digits(s + [c], radix) && Numeral(Parse(s + [c], radix), radix) == s + [c]
  {
    ParseSnoc(s, c, radix);
    NumeralSnoc(Parse(s, radix), ValueOf(c), radix);
    DigitOfValue(c);
  }

  /** A numeral without a leading zero is the only one of its value. */
  lemma {:induction false} ParsedPrintsAgain(s: seq<char>, radix: Radix)
    requires Digits(s, radix) && s != [] && (s[0] == '0' ==> |s| == 1)
    ensures Numeral(Parse(s, radix), radix) == s
  {
    var n := |s| - 1;
    var t := s[..n];
    assert s == t + [s[n]];
    if n == 0 {
      OneDigitPrintsAgain(s[n], radix);
      assert t + [s[n]] == [s[n]];
    } else {
      ParsedPrintsAgain(t, radix);
      PositiveParse(t, radix);
      MorePrintsAgain(t, s[n], radix);
    }
  }

  function Power(base: nat, n: nat): nat {
    if n == 0 then 1 else base * Power(base, n - 1)
  }

  lemma {:induction false} Monotone(radix: nat, a: nat, b: nat)
    ensures a <= b ==> Times(radix, a) <= Times(radix, b)
    ensures a < b ==> Times(radix, a) + radix <= Times(radix, b)
  {
    if a >= b {
    } else {
      Monotone(radix, a, b - 1);
    }
  }

  lemma OneMorePlace(radix: Radix, value: nat, top: nat, bottom: nat)
    requires bottom <= High(value, radix) < top
    ensures Times(radix, bottom) <= value < Times(radix, top)
  {
    HighAndLow(value, radix);
    Monotone(radix, High(value, radix), top);
    Monotone(radix, bottom, High(value, radix));
  }

  lemma NextPower(radix: Radix, n: nat)
    ensures Power(radix, n + 1) == Times(radix, Power(radix, n))
  {
    TimesIs(radix, Power(radix, n));
  }

  /** A number of `n` places and no more. */
  lemma {:induction false} NumeralLength(value: nat, radix: Radix)
    ensures var n := |Numeral(value, radix)|;
            value < Power(radix, n) && (value > 0 ==> Power(radix, n - 1) <= value)
    decreases value
  {
    if value < radix {
      OnePlace(radix);
    } else {
      var high := High(value, radix);
      var n := |Numeral(high, radix)|;
      assert |Numeral(value, radix)| == n + 1;
      NumeralLength(high, radix);
      OneMorePlace(radix, value, Power(radix, n), Power(radix, n - 1));
      NextPower(radix, n);
      NextPower(radix, n - 1);
    }
  }

  lemma {:induction false} PlacesBounded(value: nat, radix: Radix, places: nat)
    requires value < Power(radix, places) && places > 0
    ensures |Numeral(value, radix)| <= places
    decreases places
  {
    if value < radix {
    } else {
      HighAndLow(value, radix);
      TimesIs(radix, Power(radix, places - 1));
      Monotone(radix, Power(radix, places - 1), High(value, radix));
      OnePlace(radix);
      PlacesBounded(High(value, radix), radix, places - 1);
    }
  }

  lemma OnePlace(radix: nat)
    ensures Power(radix, 1) == radix
  {
    assert Power(radix, 1) == radix * Power(radix, 0);
  }

  lemma {:induction false} PowerGrows(base: nat, radix: Radix, n: nat)
    requires base <= radix
    ensures Power(base, n) <= Power(radix, n)
  {
    if n == 0 {
    } else {
      PowerGrows(base, radix, n - 1);
      Monotone(base, Power(base, n - 1), Power(radix, n - 1));
      Wider(base, radix, Power(radix, n - 1));
      TimesIs(base, Power(base, n - 1));
      TimesIs(base, Power(radix, n - 1));
      TimesIs(radix, Power(radix, n - 1));
    }
  }

  lemma {:induction false} Wider(base: nat, radix: nat, n: nat)
    requires base <= radix
    ensures Times(base, n) <= Times(radix, n)
  {
    if n == 0 {
    } else {
      Wider(base, radix, n - 1);
    }
  }

  lemma {:induction false} PowerAdds(base: nat, m: nat, n: nat)
    ensures Power(base, m + n) == Power(base, m) * Power(base, n)
  {
    if n == 0 {
    } else {
      PowerAdds(base, m, n - 1);
      Associates(Power(base, m), Power(base, n - 1), base);
    }
  }

  lemma Associates(a: nat, b: nat, c: nat)
    ensures c * (a * b) == a * (c * b)
  {
  }

  /** The powers at which 32-bit numbers end. */
  lemma Bounds()
    ensures Power(2, 32) == UINT32 && Power(16, 8) == UINT32 && Power(10, 10) > UINT32
  {
    OnePlace(2);
    OnePlace(16);
    OnePlace(10);
    PowerAdds(2, 1, 1);
    PowerAdds(2, 2, 2);
    PowerAdds(2, 4, 4);
    PowerAdds(2, 8, 8);
    PowerAdds(2, 16, 16);
    PowerAdds(16, 1, 1);
    PowerAdds(16, 2, 2);
    PowerAdds(16, 4, 4);
    PowerAdds(10, 1, 1);
    PowerAdds(10, 2, 2);
    PowerAdds(10, 4, 4);
    PowerAdds(10, 8, 2);
  }

  lemma UintLengths(value: nat, radix: Radix)
    requires value < UINT32
    ensures |Numeral(value, radix)| <= 32
    ensures radix == 16 ==> |Numeral(value, radix)| <= 8
    ensures radix == 10 ==> |Numeral(value, radix)| <= 10
  {
    Bounds();
    PowerGrows(2, radix, 32);
    PlacesBounded(value, radix, 32);
    if radix == 16 {
      PlacesBounded(value, radix, 8);
    }
    if radix == 10 {
      PlacesBounded(value, radix, 10);
    }
  }

  // ---------- itoa ----------

  /** The digits as they are produced: the lowest place first, and none for 0. */
  function LowFirst(value: nat, radix: Radix): seq<char>
    decreases value
  {
    if value == 0 then [] else [Digit(Low(value, radix))] + LowFirst(High(value, radix), radix)
  }

  function Reversed(s: seq<char>): (r: seq<char>)
    ensures |r| == |s| && forall i | 0 <= i < |s| :: r[i] == s[|s| - 1 - i]
  {
    seq(|s|, i requires 0 <= i < |s| => s[|s| - 1 - i])
  }

  lemma {:induction false} ReversedDigits(value: nat, radix: Radix)
    requires value > 0
    ensures Reversed(LowFirst(value, radix)) == Numeral(value, radix)
    decreases value
  {
    if value < radix {
      assert LowFirst(value, radix) == [Digit(value)];
    } else {
      ReversedDigits(High(value, radix), radix);
      ReversedCons(Digit(Low(value, radix)), LowFirst(High(value, radix), radix));
    }
  }

  lemma ReversedCons(c: char, s: seq<char>)
    ensures Reversed([c] + s) == Reversed(s) + [c]
  {
  }

  /** The string at `at` in a buffer. */
  ghost predicate StringAt(buf: seq<char>, at: nat, s: seq<char>) {
    at + |s| < |buf| && buf[at..at + |s|] == s && buf[at + |s|] == '\0' && '\0' !in s
  }

  lemma SplicedIs(buf: seq<char>, before: seq<char>, at: nat, bytes: seq<char>)
    requires at + |bytes| <= |before| == |buf|
    requires forall k | at <= k < at + |bytes| :: buf[k] == bytes[k - at]
    requires forall k | 0 <= k < |buf| && !(at <= k < at + |bytes|) :: buf[k] == before[k]
    ensures buf == Spliced(before, at, bytes)
  {
  }

  /** `strrev`. */
  method Strrev(buf: array<char>, at: nat, ghost s: seq<char>)
    requires StringAt(buf[..], at, s)
    modifies buf
    ensures buf[..] == Spliced(old(buf[..]), at, Reversed(s))
  {
    StringStarts(buf[..], at, s);
    var len := StringLength(buf[at..]);
    ReverseInPlace(buf, at, len, s);
  }

  /** Where the character comes from that is at place `i` when the first and last `beg` have changed places. */
  function Mirror(i: nat, n: nat, beg: nat): (j: nat)
    requires i < n
    ensures j < n
  {
    if beg <= i < n - beg then i else n - 1 - i
  }

  ghost predicate HalfReversed(buf: seq<char>, before: seq<char>, at: nat, s: seq<char>, beg: nat)
    requires at + |s| <= |before| == |buf|
  {
    && (forall k | at <= k < at + |s| :: buf[k] == s[Mirror(k - at, |s|, beg)])
    && (forall k | 0 <= k < |buf| && !(at <= k < at + |s|) :: buf[k] == before[k])
  }

  lemma SwapOne(buf: seq<char>, before: seq<char>, at: nat, s: seq<char>, beg: nat)
    requires at + |s| <= |before| == |buf| && 2 * beg < |s| - 1 && HalfReversed(buf, before, at, s, beg)
    ensures var x, y := at + beg, at + |s| - 1 - beg;
            HalfReversed(buf[y := buf[x]][x := buf[y]], before, at, s, beg + 1)
  {
  }

  lemma AllSwapped(buf: seq<char>, before: seq<char>, at: nat, s: seq<char>, beg: nat)
    requires at + |s| <= |before| == |buf| && |s| - 1 <= 2 * beg <= |s| && HalfReversed(buf, before, at, s, beg)
    ensures buf == Spliced(before, at, Reversed(s))
  {
    SplicedIs(buf, before, at, Reversed(s));
  }

  lemma NoneSwapped(before: seq<char>, at: nat, s: seq<char>)
    requires at + |s| <= |before| && before[at..at + |s|] == s
    ensures HalfReversed(before, before, at, s, 0)
  {
    assert forall k | at <= k < at + |s| :: before[k] == before[at..at + |s|][k - at];
  }

  /** The two characters at the ends of what is left change places. */
  method SwapEnds(buf: array<char>, at: nat, beg: nat, end: nat, ghost before: seq<char>, ghost s: seq<char>)
    requires at + |s| <= |before| == buf.Length && beg < end == |s| - 1 - beg
    requires HalfReversed(buf[..], before, at, s, beg)
    modifies buf
    ensures HalfReversed(buf[..], before, at, s, beg + 1)
  {
    SwapOne(buf[..], before, at, s, beg);
    var tmp := buf[at + end];
    buf[at + end] := buf[at + beg];
    buf[at + beg] := tmp;
  }

  /** The loop of `strrev`, from both ends. */
  method ReverseInPlace(buf: array<char>, at: nat, len: nat, ghost s: seq<char>)
    requires at + len <= buf.Length && buf[at..at + len] == s
    modifies buf
    ensures buf[..] == Spliced(old(buf[..]), at, Reversed(s))
  {
    ghost var before := buf[..];
    NoneSwapped(before, at, s);
    var beg, end: int := 0, len - 1;
    while beg < end
      invariant 0 <= 2 * beg <= len && end == len - 1 - beg
      invariant HalfReversed(buf[..], before, at, s, beg)
    {
      SwapEnds(buf, at, beg, end, before, s);
      beg := beg + 1;
      end := end - 1;
    }
    AllSwapped(buf[..], before, at, s, beg);
  }

  /** The digits, a NUL behind them, and the digits reversed. */
  lemma EndedAndReversed(before: seq<char>, at: nat, s: seq<char>)
    requires at + |s| < |before| && '\0' !in s
    ensures var ended := Spliced(before, at, s)[at + |s| := '\0'];
            StringAt(ended, at, s) && Spliced(ended, at, Reversed(s)) == Spliced(before, at, Reversed(s) + ['\0'])
  {
    var ended := Spliced(before, at, s)[at + |s| := '\0'];
    assert ended[at..at + |s|] == s;
    assert Spliced(ended, at, Reversed(s)) == Spliced(before, at, Reversed(s) + ['\0']);
  }

  lemma SplicedString(before: seq<char>, at: nat, s: seq<char>)
    requires at + |s| < |before| && '\0' !in s
    ensures var after := Spliced(before, at, s + ['\0']); StringAt(after, at, s) && after[..at] == before[..at]
  {
    assert Spliced(before, at, s + ['\0'])[at..at + |s|] == s;
  }

  /** `itoa`; what lies behind the terminating NUL stays. */
  method Itoa(value: nat, buf: array<char>, at: nat, radix: Radix)
    requires value < UINT32 && at + |Numeral(value, radix)| < buf.Length
    modifies buf
    ensures buf[..] == Spliced(old(buf[..]), at, Numeral(value, radix) + ['\0'])
    ensures StringAt(buf[..], at, Numeral(value, radix)) && buf[..at] == old(buf[..at])
  {
    SplicedString(buf[..], at, Numeral(value, radix));
    if value == 0 {
      PrintZero(buf, at);
      return;
    }
    ghost var s, before := LowFirst(value, radix), buf[..];
    ReversedDigits(value, radix);
    NoNul(value, radix);
    EndedAndReversed(before, at, s);
    var end := Produce(value, buf, at, radix);
    buf[end] := '\0';
    Strrev(buf, at, s);
  }

  method PrintZero(buf: array<char>, at: nat)
    requires at + 1 < buf.Length
    modifies buf
    ensures buf[..] == Spliced(old(buf[..]), at, "0" + ['\0'])
  {
    buf[at] := '0';
    buf[at + 1] := '\0';
    SplicedIs(buf[..], old(buf[..]), at, "0" + ['\0']);
  }

  lemma NextDigit(s: seq<char>, i: nat, value: nat, radix: Radix)
    requires value > 0 && i <= |s| && s[i..] == LowFirst(value, radix)
    ensures i < |s| && s[i] == LOOKUP[Low(value, radix)] && s[i + 1..] == LowFirst(High(value, radix), radix)
  {
    assert s[i] == s[i..][0] && s[i + 1..] == s[i..][1..];
  }

  /** The loop over the places, the lowest first. */
  method Produce(value: nat, buf: array<char>, at: nat, radix: Radix) returns (end: nat)
    requires at + |LowFirst(value, radix)| < buf.Length
    modifies buf
    ensures end == at + |LowFirst(value, radix)| && buf[..] == Spliced(old(buf[..]), at, LowFirst(value, radix))
  {
    ghost var s, before := LowFirst(value, radix), buf[..];
    var newval: nat, i: nat := value, 0;
    while newval > 0
      invariant i <= |s| && s[i..] == LowFirst(newval, radix)
      invariant forall k | at <= k < at + i :: buf[k] == s[k - at]
      invariant forall k | 0 <= k < buf.Length && !(at <= k < at + i) :: buf[k] == before[k]
      decreases newval
    {
      PlacesAre(newval, radix);
      NextDigit(s, i, newval, radix);
      buf[at + i] := LOOKUP[newval % radix];
      newval := newval / radix;
      i := i + 1;
    }
    SplicedIs(buf[..], before, at, s);
    return at + i;
  }

  lemma {:induction false} NoNul(value: nat, radix: Radix)
    ensures '\0' !in LowFirst(value, radix)
    decreases value
  {
    if value == 0 {
    } else {
      NoNul(High(value, radix), radix);
    }
  }

  // ---------- printf ----------

  /** What `puts` prints of the string at a place in a buffer. */
  method Puts(buf: array<char>, at: nat, ghost s: seq<char>) returns (out: seq<char>)
    requires StringAt(buf[..], at, s)
    ensures out == s
  {
    StringStarts(buf[..], at, s);
    var len := StringLength(buf[at..]);
    return buf[at..at + len];
  }

  /** `%x`. */
  method PrintHex(value: nat) returns (out: seq<char>)
    requires value < UINT32
    ensures out == Numeral(value, 16)
  {
    var buf := new char[64](_ => '\0');
    UintLengths(value, 16);
    Itoa(value, buf, 0, 16);
    out := Puts(buf, 0, Numeral(value, 16));
  }

  /** `%#x`: zeros are put in front of the string where it stands in the buffer. */
  method PrintPadded(value: nat) returns (out: seq<char>)
    requires value < UINT32
    ensures |out| == 8 && Digits(out, 16) && Parse(out, 16) == value
  {
    var buf := new char[64](_ => '\0');
    UintLengths(value, 16);
    Itoa(value, buf, 8, 16);
    ghost var s := Numeral(value, 16);
    StringStarts(buf[..], 8, s);
    var start := StringLength(buf[8..]);
    FillZeros(buf, start, s);
    PaddedParses(buf[start..8], value);
    out := Puts(buf, start, buf[start..8] + s);
  }

  lemma PaddedParses(zeros: seq<char>, value: nat)
    requires forall i | 0 <= i < |zeros| :: zeros[i] == '0'
    ensures var s := zeros + Numeral(value, 16); Digits(s, 16) && Parse(s, 16) == value
  {
    NumeralParses(value, 16);
    LeadingZeros(zeros, Numeral(value, 16), 16);
  }

  /** The string becomes longer by the zeros in front of it. */
  method FillZeros(buf: array<char>, start: nat, ghost s: seq<char>)
    requires StringAt(buf[..], 8, s) && start <= 8
    modifies buf
    ensures (forall i | start <= i < 8 :: buf[i] == '0') && StringAt(buf[..], start, buf[start..8] + s)
  {
    ghost var behind := buf[8..];
    assert behind[..|s|] == buf[8..8 + |s|] == s;
    var i := start;
    while i < 8
      invariant start <= i <= 8 && buf[8..] == behind
      invariant forall k | start <= k < i :: buf[k] == '0'
    {
      buf[i] := '0';
      i := i + 1;
    }
    assert buf[start..8 + |s|] == buf[start..8] + buf[8..][..|s|];
    assert buf[8 + |s|] == behind[|s|];
  }

  lemma StringStarts(buf: seq<char>, at: nat, s: seq<char>)
    requires StringAt(buf, at, s)
    ensures CString(buf[at..]) == s
  {
    assert buf[at..][..|s|] == s;
    CStringIs(buf[at..], |s|);
  }

  lemma OneInFront(buf: seq<char>, at: nat, s: seq<char>)
    requires StringAt(buf, at + 1, s) && buf[at] != '\0'
    ensures StringAt(buf, at, [buf[at]] + s)
  {
  }

  /** Zeros in front leave the value as it is. */
  lemma {:induction false} LeadingZeros(zeros: seq<char>, s: seq<char>, radix: Radix)
    requires (forall i | 0 <= i < |zeros| :: zeros[i] == '0') && Digits(s, radix)
    ensures Digits(zeros + s, radix) && Parse(zeros + s, radix) == Parse(s, radix)
  {
    if s != [] {
      var n := |s| - 1;
      LeadingZeros(zeros, s[..n], radix);
      assert zeros + s == (zeros + s[..n]) + [s[n]] && s == s[..n] + [s[n]];
      ParseSnoc(zeros + s[..n], s[n], radix);
      ParseSnoc(s[..n], s[n], radix);
    } else {
      ParseZeros(zeros, radix);
      assert zeros + s == zeros;
    }
  }

  lemma {:induction false} ParseZeros(zeros: seq<char>, radix: Radix)
    requires forall i | 0 <= i < |zeros| :: zeros[i] == '0'
    ensures Digits(zeros, radix) && Parse(zeros, radix) == 0
  {
    if zeros == [] {
    } else {
      ParseZeros(zeros[..|zeros| - 1], radix);
    }
  }

  /** `%u`. */
  method PrintUnsigned(value: nat) returns (out: seq<char>)
    requires value < UINT32
    ensures out == Numeral(value, 10)
  {
    var buf := new char[36](_ => '\0');
    UintLengths(value, 10);
    Itoa(value, buf, 0, 10);
    out := Puts(buf, 0, Numeral(value, 10));
  }

  /** What a signed number looks like; the most negative one is its own negative in 32 bits, and right unsigned. */
  function Signed(value: int): seq<char> {
    if value < 0 then "-" + Numeral(-value, 10) else Numeral(value, 10)
  }

  /** `%d`. */
  method PrintSigned(value: int) returns (out: seq<char>)
    requires -0x8000_0000 <= value < 0x8000_0000
    ensures out == Signed(value)
  {
    var buf := new char[36](_ => '\0');
    if value < 0 {
      buf[0] := '-';
      var negated := Negated(value) % UINT32;
      UintLengths(negated, 10);
      Itoa(negated, buf, 1, 10);
      assert buf[0] == buf[..1][0];
      OneInFront(buf[..], 0, Numeral(negated, 10));
    } else {
      UintLengths(value, 10);
      Itoa(value, buf, 0, 10);
    }
    out := Puts(buf, 0, Signed(value));
  }

  /** The negative of a signed 32-bit number, in signed 32 bits. */
  function Negated(value: int): (r: int)
    requires -0x8000_0000 <= value < 0x8000_0000
    ensures value < 0 ==> r % UINT32 == -value
    ensures -0x8000_0000 <= r < 0x8000_0000
  {
    if value == -0x8000_0000 then value else -value
  }

  function ParseSigned(s: seq<char>): int
    requires Digits(if s != [] && s[0] == '-' then s[1..] else s, 10)
  {
    if s != [] && s[0] == '-' then 0 - Parse(s[1..], 10) else Parse(s, 10)
  }

  lemma SignedParses(value: int)
    ensures Digits(if Signed(value)[0] == '-' then Signed(value)[1..] else Signed(value), 10)
    ensures ParseSigned(Signed(value)) == value && (Signed(value)[0] == '-' <==> value < 0)
  {
    NumeralParses(if value < 0 then -value else value, 10);
    if value < 0 {
      assert Signed(value)[1..] == Numeral(-value, 10);
    }
  }
}
