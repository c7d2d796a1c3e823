/** Decimal text: the number parsers and printers of ds/utilities.c. */
module Decimal {
  datatype Option<+T> = None | Some(value: T)

  const LL_MAX := 9223372036854775806

  predicate IsDigit(c: char) {
    '0' <= c <= '9'
  }

  predicate AllDigits(s: string) {
    forall i {:trigger IsDigit(s[i])} :: 0 <= i < |s| ==> IsDigit(s[i])
  }

  function DigitValue(c: char): (d: nat)
    requires IsDigit(c)
    ensures d < 10
  {
    (c as int) - ('0' as int)
  }

  function DigitChar(d: nat): (c: char)
    requires d < 10
    ensures IsDigit(c) && DigitValue(c) == d
  {
    (d + '0' as int) as char
  }

  /** The number a run of digits stands for; 0 for the empty run. */
  function NatOf(s: string): nat
    requires AllDigits(s)
  {
    if s == [] then 0 else NatOf(s[..|s| - 1]) * 10 + DigitValue(s[|s| - 1])
  }

  /** numberToString and llToString (ds/utilities.c:355-374). */
  function Digits(n: nat): (s: string)
    ensures s != [] && AllDigits(s)
    ensures NatOf(s) == n
    ensures n < 10 ==> |s| == 1
  {
    if n < 10 then
      var s := [DigitChar(n)];
      assert s[..0] == [];
      s
    else
      var s := Digits(n / 10) + [DigitChar(n % 10)];
      assert s[..|s| - 1] == Digits(n / 10);
      s
  }

  lemma {:induction false} NatOfPrefix(s: string, i: nat)
    requires AllDigits(s) && i <= |s|
    ensures NatOf(s[..i]) <= NatOf(s)
  {
    if i != |s| {
      NatOfPrefix(s[..|s| - 1], i);
      assert s[..|s| - 1][..i] == s[..i];
    } else {
      assert s[..i] == s;
    }
  }

  newtype int32 = x: int | -0x8000_0000 <= x < 0x8000_0000
  newtype int64 = x: int | -0x8000_0000_0000_0000 <= x < 0x8000_0000_0000_0000

  const INT_LIMIT := 0x8000_0000
  const LONG_LONG_LIMIT := 0x8000_0000_0000_0000

  /** Reading digit i on top of the i digits before it does not overflow, if it is read at all. */
  predicate DigitFits(s: string, i: nat)
    requires i < |s|
  {
    AllDigits(s[..i + 1]) && AllDigits(s[..i]) && NatOf(s[..i]) <= LL_MAX ==> NatOf(s[..i + 1]) < LONG_LONG_LIMIT
  }

  /** The digits that stringToLongLong multiplies up stay within a `long long`. */
  predicate LongLongFits(s: string) {
    forall i {:trigger DigitFits(s, i)} :: 0 <= i < |s| ==> DigitFits(s, i)
  }

  /** What a text stands for as a whole number up to LL_MAX. */
  function LongLongOf(s: string): Option<nat> {
    if AllDigits(s) && NatOf(s) <= LL_MAX then Some(NatOf(s)) else None
  }

  lemma OneMoreDigit(s: string, i: nat)
    requires i < |s| && AllDigits(s[..i]) && IsDigit(s[i])
    ensures AllDigits(s[..i + 1]) && NatOf(s[..i + 1]) == NatOf(s[..i]) * 10 + DigitValue(s[i])
  {
    assert s[..i + 1][..i] == s[..i];
    assert forall j :: 0 <= j < i ==> IsDigit(s[..i + 1][j]) == IsDigit(s[..i][j]);
  }

  /** stringToLongLong (ds/utilities.c:391-402): -1 for anything but digits, or above LL_MAX.  The
      test comes before the multiplication, so the digits must fit. */
  method StringToLongLong(s: string) returns (r: int)
    requires LongLongFits(s)
    ensures r == match LongLongOf(s) case Some(n) => n case None => -1
  {
    var l: int64 := 0;
    var i := 0;
    while i < |s|
      invariant 0 <= i <= |s| && AllDigits(s[..i]) && l as int == NatOf(s[..i])
    {
      if !IsDigit(s[i]) { return -1; }
      if l as int > LL_MAX {
        if AllDigits(s) { NatOfPrefix(s, i); }
        return -1;
      }
      OneMoreDigit(s, i);
      assert DigitFits(s, i);
      l := (l as int * 10 + DigitValue(s[i])) as int64;
      i := i + 1;
    }
    assert s[..i] == s;
    r := if l as int > LL_MAX then -1 else l as int;
  }

  // ----- long doubles -----

  function Pow10(n: nat): (r: int)
    ensures r > 0
  {
    if n == 0 then 1 else 10 * Pow10(n - 1)
  }

  /** The largest finite long double of the platform. */
  const LDBL_MAX: real

  function UpperChar(c: char): char {
    if 'a' <= c <= 'z' then (c as int - 32) as char else c
  }

  /** strUpCase (ds/utilities.c:342-350). */
  function Upper(s: string): (r: string)
    ensures |r| == |s|
  {
    seq(|s|, i requires 0 <= i < |s| => UpperChar(s[i]))
  }

  predicate IsPoint(s: string, i: nat)
    requires i < |s|
  {
    s[i] == '.'
  }

  /** Where the first point is; |s| when there is none. */
  function PointAt(s: string): (p: nat)
    ensures p <= |s| && (p < |s| ==> s[p] == '.')
    ensures forall i {:trigger IsPoint(s, i)} :: 0 <= i < p ==> !IsPoint(s, i)
  {
    if s == [] || s[0] == '.' then 0
    else
      var p := 1 + PointAt(s[1..]);
      assert forall i :: 0 < i < p ==> IsPoint(s, i) == IsPoint(s[1..], i - 1);
      p
  }

  function Whole(s: string): string {
    s[..PointAt(s)]
  }

  function Fraction(s: string): string {
    var p := PointAt(s);
    if p == |s| then [] else s[p + 1..]
  }

  /** Digits, and perhaps one point among them: also "", "." and "7.". */
  predicate IsDecimal(s: string) {
    AllDigits(Whole(s)) && AllDigits(Fraction(s))
  }

  function DecimalValue(s: string): real
    requires IsDecimal(s)
  {
    NatOf(Whole(s)) as real + NatOf(Fraction(s)) as real / Pow10(|Fraction(s)|) as real
  }

  /** The text an unsigned score may have and the value it stands for. */
  function DoubleOf(s: string): Option<real> {
    if Upper(s) == "INF" then Some(LDBL_MAX)
    else if IsDecimal(s) then Some(DecimalValue(s))
    else None
  }

  lemma {:induction false} PointSplit(s: string, i: nat)
    requires i < |s| && s[i] == '.' && forall j :: 0 <= j < i ==> !IsPoint(s, j)
    ensures PointAt(s) == i
  {
    var p := PointAt(s);
    assert IsPoint(s, i) && (p < |s| ==> IsPoint(s, p));
  }

  /** How far stringTolongDouble has come after i characters. */
  ghost predicate Scanned(s: string, i: nat, num: nat, fraction: nat, fracLen: int, decimal: bool)
    requires i <= |s|
  {
    var p := PointAt(s);
    if !decimal then
      i <= p && AllDigits(s[..i]) && num == NatOf(s[..i]) && fraction == 0 && fracLen == 1
    else
      p < i && AllDigits(s[..p]) && num == NatOf(s[..p]) && AllDigits(s[p + 1..i])
      && fraction == NatOf(s[p + 1..i]) && fracLen == Pow10(i - p - 1)
  }

  lemma AppendDigit(t: string, c: char)
    requires AllDigits(t) && IsDigit(c)
    ensures AllDigits(t + [c]) && NatOf(t + [c]) == NatOf(t) * 10 + DigitValue(c)
  {
    assert (t + [c])[..|t|] == t;
  }

  lemma ScanDigit(s: string, i: nat, num: nat, fraction: nat, fracLen: int, decimal: bool)
    requires i < |s| && IsDigit(s[i]) && Scanned(s, i, num, fraction, fracLen, decimal)
    ensures var d := DigitValue(s[i]);
      if decimal then Scanned(s, i + 1, num, fraction * 10 + d, fracLen * 10, true)
      else Scanned(s, i + 1, num * 10 + d, fraction, fracLen, false)
  {
    var p := PointAt(s);
    if decimal {
      AppendDigit(s[p + 1..i], s[i]);
      assert s[p + 1..i + 1] == s[p + 1..i] + [s[i]];
    } else {
      AppendDigit(s[..i], s[i]);
      assert s[..i + 1] == s[..i] + [s[i]];
      assert i < p;
    }
  }

  lemma ScanPoint(s: string, i: nat, num: nat, fraction: nat, fracLen: int)
    requires i < |s| && s[i] == '.' && Scanned(s, i, num, fraction, fracLen, false)
    ensures Scanned(s, i + 1, num, fraction, fracLen, true)
  {
    PointSplit(s, i);
    assert s[i + 1..i + 1] == [];
  }

  lemma ScanIllegal(s: string, i: nat, num: nat, fraction: nat, fracLen: int, decimal: bool)
    requires i < |s| && !IsDigit(s[i]) && (s[i] != '.' || decimal) && Scanned(s, i, num, fraction, fracLen, decimal)
    ensures !IsDecimal(s)
  {
    var p := PointAt(s);
    if decimal {
      assert Fraction(s)[i - p - 1] == s[i];
    } else {
      assert i < p;
      assert Whole(s)[i] == s[i];
    }
  }

  lemma ScanEnd(s: string, num: nat, fraction: nat, fracLen: int, decimal: bool)
    requires Scanned(s, |s|, num, fraction, fracLen, decimal)
    ensures IsDecimal(s) && num == NatOf(Whole(s)) && fraction == NatOf(Fraction(s)) && fracLen == Pow10(|Fraction(s)|)
  {
    if decimal {
      assert Fraction(s) == s[PointAt(s) + 1..|s|];
    } else {
      assert Whole(s) == s[..|s|] && Fraction(s) == [];
    }
  }

  // ----- what the machine integers of the scanner can take -----

  predicate PrefixBelow(s: string, i: nat, limit: nat)
    requires i <= |s|
  {
    AllDigits(s[..i]) ==> NatOf(s[..i]) < limit
  }

  /** The integer part, as far as it is digits, fits an `int`. */
  predicate WholeFits(s: string) {
    forall i {:trigger PrefixBelow(s, i, INT_LIMIT)} :: 0 <= i <= PointAt(s) ==> PrefixBelow(s, i, INT_LIMIT)
  }

  predicate FractionStops(s: string, i: nat)
    requires PointAt(s) < i <= |s|
  {
    AllDigits(s[PointAt(s) + 1..i]) ==> i - PointAt(s) - 1 <= 9
  }

  /** So does the fraction, and the power of ten beside it, for up to nine digits. */
  predicate FractionFits(s: string) {
    forall i {:trigger FractionStops(s, i)} :: PointAt(s) < i <= |s| ==> FractionStops(s, i)
  }

  /** Scores the C code reads without overflow (ds/utilities.c:433-451). */
  predicate DoubleFits(s: string) {
    Upper(s) == "INF" || (WholeFits(s) && (AllDigits(Whole(s)) ==> FractionFits(s)))
  }

  lemma {:induction false} FewDigits(s: string)
    requires AllDigits(s) && |s| <= 9
    ensures NatOf(s) < Pow10(|s|) <= 1000000000
  {
    Below(s);
    PowersGrow(|s|, 9);
    assert Pow10(9) == 1000000000 by { assert Pow10(3) == 1000; assert Pow10(6) == 1000000; }
  }

  lemma {:induction false} Below(s: string)
    requires AllDigits(s)
    ensures NatOf(s) < Pow10(|s|)
  {
    if s != [] { Below(s[..|s| - 1]); }
  }

  lemma {:induction false} PowersGrow(i: nat, j: nat)
    requires i <= j
    ensures Pow10(i) <= Pow10(j)
  {
    if i != j { PowersGrow(i, j - 1); }
  }

  /** After i characters all three counters fit. */
  lemma CountersFit(s: string, i: nat, num: nat, fraction: nat, fracLen: int, decimal: bool)
    requires i <= |s| && Scanned(s, i, num, fraction, fracLen, decimal)
    requires WholeFits(s) && (AllDigits(Whole(s)) ==> FractionFits(s))
    ensures num < INT_LIMIT && fraction < INT_LIMIT && 0 < fracLen < INT_LIMIT
  {
    var p := PointAt(s);
    if decimal {
      assert PrefixBelow(s, p, INT_LIMIT) && FractionStops(s, i);
      FewDigits(s[p + 1..i]);
    } else {
      assert PrefixBelow(s, i, INT_LIMIT);
    }
  }

  /** The loop of ds/utilities.c:435-455. */
  method ScanNumber(s: string) returns (ok: bool, num: int32, fraction: int32, fracLen: int32)
    requires WholeFits(s) && (AllDigits(Whole(s)) ==> FractionFits(s))
    ensures ok == IsDecimal(s)
    ensures ok ==> num as int == NatOf(Whole(s)) && fraction as int == NatOf(Fraction(s))
    ensures ok ==> fracLen as int == Pow10(|Fraction(s)|)
  {
    var decimal := false;
    ok, num, fraction, fracLen := true, 0, 0, 1;
    var i := 0;
    while i < |s|
      invariant 0 <= i <= |s| && num >= 0 && fraction >= 0
      invariant Scanned(s, i, num as int, fraction as int, fracLen as int, decimal)
    {
      if !IsDigit(s[i]) {
        if s[i] != '.' || decimal {
          ScanIllegal(s, i, num as int, fraction as int, fracLen as int, decimal);
          ok := false;
          return;
        }
        ScanPoint(s, i, num as int, fraction as int, fracLen as int);
        decimal := true;
      } else {
        num, fraction, fracLen := ScanOne(s, i, num, fraction, fracLen, decimal);
      }
      i := i + 1;
    }
    assert i == |s|;
    ScanEnd(s, num as int, fraction as int, fracLen as int, decimal);
  }

  method ScanOne(s: string, i: nat, num0: int32, fraction0: int32, fracLen0: int32, decimal: bool)
    returns (num: int32, fraction: int32, fracLen: int32)
    requires i < |s| && IsDigit(s[i]) && num0 >= 0 && fraction0 >= 0
    requires Scanned(s, i, num0 as int, fraction0 as int, fracLen0 as int, decimal)
    requires WholeFits(s) && (AllDigits(Whole(s)) ==> FractionFits(s))
    ensures num >= 0 && fraction >= 0 && Scanned(s, i + 1, num as int, fraction as int, fracLen as int, decimal)
  {
    num, fraction, fracLen := num0, fraction0, fracLen0;
    var d := DigitValue(s[i]);
    ScanDigit(s, i, num as int, fraction as int, fracLen as int, decimal);
    if decimal {
      CountersFit(s, i + 1, num as int, fraction as int * 10 + d, fracLen as int * 10, true);
      fracLen := fracLen * 10;
      fraction := fraction * 10 + d as int32;
    } else {
      CountersFit(s, i + 1, num as int * 10 + d, fraction as int, fracLen as int, false);
      num := num * 10 + d as int32;
    }
  }

  /** stringTolongDouble (ds/utilities.c:422-461), None for the C code's -1. */
  method StringToLongDouble(s: string) returns (r: Option<real>)
    requires DoubleFits(s)
    ensures r == DoubleOf(s)
  {
    if Upper(s) == "INF" { return Some(LDBL_MAX); }
    var ok, num, fraction, fracLen := ScanNumber(s);
    if !ok { return None; }
    var res := num as real;
    if fraction != 0 {
      res := res + fraction as real / fracLen as real;
    }
    r := Some(res);
  }

  // ----- printing with six decimals, and reading it back -----

  const MILLION := 1000000

  /** Exactly w digits. */
  function Padded(n: nat, w: nat): (s: string)
    requires n < Pow10(w)
    ensures |s| == w && AllDigits(s) && NatOf(s) == n
  {
    if w == 0 then []
    else
      var s := Padded(n / 10, w - 1) + [DigitChar(n % 10)];
      assert s[..|s| - 1] == Padded(n / 10, w - 1);
      s
  }

  lemma SixDigits()
    ensures Pow10(6) == MILLION
  {
    assert Pow10(3) == 1000;
  }

  /** The nearest number of millionths. */
  function Round6(x: real): nat
    requires x >= 0.0
  {
    (x * 1000000.0 + 0.5).Floor
  }

  function Magnitude(n: nat): string {
    SixDigits();
    Digits(n / MILLION) + "." + Padded(n % MILLION, 6)
  }

  /** The text of "%Lf". */
  function FullText(x: real): string {
    if x < 0.0 then "-" + Magnitude(Round6(-x)) else Magnitude(Round6(x))
  }

  const PRINTED_MAX := 99

  /** doubleToString (ds/utilities.c:379-386): the text is cut off to fit the buffer. */
  function DoubleToString(x: real): (s: string)
    ensures |s| <= PRINTED_MAX
  {
    var s := FullText(x);
    if |s| > PRINTED_MAX then s[..PRINTED_MAX] else s
  }

  /** A score as ZADD reads it: a minus sign, then an unsigned number. */
  function ScoreOf(s: string): Option<real> {
    if s != [] && s[0] == '-' then
      match DoubleOf(s[1..])
      case Some(x) => Some(-1.0 * x)
      case None => None
    else DoubleOf(s)
  }

  /** A score text that is read without overflow. */
  predicate ScoreFits(s: string) {
    if s != [] && s[0] == '-' then DoubleFits(s[1..]) else DoubleFits(s)
  }

  function Millionths(n: int): real {
    n as real / 1000000.0
  }

  ghost predicate SixDecimals(x: real) {
    exists n: int :: x == Millionths(n)
  }

  /** The integer part fits an `int`, on both sides of zero. */
  predicate IntSized(x: real) {
    -2147483648.0 < x < 2147483648.0
  }

  lemma {:induction false} PointOf(a: string, c: string)
    requires AllDigits(a)
    ensures PointAt(a + "." + c) == |a|
    ensures Whole(a + "." + c) == a && Fraction(a + "." + c) == c
  {
    var s := a + "." + c;
    forall j | 0 <= j < |a|
      ensures !IsPoint(s, j)
    {
      assert s[j] == a[j] && IsDigit(a[j]);
    }
    PointSplit(s, |a|);
  }

  lemma SplitMillionths(n: nat, q: nat, r: nat)
    requires n == q * MILLION + r
    ensures q as real + r as real / MILLION as real == Millionths(n)
  {
    assert n as real == q as real * 1000000.0 + r as real;
  }

  lemma StartsWithDigit(s: string)
    requires s != [] && IsDigit(s[0])
    ensures Upper(s) != "INF"
  {
    assert Upper(s)[0] == s[0] != "INF"[0];
  }

  lemma MagnitudeStart(n: nat)
    ensures Magnitude(n) != [] && IsDigit(Magnitude(n)[0])
  {
    var d := Digits(n / MILLION);
    assert IsDigit(d[0]) && Magnitude(n)[0] == d[0];
  }

  lemma ReadMagnitude(n: nat)
    ensures DoubleOf(Magnitude(n)) == Some(Millionths(n))
  {
    SixDigits();
    var a, c := Digits(n / MILLION), Padded(n % MILLION, 6);
    PointOf(a, c);
    MagnitudeStart(n);
    StartsWithDigit(Magnitude(n));
    SplitMillionths(n, n / MILLION, n % MILLION);
  }

  lemma RoundExact(n: nat)
    ensures Round6(Millionths(n)) == n
  {
    assert Millionths(n) * 1000000.0 == n as real;
    assert (n as real + 0.5).Floor == n;
  }

  lemma NegatedMillionths(n: int)
    ensures Millionths(-n) == -1.0 * Millionths(n) == -Millionths(n)
  {
  }

  lemma MillionthsSign(n: int)
    ensures Millionths(n) < 0.0 <==> n < 0
  {
  }

  /** Rounding changes nothing exactly when there are at most six decimals. */
  lemma RoundsToItself(x: real)
    requires x >= 0.0
    ensures Millionths(Round6(x)) == x <==> SixDecimals(x)
  {
    if SixDecimals(x) {
      var n: int :| x == Millionths(n);
      MillionthsSign(n);
      RoundExact(n);
    }
  }

  lemma SixDecimalsNegated(x: real)
    ensures SixDecimals(x) ==> SixDecimals(-x)
  {
    if SixDecimals(x) {
      var n: int :| x == Millionths(n);
      NegatedMillionths(n);
    }
  }

  // ----- which printed texts fit the reader -----

  lemma {:induction false} DigitsLead(n: nat)
    requires n > 0
    ensures DigitValue(Digits(n)[0]) > 0
  {
    if n >= 10 {
      DigitsLead(n / 10);
      assert Digits(n)[0] == Digits(n / 10)[0];
    }
  }

  lemma {:induction false} LeadingDigit(s: string)
    requires AllDigits(s) && s != [] && DigitValue(s[0]) > 0
    ensures NatOf(s) >= Pow10(|s| - 1)
  {
    if |s| == 1 {
      assert s[..0] == [];
    } else {
      var t := s[..|s| - 1];
      assert AllDigits(t) && t[0] == s[0];
      LeadingDigit(t);
    }
  }

  lemma {:induction false} ElevenDigits(s: string)
    requires AllDigits(s) && |s| > 10 && DigitValue(s[0]) > 0
    ensures NatOf(s) >= INT_LIMIT
  {
    LeadingDigit(s);
    PowersGrow(10, |s| - 1);
    assert Pow10(10) == 10000000000 by {
      assert Pow10(6) == 1000000;
      assert Pow10(9) == 1000000000;
    }
  }

  /** The digits of a number below 2^31 are at most ten. */
  lemma {:induction false} FewDigitsOf(q: nat)
    requires q < INT_LIMIT
    ensures |Digits(q)| <= 10
  {
    if |Digits(q)| > 10 {
      DigitsLead(q);
      ElevenDigits(Digits(q));
    }
  }

  lemma {:induction false} PrefixOf(s: string, d: string, i: nat)
    requires i <= |d| && i <= |s| && s[..i] == d[..i] && AllDigits(d)
    ensures i <= PointAt(s) && AllDigits(s[..i])
  {
    forall j | 0 <= j < i
      ensures IsDigit(s[j])
    {
      assert s[j] == s[..i][j] == d[..i][j] == d[j] && IsDigit(d[j]);
    }
    var p := PointAt(s);
    assert p < |s| ==> s[p] == '.' && !IsDigit(s[p]);
  }

  /** A text that starts with the digits of a number from 2^31 on does not fit, whole or cut. */
  lemma {:induction false} LargeDoesNotFit(s: string, q: nat)
    requires q >= INT_LIMIT
    requires var d := Digits(q); (|d| <= |s| && s[..|d|] == d) || (11 <= |s| <= |d| && s == d[..|s|])
    ensures !DoubleFits(s)
  {
    var d := Digits(q);
    var i := if |d| <= |s| then |d| else |s|;
    assert s[..i] == d[..i];
    PrefixOf(s, d, i);
    assert s[0] == d[..i][0] == d[0] && IsDigit(d[0]);
    StartsWithDigit(s);
    if i == |d| {
      assert s[..i] == d;
    } else {
      DigitsLead(q);
      assert s[..i][0] == d[0];
      ElevenDigits(s[..i]);
    }
    assert !PrefixBelow(s, i, INT_LIMIT);
  }

  lemma SmallFits(n: nat)
    requires n / MILLION < INT_LIMIT
    ensures |Magnitude(n)| <= 17 && DoubleFits(Magnitude(n))
  {
    SixDigits();
    var q, s := n / MILLION, Magnitude(n);
    var a, c := Digits(q), Padded(n % MILLION, 6);
    FewDigitsOf(q);
    PointOf(a, c);
    forall i | 0 <= i <= PointAt(s)
      ensures PrefixBelow(s, i, INT_LIMIT)
    {
      assert s[..i] == a[..i];
      NatOfPrefix(a, i);
    }
    assert forall i :: PointAt(s) < i <= |s| ==> FractionStops(s, i);
  }

  /** The unsigned text, cut at a length, fits exactly when the number is below 2^31. */
  lemma CutFits(n: nat, room: nat)
    requires room == PRINTED_MAX || room == PRINTED_MAX - 1
    ensures var s := Magnitude(n);
      var cut := if |s| > room then s[..room] else s;
      && (DoubleFits(cut) <==> n / MILLION < INT_LIMIT)
      && (n / MILLION < INT_LIMIT ==> cut == s)
  {
    var q, s := n / MILLION, Magnitude(n);
    if q < INT_LIMIT {
      SmallFits(n);
    } else {
      var d := Digits(q);
      var cut := if |s| > room then s[..room] else s;
      assert s[..|d|] == d;
      if |d| <= |cut| {
        assert cut[..|d|] == s[..|d|];
      } else {
        assert cut == s[..room] == d[..room];
      }
      LargeDoesNotFit(cut, q);
    }
  }

  /** What is printed for x, and what is read of it, in terms of the rounded magnitude. */
  lemma PrintedText(x: real, n: nat)
    requires n == Round6(if x < 0.0 then -x else x)
    ensures ScoreFits(DoubleToString(x)) <==> n / MILLION < INT_LIMIT
    ensures n / MILLION < INT_LIMIT ==>
      ScoreOf(DoubleToString(x)) == Some(if x < 0.0 then -1.0 * Millionths(n) else Millionths(n))
  {
    var s := Magnitude(n);
    MagnitudeStart(n);
    ReadMagnitude(n);
    if x < 0.0 {
      CutFits(n, PRINTED_MAX - 1);
      SignedText(x, s);
    } else {
      CutFits(n, PRINTED_MAX);
      assert DoubleToString(x)[0] == s[0];
    }
  }

  lemma SignedText(x: real, s: string)
    requires x < 0.0 && s == Magnitude(Round6(-x))
    ensures var t := DoubleToString(x);
      t != [] && t[0] == '-' && t[1..] == if |s| > PRINTED_MAX - 1 then s[..PRINTED_MAX - 1] else s
  {
    var t := "-" + s;
    assert FullText(x) == t;
    if |s| > PRINTED_MAX - 1 {
      assert t[..PRINTED_MAX][1..] == s[..PRINTED_MAX - 1];
    } else {
      assert t[1..] == s;
    }
  }

  lemma WholeOf(n: nat)
    ensures Millionths(n) < 2147483648.0 <==> n / MILLION < INT_LIMIT
  {
    assert Millionths(n) * 1000000.0 == n as real;
    assert n / MILLION < INT_LIMIT <==> n < INT_LIMIT * MILLION;
  }

  lemma RoundTripOf(x: real, y: real, n: nat)
    requires y == (if x < 0.0 then -x else x) && n == Round6(y)
    ensures n / MILLION < INT_LIMIT && Millionths(n) == y <==> SixDecimals(x) && IntSized(x)
  {
    RoundsToItself(y);
    WholeOf(n);
    SixDecimalsNegated(x);
    SixDecimalsNegated(y);
    assert x < 0.0 ==> -y == x;
  }

  /** A score is printed as a text that is read without overflow and as the same number, exactly
      when it has at most six decimals and an integer part below 2^31. */
  lemma ScoreRoundTrip(x: real)
    ensures ScoreFits(DoubleToString(x)) && ScoreOf(DoubleToString(x)) == Some(x) <==> SixDecimals(x) && IntSized(x)
  {
    var y := if x < 0.0 then -x else x;
    var n := Round6(y);
    PrintedText(x, n);
    RoundTripOf(x, y, n);
  }

  /** A printed score starts with a digit, or below zero with a minus sign and a digit. */
  lemma ScoreStart(x: real)
    ensures var s := DoubleToString(x);
      && s != [] && (s[0] == '-' || IsDigit(s[0]))
      && (s[0] == '-' ==> |s| > 1 && IsDigit(s[1]))
  {
    if x < 0.0 {
      var digits := Magnitude(Round6(-x));
      MagnitudeStart(Round6(-x));
      SignedText(x, digits);
      assert DoubleToString(x)[1] == DoubleToString(x)[1..][0] == digits[0];
    } else {
      MagnitudeStart(Round6(x));
      assert DoubleToString(x)[0] == Magnitude(Round6(x))[0];
    }
  }

  // ----- what a decimal text stands for, digit by digit -----

  lemma TenTimes(n: nat, p: int, f: nat)
    ensures (n * p + f) * 10 == n * (10 * p) + f * 10
  {
  }

  lemma DigitsJoined(a: string, c: string)
    requires AllDigits(a) && AllDigits(c)
    ensures AllDigits(a + c)
  {
  }

  lemma {:induction false} NatOfJoined(a: string, c: string)
    requires AllDigits(a) && AllDigits(c)
    ensures AllDigits(a + c) && NatOf(a + c) == NatOf(a) * Pow10(|c|) + NatOf(c)
  {
    DigitsJoined(a, c);
    if c == [] {
      assert a + c == a;
    } else {
      var n := |c| - 1;
      NatOfJoined(a, c[..n]);
      assert (a + c)[..|a| + n] == a + c[..n];
      TenTimes(NatOf(a), Pow10(n), NatOf(c[..n]));
    }
  }

  lemma NotInf(s: string)
    requires s == [] || IsDigit(s[0]) || s[0] == '.'
    ensures Upper(s) != "INF"
  {
    if s != [] { assert Upper(s)[0] == s[0] != "INF"[0]; }
  }

  /** Digits stand for their number. */
  lemma {:induction false} WholeText(a: string)
    requires AllDigits(a)
    ensures DoubleOf(a) == Some(NatOf(a) as real)
  {
    NotInf(a);
    assert PointAt(a) < |a| ==> IsDigit(a[PointAt(a)]);
    assert Whole(a) == a && Fraction(a) == [];
  }

  lemma JoinedValue(n: nat, f: nat, p: int, joined: nat)
    requires p > 0 && joined == n * p + f
    ensures n as real + f as real / p as real == joined as real / p as real
  {
    assert joined as real == n as real * p as real + f as real;
  }

  /** With a point among them they stand for the same number, over ten to the number of digits
      behind the point. */
  lemma {:induction false} PointText(a: string, c: string)
    requires AllDigits(a) && AllDigits(c)
    ensures AllDigits(a + c) && DoubleOf(a + "." + c) == Some(NatOf(a + c) as real / Pow10(|c|) as real)
  {
    var s := a + "." + c;
    assert s[0] == if a == [] then '.' else a[0];
    assert a != [] ==> IsDigit(a[0]);
    NotInf(s);
    PointOf(a, c);
    NatOfJoined(a, c);
    JoinedValue(NatOf(a), NatOf(c), Pow10(|c|), NatOf(a + c));
  }

  lemma TenfoldValue(n: nat, p: int)
    requires p > 0
    ensures (n * 10) as real / (10 * p) as real == n as real / p as real
  {
    var x, y := n as real, p as real;
    assert (n * 10) as real == 10.0 * x && (10 * p) as real == 10.0 * y;
    assert (10.0 * x) / (10.0 * y) == x / y;
  }

  /** A zero at the end of the fraction changes nothing. */
  lemma TrailingZero(a: string, c: string)
    requires AllDigits(a) && AllDigits(c)
    ensures DoubleOf(a + "." + c + "0") == DoubleOf(a + "." + c)
  {
    var c0 := c + "0";
    assert AllDigits(c0) && a + "." + c + "0" == a + "." + c0;
    PointText(a, c);
    PointText(a, c0);
    assert (a + c0)[..|a + c0| - 1] == a + c;
    TenfoldValue(NatOf(a + c), Pow10(|c|));
  }

  lemma OneAndAHalf()
    ensures DoubleOf("1.5") == Some(1.5)
  {
    PointText("1", "5");
    assert "1" + "." + "5" == "1.5" && "1" + "5" == "15";
    assert "15"[..1] == "1" && "1"[..0] == [];
    assert Pow10(1) == 10;
  }

  /** A digit, or a point with none behind it. */
  predicate Numeral(s: string, i: nat)
    requires i < |s|
  {
    IsDigit(s[i]) || (s[i] == '.' && forall j {:trigger s[j]} :: i < j < |s| ==> s[j] != '.')
  }

  /** Which texts are read at all: INF in any case, and digits with at most one point anywhere. */
  lemma {:induction false} ReadExactly(s: string)
    ensures DoubleOf(s).Some? <==>
      Upper(s) == "INF" || forall i {:trigger Numeral(s, i)} :: 0 <= i < |s| ==> Numeral(s, i)
  {
    var p := PointAt(s);
    if IsDecimal(s) {
      forall i | 0 <= i < |s|
        ensures Numeral(s, i)
      {
        if i < p {
          assert IsDigit(Whole(s)[i]);
        } else {
          assert forall j :: p < j < |s| ==> IsDigit(Fraction(s)[j - p - 1]) && Fraction(s)[j - p - 1] == s[j];
        }
      }
    } else if forall i {:trigger Numeral(s, i)} :: 0 <= i < |s| ==> Numeral(s, i) {
      assert p < |s| ==> Numeral(s, p);
      forall i | 0 <= i < |Whole(s)|
        ensures IsDigit(Whole(s)[i])
      {
        assert Numeral(s, i) && !IsPoint(s, i);
      }
      forall i | 0 <= i < |Fraction(s)|
        ensures IsDigit(Fraction(s)[i])
      {
        assert Numeral(s, p + 1 + i);
      }
      assert false;
    }
  }

  /** A minus sign in front of a score negates it. */
  lemma MinusText(t: string)
    ensures ScoreOf("-" + t) == match DoubleOf(t) case Some(x) => Some(-x) case None => None
  {
    assert ("-" + t)[1..] == t;
  }

  /** Names may be given in lower case. */
  lemma LowerNames()
    ensures Upper("ex") == "EX" && Upper("px") == "PX" && Upper("nx") == "NX" && Upper("xx") == "XX"
    ensures Upper("ch") == "CH" && Upper("incr") == "INCR" && Upper("withscores") == "WITHSCORES"
    ensures Upper("inf") == "INF"
  {
    assert Upper("withscores") == "WITHSCORES";
    assert Upper("incr") == "INCR";
    assert Upper("inf") == "INF";
  }
}
