/**
 Exact USD decimal text and integer nano-USD, for any magnitude: the parser of the
 cost contract, the printer of the store, and the cross-check of one observation.
 */
module CostDecimal {

  const NANO_USD_DIGITS: nat := 9
  const NANO_USD_SCALE: nat := 1_000_000_000

  /** The decimal value of a digit character, -1 for the rest; `\d` and `int` know many scripts. */
  type DigitTable = char -> int

  function AsciiDigit(d: nat): char
    requires d < 10
  {
    ['0', '1', '2', '3', '4', '5', '6', '7', '8', '9'][d]
  }

  ghost predicate ValidTable(dv: DigitTable) {
    && (forall c :: -1 <= dv(c) <= 9)
    && (forall d: nat | d < 10 :: dv(AsciiDigit(d)) == d)
    && dv('.') == -1 && dv('\n') == -1
  }

  /** The digits of ASCII alone; other scripts only add entries. */
  function AsciiTable(c: char): int {
    if '0' <= c <= '9' then c as int - '0' as int else -1
  }

  lemma AsciiTableIsValid()
    ensures ValidTable(AsciiTable) && ValidSpace(AsciiTable, (c: char) => c == ' ' || c == '\n')
  {
  }

  // ----- digit strings -----

  function Pow10(n: nat): nat {
    if n == 0 then 1 else 10 * Pow10(n - 1)
  }

  predicate AllDigits(dv: DigitTable, s: string) {
    forall c | c in s :: dv(c) >= 0
  }

  /** `int()` on a digit string. */
  function IntOf(dv: DigitTable, s: string): (v: nat)
    requires AllDigits(dv, s)
  {
    if s == [] then 0
    else
      assert forall c | c in s[..|s| - 1] :: c in s;
      10 * IntOf(dv, s[..|s| - 1]) + dv(s[|s| - 1])
  }

  lemma Associate(x: int, y: int, z: int)
    ensures x * (y * z) == (x * y) * z
  {
  }

  lemma {:induction false} PowPositive(n: nat)
    ensures Pow10(n) > 0
  {
    if n > 0 {
      PowPositive(n - 1);
    }
  }

  lemma {:induction false} PowAdd(a: nat, b: nat)
    ensures Pow10(a + b) == Pow10(a) * Pow10(b)
  {
    if a > 0 {
      PowAdd(a - 1, b);
      Associate(10, Pow10(a - 1), Pow10(b));
    }
  }

  lemma Shift(a: int, p: int, i: int)
    ensures 10 * (a * p + i) == a * (10 * p) + 10 * i
  {
    assert 10 * (a * p) == a * (10 * p);
  }

  lemma {:induction false} IntAppend(dv: DigitTable, a: string, b: string)
    requires AllDigits(dv, a) && AllDigits(dv, b)
    ensures AllDigits(dv, a + b) && IntOf(dv, a + b) == IntOf(dv, a) * Pow10(|b|) + IntOf(dv, b)
    decreases |b|
  {
    if b == [] {
      assert a + b == a;
    } else {
      var init := b[..|b| - 1];
      assert forall c | c in init :: c in b;
      assert (a + b)[..|a + b| - 1] == a + init;
      IntAppend(dv, a, init);
      Shift(IntOf(dv, a), Pow10(|init|), IntOf(dv, init));
    }
  }

  function Zeros(n: nat): (z: string)
    ensures |z| == n && forall c | c in z :: c == '0'
  {
    if n == 0 then "" else Zeros(n - 1) + "0"
  }

  lemma {:induction false} IntZeros(dv: DigitTable, n: nat)
    requires ValidTable(dv)
    ensures AllDigits(dv, Zeros(n)) && IntOf(dv, Zeros(n)) == 0
  {
    assert AsciiDigit(0) == '0';
    if n > 0 {
      IntZeros(dv, n - 1);
      assert Zeros(n)[..n - 1] == Zeros(n - 1);
    }
  }

  // ----- plain decimals -----

  datatype Option<+T> = None | Some(value: T)

  /** Text before and after the first '.'; no fraction text when there is none. */
  function SplitPoint(text: string): (r: (string, Option<string>))
    ensures r.1.Some? ==> text == r.0 + "." + r.1.value
    ensures r.1.None? ==> text == r.0
    ensures '.' !in r.0
  {
    if text == [] then ([], None)
    else if text[0] == '.' then ([], Some(text[1..]))
    else var (w, f) := SplitPoint(text[1..]); ([text[0]] + w, f)
  }

  /** A lone zero, or an ASCII digit from 1 to 9 followed by digits of any script. */
  predicate WholePart(dv: DigitTable, s: string) {
    s == "0" || (s != [] && '1' <= s[0] <= '9' && AllDigits(dv, s[1..]))
  }

  predicate PlainDecimal(dv: DigitTable, text: string) {
    var (whole, frac) := SplitPoint(text);
    WholePart(dv, whole) && (frac.Some? ==> frac.value != [] && AllDigits(dv, frac.value))
  }

  /** The regular expression: its `$` also accepts one trailing newline. */
  predicate PatternMatches(dv: DigitTable, text: string) {
    PlainDecimal(dv, text) ||
    (text != [] && text[|text| - 1] == '\n' && PlainDecimal(dv, text[..|text| - 1]))
  }

  datatype Parsed = Nanos(text: string, nanos: nat) | Rejected(reason: Reason)

  datatype Reason = EmptyText | HasWhitespace | NotPlain | TooPrecise

  ghost predicate ValidSpace(dv: DigitTable, space: char -> bool) {
    space('\n') && !space('.') && forall c | dv(c) >= 0 :: !space(c)
  }

  function FracOf(text: string): string {
    var f := SplitPoint(text).1;
    if f.Some? then f.value else ""
  }

  /** The digits of the number with the point removed. */
  function AllOf(text: string): string {
    SplitPoint(text).0 + FracOf(text)
  }

  lemma PlainDigits(dv: DigitTable, text: string)
    requires ValidTable(dv) && PlainDecimal(dv, text)
    ensures AllDigits(dv, SplitPoint(text).0) && AllDigits(dv, FracOf(text)) && AllDigits(dv, AllOf(text))
    ensures text != []
  {
    var whole := SplitPoint(text).0;
    AsciiRange(dv, whole[0]);
    assert whole == [whole[0]] + whole[1..];
  }

  lemma AsciiRange(dv: DigitTable, c: char)
    requires ValidTable(dv) && '0' <= c <= '9'
    ensures dv(c) == c as int - '0' as int
  {
    assert c == AsciiDigit(c as int - '0' as int);
  }

  /** `_parse_cost_usd_decimal`. */
  function Parse(dv: DigitTable, space: char -> bool, text: string): Parsed
    requires ValidTable(dv) && ValidSpace(dv, space)
  {
    if text == [] then Rejected(EmptyText)
    else if exists c | c in text :: space(c) then Rejected(HasWhitespace)
    else if !PatternMatches(dv, text) then Rejected(NotPlain)
    else
      assert text[|text| - 1] in text;
      PlainDigits(dv, text);
      var frac := FracOf(text);
      if |frac| > NANO_USD_DIGITS then Rejected(TooPrecise)
      else
        IntZeros(dv, NANO_USD_DIGITS - |frac|);
        var padded := frac + Zeros(NANO_USD_DIGITS - |frac|);
        IntAppend(dv, frac, Zeros(NANO_USD_DIGITS - |frac|));
        Nanos(text, IntOf(dv, SplitPoint(text).0) * NANO_USD_SCALE + IntOf(dv, padded))
  }

  /** Accepted is exactly: a plain decimal with at most nine fractional digits; and the text is kept as it was. */
  lemma AcceptedExactly(dv: DigitTable, space: char -> bool, text: string)
    requires ValidTable(dv) && ValidSpace(dv, space)
    ensures Parse(dv, space, text).Nanos? <==> PlainDecimal(dv, text) && |FracOf(text)| <= NANO_USD_DIGITS
    ensures Parse(dv, space, text).Nanos? ==> Parse(dv, space, text).text == text
  {
    if PlainDecimal(dv, text) {
      PlainDigits(dv, text);
      var (whole, frac) := SplitPoint(text);
      forall c | c in text ensures !space(c) {
        assert c in whole || c == '.' || c in FracOf(text);
      }
    } else if text != [] {
      assert text[|text| - 1] in text;
    }
  }

  lemma ScaleIsPow()
    ensures Pow10(NANO_USD_DIGITS) == NANO_USD_SCALE
  {
    assert Pow10(3) == 1000;
    PowAdd(3, 3);
    PowAdd(6, 3);
  }

  /** `w * 10^9 + f * 10^(9-k)`, times `10^k`, is `(w * 10^k + f) * 10^9`: here `a * b` is that power of ten. */
  lemma Rescale(w: int, f: int, a: int, b: int, s: int, nanos: int, digits: int)
    requires a * b == s && nanos == w * s + f * a && digits == w * b + f
    ensures nanos * b == digits * s
  {
    assert (w * s) * b == (w * b) * s;
    assert (f * a) * b == f * (a * b);
    assert nanos * b == (w * s) * b + (f * a) * b;
    assert digits * s == (w * b) * s + f * s;
  }

  /** The two digit strings, the second padded to nine places, against all digits together. */
  lemma PaddedIsExact(dv: DigitTable, whole: string, frac: string, nanos: nat)
    requires ValidTable(dv) && AllDigits(dv, whole) && AllDigits(dv, frac) && |frac| <= NANO_USD_DIGITS
    requires AllDigits(dv, frac + Zeros(NANO_USD_DIGITS - |frac|))
    requires nanos == IntOf(dv, whole) * NANO_USD_SCALE + IntOf(dv, frac + Zeros(NANO_USD_DIGITS - |frac|))
    ensures AllDigits(dv, whole + frac) && nanos * Pow10(|frac|) == IntOf(dv, whole + frac) * NANO_USD_SCALE
  {
    var pad := NANO_USD_DIGITS - |frac|;
    IntZeros(dv, pad);
    IntAppend(dv, frac, Zeros(pad));
    IntAppend(dv, whole, frac);
    ScaleIsPow();
    PowAdd(pad, |frac|);
    Rescale(IntOf(dv, whole), IntOf(dv, frac), Pow10(pad), Pow10(|frac|), NANO_USD_SCALE, nanos,
        IntOf(dv, whole + frac));
  }

  /** What an accepted text is read as. */
  lemma ParsedValue(dv: DigitTable, space: char -> bool, text: string)
    requires ValidTable(dv) && ValidSpace(dv, space) && PlainDecimal(dv, text) && |FracOf(text)| <= NANO_USD_DIGITS
    ensures AllDigits(dv, SplitPoint(text).0) && AllDigits(dv, FracOf(text))
    ensures var padded := FracOf(text) + Zeros(NANO_USD_DIGITS - |FracOf(text)|);
            && AllDigits(dv, padded)
            && Parse(dv, space, text) == Nanos(text, IntOf(dv, SplitPoint(text).0) * NANO_USD_SCALE + IntOf(dv, padded))
  {
    AcceptedExactly(dv, space, text);
    PlainDigits(dv, text);
    IntZeros(dv, NANO_USD_DIGITS - |FracOf(text)|);
  }

  /** The nanos are exactly the denoted number times 10^9: `nanos / 10^9 == digits / 10^k`, cross-multiplied. */
  lemma ParseIsExact(dv: DigitTable, space: char -> bool, text: string)
    requires ValidTable(dv) && ValidSpace(dv, space) && Parse(dv, space, text).Nanos?
    ensures AllDigits(dv, AllOf(text))
    ensures Parse(dv, space, text).nanos * Pow10(|FracOf(text)|) == IntOf(dv, AllOf(text)) * NANO_USD_SCALE
  {
    AcceptedExactly(dv, space, text);
    ParsedValue(dv, space, text);
    PaddedIsExact(dv, SplitPoint(text).0, FracOf(text), Parse(dv, space, text).nanos);
  }

  lemma CrossMultiply(n1: nat, n2: nat, d1: nat, d2: nat, p1: nat, p2: nat, s: nat)
    requires p1 > 0 && p2 > 0 && s > 0 && n1 * p1 == d1 * s && n2 * p2 == d2 * s
    ensures n1 == n2 <==> d1 * p2 == d2 * p1
  {
    assert (d1 * p2) * s == (d1 * s) * p2 == (n1 * p1) * p2 == n1 * (p1 * p2);
    assert (d2 * p1) * s == (d2 * s) * p1 == (n2 * p2) * p1 == n2 * (p1 * p2);
    assert p1 * p2 > 0;
    if n1 == n2 {
      Cancel(d1 * p2, d2 * p1, s);
    }
    if d1 * p2 == d2 * p1 {
      Cancel(n1, n2, p1 * p2);
    }
  }

  lemma Cancel(a: nat, b: nat, s: nat)
    requires s > 0 && a * s == b * s
    ensures a == b
  {
    assert (a - b) * s == a * s - b * s;
  }

  /** Two accepted texts give the same nanos exactly when they denote the same number. */
  lemma SameNanosSameNumber(dv: DigitTable, space: char -> bool, a: string, b: string)
    requires ValidTable(dv) && ValidSpace(dv, space)
    requires Parse(dv, space, a).Nanos? && Parse(dv, space, b).Nanos?
    ensures AllDigits(dv, AllOf(a)) && AllDigits(dv, AllOf(b))
    ensures Parse(dv, space, a).nanos == Parse(dv, space, b).nanos <==>
              IntOf(dv, AllOf(a)) * Pow10(|FracOf(b)|) == IntOf(dv, AllOf(b)) * Pow10(|FracOf(a)|)
  {
    ParseIsExact(dv, space, a);
    ParseIsExact(dv, space, b);
    PowPositive(|FracOf(a)|);
    PowPositive(|FracOf(b)|);
    CrossMultiply(Parse(dv, space, a).nanos, Parse(dv, space, b).nanos, IntOf(dv, AllOf(a)), IntOf(dv, AllOf(b)),
                  Pow10(|FracOf(a)|), Pow10(|FracOf(b)|), NANO_USD_SCALE);
  }

  // ----- printing -----

  /** `str(n)`. */
  function Show(n: nat): string {
    if n < 10 then [AsciiDigit(n)] else Show(n / 10) + [AsciiDigit(n % 10)]
  }

  /** `n` in exactly `k` digits, zero-padded on the left. */
  function ShowFixed(n: nat, k: nat): (s: string)
    ensures |s| == k
  {
    if k == 0 then [] else ShowFixed(n / 10, k - 1) + [AsciiDigit(n % 10)]
  }

  /** `rstrip("0")`. */
  function StripZeros(s: string): (r: string)
    ensures r <= s && (r != [] ==> r[|r| - 1] != '0')
  {
    if s != [] && s[|s| - 1] == '0' then StripZeros(s[..|s| - 1]) else s
  }

  /** `_nano_usd_decimal`: the whole text is stripped, which never reaches the point. */
  function Print(nanos: nat): string {
    var whole, frac := nanos / NANO_USD_SCALE, nanos % NANO_USD_SCALE;
    if frac == 0 then Show(whole) else StripZeros(Show(whole) + "." + ShowFixed(frac, NANO_USD_DIGITS))
  }

  lemma {:induction false} ShowReads(dv: DigitTable, n: nat)
    requires ValidTable(dv)
    ensures AllDigits(dv, Show(n)) && IntOf(dv, Show(n)) == n && WholePart(dv, Show(n)) && '.' !in Show(n)
    ensures n > 0 ==> '1' <= Show(n)[0] <= '9'
  {
    if n >= 10 {
      ShowReads(dv, n / 10);
      var s := Show(n);
      assert s[..|s| - 1] == Show(n / 10);
      assert s[0] == Show(n / 10)[0];
      assert s[1..] == Show(n / 10)[1..] + [AsciiDigit(n % 10)];
      assert forall c | c in Show(n / 10)[1..] :: c in Show(n / 10);
    }
  }

  lemma {:induction false} FixedReads(dv: DigitTable, n: nat, k: nat)
    requires ValidTable(dv) && n < Pow10(k)
    ensures AllDigits(dv, ShowFixed(n, k)) && IntOf(dv, ShowFixed(n, k)) == n
  {
    if k > 0 {
      FixedReads(dv, n / 10, k - 1);
      var s := ShowFixed(n, k);
      assert s[..k - 1] == ShowFixed(n / 10, k - 1);
    }
  }

  lemma {:induction false} StripPads(s: string)
    ensures StripZeros(s) + Zeros(|s| - |StripZeros(s)|) == s
  {
    if s != [] && s[|s| - 1] == '0' {
      var init := s[..|s| - 1];
      StripPads(init);
      assert s == init + "0";
      var k := |init| - |StripZeros(init)|;
      assert StripZeros(init) + (Zeros(k) + "0") == (StripZeros(init) + Zeros(k)) + "0";
    }
  }

  lemma {:induction false} StripKeepsFront(front: string, s: string)
    requires StripZeros(s) != []
    ensures StripZeros(front + s) == front + StripZeros(s)
    decreases |s|
  {
    if s[|s| - 1] == '0' {
      assert (front + s)[..|front + s| - 1] == front + s[..|s| - 1];
      StripKeepsFront(front, s[..|s| - 1]);
    }
  }

  lemma {:induction false} SplitJoined(whole: string, frac: string)
    requires '.' !in whole
    ensures SplitPoint(whole + "." + frac) == (whole, Some(frac)) && SplitPoint(whole) == (whole, None)
  {
    if whole == [] {
      assert (whole + "." + frac)[1..] == frac;
    } else {
      SplitJoined(whole[1..], frac);
      assert (whole + "." + frac)[1..] == whole[1..] + "." + frac;
      assert [whole[0]] + whole[1..] == whole;
    }
  }

  lemma NothingLeftReadsZero(dv: DigitTable, s: string)
    requires ValidTable(dv) && StripZeros(s) == []
    ensures AllDigits(dv, s) && IntOf(dv, s) == 0
  {
    StripPads(s);
    assert s == Zeros(|s|);
    IntZeros(dv, |s|);
  }

  /** Stripping a digit string and padding it again gives its digits back; only zeros strip to nothing. */
  lemma StrippedDigits(dv: DigitTable, s: string)
    requires ValidTable(dv) && AllDigits(dv, s)
    ensures StripZeros(s) + Zeros(|s| - |StripZeros(s)|) == s && AllDigits(dv, StripZeros(s))
    ensures IntOf(dv, s) > 0 ==> StripZeros(s) != []
  {
    StripPads(s);
    assert forall c | c in StripZeros(s) :: c in s;
    if StripZeros(s) == [] {
      NothingLeftReadsZero(dv, s);
    }
  }

  /** The fraction of a printed amount, and what padding makes of it. */
  lemma StrippedReads(dv: DigitTable, frac: nat, k: nat)
    requires ValidTable(dv) && 0 < frac < Pow10(k)
    ensures var f := StripZeros(ShowFixed(frac, k));
            && f != [] && |f| <= k && AllDigits(dv, f)
            && AllDigits(dv, f + Zeros(k - |f|)) && IntOf(dv, f + Zeros(k - |f|)) == frac
  {
    FixedReads(dv, frac, k);
    StrippedText(dv, ShowFixed(frac, k));
  }

  lemma StrippedText(dv: DigitTable, s: string)
    requires ValidTable(dv) && AllDigits(dv, s) && IntOf(dv, s) > 0
    ensures var f := StripZeros(s);
            && f != [] && AllDigits(dv, f)
            && AllDigits(dv, f + Zeros(|s| - |f|)) && IntOf(dv, f + Zeros(|s| - |f|)) == IntOf(dv, s)
  {
    StrippedDigits(dv, s);
  }

  lemma PrintedFraction(dv: DigitTable, frac: nat)
    requires ValidTable(dv) && 0 < frac < NANO_USD_SCALE
    ensures var f := StripZeros(ShowFixed(frac, NANO_USD_DIGITS));
            && f != [] && |f| <= NANO_USD_DIGITS && AllDigits(dv, f)
            && AllDigits(dv, Padded(f)) && IntOf(dv, Padded(f)) == frac
  {
    ScaleIsPow();
    StrippedReads(dv, frac, NANO_USD_DIGITS);
  }

  function PrintedFrac(nanos: nat): (f: string)
    ensures |f| <= NANO_USD_DIGITS
  {
    if nanos % NANO_USD_SCALE == 0 then "" else StripZeros(ShowFixed(nanos % NANO_USD_SCALE, NANO_USD_DIGITS))
  }

  /** The printed text splits into the whole dollars and the stripped fraction. */
  lemma PrintedParts(dv: DigitTable, nanos: nat)
    requires ValidTable(dv)
    ensures SplitPoint(Print(nanos)).0 == Show(nanos / NANO_USD_SCALE) && FracOf(Print(nanos)) == PrintedFrac(nanos)
    ensures PlainDecimal(dv, Print(nanos)) && |PrintedFrac(nanos)| <= NANO_USD_DIGITS
  {
    var whole, frac := nanos / NANO_USD_SCALE, nanos % NANO_USD_SCALE;
    ShowReads(dv, whole);
    SplitJoined(Show(whole), PrintedFrac(nanos));
    if frac != 0 {
      PrintedFraction(dv, frac);
      StripKeepsFront(Show(whole) + ".", ShowFixed(frac, NANO_USD_DIGITS));
    }
  }

  function Padded(frac: string): string
    requires |frac| <= NANO_USD_DIGITS
  {
    frac + Zeros(NANO_USD_DIGITS - |frac|)
  }

  /** Padding the printed fraction restores all nine digits. */
  lemma PrintedFracReads(dv: DigitTable, nanos: nat)
    requires ValidTable(dv)
    ensures AllDigits(dv, Padded(PrintedFrac(nanos))) && IntOf(dv, Padded(PrintedFrac(nanos))) == nanos % NANO_USD_SCALE
  {
    if nanos % NANO_USD_SCALE == 0 {
      IntZeros(dv, NANO_USD_DIGITS);
      assert "" + Zeros(NANO_USD_DIGITS) == Zeros(NANO_USD_DIGITS);
    } else {
      PrintedFraction(dv, nanos % NANO_USD_SCALE);
    }
  }

  predicate Ascii(s: string) {
    forall c | c in s :: '0' <= c <= '9'
  }

  /** In ASCII, the whole parts are exactly the numbers as they are printed: no sign, no leading zero, never empty. */
  lemma {:induction false} WholePartsArePrinted(dv: DigitTable, s: string)
    requires ValidTable(dv) && Ascii(s)
    ensures WholePart(dv, s) ==> AllDigits(dv, s) && s == Show(IntOf(dv, s))
    ensures (exists n :: s == Show(n)) ==> WholePart(dv, s)
  {
    if n :| s == Show(n) {
      ShowReads(dv, n);
    }
    if WholePart(dv, s) {
      AsciiDigits(dv, s);
      PrintsBack(dv, s);
    }
  }

  lemma AsciiDigits(dv: DigitTable, s: string)
    requires ValidTable(dv) && Ascii(s)
    ensures AllDigits(dv, s)
  {
    forall c | c in s ensures dv(c) >= 0 {
      AsciiRange(dv, c);
    }
  }

  lemma {:induction false} PrintsBack(dv: DigitTable, s: string)
    requires ValidTable(dv) && Ascii(s) && AllDigits(dv, s) && WholePart(dv, s)
    ensures s == Show(IntOf(dv, s)) && (s != "0" ==> IntOf(dv, s) > 0)
    decreases |s|
  {
    var init, c := s[..|s| - 1], s[|s| - 1];
    assert c in s;
    AsciiRange(dv, c);
    assert AsciiDigit(dv(c)) == c;
    if init == [] {
      OneDigit(dv, s);
    } else {
      ShorterWholePart(dv, s);
      PrintsBack(dv, init);
      PrintsLast(s, IntOf(dv, s), init, c, IntOf(dv, init), dv(c));
    }
  }

  lemma PrintsLast(s: string, value: nat, init: string, c: char, v: nat, d: nat)
    requires v > 0 && d < 10 && value == 10 * v + d && init == Show(v) && c == AsciiDigit(d)
    requires s != [] && init == s[..|s| - 1] && c == s[|s| - 1]
    ensures s == Show(value) && value > 0
  {
    ShowLast(v, d);
    assert s == init + [c];
  }

  lemma OneDigit(dv: DigitTable, s: string)
    requires ValidTable(dv) && |s| == 1 && '0' <= s[0] <= '9' && AllDigits(dv, s)
    ensures IntOf(dv, s) == dv(s[0]) && s == Show(dv(s[0])) && (s != "0" ==> dv(s[0]) > 0)
  {
    AsciiRange(dv, s[0]);
    assert s == [s[0]] && s[..0] == [] && AsciiDigit(dv(s[0])) == s[0];
  }

  lemma ShowLast(v: nat, d: nat)
    requires v > 0 && d < 10
    ensures Show(10 * v + d) == Show(v) + [AsciiDigit(d)]
  {
    LastDigit(v, d);
  }

  lemma ShorterWholePart(dv: DigitTable, s: string)
    requires ValidTable(dv) && Ascii(s) && |s| > 1 && WholePart(dv, s)
    ensures var init := s[..|s| - 1]; Ascii(init) && AllDigits(dv, init) && WholePart(dv, init) && init != "0"
  {
    var init := s[..|s| - 1];
    assert forall x | x in init :: x in s;
    assert s[0] == init[0] && forall x | x in init[1..] :: x in s[1..];
    AsciiDigits(dv, init);
  }

  lemma LastDigit(v: nat, d: nat)
    requires v > 0 && d < 10
    ensures 10 * v + d >= 10 && (10 * v + d) / 10 == v && (10 * v + d) % 10 == d
  {
  }

  /** Printing any amount and parsing it back returns that amount, whatever its size. */
  lemma RoundTrip(dv: DigitTable, space: char -> bool, nanos: nat)
    requires ValidTable(dv) && ValidSpace(dv, space)
    ensures Parse(dv, space, Print(nanos)) == Nanos(Print(nanos), nanos)
  {
    PrintedParts(dv, nanos);
    PrintedFracReads(dv, nanos);
    ShowReads(dv, nanos / NANO_USD_SCALE);
    ReadBack(dv, space, Print(nanos), nanos);
  }

  /** A text whose two parts read as the dollars and the nanos of an amount is parsed as that amount. */
  lemma ReadBack(dv: DigitTable, space: char -> bool, text: string, nanos: nat)
    requires ValidTable(dv) && ValidSpace(dv, space) && PlainDecimal(dv, text) && |FracOf(text)| <= NANO_USD_DIGITS
    requires AllDigits(dv, SplitPoint(text).0) && IntOf(dv, SplitPoint(text).0) == nanos / NANO_USD_SCALE
    requires AllDigits(dv, Padded(FracOf(text))) && IntOf(dv, Padded(FracOf(text))) == nanos % NANO_USD_SCALE
    ensures Parse(dv, space, text) == Nanos(text, nanos)
  {
    ParsedValue(dv, space, text);
  }

  /** Different amounts print differently. */
  lemma PrintIsInjective(dv: DigitTable, space: char -> bool, a: nat, b: nat)
    requires ValidTable(dv) && ValidSpace(dv, space) && Print(a) == Print(b)
    ensures a == b
  {
    RoundTrip(dv, space, a);
    RoundTrip(dv, space, b);
  }

  // ----- one observation -----

  datatype Quality = Exact | Estimated | UnknownCost

  class CostObservation {
    var costText: Option<string>
    var costNanos: Option<nat>
    var upperBound: Option<nat>
    var quality: Quality

    constructor (costText: Option<string>, costNanos: Option<nat>, upperBound: Option<nat>, quality: Quality)
      ensures this.costText == costText && this.costNanos == costNanos
      ensures this.upperBound == upperBound && this.quality == quality
    {
      this.costText, this.costNanos, this.upperBound, this.quality := costText, costNanos, upperBound, quality;
    }

    /** Text and nanos agree exactly, and each quality carries exactly the fields it may. */
    ghost predicate Consistent(dv: DigitTable, space: char -> bool)
      requires ValidTable(dv) && ValidSpace(dv, space)
      reads this
    {
      match quality
      case Exact =>
        && costText.Some? && costNanos.Some?
        && Parse(dv, space, costText.value) == Nanos(costText.value, costNanos.value)
      case Estimated => upperBound.Some? && costText.None? && costNanos.None?
      case UnknownCost => costText.None? && costNanos.None?
    }

    /**
     The field validator and then `_cross_check_cost`: missing nanos are filled in from the
     text, nothing else changes.
     */
    method CrossCheck(dv: DigitTable, space: char -> bool) returns (ok: bool)
      requires ValidTable(dv) && ValidSpace(dv, space)
      modifies this`costNanos
      ensures ok <==> Consistent(dv, space)
      ensures old(costNanos).Some? ==> costNanos == old(costNanos)
      // rejected exactly when no filling-in of missing nanos could make it consistent
      ensures ok <==>
                match quality
                case Exact =>
                  && costText.Some? && Parse(dv, space, costText.value).Nanos?
                  && (old(costNanos).Some? ==> old(costNanos).value == Parse(dv, space, costText.value).nanos)
                case Estimated => upperBound.Some? && costText.None? && old(costNanos).None?
                case UnknownCost => costText.None? && old(costNanos).None?
    {
      if costText.Some? {
        var parsed := Parse(dv, space, costText.value);
        if parsed.Rejected? {
          return false;
        }
        AcceptedExactly(dv, space, costText.value);
        if costNanos.None? {
          costNanos := Some(parsed.nanos);
        } else if costNanos.value != parsed.nanos {
          return false;
        }
      }
      match quality
      case Exact => ok := costText.Some? && costNanos.Some?;
      case Estimated => ok := upperBound.Some? && costText.None? && costNanos.None?;
      case UnknownCost => ok := costText.None? && costNanos.None?;
    }
  }
}
