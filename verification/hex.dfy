/**
 * Number-to-text conversions of src/utils/index.ts: `Number.prototype.toString(radix)` on
 * non-negative integers, `componentToHex`, `rgbToHex` and its parser `hexToRgb`, which cover
 * the six-digit form of the hex colour notation (CSS Color Module Level 4, section 5.2),
 * with or without the leading `#`.
 */
module Hex {
  import opened Wrappers

  /** A channel sample as stored in a `Uint8ClampedArray`. */
  type Byte = b: int | 0 <= b < 256

  /** The `{r, g, b}` record that `hexToRgb` returns. */
  datatype Rgb = Rgb(r: int, g: int, b: int)

  predicate IsByteRgb(c: Rgb) {
    0 <= c.r < 256 && 0 <= c.g < 256 && 0 <= c.b < 256
  }

  /** The character class `[a-f\d]` of a case-insensitive regular expression. */
  predicate IsHexDigit(c: char) {
    '0' <= c <= '9' || 'a' <= c <= 'f' || 'A' <= c <= 'F'
  }

  /** The digits that `toString(16)` writes. */
  predicate IsLowerHexDigit(c: char) {
    '0' <= c <= '9' || 'a' <= c <= 'f'
  }

  /** The sixteen digits `toString(16)` writes, in order of value. */
  const LowerDigits: string := "0123456789abcdef"

  /** The lower-case form of a letter; any other character is left as it is. */
  function ToLower(c: char): char {
    if 'A' <= c <= 'Z' then (c as int - 'A' as int + 'a' as int) as char else c
  }

  /** Every character of a text in lower case. */
  function LowerText(s: string): (t: string)
    ensures |t| == |s| && forall i :: 0 <= i < |s| ==> t[i] == ToLower(s[i])
  {
    seq(|s|, i requires 0 <= i < |s| => ToLower(s[i]))
  }

  /**
   * The value of one hexadecimal digit in either case, as `parseInt(_, 16)` reads it: the
   * position of the digit, taken in lower case, among the sixteen digits.
   */
  function DigitValue(c: char): (v: Option<nat>)
    ensures v.Some? <==> IsHexDigit(c)
    ensures v.Some? ==> v.value < 16 && LowerDigits[v.value] == ToLower(c)
  {
    if '0' <= c <= '9' then Some(c as int - '0' as int)
    else if 'a' <= c <= 'f' then Some(c as int - 'a' as int + 10)
    else if 'A' <= c <= 'F' then Some(c as int - 'A' as int + 10)
    else None
  }

  /** The lower-case digit character that stands for `d`. */
  function DigitChar(d: nat): (c: char)
    requires d < 16
    ensures IsLowerHexDigit(c)
    ensures DigitValue(c) == Some(d)
    ensures d < 10 <==> '0' <= c <= '9'
    ensures c == LowerDigits[d]
  {
    if d < 10 then ('0' as int + d) as char else ('a' as int + d - 10) as char
  }

  /** The number a digit sequence denotes in base `base`, most significant digit first. */
  function ValueOf(ds: seq<nat>, base: nat): nat
  {
    if ds == [] then 0 else ValueOf(ds[..|ds| - 1], base) * base + ds[|ds| - 1]
  }

  /**
   * The digits of `n` in base `base`, most significant first, without leading zeros
   * (a single zero digit for 0).
   */
  function ToDigits(n: nat, base: nat): (ds: seq<nat>)
    requires 2 <= base
    ensures 0 < |ds|
    ensures forall i :: 0 <= i < |ds| ==> ds[i] < base
    ensures ValueOf(ds, base) == n
    ensures |ds| == 1 || ds[0] != 0
    decreases n
  {
    if n < base then [n]
    else
      DivMod(n, base);
      DivShrinks(n, base);
      var front := ToDigits(n / base, base);
      AppendDigit(front, n, base);
      front + [n % base]
  }

  /** Appending the last digit of `n` to the digits of `n / base` gives the digits of `n`. */
  lemma AppendDigit(front: seq<nat>, n: nat, base: nat)
    requires 0 < base && ValueOf(front, base) == n / base
    ensures ValueOf(front + [n % base], base) == n
  {
    var ds := front + [n % base];
    assert ds[..|ds| - 1] == front;
    DivMod(n, base);
  }

  /** Euclidean division splits `n` into quotient and remainder. */
  lemma DivMod(n: nat, base: nat)
    requires 0 < base
    ensures n == (n / base) * base + n % base
    ensures 0 <= n % base < base
  {
  }

  /** Multiplying by a base of at least 2 at least doubles. */
  lemma {:induction false} MulGrows(q: nat, base: nat)
    requires 2 <= base
    ensures q * base >= 2 * q
  {
    if q > 0 {
      MulGrows(q - 1, base);
      assert q * base == (q - 1) * base + base;
    }
  }

  /** Dividing by a base of at least 2 shrinks a number that has two or more digits. */
  lemma DivShrinks(n: nat, base: nat)
    requires 2 <= base <= n
    ensures 1 <= n / base < n
  {
    DivMod(n, base);
    MulGrows(n / base, base);
    if n / base == 0 {
      assert false;
    }
  }

  /** The value of a lower-case digit. */
  function Value(c: char): (v: nat)
    requires IsLowerHexDigit(c)
    ensures DigitValue(c) == Some(v)
  {
    DigitValue(c).value
  }

  /** The values of a text's hexadecimal digits, most significant first. */
  function DigitValues(s: string): seq<nat>
    requires forall i :: 0 <= i < |s| ==> IsLowerHexDigit(s[i])
  {
    seq(|s|, i requires 0 <= i < |s| => Value(s[i]))
  }

  /**
   * `n.toString(base)` for a non-negative integer `n` and a base of at most 16: lower-case
   * digits below the base that denote `n`, with no leading zero unless `n` is 0.
   */
  function ToText(n: nat, base: nat): (s: string)
    requires 2 <= base <= 16
    ensures 0 < |s|
    ensures forall i :: 0 <= i < |s| ==> IsLowerHexDigit(s[i]) && DigitValue(s[i]).value < base
    ensures |s| == 1 || s[0] != '0'
  {
    var ds := ToDigits(n, base);
    seq(|ds|, i requires 0 <= i < |ds| => DigitChar(ds[i]))
  }

  /** Read back digit by digit, the text of `n` in base `base` is worth `n`. */
  lemma ToTextValue(n: nat, base: nat)
    requires 2 <= base <= 16
    ensures ValueOf(DigitValues(ToText(n, base)), base) == n
  {
    assert DigitValues(ToText(n, base)) == ToDigits(n, base);
  }

  /** Equal texts come from equal numbers: `toString(base)` loses nothing. */
  lemma {:induction false} ToTextInjective(m: nat, n: nat, base: nat)
    requires 2 <= base <= 16
    requires ToText(m, base) == ToText(n, base)
    ensures m == n
  {
    ToTextValue(m, base);
    ToTextValue(n, base);
  }

  /**
   * `componentToHex(c)`: `c.toString(16)`, with a `0` in front when that has one digit.
   * A channel value is written as exactly two lower-case digits whose value is `c`.
   */
  function ComponentToHex(c: nat): (s: string)
    ensures c < 256 ==> |s| == 2 && IsLowerHexDigit(s[0]) && IsLowerHexDigit(s[1])
    ensures c < 256 ==> 16 * DigitValue(s[0]).value + DigitValue(s[1]).value == c
    ensures 256 <= c ==> 2 < |s|
  {
    HexDigitCount(c);
    var hex := ToText(c, 16);
    if |hex| == 1 then "0" + hex else hex
  }

  /** How many digits `toString(16)` writes for a value below and above one byte. */
  lemma HexDigitCount(c: nat)
    ensures c < 16 ==> ToDigits(c, 16) == [c]
    ensures 16 <= c < 256 ==> ToDigits(c, 16) == [c / 16, c % 16]
    ensures 256 <= c ==> 2 < |ToDigits(c, 16)|
  {
    if 256 <= c {
      assert 16 <= c / 16;
      assert 1 < |ToDigits(c / 16, 16)|;
    }
  }

  /** The form `rgbToHex` writes for byte channels: `#` and six lower-case hexadecimal digits. */
  predicate IsCanonicalHex(s: string) {
    |s| == 7 && s[0] == '#' && forall i :: 1 <= i < 7 ==> IsLowerHexDigit(s[i])
  }

  /** `rgbToHex(r, g, b)`: `#` followed by the three channels' two-digit forms. */
  function RgbToHex(r: nat, g: nat, b: nat): (s: string)
    ensures r < 256 && g < 256 && b < 256 ==> IsCanonicalHex(s)
  {
    var hr, hg, hb := ComponentToHex(r), ComponentToHex(g), ComponentToHex(b);
    if r < 256 && g < 256 && b < 256 then
      HexShape(hr, hg, hb);
      "#" + hr + hg + hb
    else
      "#" + hr + hg + hb
  }

  /** Three two-digit components behind a `#` make a seven-character colour. */
  lemma HexShape(a: string, b: string, c: string)
    requires |a| == 2 && |b| == 2 && |c| == 2
    requires IsLowerHexDigit(a[0]) && IsLowerHexDigit(a[1])
    requires IsLowerHexDigit(b[0]) && IsLowerHexDigit(b[1])
    requires IsLowerHexDigit(c[0]) && IsLowerHexDigit(c[1])
    ensures IsCanonicalHex("#" + a + b + c)
  {
    var s := "#" + a + b + c;
    assert s[1] == a[0] && s[2] == a[1];
    assert s[3] == b[0] && s[4] == b[1];
    assert s[5] == c[0] && s[6] == c[1];
  }

  /** What the pattern `^#?([a-f\d]{2}){3}$` (case-insensitive) accepts. */
  predicate WellFormedHex(s: string) {
    || (|s| == 7 && s[0] == '#' && forall i :: 1 <= i < 7 ==> IsHexDigit(s[i]))
    || (|s| == 6 && forall i :: 0 <= i < 6 ==> IsHexDigit(s[i]))
  }

  /** `parseInt(d1 + d2, 16)` of two hexadecimal digits. */
  function PairValue(d1: char, d2: char): (v: nat)
    requires IsHexDigit(d1) && IsHexDigit(d2)
    ensures v < 256
  {
    16 * DigitValue(d1).value + DigitValue(d2).value
  }

  /**
   * `hexToRgb(hex)`: an optional `#`, then exactly six hexadecimal digits in either case,
   * read pairwise as the red, green and blue channels; anything else is `null`.
   */
  function HexToRgb(hex: string): (r: Option<Rgb>)
    ensures r.Some? <==> WellFormedHex(hex)
    ensures r.Some? ==> IsByteRgb(r.value)
  {
    var digits := if 0 < |hex| && hex[0] == '#' then hex[1..] else hex;
    if |digits| == 6 && forall i :: 0 <= i < 6 ==> IsHexDigit(digits[i]) then
      Some(Rgb(PairValue(digits[0], digits[1]), PairValue(digits[2], digits[3]), PairValue(digits[4], digits[5])))
    else
      None
  }

  /** Parsing what `rgbToHex` wrote gives back the channels. */
  lemma HexRoundTrip(r: nat, g: nat, b: nat)
    requires r < 256 && g < 256 && b < 256
    ensures HexToRgb(RgbToHex(r, g, b)) == Some(Rgb(r, g, b))
  {
    var s := RgbToHex(r, g, b);
    var hr, hg, hb := ComponentToHex(r), ComponentToHex(g), ComponentToHex(b);
    assert s == "#" + hr + hg + hb;
    var digits := s[1..];
    DropHash(hr, hg, hb);
    assert digits[0] == hr[0] && digits[1] == hr[1];
    assert digits[2] == hg[0] && digits[3] == hg[1];
    assert digits[4] == hb[0] && digits[5] == hb[1];
    assert PairValue(digits[0], digits[1]) == r;
    assert PairValue(digits[2], digits[3]) == g;
    assert PairValue(digits[4], digits[5]) == b;
  }

  /** Behind the `#` stand the three components. */
  lemma DropHash(a: string, b: string, c: string)
    ensures ("#" + a + b + c)[1..] == a + b + c
  {
  }

  /** `rgbToHex` is injective on byte triples, so equal hex strings mean equal colours. */
  lemma RgbToHexInjective(a: Rgb, b: Rgb)
    requires IsByteRgb(a) && IsByteRgb(b)
    requires RgbToHex(a.r, a.g, a.b) == RgbToHex(b.r, b.g, b.b)
    ensures a == b
  {
    HexRoundTrip(a.r, a.g, a.b);
    HexRoundTrip(b.r, b.g, b.b);
  }

  /** A lower-case `#rrggbb` string is exactly what `rgbToHex` writes for the colour it parses to. */
  lemma CanonicalHexRoundTrip(s: string)
    requires IsCanonicalHex(s)
    ensures HexToRgb(s).Some?
    ensures var c := HexToRgb(s).value; RgbToHex(c.r, c.g, c.b) == s
  {
    assert WellFormedHex(s);
    var c := HexToRgb(s).value;
    assert c == Rgb(PairValue(s[1], s[2]), PairValue(s[3], s[4]), PairValue(s[5], s[6]));
    PairRoundTrip(s[1], s[2]);
    PairRoundTrip(s[3], s[4]);
    PairRoundTrip(s[5], s[6]);
    SplitHex(s);
  }

  /**
   * A lower-case `#rrggbb` text is fixed by the colour it parses to: the contracts that say a
   * colour text is canonical and parses to `c` pin it to `rgbToHex` of `c`, letter case included.
   */
  lemma CanonicalUnique(s: string, t: string)
    requires IsCanonicalHex(s) && IsCanonicalHex(t) && HexToRgb(s) == HexToRgb(t)
    ensures s == t
  {
    CanonicalHexRoundTrip(s);
    CanonicalHexRoundTrip(t);
  }

  /**
   * The text `hexToRgb` accepts, as `rgbToHex` would write it: a `#` and the six digits in
   * lower case.
   */
  function Canonical(hex: string): (t: string)
    requires WellFormedHex(hex)
    ensures IsCanonicalHex(t)
  {
    var digits := if hex[0] == '#' then hex[1..] else hex;
    var t := "#" + LowerText(digits);
    forall i | 1 <= i < 7
      ensures IsLowerHexDigit(t[i])
    {
      DigitLower(digits[i - 1]);
    }
    t
  }

  /** Lower-casing a hexadecimal digit keeps its value. */
  lemma DigitLower(c: char)
    requires IsHexDigit(c)
    ensures IsLowerHexDigit(ToLower(c)) && DigitValue(ToLower(c)) == DigitValue(c)
  {
  }

  /**
   * `hexToRgb` reads digits of either case alike: the colour it parses is the one whose
   * `rgbToHex` text is the input with `#` in front and its digits in lower case. With
   * `RgbToHexInjective` this pins every channel, so `hexToRgb("#FFFFFF")` is `{255, 255, 255}`.
   */
  lemma ParsedColourWritesBack(hex: string)
    requires WellFormedHex(hex)
    ensures HexToRgb(hex).Some?
    ensures var c := HexToRgb(hex).value; RgbToHex(c.r, c.g, c.b) == Canonical(hex)
  {
    var digits := if hex[0] == '#' then hex[1..] else hex;
    var t := Canonical(hex);
    var lower := t[1..];
    assert lower == LowerText(digits);
    forall i | 0 <= i < 6
      ensures IsHexDigit(digits[i]) && IsHexDigit(lower[i]) && DigitValue(lower[i]) == DigitValue(digits[i])
    {
      DigitLower(digits[i]);
    }
    SameParse(lower, digits);
    HashParse(t);
    if hex[0] == '#' {
      HashParse(hex);
    }
    CanonicalHexRoundTrip(t);
  }

  /** A `#` in front of six digits does not change the parse. */
  lemma HashParse(t: string)
    requires |t| == 7 && t[0] == '#'
    requires forall i :: 1 <= i < 7 ==> IsHexDigit(t[i])
    ensures HexToRgb(t) == HexToRgb(t[1..])
  {
    assert t[1..][0] == t[1];
  }

  /** Six digits that agree in value, position by position, parse to the same colour. */
  lemma SameParse(a: string, b: string)
    requires |a| == 6 && |b| == 6
    requires forall i :: 0 <= i < 6 ==> IsHexDigit(a[i]) && IsHexDigit(b[i]) && DigitValue(a[i]) == DigitValue(b[i])
    ensures HexToRgb(a) == HexToRgb(b)
  {
    assert a[0] != '#' && b[0] != '#';
    assert PairValue(a[0], a[1]) == PairValue(b[0], b[1]);
    assert PairValue(a[2], a[3]) == PairValue(b[2], b[3]);
    assert PairValue(a[4], a[5]) == PairValue(b[4], b[5]);
  }

  /** The parses the unit tests of src/__tests__/utils/index.test.ts expect. */
  lemma TestedParses()
    ensures HexToRgb("#000000") == Some(Rgb(0, 0, 0))
    ensures HexToRgb("#FFFFFF") == Some(Rgb(255, 255, 255))
    ensures HexToRgb("bd5c55") == Some(Rgb(189, 92, 85))
    ensures HexToRgb("#buic55") == None
  {
    assert "#FFFFFF"[1..] == "FFFFFF";
    assert !IsHexDigit("#buic55"[2]);
  }

  /** A seven-character string that starts with `#` is the `#` and three pairs. */
  lemma SplitHex(s: string)
    requires |s| == 7 && s[0] == '#'
    ensures s == "#" + [s[1], s[2]] + [s[3], s[4]] + [s[5], s[6]]
  {
  }

  /** Two lower-case digits are the `componentToHex` form of their value. */
  lemma PairRoundTrip(d1: char, d2: char)
    requires IsLowerHexDigit(d1) && IsLowerHexDigit(d2)
    ensures ComponentToHex(PairValue(d1, d2)) == [d1, d2]
  {
    var v := PairValue(d1, d2);
    var s := ComponentToHex(v);
    var a, b := Value(d1), Value(d2);
    var c, d := Value(s[0]), Value(s[1]);
    PairUnique(a, b, c, d);
    LowerDigitUnique(s[0], d1);
    LowerDigitUnique(s[1], d2);
  }

  /** Two base-16 digit pairs of equal value are equal. */
  lemma PairUnique(a: nat, b: nat, c: nat, d: nat)
    requires a < 16 && b < 16 && c < 16 && d < 16 && 16 * a + b == 16 * c + d
    ensures a == c && b == d
  {
  }

  /** A lower-case digit is determined by its value. */
  lemma LowerDigitUnique(c: char, d: char)
    requires IsLowerHexDigit(c) && IsLowerHexDigit(d)
    requires DigitValue(c) == DigitValue(d)
    ensures c == d
  {
  }

  /**
   * `String(n)` (or `${n}`) for an integer: a `-` sign for negatives, then the decimal digits of
   * the magnitude without leading zeros.
   */
  function Decimal(n: int): (s: string)
    ensures 0 < |s|
    ensures s[0] == '-' <==> n < 0
    ensures forall i :: (if n < 0 then 1 else 0) <= i < |s| ==> '0' <= s[i] <= '9'
  {
    if n < 0 then "-" + ToText(-n, 10) else ToText(n, 10)
  }

  /** Behind the sign, `Decimal(n)` spells the magnitude of `n` in base ten, without leading zeros. */
  lemma DecimalValue(n: int)
    ensures var s := Decimal(n);
      var digits := if n < 0 then s[1..] else s;
      && 0 < |digits|
      && (forall i :: 0 <= i < |digits| ==> IsLowerHexDigit(digits[i]))
      && ValueOf(DigitValues(digits), 10) == (if n < 0 then -n else n)
      && (|digits| == 1 || digits[0] != '0')
  {
    var s := Decimal(n);
    var m := if n < 0 then -n else n;
    var digits := if n < 0 then s[1..] else s;
    if n < 0 {
      SignDropped(ToText(m, 10));
    }
    assert digits == ToText(m, 10);
    TenDigits(m);
  }

  /** The base-ten text of `m`: digits worth `m`, without leading zeros. */
  lemma TenDigits(m: nat)
    ensures var t := ToText(m, 10);
      && 0 < |t|
      && (forall i :: 0 <= i < |t| ==> IsLowerHexDigit(t[i]))
      && ValueOf(DigitValues(t), 10) == m
      && (|t| == 1 || t[0] != '0')
  {
    ToTextValue(m, 10);
  }

  /** Behind the sign stands the text it was put in front of. */
  lemma SignDropped(t: string)
    ensures ("-" + t)[0] == '-' && ("-" + t)[1..] == t
  {
  }

  /** Different integers have different decimal texts. */
  lemma DecimalInjective(m: int, n: int)
    requires Decimal(m) == Decimal(n)
    ensures m == n
  {
    if m < 0 && n < 0 {
      NegativeDecimalInjective(-m, -n);
    } else if 0 <= m && 0 <= n {
      ToTextInjective(m, n, 10);
    }
  }

  /** Behind equal `-` signs stand equal magnitudes. */
  lemma NegativeDecimalInjective(a: int, b: int)
    requires 0 < a && 0 < b
    requires Decimal(-a) == Decimal(-b)
    ensures a == b
  {
    var ta, tb := ToText(a, 10), ToText(b, 10);
    assert Decimal(-a) == "-" + ta && Decimal(-b) == "-" + tb;
    assert ("-" + ta)[1..] == ta && ("-" + tb)[1..] == tb;
    ToTextInjective(a, b, 10);
  }
}
