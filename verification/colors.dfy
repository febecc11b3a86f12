/** The colour helpers of the Plotly figure (venn_plot.py:91-119): a hex
    colour codec, the channel-averaging blend used for label borders, and a
    clamped darkening. Colours are strings; a parse error of Python's
    `int(..., 16)` is `None`. */
module Colors {
  import opened Wrappers
  import Geometry

  /** An `(r, g, b)` triple; channels are unbounded integers, since
      `int(..., 16)` also accepts a sign. */
  datatype Rgb = Rgb(r: int, g: int, b: int)

  predicate IsHexDigit(c: char)
  {
    '0' <= c <= '9' || 'a' <= c <= 'f' || 'A' <= c <= 'F'
  }

  predicate IsLowerHexDigit(c: char)
  {
    '0' <= c <= '9' || 'a' <= c <= 'f'
  }

  function DigitValue(c: char): (v: nat)
    requires IsHexDigit(c)
    ensures v < 16
  {
    if '0' <= c <= '9' then c as int - '0' as int
    else if 'a' <= c <= 'f' then c as int - 'a' as int + 10
    else c as int - 'A' as int + 10
  }

  /** The ASCII whitespace `int(..., 16)` skips around the digits: space and
      `\t` to `\r` (the separators `\x1c` to `\x1f` are not skipped). */
  predicate IsSpace(c: char)
  {
    c == ' ' || 9 <= c as int <= 13
  }

  /** `int(s, 16)` for the strings of at most two characters that
      `hex_color[i:i+2]` can produce: surrounding whitespace is ignored, a
      sign is allowed, and anything else that is not a hex digit is an error. */
  function ParseHexSlice(s: string): (r: Option<int>)
    requires |s| <= 2
    ensures r.Some? ==> -15 <= r.value <= 255
    ensures |s| == 2 && IsHexDigit(s[0]) && IsHexDigit(s[1]) ==> r == Some(16 * DigitValue(s[0]) + DigitValue(s[1]))
    ensures |s| == 0 ==> r.None?
    ensures r.Some? <==>
              || (|s| == 1 && IsHexDigit(s[0]))
              || (|s| == 2 && IsHexDigit(s[0]) && IsHexDigit(s[1]))
              || (|s| == 2 && (IsSpace(s[0]) || s[0] == '+' || s[0] == '-') && IsHexDigit(s[1]))
              || (|s| == 2 && IsHexDigit(s[0]) && IsSpace(s[1]))
    ensures |s| == 2 && s[0] == '-' && IsHexDigit(s[1]) ==> r == Some(0 - DigitValue(s[1]) as int)
    ensures |s| == 2 && (IsSpace(s[0]) || s[0] == '+') && IsHexDigit(s[1]) ==> r == Some(DigitValue(s[1]) as int)
    ensures |s| == 2 && IsHexDigit(s[0]) && IsSpace(s[1]) ==> r == Some(DigitValue(s[0]) as int)
  {
    if |s| == 0 then None
    else if |s| == 1 then
      if IsHexDigit(s[0]) then Some(DigitValue(s[0])) else None
    else if IsHexDigit(s[0]) && IsHexDigit(s[1]) then Some(16 * DigitValue(s[0]) + DigitValue(s[1]))
    else if IsSpace(s[0]) && IsHexDigit(s[1]) then Some(DigitValue(s[1]))
    else if IsHexDigit(s[0]) && IsSpace(s[1]) then Some(DigitValue(s[0]))
    else if s[0] == '+' && IsHexDigit(s[1]) then Some(DigitValue(s[1]))
    else if s[0] == '-' && IsHexDigit(s[1]) then Some(0 - DigitValue(s[1]) as int)
    else None
  }

  /** `hex_color.lstrip('#')`: every leading `#` removed. */
  function StripHashes(s: string): (r: string)
    ensures |r| <= |s| && r == s[|s| - |r|..]
    ensures |r| > 0 ==> r[0] != '#'
    ensures forall i :: 0 <= i < |s| - |r| ==> s[i] == '#'
  {
    if |s| > 0 && s[0] == '#' then StripHashes(s[1..]) else s
  }

  /** Python's clipped slice `s[i:j]` for `0 <= i <= j`. */
  function Slice(s: string, i: nat, j: nat): (r: string)
    requires i <= j
    ensures |r| <= j - i
  {
    var a := if i <= |s| then i else |s|;
    var b := if j <= |s| then j else |s|;
    s[a..b]
  }

  /** `_hex_to_rgb`. */
  function HexToRgb(s: string): (c: Option<Rgb>)
    ensures c.Some? ==> -15 <= c.value.r <= 255 && -15 <= c.value.g <= 255 && -15 <= c.value.b <= 255
    ensures |StripHashes(s)| <= 4 ==> c.None?
  {
    var h := StripHashes(s);
    match (ParseHexSlice(Slice(h, 0, 2)), ParseHexSlice(Slice(h, 2, 4)), ParseHexSlice(Slice(h, 4, 6)))
    case (Some(r), Some(g), Some(b)) => Some(Rgb(r, g, b))
    case _ => None
  }

  function HexDigitChar(d: nat): (c: char)
    requires d < 16
    ensures IsLowerHexDigit(c) && DigitValue(c) == d
  {
    if d < 10 then ('0' as int + d) as char else ('a' as int + d - 10) as char
  }

  /** The lower-case hex digits of `n`, without leading zeros. */
  function HexDigits(n: nat): (s: string)
    ensures |s| >= 1
    ensures forall i :: 0 <= i < |s| ==> IsLowerHexDigit(s[i])
    ensures n < 16 <==> |s| == 1
  {
    if n < 16 then [HexDigitChar(n)] else HexDigits(n / 16) + [HexDigitChar(n % 16)]
  }

  /** `'%02x' % n`: at least two digits, zero-padded; a negative number is a
      minus sign followed by the digits of its magnitude. */
  function Hex02(n: int): (s: string)
    ensures |s| >= 2
    ensures forall i :: 0 <= i < |s| ==> IsLowerHexDigit(s[i]) || s[i] == '-'
  {
    if n < 0 then "-" + HexDigits(-n)
    else if n < 16 then "0" + HexDigits(n)
    else HexDigits(n)
  }

  /** `_rgb_to_hex`. */
  function RgbToHex(c: Rgb): (s: string)
    ensures |s| >= 7 && s[0] == '#'
    ensures forall i :: 1 <= i < |s| ==> IsLowerHexDigit(s[i]) || s[i] == '-'
  {
    "#" + Hex02(c.r) + Hex02(c.g) + Hex02(c.b)
  }

  predicate InByteRange(c: Rgb)
  {
    0 <= c.r <= 255 && 0 <= c.g <= 255 && 0 <= c.b <= 255
  }

  /** A channel in `0 .. 255` formats as two lower-case hex digits that parse
      back to it. */
  lemma Hex02OfByte(n: int)
    requires 0 <= n <= 255
    ensures |Hex02(n)| == 2
    ensures IsLowerHexDigit(Hex02(n)[0]) && IsLowerHexDigit(Hex02(n)[1])
    ensures 16 * DigitValue(Hex02(n)[0]) + DigitValue(Hex02(n)[1]) == n
  {
    if n >= 16 {
      assert n / 16 < 16;
      assert HexDigits(n) == [HexDigitChar(n / 16), HexDigitChar(n % 16)];
    }
  }

  /** `_rgb_to_hex` of a byte triple is `#` and six lower-case hex digits. */
  lemma RgbToHexCanonical(c: Rgb)
    requires InByteRange(c)
    ensures |RgbToHex(c)| == 7 && RgbToHex(c)[0] == '#'
    ensures forall i :: 1 <= i < 7 ==> IsLowerHexDigit(RgbToHex(c)[i])
  {
    Hex02OfByte(c.r);
    Hex02OfByte(c.g);
    Hex02OfByte(c.b);
  }

  /** Decoding an encoded byte triple gives it back. */
  lemma {:induction false} HexRoundTrip(c: Rgb)
    requires InByteRange(c)
    ensures HexToRgb(RgbToHex(c)) == Some(c)
  {
    var s := RgbToHex(c);
    RgbToHexCanonical(c);
    assert IsHexColor(s);
    DecodeHexColor(s);
    EncodedValue(c);
  }

  /** The digit pairs of an encoded byte triple spell the triple. */
  lemma EncodedValue(c: Rgb)
    requires InByteRange(c)
    ensures IsHexColor(RgbToHex(c)) && ColorValue(RgbToHex(c)) == c
  {
    var s := RgbToHex(c);
    RgbToHexCanonical(c);
    Hex02OfByte(c.r);
    Hex02OfByte(c.g);
    Hex02OfByte(c.b);
    assert s[1] == Hex02(c.r)[0] && s[2] == Hex02(c.r)[1];
    assert s[3] == Hex02(c.g)[0] && s[4] == Hex02(c.g)[1];
    assert s[5] == Hex02(c.b)[0] && s[6] == Hex02(c.b)[1];
  }

  /** A hex colour written the usual way: `#` and six hex digits, any case. */
  predicate IsHexColor(s: string)
  {
    |s| == 7 && s[0] == '#' && forall i :: 1 <= i < 7 ==> IsHexDigit(s[i])
  }

  function LowerChar(c: char): char
  {
    if 'A' <= c <= 'Z' then (c as int + 32) as char else c
  }

  /** `str.lower` on the ASCII letters. */
  function Lower(s: string): (r: string)
    ensures |r| == |s|
    ensures forall i :: 0 <= i < |s| ==> r[i] == LowerChar(s[i])
  {
    seq(|s|, i requires 0 <= i < |s| => LowerChar(s[i]))
  }

  /** The triple a usual hex colour decodes to. */
  function ColorValue(s: string): (c: Rgb)
    requires IsHexColor(s)
    ensures InByteRange(c)
  {
    Rgb(16 * DigitValue(s[1]) + DigitValue(s[2]),
        16 * DigitValue(s[3]) + DigitValue(s[4]),
        16 * DigitValue(s[5]) + DigitValue(s[6]))
  }

  /** A usual hex colour decodes to the value its digit pairs spell. */
  lemma {:induction false} DecodeHexColor(s: string)
    requires IsHexColor(s)
    ensures HexToRgb(s) == Some(ColorValue(s))
  {
    var h := s[1..];
    StripOneHash(s);
    SlicesOfSix(h);
    assert h[0] == s[1] && h[1] == s[2] && h[2] == s[3] && h[3] == s[4] && h[4] == s[5] && h[5] == s[6];
  }

  /** A single leading `#` is all `lstrip('#')` removes when the next
      character is not `#`. */
  lemma StripOneHash(s: string)
    requires |s| >= 2 && s[0] == '#' && s[1] != '#'
    ensures StripHashes(s) == s[1..]
  {
    var h := s[1..];
    assert h[0] == s[1];
    assert StripHashes(h) == h;
  }

  /** The three slices `_hex_to_rgb` takes of six characters are its pairs. */
  lemma SlicesOfSix(h: string)
    requires |h| == 6
    ensures Slice(h, 0, 2) == [h[0], h[1]]
    ensures Slice(h, 2, 4) == [h[2], h[3]]
    ensures Slice(h, 4, 6) == [h[4], h[5]]
  {
  }

  /** A usual hex colour decodes to a byte triple, and re-encoding it gives
      the colour in lower case. */
  lemma {:induction false} DecodeEncodeLowers(s: string)
    requires IsHexColor(s)
    ensures HexToRgb(s).Some? && InByteRange(HexToRgb(s).value)
    ensures RgbToHex(HexToRgb(s).value) == Lower(s)
  {
    DecodeHexColor(s);
    EncodeColorValue(s);
    LowerHexColor(s);
  }

  /** The lower-case spelling of a usual hex colour, character by character. */
  function LowerSpelling(s: string): string
    requires IsHexColor(s)
  {
    ['#', LowerChar(s[1]), LowerChar(s[2]), LowerChar(s[3]), LowerChar(s[4]), LowerChar(s[5]), LowerChar(s[6])]
  }

  lemma EncodeColorValue(s: string)
    requires IsHexColor(s)
    ensures RgbToHex(ColorValue(s)) == LowerSpelling(s)
  {
    var c := ColorValue(s);
    PairRoundTrip(s[1], s[2]);
    PairRoundTrip(s[3], s[4]);
    PairRoundTrip(s[5], s[6]);
    assert Hex02(c.r) == [LowerChar(s[1]), LowerChar(s[2])];
    assert Hex02(c.g) == [LowerChar(s[3]), LowerChar(s[4])];
    assert Hex02(c.b) == [LowerChar(s[5]), LowerChar(s[6])];
  }

  lemma LowerHexColor(s: string)
    requires IsHexColor(s)
    ensures Lower(s) == LowerSpelling(s)
  {
    var want := LowerSpelling(s);
    assert |Lower(s)| == 7;
    forall i | 0 <= i < 7 ensures Lower(s)[i] == want[i] {
    }
  }

  /** Two hex digits re-encode as their lower-case forms. */
  lemma PairRoundTrip(a: char, b: char)
    requires IsHexDigit(a) && IsHexDigit(b)
    ensures Hex02(16 * DigitValue(a) + DigitValue(b)) == [LowerChar(a), LowerChar(b)]
  {
    var n := 16 * DigitValue(a) + DigitValue(b);
    Hex02OfByte(n);
    var s := Hex02(n);
    DigitsDetermineChar(s[0], a);
    assert n / 16 == DigitValue(a) && n % 16 == DigitValue(b);
    assert DigitValue(s[0]) == DigitValue(a) && DigitValue(s[1]) == DigitValue(b);
    DigitsDetermineChar(s[1], b);
  }

  /** A lower-case hex digit is the lower-case form of any digit with its value. */
  lemma DigitsDetermineChar(lower: char, c: char)
    requires IsLowerHexDigit(lower) && IsHexDigit(c) && DigitValue(lower) == DigitValue(c)
    ensures lower == LowerChar(c)
  {
  }

  /** Truncation toward zero of `a / n`: `int(a / n)` on a float quotient. */
  function TruncDiv(a: int, n: nat): int
    requires n > 0
  {
    if a >= 0 then a / n else -((-a) / n)
  }

  /** Truncation toward zero: Python's `int(x)` on a float. */
  function Trunc(x: real): int
  {
    if x >= 0.0 then x.Floor else -((-x).Floor)
  }

  /** The values of a list of results, or `None` when some result is missing
      (the loop stops at the first exception). */
  function Collect<T>(os: seq<Option<T>>): (r: Option<seq<T>>)
    ensures r.Some? ==> |r.value| == |os| && forall i :: 0 <= i < |os| ==> os[i] == Some(r.value[i])
    ensures r.None? ==> exists i :: 0 <= i < |os| && os[i].None?
  {
    if |os| == 0 then Some([])
    else
      var tail := Collect(os[1..]);
      if os[0].None? then None
      else if tail.None? then
        var i :| 0 <= i < |os[1..]| && os[1..][i].None?;
        assert os[i + 1] == os[1..][i];
        None
      else
        var r := [os[0].value] + tail.value;
        assert forall i :: 1 <= i < |os| ==> os[i] == os[1..][i - 1] && r[i] == tail.value[i - 1];
        Some(r)
  }

  /** Every colour of the list decoded, or `None` when one fails. */
  function DecodeAll(hs: seq<string>): (r: Option<seq<Rgb>>)
    ensures r.Some? ==> |r.value| == |hs| && forall i :: 0 <= i < |hs| ==> HexToRgb(hs[i]) == Some(r.value[i])
    ensures r.None? ==> exists i :: 0 <= i < |hs| && HexToRgb(hs[i]).None?
  {
    var os := seq(|hs|, i requires 0 <= i < |hs| => HexToRgb(hs[i]));
    Collect(os)
  }

  function Reds(cs: seq<Rgb>): (r: seq<int>)
    ensures |r| == |cs| && forall i :: 0 <= i < |cs| ==> r[i] == cs[i].r
  {
    seq(|cs|, i requires 0 <= i < |cs| => cs[i].r)
  }

  function Greens(cs: seq<Rgb>): (r: seq<int>)
    ensures |r| == |cs| && forall i :: 0 <= i < |cs| ==> r[i] == cs[i].g
  {
    seq(|cs|, i requires 0 <= i < |cs| => cs[i].g)
  }

  function Blues(cs: seq<Rgb>): (r: seq<int>)
    ensures |r| == |cs| && forall i :: 0 <= i < |cs| ==> r[i] == cs[i].b
  {
    seq(|cs|, i requires 0 <= i < |cs| => cs[i].b)
  }

  function Sum(xs: seq<int>): int
  {
    if |xs| == 0 then 0 else Sum(xs[..|xs| - 1]) + xs[|xs| - 1]
  }

  /** `int(s / n)` for the channel sums `s`. */
  function MeanChannel(xs: seq<int>): int
    requires |xs| > 0
  {
    TruncDiv(Sum(xs), |xs|)
  }

  /** The blended triple: the truncated mean of each channel. */
  function BlendRgb(cs: seq<Rgb>): Rgb
    requires |cs| > 0
  {
    Rgb(MeanChannel(Reds(cs)), MeanChannel(Greens(cs)), MeanChannel(Blues(cs)))
  }

  /** `_blend_colors`: `#1f1f1f` for no colours, otherwise the channel means
      formatted as hex; `None` when some colour does not parse. */
  function Blend(hs: seq<string>): (r: Option<string>)
    ensures |hs| == 0 ==> r == Some("#1f1f1f")
    ensures |hs| > 0 ==> (r.Some? <==> forall i :: 0 <= i < |hs| ==> HexToRgb(hs[i]).Some?)
  {
    if |hs| == 0 then Some("#1f1f1f")
    else
      match DecodeAll(hs)
      case None => None
      case Some(cs) => Some(RgbToHex(BlendRgb(cs)))
  }

  /** Every element is at least `lo` and at most `hi`. */
  predicate Within(xs: seq<int>, lo: int, hi: int)
  {
    forall i :: 0 <= i < |xs| ==> lo <= xs[i] <= hi
  }

  lemma {:induction false} SumBounds(xs: seq<int>, lo: int, hi: int)
    requires Within(xs, lo, hi)
    ensures |xs| * lo <= Sum(xs) <= |xs| * hi
  {
    if |xs| > 0 {
      var n := |xs| - 1;
      var init := xs[..n];
      assert Within(init, lo, hi);
      SumBounds(init, lo, hi);
      assert Sum(xs) == Sum(init) + xs[n];
      MulSucc(n, lo);
      MulSucc(n, hi);
    }
  }

  lemma MulSucc(n: int, a: int)
    ensures (n + 1) * a == n * a + a
  {
  }

  /** The truncated mean of a channel lies between its smallest and largest
      value. */
  lemma MeanChannelBetween(xs: seq<int>, lo: int, hi: int)
    requires |xs| > 0 && Within(xs, lo, hi)
    ensures lo <= MeanChannel(xs) <= hi
  {
    SumBounds(xs, lo, hi);
    TruncDivBetween(Sum(xs), |xs|, lo, hi);
  }

  lemma TruncDivBetween(a: int, n: nat, lo: int, hi: int)
    requires n > 0 && n * lo <= a <= n * hi
    ensures lo <= TruncDiv(a, n) <= hi
  {
    if a >= 0 {
      DivBetween(a, n, lo, hi);
    } else {
      DivBetween(-a, n, -hi, -lo);
    }
  }

  /** Floor division keeps integer bounds on the quotient. */
  lemma DivBetween(a: int, n: nat, lo: int, hi: int)
    requires n > 0 && n * lo <= a <= n * hi
    ensures lo <= a / n <= hi
  {
    var q := a / n;
    assert n * q <= a < n * q + n;
    if q < lo { MulMonotone(n, q + 1, lo); }
    if q > hi { MulMonotone(n, hi + 1, q); }
  }

  lemma MulMonotone(n: nat, x: int, y: int)
    requires x <= y
    ensures n * x <= n * y
  {
    assert n * y - n * x == n * (y - x);
  }

  /** `v` is the floor of the mean of `xs`. */
  predicate IsFloorMean(v: int, xs: seq<int>)
  {
    |xs| * v <= Sum(xs) < |xs| * (v + 1)
  }

  /** For byte channels, the truncated mean is a byte and the floor of the
      mean. */
  lemma MeanChannelIsFloor(xs: seq<int>)
    requires |xs| > 0 && Within(xs, 0, 255)
    ensures 0 <= MeanChannel(xs) <= 255
    ensures IsFloorMean(MeanChannel(xs), xs)
  {
    SumBounds(xs, 0, 255);
    MeanChannelBetween(xs, 0, 255);
  }

  /** Blending usual hex colours gives a usual lower-case hex colour whose
      channels are the floors of the input channels' means. */
  lemma {:induction false} BlendOfHexColors(hs: seq<string>)
    requires |hs| > 0 && forall i :: 0 <= i < |hs| ==> IsHexColor(hs[i])
    ensures DecodeAll(hs).Some?
    ensures var cs := DecodeAll(hs).value;
            var m := BlendRgb(cs);
            && Blend(hs) == Some(RgbToHex(m))
            && InByteRange(m)
            && IsFloorMean(m.r, Reds(cs))
            && IsFloorMean(m.g, Greens(cs))
            && IsFloorMean(m.b, Blues(cs))
  {
    forall i | 0 <= i < |hs| ensures HexToRgb(hs[i]).Some? {
      DecodeHexColor(hs[i]);
    }
    var cs := DecodeAll(hs).value;
    forall i | 0 <= i < |cs| ensures InByteRange(cs[i]) {
      DecodeHexColor(hs[i]);
    }
    assert Within(Reds(cs), 0, 255);
    assert Within(Greens(cs), 0, 255);
    assert Within(Blues(cs), 0, 255);
    MeanChannelIsFloor(Reds(cs));
    MeanChannelIsFloor(Greens(cs));
    MeanChannelIsFloor(Blues(cs));
  }

  /** Blending one usual hex colour returns it in lower case. */
  lemma BlendSingleton(h: string)
    requires IsHexColor(h)
    ensures Blend([h]) == Some(Lower(h))
  {
    DecodeEncodeLowers(h);
    var c := HexToRgb(h).value;
    DecodeOne(h);
    BlendOfOne(c);
  }

  /** A one-element list decodes to its one colour. */
  lemma DecodeOne(h: string)
    requires HexToRgb(h).Some?
    ensures DecodeAll([h]) == Some([HexToRgb(h).value])
  {
    assert [h][0] == h;
    var r := DecodeAll([h]);
    assert r.Some?;
    assert r.value == [r.value[0]];
  }

  /** The mean of one colour is that colour. */
  lemma BlendOfOne(c: Rgb)
    ensures BlendRgb([c]) == c
  {
    assert Sum(Reds([c])) == c.r by { assert Reds([c])[..0] == []; }
    assert Sum(Greens([c])) == c.g by { assert Greens([c])[..0] == []; }
    assert Sum(Blues([c])) == c.b by { assert Blues([c])[..0] == []; }
  }

  /** `max(0.0, min(1.0, factor))`. */
  function ClampFactor(f: real): (r: real)
    ensures 0.0 <= r <= 1.0
    ensures f <= 0.0 ==> r == 0.0
    ensures f >= 1.0 ==> r == 1.0
    ensures 0.0 <= f <= 1.0 ==> r == f
  {
    if f <= 0.0 then 0.0 else if f >= 1.0 then 1.0 else f
  }

  /** `int(channel * factor)`. */
  function Scale(v: int, f: real): int
  {
    Trunc(v as real * f)
  }

  /** A factor in `[0, 1]` moves a channel toward zero without crossing it. */
  lemma ScaleShrinks(v: int, f: real)
    requires 0.0 <= f <= 1.0
    ensures v >= 0 ==> 0 <= Scale(v, f) <= v
    ensures v < 0 ==> v <= Scale(v, f) <= 0
    ensures f == 0.0 ==> Scale(v, f) == 0
    ensures f == 1.0 ==> Scale(v, f) == v
  {
    Geometry.FractionBetween(v as real, f);
  }

  function DarkenRgb(c: Rgb, factor: real): Rgb
  {
    var f := ClampFactor(factor);
    Rgb(Scale(c.r, f), Scale(c.g, f), Scale(c.b, f))
  }

  /** `_darken_hex`. */
  function Darken(s: string, factor: real): (r: Option<string>)
    ensures r.Some? <==> HexToRgb(s).Some?
  {
    match HexToRgb(s)
    case None => None
    case Some(c) => Some(RgbToHex(DarkenRgb(c, factor)))
  }

  /** Darkening never makes a channel brighter: each non-negative channel ends
      between 0 and its old value. */
  lemma DarkenNeverBrightens(c: Rgb, factor: real)
    requires InByteRange(c)
    ensures var d := DarkenRgb(c, factor);
            InByteRange(d) && d.r <= c.r && d.g <= c.g && d.b <= c.b
  {
    var f := ClampFactor(factor);
    ScaleShrinks(c.r, f);
    ScaleShrinks(c.g, f);
    ScaleShrinks(c.b, f);
  }

  /** A factor at or below 0 gives black; at or above 1, the colour itself,
      which for a usual hex colour is its lower-case form. */
  lemma DarkenExtremes(s: string, factor: real)
    requires IsHexColor(s)
    ensures factor <= 0.0 ==> Darken(s, factor) == Some("#000000")
    ensures factor >= 1.0 ==> Darken(s, factor) == Some(Lower(s))
  {
    DecodeEncodeLowers(s);
    var c := HexToRgb(s).value;
    if factor <= 0.0 {
      DarkenByZero(c, factor);
      BlackHex();
    } else if factor >= 1.0 {
      DarkenByOne(c, factor);
    }
  }

  /** Black prints as `#000000`. */
  lemma BlackHex()
    ensures RgbToHex(Rgb(0, 0, 0)) == "#000000"
  {
    assert HexDigitChar(0) == '0';
    assert HexDigits(0) == "0";
    assert Hex02(0) == "00";
  }

  lemma DarkenByZero(c: Rgb, factor: real)
    requires factor <= 0.0
    ensures DarkenRgb(c, factor) == Rgb(0, 0, 0)
  {
    ScaleShrinks(c.r, 0.0);
    ScaleShrinks(c.g, 0.0);
    ScaleShrinks(c.b, 0.0);
  }

  lemma DarkenByOne(c: Rgb, factor: real)
    requires factor >= 1.0
    ensures DarkenRgb(c, factor) == c
  {
    ScaleShrinks(c.r, 1.0);
    ScaleShrinks(c.g, 1.0);
    ScaleShrinks(c.b, 1.0);
  }
}
