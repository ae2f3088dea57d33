/**
 * The per-segment colour strategies of src/utils/colorMode.ts. Each strategy walks the
 * segment list and, for a segment whose `children` list is present, replaces its `color`;
 * a segment without `children` is left alone. The functions here describe what happens to one
 * segment; the `forEach` over the list applies them independently.
 */
module ColorMode {
  import opened Wrappers
  import opened Hex
  import opened Raster
  import opened UnionFind

  /** Every child's three bytes lie in the buffer, so none of the reads gives `undefined`. */
  predicate AllReadable(img: Image, cs: seq<Point>) {
    forall p :: p in cs ==> Readable(img, p)
  }

  /** `seg'` differs from `seg` in its colour at most. */
  predicate OnlyColor(seg: Node, seg': Node) {
    seg'.(color := seg.color) == seg
  }

  // ---------------------------------------------------------------- average_color

  /** The channel sums of the children's colours. */
  function Sums(img: Image, cs: seq<Point>): (s: Rgb)
    requires AllReadable(img, cs)
    ensures 0 <= s.r <= 255 * |cs| && 0 <= s.g <= 255 * |cs| && 0 <= s.b <= 255 * |cs|
  {
    if cs == [] then Rgb(0, 0, 0)
    else
      var s := Sums(img, cs[..|cs| - 1]);
      var c := Sample(img, cs[|cs| - 1]);
      Rgb(s.r + c.r, s.g + c.g, s.b + c.b)
  }

  /** When every child has colour `c`, each channel sum is `|cs|` times that channel. */
  lemma {:induction false} SumsUniform(img: Image, cs: seq<Point>, c: Rgb)
    requires forall p :: p in cs ==> Readable(img, p) && Sample(img, p) == c
    ensures Sums(img, cs) == Rgb(c.r * |cs|, c.g * |cs|, c.b * |cs|)
  {
    if cs != [] {
      var front := cs[..|cs| - 1];
      assert forall p :: p in front ==> p in cs;
      SumsUniform(img, front, c);
      var n := |cs|;
      assert cs[n - 1] in cs;
      MulNext(c.r, n);
      MulNext(c.g, n);
      MulNext(c.b, n);
    }
  }

  lemma MulNext(a: int, n: int)
    ensures a * (n - 1) + a == a * n
  {
  }

  /** `q` is `sum / n` rounded to the nearest integer, halves up: `q - 1/2 <= sum / n < q + 1/2`. */
  predicate RoundsTo(sum: int, n: int, q: int) {
    q * (2 * n) <= 2 * sum + n < q * (2 * n) + 2 * n
  }

  /** `Math.round(sum / n)` for a non-negative sum and a positive count. */
  function RoundDiv(sum: nat, n: nat): (q: nat)
    requires 0 < n
    ensures RoundsTo(sum, n, q)
  {
    DivMod(2 * sum + n, 2 * n);
    (2 * sum + n) / (2 * n)
  }

  /** The average of byte samples is a byte. */
  lemma RoundDivByte(sum: nat, n: nat)
    requires 0 < n && sum <= 255 * n
    ensures RoundDiv(sum, n) < 256
  {
    var q := RoundDiv(sum, n);
    if 256 <= q {
      MulMonotone(256, q, 2 * n);
      assert false;
    }
  }

  /** The average of `n` copies of `v` is `v`. */
  lemma RoundDivExact(v: nat, n: nat)
    requires 0 < n
    ensures RoundDiv(v * n, n) == v
  {
    DivModUnique(2 * (v * n) + n, 2 * n, v, n);
  }

  /** What `Math.round(NaN)` turns into under `rgbToHex`: `NaN.toString(16)` is `"NaN"`. */
  const NaNColor: string := "#NaNNaNNaN"

  /**
   * `average_color` on one segment: each channel is the children's channel sum divided by their
   * number and rounded half up. An empty list divides zero by zero, and a child whose bytes lie
   * outside the buffer adds `undefined` to every sum; both give `NaN` in all three channels.
   */
  function AverageColor(img: Image, seg: Node): (r: Node)
    ensures OnlyColor(seg, r)
    ensures seg.children.None? ==> r == seg
    ensures seg.children.Some? && (seg.children.value == [] || !AllReadable(img, seg.children.value)) ==>
      r.color == NaNColor
    ensures seg.children.Some? && seg.children.value != [] && AllReadable(img, seg.children.value) ==>
      var cs := seg.children.value;
      var s := Sums(img, cs);
      && IsCanonicalHex(r.color)
      && HexToRgb(r.color).Some?
      && var c := HexToRgb(r.color).value;
         RoundsTo(s.r, |cs|, c.r) && RoundsTo(s.g, |cs|, c.g) && RoundsTo(s.b, |cs|, c.b)
  {
    match seg.children
    case None => seg
    case Some(cs) =>
      if cs == [] || !AllReadable(img, cs) then seg.(color := NaNColor)
      else
        var s, n := Sums(img, cs), |cs|;
        var r, g, b := RoundDiv(s.r, n), RoundDiv(s.g, n), RoundDiv(s.b, n);
        RoundDivByte(s.r, n);
        RoundDivByte(s.g, n);
        RoundDivByte(s.b, n);
        HexRoundTrip(r, g, b);
        seg.(color := RgbToHex(r, g, b))
  }

  /** A segment whose children all share one colour is given exactly that colour. */
  lemma AverageUniform(img: Image, seg: Node, c: Rgb)
    requires seg.children.Some? && seg.children.value != []
    requires forall p :: p in seg.children.value ==> Readable(img, p) && Sample(img, p) == c
    ensures IsByteRgb(c)
    ensures AverageColor(img, seg).color == RgbToHex(c.r, c.g, c.b)
  {
    var cs := seg.children.value;
    var n := |cs|;
    assert cs[0] in cs;
    SumsUniform(img, cs, c);
    RoundDivExact(c.r, n);
    RoundDivExact(c.g, n);
    RoundDivExact(c.b, n);
  }

  // ---------------------------------------------------------------- root_color

  /**
   * `root_color` on one segment: the colour of the bytes at the segment's own (x, y), written
   * in the lower-case `#rrggbb` form.
   */
  function RootColor(img: Image, seg: Node): (r: Node)
    requires seg.children.Some? ==> Readable(img, Point(seg.x, seg.y))
    ensures OnlyColor(seg, r)
    ensures seg.children.None? ==> r == seg
    ensures seg.children.Some? ==>
      IsCanonicalHex(r.color) && HexToRgb(r.color) == Some(Sample(img, Point(seg.x, seg.y)))
  {
    if seg.children.None? then seg
    else
      var c := Sample(img, Point(seg.x, seg.y));
      HexRoundTrip(c.r, c.g, c.b);
      seg.(color := RgbToHex(c.r, c.g, c.b))
  }

  /**
   * A segment that already carries the hex colour of the bytes at its own (x, y) is left
   * exactly as it is (every node `hk` makes does, by `SampleInImage`); in particular
   * `root_color` is idempotent.
   */
  lemma RootColorFixpoint(img: Image, seg: Node)
    requires Readable(img, Point(seg.x, seg.y))
    requires var c := Sample(img, Point(seg.x, seg.y)); seg.color == RgbToHex(c.r, c.g, c.b)
    ensures RootColor(img, seg) == seg
    ensures RootColor(img, RootColor(img, seg)) == RootColor(img, seg)
  {
  }

  // ---------------------------------------------------------------- center_color

  /**
   * `(Math.floor(w + (e - w) / 2), Math.floor(n + (s - n) / 2))`: the lower middle of the box,
   * which lies inside it whenever the box is not inverted.
   */
  function Center(b: Box): (p: Point)
    ensures 2 * p.x <= b.w + b.e < 2 * p.x + 2
    ensures 2 * p.y <= b.n + b.s < 2 * p.y + 2
    ensures b.w <= b.e ==> b.w <= p.x <= b.e
    ensures b.n <= b.s ==> b.n <= p.y <= b.s
  {
    Point(b.w + (b.e - b.w) / 2, b.n + (b.s - b.n) / 2)
  }

  /** A box that lies in the image has its centre in the image. */
  lemma CenterInImage(img: Image, b: Box)
    requires 0 <= b.w <= b.e < img.width && 0 <= b.n <= b.s < img.height
    ensures InImage(img, Center(b))
  {
  }

  /**
   * `center_color` on one segment: the colour of the bytes at the centre of its bounding box,
   * written in the lower-case `#rrggbb` form.
   */
  function CenterColor(img: Image, seg: Node): (r: Node)
    requires seg.children.Some? ==> Readable(img, Center(seg.box))
    ensures OnlyColor(seg, r)
    ensures seg.children.None? ==> r == seg
    ensures seg.children.Some? ==>
      IsCanonicalHex(r.color) && HexToRgb(r.color) == Some(Sample(img, Center(seg.box)))
  {
    if seg.children.None? then seg
    else
      var c := Sample(img, Center(seg.box));
      HexRoundTrip(c.r, c.g, c.b);
      seg.(color := RgbToHex(c.r, c.g, c.b))
  }

  /** For a one-pixel box, as `makeSet` gives, the centre colour is the root colour. */
  lemma CenterOfDegenerateBox(img: Image, seg: Node)
    requires Readable(img, Point(seg.x, seg.y))
    requires seg.box == Box(seg.y, seg.y, seg.x, seg.x)
    ensures CenterColor(img, seg) == RootColor(img, seg)
  {
    assert Center(seg.box) == Point(seg.x, seg.y);
  }

  // ---------------------------------------------------------------- representative_color

  /** How often `v` occurs in `s`. */
  function Count(s: seq<int>, v: int): nat
  {
    if s == [] then 0 else Count(s[..|s| - 1], v) + (if s[|s| - 1] == v then 1 else 0)
  }

  /**
   * `best` is a most frequent value of `vals` and, among the most frequent, the first to reach
   * that count (so a later value must overtake it strictly); `0` when `vals` is empty.
   */
  ghost predicate IsMode(vals: seq<int>, best: int) {
    && (forall v :: Count(vals, v) <= Count(vals, best))
    && (forall v, j :: 0 <= j <= |vals| && Count(vals[..j], v) >= Count(vals, best) ==>
          Count(vals[..j], best) >= Count(vals, best))
    && (vals == [] ==> best == 0)
  }

  /** The scan's state after the first `i` values: `best` leads and reached its count first. */
  ghost predicate ModeSoFar(vals: seq<int>, i: nat, best: int)
    requires i <= |vals|
  {
    && (forall v :: Count(vals[..i], v) <= Count(vals[..i], best))
    && (forall v, j :: 0 <= j <= i && Count(vals[..j], v) >= Count(vals[..i], best) ==>
          Count(vals[..j], best) >= Count(vals[..i], best))
  }

  /** One more value adds one to its own count and nothing to any other. */
  lemma CountNext(vals: seq<int>, i: nat)
    requires i < |vals|
    ensures forall v :: Count(vals[..i + 1], v) == Count(vals[..i], v) + (if vals[i] == v then 1 else 0)
  {
    assert vals[..i + 1][..i] == vals[..i];
  }

  /** Counts only grow along prefixes. */
  lemma {:induction false} CountMono(vals: seq<int>, j: nat, i: nat)
    requires j <= i <= |vals|
    ensures forall v :: Count(vals[..j], v) <= Count(vals[..i], v)
    decreases i - j
  {
    if j < i {
      CountMono(vals, j, i - 1);
      CountNext(vals, i - 1);
    }
  }

  /**
   * One step of the histogram loop: after `histogram[v]++`, `v` takes the lead only when its
   * count now strictly exceeds the leader's.
   */
  lemma ModeStep(vals: seq<int>, i: nat, best: int)
    requires i < |vals| && ModeSoFar(vals, i, best)
    ensures var v := vals[i];
      ModeSoFar(vals, i + 1, if Count(vals[..i + 1], v) > Count(vals[..i + 1], best) then v else best)
  {
    var x := vals[i];
    var m := Count(vals[..i], best);
    CountNext(vals, i);
    PrefixBelow(vals, i, best);
    var next := vals[..i + 1];
    var best' := if Count(next, x) > Count(next, best) then x else best;
    var m' := Count(next, best');
    assert Count(vals[..i], x) <= m;
    assert m' == m + 1 || (best' == best && m' == m);
    forall v
      ensures Count(next, v) <= m'
    {
      assert Count(vals[..i], v) <= m;
    }
    forall v, j | 0 <= j <= i + 1 && Count(vals[..j], v) >= m'
      ensures Count(vals[..j], best') >= m'
    {
      if j == i + 1 {
        assert vals[..j] == vals[..i + 1];
      }
    }
  }

  /** While `best` leads after `i` values, no value reached more than its count on any prefix. */
  lemma PrefixBelow(vals: seq<int>, i: nat, best: int)
    requires i <= |vals| && ModeSoFar(vals, i, best)
    ensures forall v, j :: 0 <= j <= i ==> Count(vals[..j], v) <= Count(vals[..i], best)
  {
    forall v, j | 0 <= j <= i
      ensures Count(vals[..j], v) <= Count(vals[..i], best)
    {
      CountMono(vals, j, i);
    }
  }

  /** A value that does not occur has count zero. */
  lemma {:induction false} CountAbsent(s: seq<int>, v: int)
    requires v !in s
    ensures Count(s, v) == 0
  {
    if s != [] {
      CountAbsent(s[..|s| - 1], v);
    }
  }

  /**
   * The histogram loop of `representative_color` for one channel: `histogram[v]++` and a
   * strict `>` against the current leader, which starts at 0.
   */
  method ModeScan(vals: seq<int>) returns (best: int)
    requires forall i :: 0 <= i < |vals| ==> 0 <= vals[i] < 256
    ensures 0 <= best < 256
    ensures IsMode(vals, best)
  {
    var histogram := seq(256, _ => 0);
    best := 0;
    for i := 0 to |vals|
      invariant 0 <= best < 256 && |histogram| == 256 && (i == 0 ==> best == 0)
      invariant forall u :: 0 <= u < 256 ==> histogram[u] == Count(vals[..i], u)
      invariant ModeSoFar(vals, i, best)
    {
      var v := vals[i];
      CountNext(vals, i);
      ModeStep(vals, i, best);
      histogram := histogram[v := histogram[v] + 1];
      if histogram[v] > histogram[best] {
        best := v;
      }
    }
    assert vals[..|vals|] == vals;
  }

  /** When every value is `c`, the mode is `c`. */
  lemma ModeUniform(vals: seq<int>, c: int, best: int)
    requires vals != [] && (forall i :: 0 <= i < |vals| ==> vals[i] == c) && IsMode(vals, best)
    ensures best == c
  {
    if best != c {
      assert best !in vals;
      CountAbsent(vals, best);
      CountPositive(vals, vals[0]);
      assert false;
    }
  }

  /** A value that occurs has a positive count. */
  lemma {:induction false} CountPositive(s: seq<int>, v: int)
    requires v in s
    ensures 0 < Count(s, v)
  {
    if s[|s| - 1] != v {
      CountPositive(s[..|s| - 1], v);
    }
  }

  /** Channel `k` (0 red, 1 green, 2 blue) of a colour. */
  function Pick(c: Rgb, k: nat): int {
    if k == 0 then c.r else if k == 1 then c.g else c.b
  }

  /** Channel `k` of each child's colour, in children order. */
  function Channel(img: Image, cs: seq<Point>, k: nat): (vals: seq<int>)
    requires AllReadable(img, cs)
    ensures |vals| == |cs|
    ensures forall i :: 0 <= i < |cs| ==> vals[i] == Pick(Sample(img, cs[i]), k)
    ensures forall i :: 0 <= i < |cs| ==> 0 <= vals[i] < 256
  {
    seq(|cs|, i requires 0 <= i < |cs| => Pick(Sample(img, cs[i]), k))
  }

  /**
   * The children whose bytes lie in the buffer, in children order. A child outside it reads
   * `undefined`: `histogram.r[undefined]++` then writes `NaN` to a property that is not an
   * array slot, and `NaN > histogram.r[max_index_r]` is false, so that child counts for nothing.
   */
  function InBuffer(img: Image, cs: seq<Point>): (rs: seq<Point>)
    ensures AllReadable(img, rs)
    ensures forall p :: p in rs <==> p in cs && Readable(img, p)
    ensures AllReadable(img, cs) ==> rs == cs
  {
    if cs == [] then []
    else
      var front, last := cs[..|cs| - 1], cs[|cs| - 1];
      assert cs == front + [last];
      var rs := InBuffer(img, front);
      if Readable(img, last) then rs + [last] else rs
  }

  /**
   * `representative_color` on one segment: per channel, the most frequent byte among the
   * children whose bytes lie in the buffer, ties going to the value that reached the count
   * first; `#000000` when there are none. The colour is written in the lower-case form.
   */
  method RepresentativeColor(img: Image, seg: Node) returns (r: Node)
    ensures OnlyColor(seg, r)
    ensures seg.children.None? ==> r == seg
    ensures seg.children.Some? ==>
      var vs := InBuffer(img, seg.children.value);
      && IsCanonicalHex(r.color)
      && HexToRgb(r.color).Some?
      && var c := HexToRgb(r.color).value;
         IsMode(Channel(img, vs, 0), c.r) && IsMode(Channel(img, vs, 1), c.g) && IsMode(Channel(img, vs, 2), c.b)
  {
    if seg.children.None? {
      return seg;
    }
    var vs := InBuffer(img, seg.children.value);
    var mr := ModeScan(Channel(img, vs, 0));
    var mg := ModeScan(Channel(img, vs, 1));
    var mb := ModeScan(Channel(img, vs, 2));
    HexRoundTrip(mr, mg, mb);
    r := seg.(color := RgbToHex(mr, mg, mb));
  }

  /** Children of one colour give that colour back. */
  lemma RepresentativeUniform(img: Image, cs: seq<Point>, c: Rgb, m: Rgb)
    requires cs != [] && forall p :: p in cs ==> Readable(img, p) && Sample(img, p) == c
    requires IsMode(Channel(img, cs, 0), m.r) && IsMode(Channel(img, cs, 1), m.g) && IsMode(Channel(img, cs, 2), m.b)
    ensures m == c
  {
    ModeUniform(Channel(img, cs, 0), c.r, m.r);
    ModeUniform(Channel(img, cs, 1), c.g, m.g);
    ModeUniform(Channel(img, cs, 2), c.b, m.b);
  }

  // ---------------------------------------------------------------- mondrian_colors

  /** The palette of `mondrian_colors`; the light grey appears three times to weight the draw. */
  const Palette: seq<string> := ["#fff001", "#ff0101", "#0101fd", "#f9f9f9", "#f9f9f9", "#f9f9f9", "#30303a"]

  /**
   * `mondrian_colors` on one segment. `pick` stands for `Math.floor(Math.random() * 7)`, so the
   * model covers every outcome of the draw without saying how likely each one is.
   */
  function MondrianColor(seg: Node, pick: nat): (r: Node)
    requires pick < |Palette|
    ensures OnlyColor(seg, r)
    ensures seg.children.None? ==> r == seg
    ensures seg.children.Some? ==> r.color in Palette
  {
    if seg.children.None? then seg else seg.(color := Palette[pick])
  }

  /** Every palette colour is a canonical `rgbToHex` string, so `hexToRgb` reads it back. */
  lemma PaletteCanonical(i: nat)
    requires i < |Palette|
    ensures HexToRgb(Palette[i]).Some?
    ensures var c := HexToRgb(Palette[i]).value; RgbToHex(c.r, c.g, c.b) == Palette[i]
  {
    CanonicalHexRoundTrip(Palette[i]);
  }
}
