# arty-shapes core in Dafny

A model of the image-processing core of arty-shapes. That core turns a segmentation image (an
RGBA `ImageData` buffer) into coloured rectangles. It consists of:

- **Colour text** (`src/utils/index.ts`): `componentToHex`, `rgbToHex` and the parser `hexToRgb`
  (module `Hex`), plus the decimal text that `${x}` writes (`Hex.Decimal`).
- **Pixel addressing** (module `Raster`): `xy_to_i` and `i_to_xy` as the unit tests pin them.
  A pixel `(x, y)` has its four bytes at offset `4 * (y * width + x)`.
- **Disjoint-set forest** (`src/utils/union-find.ts`, module `UnionFind`): `makeSet`, `find`
  with path halving, and `union` by rank. Object references become indices into an arena:
  node `i` has parent `parent[i]` and rank `rank[i]`.
- **Connected-component labelling** (`src/utils/ccl.ts`, module `Ccl`): the single pass of `hk`.
  It gives every non-black pixel a node under the key `"x-y"`. It unions a pixel with its north
  and west neighbours when their hex colours are equal. The main theorem (`Ccl.Hk`) says two
  pixels end in one set exactly when a 4-connected walk of pixels of their exact colour joins
  them. Module `Regions` defines that walk.
- **Colour strategies** (`src/utils/colorMode.ts`, module `ColorMode`): average, root, centre,
  histogram mode and the Mondrian palette, each for one segment.
- **Colour clustering** (`src/utils/colorClustering.ts`, module `ColorClustering`):
  `pointsInRange` and `dbscan` over a segment's children. The seed set is never extended:
  the result of `seedset.concat(neighbors)` is discarded. So a cluster is a core plus those of
  its direct neighbours that no earlier core already took. A child keeps the number of the
  first core that reaches it, and a cluster number given on input is never changed. Every
  unlabelled dense child that no earlier core reached opens the next cluster.
  `ColorClustering.ClusteredUnique` shows that these facts fix the whole labelling.
- **Renderers** (`src/utils/shapify.ts`, module `Shapify`):
  - The bounding-box fold of `render_image_v1`. The same loop also appears in `shapify` of
    `src/utils/index.ts:42-68`. The model proves the fold yields each colour's exact bounding box.
  - The area filter of `render_image_v2`. The model proves that, applied to what `hk` returns,
    it keeps nothing: `union` never widens a node's box, so every box has area 0.

`i_to_xy`, `xy_to_i`, `nearest_neighbor` and `drawRectangle` are imported from `src/utils/index`,
but their definitions are not part of this model. `i_to_xy` is modelled as the
tests in `src/__tests__/utils/index.test.ts:36-43` pin it: `((i div 4) mod width, (i div 4) div width)`.
`xy_to_i` is modelled as the tests at lines 45-59 pin it: `(y * width + x) * bpp`, with `bpp` 4 by default.

The model follows the code where it is subtle:

- `find` halves paths, so a second `find` on the same node may re-point further links.
- `union` of two nodes already in one set still runs both `find`s, which may halve paths.
  Ranks and sets stay unchanged.

## Model

| member | source | states |
|---|---|---|
| Hex.DigitValue | src/utils/index.ts:2-6 | a character has a digit value exactly when it is in `[a-f\d]` (either case); the value is the position of its lower-case form in `0123456789abcdef`, so `F` and `f` are both 15 |
| Hex.ToText | src/utils/index.ts:11 | `toString(base)` writes a non-empty text of lower-case digit characters, each below the base, with no leading zero unless the number is 0 |
| Hex.ToTextValue | src/utils/index.ts:11 | read back digit by digit in the same base, that text is worth the number it was written from |
| Hex.ToTextInjective | src/utils/index.ts:11 | two numbers with the same `toString(base)` text are equal |
| Hex.ComponentToHex | src/utils/index.ts:10-13 | a channel below 256 becomes exactly two lower-case hex digits whose value is the channel; 256 and above give more than two characters |
| Hex.RgbToHex | src/utils/index.ts:15-17 | for byte channels the result is `#` followed by six lower-case hex digits |
| Hex.HexToRgb | src/utils/index.ts:1-8 | the result is present exactly when the text is six hex digits with an optional leading `#`, and then every channel is a byte |
| Hex.ParsedColourWritesBack | src/utils/index.ts:1-17 | `rgbToHex` of what `hexToRgb` parses is the input with its digits lower-cased and a `#` in front, so upper and lower case read alike and every channel is the pair's value |
| Hex.TestedParses | src/__tests__/utils/index.test.ts:11-18 | `#000000` and `#FFFFFF` parse to 0 and 255 in every channel, `bd5c55` to 189, 92, 85, and `#buic55` to nothing |
| Hex.HexRoundTrip | src/utils/index.ts:1-17 | parsing what `rgbToHex` writes for byte channels gives back those channels |
| Hex.RgbToHexInjective | src/utils/index.ts:15-17 | two byte colours with the same hex text are the same colour |
| Hex.CanonicalHexRoundTrip | src/utils/index.ts:1-17 | a lower-case `#rrggbb` text parses, and `rgbToHex` of the parsed colour is that text again |
| Hex.CanonicalUnique | src/utils/index.ts:1-17 | two lower-case `#rrggbb` texts that parse to the same colour are the same text, so such a text is fixed by its colour |
| Hex.Decimal | src/utils/ccl.ts:22-24 | the template-literal text of an integer is non-empty, starts with `-` exactly for negatives, and is decimal digits otherwise |
| Hex.DecimalValue | src/utils/ccl.ts:22-24 | behind the optional sign the text is a non-empty run of decimal digits, worth the number's magnitude, with no leading zero unless the number is 0 |
| Hex.DecimalInjective | src/utils/ccl.ts:22-24 | different integers have different decimal texts |
| Raster.IToXy | src/__tests__/utils/index.test.ts:36-43 | `i_to_xy(i, width)` is the pixel whose four bytes contain offset `i`, with its column below `width` |
| Raster.IndexRoundTrip | src/__tests__/utils/index.test.ts:36-51 | `i_to_xy` undoes `xy_to_i` for every pixel of a row of the given width |
| Raster.OffsetRoundTrip | src/__tests__/utils/index.test.ts:36-51 | `xy_to_i(i_to_xy(i))` is `i` rounded down to a multiple of 4 (offsets 84 and 86 both give pixel `[1, 2]`) |
| Raster.OffsetInBuffer | src/utils/colorMode.ts:15-19 | a pixel inside the image has its four channel bytes inside the buffer |
| Raster.At | src/utils/colorMode.ts:36-40 | the r, g and b samples read at a pixel's offset are bytes |
| Raster.SampleInImage | src/utils/colorMode.ts:15-19 | for a pixel of a well-formed image the three bytes at `xy_to_i` are in the buffer and read that pixel's colour |
| Raster.SampleWraps | src/utils/colorMode.ts:15-19 | a column one row width past the right edge addresses the same column one row down: readable exactly when that pixel is, with the same bytes |
| Raster.HexAtInjective | src/utils/ccl.ts:51-57 | two pixels have equal hex colour strings exactly when their r, g, b samples are equal |
| UnionFind.MakeSet | src/utils/union-find.ts:24-42 | the new node is its own parent with rank 0, index, colour and the one-pixel box `n = s = y`, `e = w = x`; all older nodes keep their links and roots |
| UnionFind.Root | src/utils/union-find.ts:44-51 | following parents from any node ends at a node that is its own parent, with rank at least the start's |
| UnionFind.Find | src/utils/union-find.ts:44-51 | `find` returns the root, changes no rank, node or set, and only ever replaces a parent link by the former grandparent link |
| UnionFind.HalveKeepsRoot | src/utils/union-find.ts:46 | re-pointing a node to its grandparent keeps the forest valid and every node's root |
| UnionFind.LinkRoot | src/utils/union-find.ts:66-69 | hanging one root under another sends exactly the members of the first root's set to the second |
| UnionFind.Union | src/utils/union-find.ts:53-70 | after `union(a, b)` the two share a set, exactly their two sets were merged, the higher-ranked root survives (the first argument's on a tie, whose rank rises by one), and nothing but paths changes when they already shared a root |
| UnionFind.LinkMerges | src/utils/union-find.ts:53-70 | linking the roots of `a` and `b` puts them in one set and merges exactly their two sets |
| Ccl.GetNeighbors | src/utils/ccl.ts:10-20 | the neighbours listed are exactly the 4- or 8-neighbours of the pixel that come before it in row-major order |
| Ccl.IndexStringInjective | src/utils/ccl.ts:22-24 | different coordinates, negative ones included, give different `"x-y"` keys |
| Ccl.AddPixel | src/utils/ccl.ts:50-52 | `makeSet` filed under the pixel's key keeps the forest valid and gives the pixel a node |
| Ccl.SkipPixel | src/utils/ccl.ts:42-46 | skipping a black pixel keeps the scan invariant (keys, sound and complete sets) one position further on |
| Ccl.NeighbourColour | src/utils/ccl.ts:56-57 | `neighbor?.color === tree.color` holds exactly for an indexed non-black neighbour of the same r, g, b colour |
| Ccl.TryUnion | src/utils/ccl.ts:55-58 | a same-coloured indexed neighbour is merged with the pixel, merging exactly their two sets; otherwise nothing changes; keys and nodes stay |
| Ccl.VisitMember | src/utils/ccl.ts:48-58 | `makeSet` plus the unions with the earlier neighbours keep the scan invariant one position further on |
| Ccl.PixelAtOffset | src/utils/ccl.ts:36-48 | each offset the loop visits is the first byte of an in-image pixel, and the bytes read there are that pixel's colour |
| Ccl.Hk | src/utils/ccl.ts:30-63 | exactly the non-black pixels get a node under their `"x-y"` key, each with its own position, colour and one-pixel box; two of them share a set exactly when a 4-connected walk of pixels of their colour joins them |
| Ccl.HkResult | src/utils/ccl.ts:30-63 | once the scan has passed every pixel, its invariant gives the keys, nodes and connected-component sets of `hk`'s result |
| ColorMode.Sums | src/utils/colorMode.ts:13-20 | each channel sum over `n` children lies between 0 and `255 * n` |
| ColorMode.RoundDiv | src/utils/colorMode.ts:23-25 | `Math.round(sum / n)` is the integer nearest to the quotient, halves rounded up |
| ColorMode.RoundDivByte | src/utils/colorMode.ts:22-26 | the rounded average of byte samples is a byte |
| ColorMode.RoundDivExact | src/utils/colorMode.ts:22-26 | the rounded average of `n` copies of a value is that value |
| ColorMode.AverageColor | src/utils/colorMode.ts:5-28 | only the colour changes; no children list leaves the segment alone; an empty list, or a child whose bytes lie outside the buffer, gives `#NaNNaNNaN`; otherwise the new colour is a lower-case `#rrggbb` text each of whose channels is the channel sum rounded (halves up) after division by the child count |
| ColorMode.AverageUniform | src/utils/colorMode.ts:5-28 | children that all have one colour give the segment exactly that colour |
| ColorMode.RootColor | src/utils/colorMode.ts:31-48 | with a children list, the new colour is a lower-case `#rrggbb` text parsing to the bytes at the segment's own `(x, y)`, which by `Hex.CanonicalUnique` is `rgbToHex` of them; otherwise nothing changes; only the colour ever changes |
| ColorMode.RootColorFixpoint | src/utils/colorMode.ts:31-48 | a segment already carrying its own pixel's colour is unchanged, so `root_color` is idempotent |
| ColorMode.Center | src/utils/colorMode.ts:55-57 | the centre is the lower middle of the box in each axis and lies in the box when the box is not inverted |
| ColorMode.CenterInImage | src/utils/colorMode.ts:55-59 | the centre of a box inside the image is a pixel of the image |
| ColorMode.CenterColor | src/utils/colorMode.ts:51-71 | with a children list, the new colour is a lower-case `#rrggbb` text parsing to the bytes at the box centre; otherwise nothing changes; only the colour ever changes |
| ColorMode.CenterOfDegenerateBox | src/utils/colorMode.ts:51-71 | on the one-pixel box of `makeSet`, `center_color` and `root_color` agree |
| ColorMode.ModeStep | src/utils/colorMode.ts:96-103 | after `histogram[v]++`, `v` takes the lead only when its count strictly exceeds the leader's, and that keeps the leader a mode that reached its count first |
| ColorMode.ModeScan | src/utils/colorMode.ts:89-104 | the histogram loop of one channel returns a byte that occurs most often, the first to reach that count on ties, and 0 when there are no children |
| ColorMode.ModeUniform | src/utils/colorMode.ts:89-104 | when every sample is `c`, the mode is `c` |
| ColorMode.InBuffer | src/utils/colorMode.ts:89-104 | the children the histograms count are exactly those whose three bytes lie in the buffer, in children order; all of them when every child is readable |
| ColorMode.RepresentativeColor | src/utils/colorMode.ts:74-108 | with a children list, the new colour is a lower-case `#rrggbb` text each of whose channels is a mode of that channel over the children inside the buffer, the first to reach the top count on ties, 0 when there are none; otherwise nothing changes |
| ColorMode.RepresentativeUniform | src/utils/colorMode.ts:74-108 | children that all have one colour give that colour back |
| ColorMode.MondrianColor | src/utils/colorMode.ts:111-118 | with a children list, the new colour is a palette colour; otherwise nothing changes; only the colour ever changes |
| ColorMode.PaletteCanonical | src/utils/colorMode.ts:112 | every palette entry parses, and `rgbToHex` writes it back unchanged |
| ColorClustering.NearUpTo | src/utils/colorClustering.ts:11-21 | the collected children are increasing and are exactly those among the first `n` whose colour distance is below `eps` |
| ColorClustering.PointsInRange | src/utils/colorClustering.ts:4-24 | exactly the children whose bytes lie in the buffer and whose L1 colour distance to the point is below `eps`, in children order; nothing without a children list or when the point's own bytes lie outside the buffer |
| ColorClustering.UnreadableInNoRange | src/utils/colorClustering.ts:6-18 | a child whose bytes lie outside the buffer compares as `NaN`, so it is in no range and its own range is empty |
| ColorClustering.SelfInRange | src/utils/colorClustering.ts:4-24 | for a positive `eps` every child whose bytes lie in the buffer is in its own range |
| ColorClustering.Ranges | src/utils/colorClustering.ts:35 | each child's neighbourhood is `pointsInRange` of that child and lists only children |
| ColorClustering.NoiseStep | src/utils/colorClustering.ts:37-40 | marking an unlabelled child with fewer than `minPts` neighbours as `Noise` keeps the labelling invariant |
| ColorClustering.OpenStep | src/utils/colorClustering.ts:41-43 | labelling an unlabelled dense child with the next cluster number makes it the next core and keeps the invariant |
| ColorClustering.GrowStep | src/utils/colorClustering.ts:48-54 | giving an unlabelled or `Noise` neighbour of the core the core's number keeps the invariant |
| ColorClustering.GrowSkip | src/utils/colorClustering.ts:45-53 | the core itself and neighbours already in a cluster keep their labels |
| ColorClustering.HandOut | src/utils/colorClustering.ts:44-59 | after the seed-set loop each neighbour of the core that was unlabelled or `Noise` has the core's number, a child already in a cluster keeps its number, and no other child changes |
| ColorClustering.GrowDone | src/utils/colorClustering.ts:44-59 | once all neighbours are handled, the new cluster's neighbourhood is covered and the next child may be visited |
| ColorClustering.Dbscan | src/utils/colorClustering.ts:26-68 | every child ends labelled and a cluster number given on input is kept; `Noise` goes only to sparse unlabelled children; clusters 1, 2, … are opened in order by unlabelled dense children, and every unlabelled dense child that no earlier core reached opens one; a child joins a cluster only as its core or a direct neighbour, and always that of the first core that reaches it; every neighbour of a core is in a cluster; the returned array is `[undefined]` |
| ColorClustering.ClusteredUnique | src/utils/colorClustering.ts:26-68 | two labellings that both meet the `Dbscan` contract, with their cores, are equal, so that contract determines the result |
| ColorClustering.CoreShared | src/utils/colorClustering.ts:31-43 | whether a child becomes a core depends only on which earlier children did |
| ColorClustering.SameCluster | src/utils/colorClustering.ts:44-54 | with the same cores, a child not in a cluster on input gets the same cluster number in any labelling meeting the contract |
| ColorClustering.Reached | src/utils/colorClustering.ts:44-54 | a child that joined a cluster is that cluster's core or a neighbour of it, and no earlier core reached it |
| ColorClustering.OpenCluster | src/utils/colorClustering.ts:41-59 | opening a cluster at an unlabelled dense child numbers it with the next cluster number, records it as the next core, and keeps the scan invariant one child further on |
| ColorClustering.ScanSkip | src/utils/colorClustering.ts:31-34 | a child already labelled when the scan reaches it is skipped, keeping the scan invariant |
| ColorClustering.ScanNoise | src/utils/colorClustering.ts:35-40 | a sparse unlabelled child becomes `Noise`, keeping the scan invariant |
| ColorClustering.SkipFirst | src/utils/colorClustering.ts:31-34 | a child labelled when the scan reaches it was labelled on input or reached by an earlier core, so it could not have opened a cluster |
| Shapify.PixelAt | src/utils/shapify.ts:60 | the `k`-th pixel in scan order lies in the image at row-major position `k` |
| Shapify.ScanColour | src/utils/shapify.ts:55-62 | at offset `4k` the loop reads pixel `k`, and the key it builds is that pixel's hex colour |
| Shapify.ScanStep | src/utils/shapify.ts:55-78 | one pass of the loop body at offset `4k` performs the `k`-th step of the bounding-box fold |
| Shapify.BoxStep | src/utils/shapify.ts:64-77 | one step of the fold keeps each colour's box holding all its scanned pixels and keeps a scanned pixel of that colour on each edge |
| Shapify.StepHolds | src/utils/shapify.ts:71-77 | keeping the north edge and moving the south edge to the current row loses no earlier pixel, because rows are scanned in order |
| Shapify.StepWitnessed | src/utils/shapify.ts:64-77 | after a step every edge of every box is still reached by a scanned pixel of its colour |
| Shapify.NorthAbove | src/utils/shapify.ts:73 | a box's north edge is the row of an earlier pixel and so is not below the current row |
| Shapify.BoxesUpToBoxed | src/utils/shapify.ts:54-79 | after the first `k` pixels every scanned pixel lies in its colour's box and every box edge is reached by a scanned pixel of that colour |
| Shapify.BoxesExact | src/utils/shapify.ts:54-79 | after the whole image every pixel lies in its colour's box and each box edge is reached by a pixel of that colour |
| Shapify.AttainedHex | src/utils/shapify.ts:54-79 | read through the pixels' hex colours, every box edge is reached by a pixel of that colour |
| Shapify.BoundingBoxes | src/utils/shapify.ts:54-79 | the map has a key for every colour in the image, and each key's box is that colour's exact bounding box: it holds every pixel of the colour and each edge is reached by one |
| Shapify.RenderSegments | src/utils/shapify.ts:96-103 | the drawn segments are at most as many as the segments |
| Shapify.RenderMembers | src/utils/shapify.ts:100 | a segment is drawn exactly when it is in the list and its area `(s - n) * (e - w)` is at least 300 |
| Shapify.RenderAppend | src/utils/shapify.ts:96-103 | filtering two lists drawn one after the other draws the same segments in the same order as filtering them joined |
| Shapify.RenderIdempotent | src/utils/shapify.ts:96-103 | filtering the drawn segments again draws the same segments |
| Shapify.PixelBoxTooSmall | src/utils/shapify.ts:100 | a node with the one-pixel box of `makeSet` has area 0 and is discarded |
| Shapify.PixelBoxesDropped | src/utils/shapify.ts:96-103 | segments that all have one-pixel boxes are all discarded |
| Shapify.HkDrawsNothing | src/utils/shapify.ts:88-104 | on the forest `hk` returns, `render_image_v2` draws no rectangle, whatever order the keys are visited in |

## Left out

- Canvas, DOM, React and console output: `getImageData`, `drawImage`, `clearRect`, `scale`,
  `fillRect`, `drawRectangle`, `console.log` and `console.time`. The renderers are modelled up to
  the rectangles they would draw.
- `nearest_neighbor` downscaling and the `shapify` entry points that read the canvas:
  `nearest_neighbor` is not part of this model, and the entry points only do canvas I/O.
- `Math.random` in `mondrian_colors`: the draw becomes a parameter `pick`, so every outcome is
  covered and no distribution is claimed.
- `edgePoints` and `isEdge`: nothing in the core sets them. `isEdge` is carried as `false`.
- `render_image_v2` as written cannot reach its filter: `import hk from './ccl'` is a default
  import, but `src/utils/ccl.ts:30` only has the named export `hk`; and `hk` returns a plain
  object, on which `segments.forEach` is not a function. The model applies the filter to the
  object's values read in a key order given as a parameter, and that order is left open. The
  same holds for the `Map` iteration order of `render_image_v1`, which only matters for drawing.
- JavaScript numbers are doubles. Sums, averages and counts are unbounded integers here, and
  `Math.round` is modelled on non-negative quotients only. The `Uint32Array` histogram counts
  cannot overflow for a segment of fewer than 2^32 children.
- ColorMode.AverageColor: a child whose three bytes are not all in the buffer gives
  `#NaNNaNNaN`. The source reads `undefined` only for the missing bytes, so when the buffer
  length is not a multiple of 4 a channel whose byte is present can still print digits. A child
  outside the image but inside the buffer (a column past the right edge) reads a real pixel,
  as the model does (`Raster.SampleWraps`).
- ColorMode.RootColor: requires the three bytes at the segment's `(x, y)` to be in the buffer.
  Outside it the source reads `undefined`, and `componentToHex` throws a `TypeError` on
  `undefined.toString`; the model has no exceptions.
- ColorMode.CenterColor: requires the three bytes at the box centre to be in the buffer, for
  the same reason as `RootColor`.
- ColorMode.RepresentativeColor: a child is left out of all three histograms when any of its
  three bytes is outside the buffer; the source drops only the missing channel, which differs
  only for a buffer whose length is not a multiple of 4.
- ColorClustering.Dbscan: `eps` and `minPts` are integers, not doubles. Children are
  identified by their position in `children`, which stands for object identity
  (`pointP == pointQ`). The `pointsInRange` call inside the seed-set loop and the discarded
  `concat` are modelled by their absence, since neither changes a label.
- UnionFind.Union: node objects become arena indices. The `index` field is a string, as
  `hk` passes it, not the `number` the type declares.
- Shapify.BoundingBoxes: the loop over byte offsets `i += 4` is modelled as a loop over pixel
  positions `k` with `i = 4k`. The `Map` is modelled as a `map`, so insertion order is not kept.
