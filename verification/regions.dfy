/**
 * The regions connected-component labelling is meant to find: maximal sets of non-black pixels
 * of one exact colour joined by edge-adjacent (4-connected) steps. `Linked(img, k, p, q)` is
 * that relation restricted to the pixels a row-major scan has visited before position `k`.
 */
module Regions {
  import opened Hex
  import opened Raster

  /** A pixel that labelling keeps: inside the image and not pure black (alpha is not read). */
  predicate Member(img: Image, p: Point) {
    ValidImage(img) && InImage(img, p) && At(img, p) != Rgb(0, 0, 0)
  }

  /** `p` and `q` share an edge. */
  predicate Adjacent(p: Point, q: Point) {
    || (p.x == q.x && (p.y == q.y + 1 || q.y == p.y + 1))
    || (p.y == q.y && (p.x == q.x + 1 || q.x == p.x + 1))
  }

  /** A walk of edge-adjacent member pixels of one colour, all visited before position `k`. */
  ghost predicate IsPath(img: Image, k: int, path: seq<Point>) {
    && 0 < |path|
    && Member(img, path[0])
    && (forall j :: 0 <= j < |path| ==>
          Member(img, path[j]) && Position(img, path[j]) < k && At(img, path[j]) == At(img, path[0]))
    && (forall j :: 0 <= j < |path| - 1 ==> Adjacent(path[j], path[j + 1]))
  }

  /** Some walk of visited same-colour member pixels leads from `p` to `q`. */
  ghost predicate Linked(img: Image, k: int, p: Point, q: Point) {
    exists path :: IsPath(img, k, path) && path[0] == p && path[|path| - 1] == q
  }

  /** `p` and `q` lie in one 4-connected same-colour non-black region of the whole image. */
  ghost predicate Connected(img: Image, p: Point, q: Point) {
    Linked(img, img.width * img.height, p, q)
  }

  lemma LinkedRefl(img: Image, k: int, p: Point)
    requires Member(img, p) && Position(img, p) < k
    ensures Linked(img, k, p, p)
  {
    assert IsPath(img, k, [p]);
  }

  lemma LinkedEdge(img: Image, k: int, p: Point, q: Point)
    requires Member(img, p) && Position(img, p) < k
    requires Member(img, q) && Position(img, q) < k
    requires Adjacent(p, q) && At(img, p) == At(img, q)
    ensures Linked(img, k, p, q)
  {
    assert IsPath(img, k, [p, q]);
  }

  /** Linked pixels are members of one colour. */
  lemma LinkedSameColor(img: Image, k: int, p: Point, q: Point)
    requires Linked(img, k, p, q)
    ensures Member(img, p) && Member(img, q)
    ensures Position(img, p) < k && Position(img, q) < k
    ensures At(img, p) == At(img, q)
  {
    var path :| IsPath(img, k, path) && path[0] == p && path[|path| - 1] == q;
    assert Member(img, path[|path| - 1]);
  }

  function Reverse(s: seq<Point>): (r: seq<Point>)
    ensures |r| == |s| && forall i :: 0 <= i < |s| ==> r[i] == s[|s| - 1 - i]
  {
    seq(|s|, i requires 0 <= i < |s| => s[|s| - 1 - i])
  }

  lemma LinkedSym(img: Image, k: int, p: Point, q: Point)
    requires Linked(img, k, p, q)
    ensures Linked(img, k, q, p)
  {
    var path :| IsPath(img, k, path) && path[0] == p && path[|path| - 1] == q;
    var back := Reverse(path);
    assert At(img, path[|path| - 1]) == At(img, path[0]);
    forall j | 0 <= j < |back| - 1
      ensures Adjacent(back[j], back[j + 1])
    {
      assert Adjacent(path[|path| - 2 - j], path[|path| - 1 - j]);
    }
    assert IsPath(img, k, back);
  }

  lemma LinkedTrans(img: Image, k: int, p: Point, q: Point, r: Point)
    requires Linked(img, k, p, q) && Linked(img, k, q, r)
    ensures Linked(img, k, p, r)
  {
    var one :| IsPath(img, k, one) && one[0] == p && one[|one| - 1] == q;
    var two :| IsPath(img, k, two) && two[0] == q && two[|two| - 1] == r;
    var path := one + two[1..];
    assert At(img, two[0]) == At(img, one[|one| - 1]) == At(img, one[0]);
    forall j | 0 <= j < |path|
      ensures Member(img, path[j]) && Position(img, path[j]) < k && At(img, path[j]) == At(img, path[0])
    {
      if j >= |one| {
        assert path[j] == two[j - |one| + 1];
      }
    }
    forall j | 0 <= j < |path| - 1
      ensures Adjacent(path[j], path[j + 1])
    {
      if j == |one| - 1 {
        assert path[j] == two[0] && path[j + 1] == two[1];
      } else if j >= |one| {
        assert path[j] == two[j - |one| + 1] && path[j + 1] == two[j - |one| + 2];
      }
    }
    assert IsPath(img, k, path);
    if |two| == 1 {
      assert path == one;
    } else {
      assert path[|path| - 1] == two[|two| - 1];
    }
  }

  /** A walk among the pixels visited before `k` is one among those visited before any later `k'`. */
  lemma LinkedMono(img: Image, k: int, k': int, p: Point, q: Point)
    requires Linked(img, k, p, q) && k <= k'
    ensures Linked(img, k', p, q)
  {
    var path :| IsPath(img, k, path) && path[0] == p && path[|path| - 1] == q;
    assert IsPath(img, k', path);
  }
}
