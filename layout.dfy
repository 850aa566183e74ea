/**
 * The left-to-right packing performed by `find_or_create_by_image_map` on a cache miss:
 * every image of the (insertion-ordered) image map is decoded, placed at the running
 * total width with y = 0, and the canvas grows to the sum of the widths and the
 * maximum of the heights.
 */
module SpriteLayout {

  type Identifier = string
  type Path = string

  /** A size the image decoder can report: a decoded image has at least one pixel each way. */
  type Pos = n: nat | n > 0 witness 1

  /** What the image decoder reports for one source image: its columns and rows. */
  datatype Dims = Dims(columns: Pos, rows: Pos)

  /** One entry of the `positions` hash. */
  datatype Placement = Placement(x: nat, y: nat, width: nat, height: nat)

  /** An insertion-ordered hash from identifier to image path. */
  type ImageMap = seq<(Identifier, Path)>

  /** An insertion-ordered hash from identifier to placement. */
  type Positions = seq<(Identifier, Placement)>

  /** A hash never holds the same key twice. */
  predicate DistinctKeys<V>(m: seq<(Identifier, V)>)
  {
    forall i, j :: 0 <= i < j < |m| ==> m[i].0 != m[j].0
  }

  /** The keys of an ordered hash, in iteration order. */
  function Keys<V>(m: seq<(Identifier, V)>): (ks: seq<Identifier>)
    ensures |ks| == |m|
    ensures forall i :: 0 <= i < |m| ==> ks[i] == m[i].0
  {
    seq(|m|, i requires 0 <= i < |m| => m[i].0)
  }

  /** The dimensions the decoder yields for each entry, in iteration order. */
  function Decoded(m: ImageMap, decode: Path -> Dims): (ds: seq<Dims>)
    ensures |ds| == |m|
    ensures forall i :: 0 <= i < |m| ==> ds[i] == decode(m[i].1)
  {
    seq(|m|, i requires 0 <= i < |m| => decode(m[i].1))
  }

  /** Sum of the widths of `ds`. */
  function TotalWidth(ds: seq<Dims>): nat
  {
    if |ds| == 0 then 0 else TotalWidth(ds[..|ds| - 1]) + ds[|ds| - 1].columns
  }

  /** Maximum of the heights of `ds`, 0 when there is none. */
  function MaxHeight(ds: seq<Dims>): nat
  {
    if |ds| == 0 then 0
    else
      var h := MaxHeight(ds[..|ds| - 1]);
      if h < ds[|ds| - 1].rows then ds[|ds| - 1].rows else h
  }

  /** Where the `i`-th image goes: after all the images before it, on the top edge. */
  function PlacementAt(ds: seq<Dims>, i: nat): (p: Placement)
    requires i < |ds|
    ensures p.y == 0 && p.width == ds[i].columns && p.height == ds[i].rows
  {
    Placement(TotalWidth(ds[..i]), 0, ds[i].columns, ds[i].rows)
  }

  /** The `positions` hash the fold builds. */
  function Layout(m: ImageMap, decode: Path -> Dims): (ps: Positions)
    ensures |ps| == |m| && Keys(ps) == Keys(m)
    ensures forall i :: 0 <= i < |m| ==>
      ps[i].1.y == 0 && ps[i].1.width == decode(m[i].1).columns && ps[i].1.height == decode(m[i].1).rows
  {
    var ds := Decoded(m, decode);
    seq(|m|, i requires 0 <= i < |m| => (m[i].0, PlacementAt(ds, i)))
  }

  /**
   * The fold itself: decodes every image once, in order, and accumulates the
   * positions hash, the running total width and the running maximum height.
   */
  method LayoutImages(imageMap: ImageMap, decode: Path -> Dims)
    returns (positions: Positions, totalWidth: nat, totalHeight: nat, decoded: nat)
    ensures positions == Layout(imageMap, decode)
    ensures totalWidth == TotalWidth(Decoded(imageMap, decode))
    ensures totalHeight == MaxHeight(Decoded(imageMap, decode))
    ensures decoded == |imageMap|
  {
    ghost var ds := Decoded(imageMap, decode);
    totalWidth, totalHeight := 0, 0;
    positions := [];
    decoded := 0;
    var i := 0;
    while i < |imageMap|
      invariant i <= |imageMap| && decoded == i && |positions| == i
      invariant forall k :: 0 <= k < i ==> positions[k] == (imageMap[k].0, PlacementAt(ds, k))
      invariant totalWidth == TotalWidth(ds[..i])
      invariant totalHeight == MaxHeight(ds[..i])
    {
      var (identifier, path) := imageMap[i];
      var image := decode(path);
      decoded := decoded + 1;
      positions := positions + [(identifier, Placement(totalWidth, 0, image.columns, image.rows))];
      assert ds[..i + 1][..i] == ds[..i];
      totalWidth := totalWidth + image.columns;
      totalHeight := if totalHeight < image.rows then image.rows else totalHeight;
      i := i + 1;
    }
    assert ds[..i] == ds;
  }

  /** Widths of a longer prefix add up to at least those of a shorter one. */
  lemma {:induction false} TotalWidthMonotone(ds: seq<Dims>, a: nat, b: nat)
    requires a <= b <= |ds|
    ensures TotalWidth(ds[..a]) <= TotalWidth(ds[..b])
  {
    if a < b {
      TotalWidthMonotone(ds, a, b - 1);
      assert ds[..b][..b - 1] == ds[..b - 1];
    }
  }

  /** The next placement starts exactly where the previous one ends; the first starts at 0. */
  lemma LayoutContiguous(m: ImageMap, decode: Path -> Dims)
    ensures |m| > 0 ==> Layout(m, decode)[0].1.x == 0
    ensures forall i :: 0 < i < |m| ==>
      Layout(m, decode)[i].1.x == Layout(m, decode)[i - 1].1.x + Layout(m, decode)[i - 1].1.width
  {
    var ds := Decoded(m, decode);
    forall i | 0 < i < |m|
      ensures Layout(m, decode)[i].1.x == Layout(m, decode)[i - 1].1.x + Layout(m, decode)[i - 1].1.width
    {
      assert ds[..i][..i - 1] == ds[..i - 1];
    }
  }

  /** Each x is the sum of the widths of all images before it. */
  lemma LayoutXIsPrefixSum(m: ImageMap, decode: Path -> Dims, i: nat)
    requires i < |m|
    ensures Layout(m, decode)[i].1.x == TotalWidth(Decoded(m[..i], decode))
  {
    assert Decoded(m[..i], decode) == Decoded(m, decode)[..i];
  }

  /** The horizontal ranges [x, x + width) of two different placements never overlap. */
  lemma LayoutDisjoint(m: ImageMap, decode: Path -> Dims, i: nat, j: nat)
    requires i < |m| && j < |m| && i != j
    ensures var ps := Layout(m, decode);
      ps[i].1.x + ps[i].1.width <= ps[j].1.x || ps[j].1.x + ps[j].1.width <= ps[i].1.x
  {
    var ds := Decoded(m, decode);
    if i < j {
      TotalWidthMonotone(ds, i + 1, j);
      assert ds[..i + 1][..i] == ds[..i];
    } else {
      TotalWidthMonotone(ds, j + 1, i);
      assert ds[..j + 1][..j] == ds[..j];
    }
  }

  /** The heights' maximum bounds every height and is one of them (0 for no images). */
  lemma {:induction false} MaxHeightIsMaximum(ds: seq<Dims>)
    ensures forall i :: 0 <= i < |ds| ==> ds[i].rows <= MaxHeight(ds)
    ensures |ds| == 0 ==> MaxHeight(ds) == 0
    ensures |ds| > 0 ==> exists i :: 0 <= i < |ds| && ds[i].rows == MaxHeight(ds)
  {
    if |ds| > 0 {
      var init := ds[..|ds| - 1];
      MaxHeightIsMaximum(init);
      assert forall i :: 0 <= i < |init| ==> init[i] == ds[i];
      if |init| > 0 {
        var k :| 0 <= k < |init| && init[k].rows == MaxHeight(init);
        assert ds[k].rows == MaxHeight(init);
      }
    }
  }

  /**
   * Every placement lies inside the canvas of size (total width, maximum height)
   * allocated for compositing, and the last one reaches its right edge.
   */
  lemma LayoutWithinCanvas(m: ImageMap, decode: Path -> Dims, i: nat)
    requires i < |m|
    ensures var ds := Decoded(m, decode); var p := Layout(m, decode)[i].1;
      p.x + p.width <= TotalWidth(ds) && p.y + p.height <= MaxHeight(ds)
    ensures var ds := Decoded(m, decode); var p := Layout(m, decode)[i].1;
      i == |m| - 1 ==> p.x + p.width == TotalWidth(ds)
  {
    var ds := Decoded(m, decode);
    TotalWidthMonotone(ds, i + 1, |ds|);
    assert ds[..i + 1][..i] == ds[..i];
    assert ds[..|ds|] == ds;
    MaxHeightIsMaximum(ds);
  }

  /** A non-empty image map yields a canvas of at least one pixel each way. */
  lemma NonEmptyCanvas(m: ImageMap, decode: Path -> Dims)
    requires |m| > 0
    ensures TotalWidth(Decoded(m, decode)) > 0 && MaxHeight(Decoded(m, decode)) > 0
  {
    LayoutWithinCanvas(m, decode, 0);
  }

  /** An empty image map yields an empty positions hash and a 0 x 0 canvas. */
  lemma EmptyLayout(decode: Path -> Dims)
    ensures Layout([], decode) == []
    ensures TotalWidth(Decoded([], decode)) == 0 && MaxHeight(Decoded([], decode)) == 0
  {
  }

  /** The worked example: a 10x5, b 20x8, c 5x5. */
  lemma ThreeImageExample(decode: Path -> Dims)
    requires decode("a.png") == Dims(10, 5) && decode("b.png") == Dims(20, 8) && decode("c.png") == Dims(5, 5)
    ensures var m := [("a", "a.png"), ("b", "b.png"), ("c", "c.png")];
      Layout(m, decode) == [("a", Placement(0, 0, 10, 5)), ("b", Placement(10, 0, 20, 8)), ("c", Placement(30, 0, 5, 5))]
      && TotalWidth(Decoded(m, decode)) == 35 && MaxHeight(Decoded(m, decode)) == 8
  {
    var m := [("a", "a.png"), ("b", "b.png"), ("c", "c.png")];
    var ds := Decoded(m, decode);
    assert ds[0] == Dims(10, 5) && ds[1] == Dims(20, 8) && ds[2] == Dims(5, 5);
    assert ds[..1] == [ds[0]] && ds[..1][..0] == [];
    assert ds[..2] == [ds[0], ds[1]] && ds[..2][..1] == ds[..1];
    assert ds[..3] == ds && ds[..2] == ds[..3][..2];
    assert TotalWidth(ds[..1]) == 10 && MaxHeight(ds[..1]) == 5;
    assert TotalWidth(ds[..2]) == 30 && MaxHeight(ds[..2]) == 8;
    assert TotalWidth(ds) == 35 && MaxHeight(ds) == 8;
  }
}
