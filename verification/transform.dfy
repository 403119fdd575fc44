/**
 * The pixel-substitution loop of the palette swap (palette_swap.py,
 * swap_colors): every pixel of a new, transparent image of the same size
 * receives the mapped colour of the pixel at the same coordinates, and a
 * colour with no entry in the map stops the whole swap.
 */
module Transform {
  import opened Colors
  import opened Raster
  import opened Wrappers

  /** The failed dictionary lookup: the coordinates and colour of the unmapped pixel. */
  datatype UnmappedColor = UnmappedColor(x: nat, y: nat, color: Color)

  /** Every pixel colour of `img` is a key of `colorMap`. */
  predicate Covers(colorMap: map<Color, Color>, img: Image)
    requires img.Valid()
  {
    forall y, x :: 0 <= y < img.height && 0 <= x < img.width ==> img.rows[y][x] in colorMap
  }

  /** The loop visits (x', y') before (x, y): columns in order, rows in order within a column. */
  predicate VisitedBefore(x': nat, y': nat, x: nat, y: nat)
  {
    x' < x || (x' == x && y' < y)
  }

  /** The image every pixel of which is replaced by its colour under `colorMap`. */
  function Recolor(img: Image, colorMap: map<Color, Color>): (out: Image)
    requires img.Valid() && Covers(colorMap, img)
    ensures out.Valid() && out.SameSize(img)
  {
    Image(img.width, img.height,
      seq(img.height, y requires 0 <= y < img.height =>
        seq(img.width, x requires 0 <= x < img.width => colorMap[img.rows[y][x]])))
  }

  /** Each output pixel of Recolor depends only on the input pixel at the same coordinates. */
  lemma RecolorIsPointwise(img: Image, colorMap: map<Color, Color>, x: nat, y: nat)
    requires img.Valid() && Covers(colorMap, img)
    requires x < img.width && y < img.height
    ensures Recolor(img, colorMap).rows[y][x] == colorMap[img.rows[y][x]]
  {
  }

  /** Two images that agree at a coordinate recolour to images that agree there too. */
  lemma RecolorIsLocal(a: Image, b: Image, colorMap: map<Color, Color>, x: nat, y: nat)
    requires a.Valid() && Covers(colorMap, a)
    requires b.Valid() && Covers(colorMap, b)
    requires x < a.width && y < a.height && x < b.width && y < b.height
    requires a.rows[y][x] == b.rows[y][x]
    ensures Recolor(a, colorMap).rows[y][x] == Recolor(b, colorMap).rows[y][x]
  {
    RecolorIsPointwise(a, colorMap, x, y);
    RecolorIsPointwise(b, colorMap, x, y);
  }

  /** Recolouring with a map that sends each of its keys to itself reproduces the image. */
  lemma RecolorByIdentity(img: Image, colorMap: map<Color, Color>)
    requires img.Valid() && Covers(colorMap, img)
    requires forall c :: c in colorMap ==> colorMap[c] == c
    ensures Recolor(img, colorMap) == img
  {
    var out := Recolor(img, colorMap);
    forall y | 0 <= y < img.height
      ensures out.rows[y] == img.rows[y]
    {
    }
  }

  /**
   * The loop of `swap_colors`: start from a fully transparent image of the same
   * size and, column by column, write the mapped colour of every pixel. A
   * pixel whose colour is not a key of the map ends the loop with the error,
   * and no image is returned.
   */
  method TransformPixels(original: Image, colorMap: map<Color, Color>) returns (r: Result<Image, UnmappedColor>)
    requires original.Valid()
    ensures r.Success? <==> Covers(colorMap, original)
    ensures r.Success? ==> r.value.Valid() && r.value.SameSize(original)
    ensures r.Success? ==> forall y, x :: 0 <= y < original.height && 0 <= x < original.width ==>
      r.value.rows[y][x] == colorMap[original.rows[y][x]]
    ensures r.Success? ==> r.value == Recolor(original, colorMap)
    ensures r.Failure? ==>
      var e := r.error;
      && e.x < original.width && e.y < original.height
      && e.color == original.rows[e.y][e.x] && e.color !in colorMap
      && forall y, x :: 0 <= y < original.height && 0 <= x < original.width && VisitedBefore(x, y, e.x, e.y) ==>
           original.rows[y][x] in colorMap
  {
    var w, h := original.width, original.height;
    var newData := Filled(w, h, Transparent).rows;
    for x := 0 to w
      invariant |newData| == h && forall y :: 0 <= y < h ==> |newData[y]| == w
      invariant forall y', x' :: 0 <= y' < h && 0 <= x' < x ==>
        original.rows[y'][x'] in colorMap && newData[y'][x'] == colorMap[original.rows[y'][x']]
    {
      for y := 0 to h
        invariant |newData| == h && forall y' :: 0 <= y' < h ==> |newData[y']| == w
        invariant forall y', x' :: 0 <= y' < h && 0 <= x' < x ==>
          original.rows[y'][x'] in colorMap && newData[y'][x'] == colorMap[original.rows[y'][x']]
        invariant forall y' :: 0 <= y' < y ==>
          original.rows[y'][x] in colorMap && newData[y'][x] == colorMap[original.rows[y'][x]]
      {
        var color := original.rows[y][x];
        if color !in colorMap {
          return Failure(UnmappedColor(x, y, color));
        }
        newData := newData[y := newData[y][x := colorMap[color]]];
      }
    }
    var out := Image(w, h, newData);
    assert out == Recolor(original, colorMap) by {
      var expected := Recolor(original, colorMap);
      forall y | 0 <= y < h
        ensures newData[y] == expected.rows[y]
      {
      }
    }
    r := Success(out);
  }
}
