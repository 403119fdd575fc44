/**
 * The palette swap end to end (palette_swap.py, swap_colors): the colours of
 * the original image, in scan order, are paired with the colours of the new
 * palette image, in scan order, and every pixel of the original is replaced
 * by its partner.
 */
module PaletteSwap {
  import opened Colors
  import opened Raster
  import opened ColorCatalog
  import opened ColorMap
  import opened Transform
  import opened Wrappers

  /** A map built from any list holding every pixel colour of `img` has a key for each pixel. */
  lemma MapFromCoveringListCovers(img: Image, oldColors: seq<Color>, newColors: seq<Color>)
    requires img.Valid()
    requires forall y, x :: 0 <= y < img.height && 0 <= x < img.width ==> img.rows[y][x] in oldColors
    ensures Covers(BuildMap(oldColors, newColors), img)
  {
  }

  /** A map built from the image's own catalog has a key for each of its pixels. */
  lemma CatalogMapCovers(img: Image, newColors: seq<Color>)
    requires img.Valid()
    ensures Covers(BuildMap(Catalog(PixelData(img.rows)), newColors), img)
  {
    var oldColors := Catalog(PixelData(img.rows));
    forall y, x | 0 <= y < img.height && 0 <= x < img.width
      ensures img.rows[y][x] in oldColors
    {
      assert img.rows[y][x] in PixelData(img.rows);
    }
    MapFromCoveringListCovers(img, oldColors, newColors);
  }

  /**
   * The swapped image: a pixel whose colour is the k-th distinct colour of
   * the original's scan becomes the k-th distinct colour of the palette's
   * scan, or keeps its colour when the palette has fewer than k + 1 colours.
   */
  function SwappedImage(original: Image, palette: Image): (out: Image)
    requires original.Valid()
    ensures out.Valid() && out.SameSize(original)
    ensures
      var oldColors := Catalog(PixelData(original.rows));
      var newColors := Catalog(PixelData(palette.rows));
      forall y, x :: 0 <= y < original.height && 0 <= x < original.width ==>
        var c := original.rows[y][x];
        c in oldColors &&
        out.rows[y][x] == if FirstIndex(oldColors, c) < |newColors| then newColors[FirstIndex(oldColors, c)] else c
  {
    var oldColors := Catalog(PixelData(original.rows));
    var newColors := Catalog(PixelData(palette.rows));
    var colorMap := BuildMap(oldColors, newColors);
    CatalogMapCovers(original, newColors);
    var out := Recolor(original, colorMap);
    assert forall y, x :: 0 <= y < original.height && 0 <= x < original.width ==>
      var c := original.rows[y][x];
      c in oldColors &&
      out.rows[y][x] == if FirstIndex(oldColors, c) < |newColors| then newColors[FirstIndex(oldColors, c)] else c
    by {
      forall y, x | 0 <= y < original.height && 0 <= x < original.width
        ensures original.rows[y][x] in oldColors
        ensures var c := original.rows[y][x];
          out.rows[y][x] == if FirstIndex(oldColors, c) < |newColors| then newColors[FirstIndex(oldColors, c)] else c
      {
        var c := original.rows[y][x];
        var k := FirstIndex(oldColors, c);
        RecolorIsPointwise(original, colorMap, x, y);
        if k < |newColors| {
          PositionalPairing(oldColors, newColors, k);
        } else {
          IdentityFallback(oldColors, newColors, k);
        }
      }
    }
    out
  }

  /** Swapping an image to its own palette reproduces it pixel for pixel. */
  lemma SwapToOwnPaletteIsIdentity(img: Image)
    requires img.Valid()
    ensures SwappedImage(img, img) == img
  {
    var colors := Catalog(PixelData(img.rows));
    CatalogMapCovers(img, colors);
    SelfMapIsIdentity(colors);
    RecolorByIdentity(img, BuildMap(colors, colors));
  }

  /**
   * The model's swap: the old colours are the original's own catalog (where
   * `swap_colors` scans a strip drawn from the original instead), the new
   * colours are the palette's catalog, then come the colour map and the pixel
   * loop. In this model the map has a key for every pixel of the original,
   * so the swap never fails.
   */
  method SwapColors(original: Image, palette: Image) returns (r: Result<Image, UnmappedColor>)
    requires original.Valid()
    ensures r == Success(SwappedImage(original, palette))
  {
    var oldColors := ExtractColors(PixelData(original.rows));
    var newColors := ExtractColors(PixelData(palette.rows));
    var colorMap := BuildColorMap(oldColors, newColors);
    CatalogMapCovers(original, newColors);
    r := TransformPixels(original, colorMap);
  }

  const Red: Color := Color(255, 0, 0, 255)
  const Green: Color := Color(0, 255, 0, 255)
  const Blue: Color := Color(0, 0, 255, 255)

  /** The catalog of a red, green image lists red then green. */
  lemma TwoPixelCatalog()
    ensures Catalog(PixelData([[Red, Green]])) == [Red, Green]
  {
    assert PixelData([[Red, Green]]) == [Red, Green];
    assert [Red, Green][..1] == [Red];
    assert Catalog([Red]) == [Red];
  }

  /** Red pairs with blue; green, with no partner, maps to itself. */
  lemma TwoPixelMap()
    ensures BuildMap([Red, Green], [Blue]) == map[Red := Blue, Green := Green]
  {
    assert [Red, Green][..1] == [Red];
  }

  /**
   * A 2 by 1 image of red then green, swapped to a one-colour blue palette,
   * becomes blue then green.
   */
  lemma TwoPixelScenario()
    ensures SwappedImage(Image(2, 1, [[Red, Green]]), Image(1, 1, [[Blue]])) == Image(2, 1, [[Blue, Green]])
  {
    var original := Image(2, 1, [[Red, Green]]);
    var palette := Image(1, 1, [[Blue]]);
    var colorMap := map[Red := Blue, Green := Green];
    assert BuildMap(Catalog(PixelData(original.rows)), Catalog(PixelData(palette.rows))) == colorMap by {
      TwoPixelCatalog();
      TwoPixelMap();
      assert PixelData(palette.rows) == [Blue];
      assert Catalog([Blue]) == [Blue];
    }
    CatalogMapCovers(original, [Blue]);
    var out := Recolor(original, colorMap);
    assert SwappedImage(original, palette) == out;
    RecolorIsPointwise(original, colorMap, 0, 0);
    RecolorIsPointwise(original, colorMap, 1, 0);
    assert out.rows[0] == [Blue, Green];
  }

  /** An empty image has an empty catalog and map, and swaps to an empty image. */
  lemma EmptyImageScenario(palette: Image)
    ensures
      var empty := Image(0, 0, []);
      && Catalog(PixelData(empty.rows)) == []
      && BuildMap([], Catalog(PixelData(palette.rows))) == map[]
      && SwappedImage(empty, palette) == empty
  {
  }
}
