# Palette swap, modelled in Dafny

This project models the colour-substitution engine of `palette_swap.py`. The
engine recolours a pixel-art image from one palette to another in three steps:

1. **Catalog** (`get_im_data`). It scans an image's pixel data and lists each
   distinct colour once, in the order the scan first meets it.
2. **Colour map** (`get_color_map`). It pairs the i-th old colour with the
   i-th new colour. Old colours past the end of the new list map to
   themselves. Extra new colours are ignored.
3. **Pixel loop** (the body of `swap_colors`). It starts from a fully
   transparent image of the same size. Then it writes the mapped colour of
   every original pixel at the same coordinates. If a pixel's colour is not a
   key of the map, the dictionary lookup fails and no image is returned.

Modules, one per component:

- `Colors` (`colors.dfy`): an RGBA colour made of four 8-bit channels, compared
  exactly. This module also holds duplicate-freedom and first-occurrence
  position.
- `Raster` (`image.dfy`): an image as a width, a height and rows of colours,
  where the pixel at (x, y) is `rows[y][x]`. `PixelData` is the row-major scan
  that Pillow's `getdata` performs.
- `ColorCatalog` (`catalog.dfy`): `get_im_data`, both as a recursive function
  and as the append loop of `get_im_data`.
- `ColorMap` (`color_map.dfy`): `get_color_map`, both as a recursive function
  and as the assignment loop of `get_color_map`. When the old list repeats a colour, a
  later assignment overwrites an earlier one.
- `Transform` (`transform.dfy`): the pixel loop, which iterates over columns
  and then over rows within a column. It fails with `UnmappedColor` (the
  `KeyError`) at the first unmapped pixel in that order.
- `PaletteSwap` (`palette_swap.dfy`): the whole swap, plus two small worked
  scenarios.
- `Wrappers` (`wrappers.dfy`): the `Result` type used for the failing lookup.

## Model

| member | source | states |
|---|---|---|
| ColorCatalog.Catalog | palette_swap.py:22-26 | the catalog has no repeated colour, contains exactly the colours of the scan, and is no longer than the scan (so an empty scan gives an empty catalog) |
| ColorCatalog.CatalogIsFirstOccurrenceOrdered | palette_swap.py:23-25 | if colour a comes before colour b in the catalog, then a first occurs in the scan before b first occurs |
| ColorCatalog.CatalogIsUnique | palette_swap.py:22-26 | the catalog is the only listing of the scan's colours in first-occurrence order (independent characterisation) |
| ColorCatalog.CatalogOfDistinct | palette_swap.py:22-26 | a scan with no repeated colour is its own catalog |
| ColorCatalog.CatalogIsIdempotent | palette_swap.py:22-26 | scanning a catalog again gives the same catalog |
| ColorCatalog.CatalogCountsDistinctColors | palette_swap.py:22-26 | the catalog's length is the number of distinct colours in the scan |
| ColorCatalog.ExtractColors | palette_swap.py:22-26 | the append-if-absent loop returns the catalog: no duplicates and the same colours as the scan |
| ColorMap.BuildMap | palette_swap.py:90-107 | the map's keys are exactly the old colours (so an empty old list gives an empty map) |
| ColorMap.LastAssignmentWins | palette_swap.py:96-105 | each key holds the value assigned at its last position in the old list |
| ColorMap.PositionalPairing | palette_swap.py:103-105 | with distinct old colours, old[i] maps to new[i] for every i below both lengths |
| ColorMap.IdentityFallback | palette_swap.py:97-102 | old[i] maps to itself for every i at or past the length of the new list, even if old colours repeat |
| ColorMap.SurplusNewColorsIgnored | palette_swap.py:95-105 | new colours past the length of the old list do not change the map |
| ColorMap.SelfMapIsIdentity | palette_swap.py:95-105 | pairing a list with itself maps every key to itself |
| ColorMap.ClosedForm | palette_swap.py:84-107 | with distinct old colours, the map equals the comprehension "each old colour maps to the target at its position" |
| ColorMap.BuildColorMap | palette_swap.py:90-107 | the assignment loop of `get_color_map` produces the map above, keyed by exactly the old colours |
| Raster.PixelData | palette_swap.py:23 | a colour occurs in the scan exactly when it is the colour of some pixel |
| Raster.PixelDataRowMajor | palette_swap.py:23 | the scan holds width × height colours, and pixel (x, y) is at position y × width + x |
| Transform.Recolor | palette_swap.py:120 | recolouring a valid image gives a valid image of the same width and height |
| Transform.RecolorIsLocal | palette_swap.py:128-130 | an output pixel depends only on the input pixel at the same coordinates |
| Transform.RecolorByIdentity | palette_swap.py:128-130 | recolouring with a map that sends each key to itself reproduces the image |
| Transform.TransformPixels | palette_swap.py:119-132 | the loop succeeds exactly when every pixel colour is a key. On success the output is the same size and each pixel (x, y) is the map's value for the original pixel (x, y), whatever the visiting order. On failure it names a pixel whose colour is missing, and every pixel visited before it is mapped |
| PaletteSwap.MapFromCoveringListCovers | palette_swap.py:123-130 | a map built from any old list that holds every pixel colour has a key for every pixel |
| PaletteSwap.CatalogMapCovers | palette_swap.py:116-130 | a map built from the image's own catalog has a key for every pixel, so the lookup cannot fail |
| PaletteSwap.SwappedImage | palette_swap.py:109-132 | the swapped image is the same size as the original. A pixel whose colour is the k-th distinct colour of the original becomes the palette's k-th distinct colour, or keeps its colour if the palette has no k-th colour |
| PaletteSwap.SwapToOwnPaletteIsIdentity | palette_swap.py:109-132 | swapping an image to its own palette reproduces it pixel for pixel |
| PaletteSwap.SwapColors | palette_swap.py:114-132 | the model's sequence (catalog of the original, catalog of the palette, colour map, pixel loop) always succeeds and returns the swapped image |
| PaletteSwap.TwoPixelCatalog | palette_swap.py:22-26 | the catalog of a red, green strip is [red, green] |
| PaletteSwap.TwoPixelMap | palette_swap.py:95-107 | with old colours [red, green] and new colours [blue], red maps to blue and green maps to itself |
| PaletteSwap.TwoPixelScenario | palette_swap.py:109-132 | a red, green 2 × 1 image swapped to a blue palette becomes blue, green |
| PaletteSwap.EmptyImageScenario | palette_swap.py:109-132 | a 0 × 0 image gives an empty catalog, an empty map and a 0 × 0 output |

## Left out

- `swap_colors` does not read the old colours from the original directly. It
  draws the original's colours into a 300 × 200 strip image with
  `make_palette` and scans that strip (palette_swap.py:114-116). This model
  uses the catalog of the original itself. Strip rendering depends on
  Pillow's rasterisation and is not modelled. For 1 to 300 colours the
  substitution does not change the result:
  - Each colour keeps a column of the strip, in catalog order.
  - The scan of the strip's first row therefore meets the colours in catalog
    order.
  - The only possible extra entry is the strip's background colour, and it
    comes at the end. It is added only when it is not already a pixel colour
    of the original.
  - The map's one extra key is therefore never looked up, and the output is
    the same.

  For more than 300 colours the strip loses colours (see the next line).
- PaletteSwap.SwapColors: proves that the swap always succeeds, which
  `swap_colors` does not promise. For an original with no pixels,
  `make_palette` divides 300 by a colour count of 0 (palette_swap.py:48,
  reached from :114) and raises ZeroDivisionError. For an original with more
  than 300 colours, the strip width computes to 0, so every strip is drawn over
  column 0. The scanned strip (:116) then holds at most two colours, so the
  map built at :123 lacks most of the image's colours, and the lookup at :130
  raises KeyError. The model takes its old colours from the original itself,
  so neither failure occurs in it.
- PaletteSwap.EmptyImageScenario: a 0 × 0 original gives a 0 × 0 output in the
  model. `swap_colors` instead raises ZeroDivisionError inside `make_palette`
  (palette_swap.py:48, reached from :114), because the strip width is 300
  divided by 0 colours.
- The new colours are the catalog of the palette image's pixel data
  (palette_swap.py:117). Building that image (`load_palette_file` and
  `make_palette`, palette_swap.py:28-82) is file reading, integer parsing and
  drawing, and is not modelled. In particular the "new palette" text overlay
  that `load_palette_file` draws is not modelled.
- Image decoding, saving and display (`Image.open`, `save`, `show`) are left
  out, and so are argument parsing and `main` (palette_swap.py:134-199). They
  are I/O.
- All `print` diagnostics are left out. They do not affect any result.
- Image modes other than RGBA are left out. Every colour is a four-channel
  RGBA value. In `palette_swap.py`, an RGB original yields three-channel
  tuples. P-mode and L-mode originals yield plain integers from `getdata` and
  `load()` (palette_swap.py:23, 125, 130).
- The docstring and comment of `get_im_data` (palette_swap.py:14-19) describe a
  dictionary of occurrence counts. The code (palette_swap.py:22-26) returns a
  list of distinct colours, and the model follows the code.
- The error value: the `KeyError` of `swap_colors` carries only the missing
  colour. The model's error also carries the coordinates where the loop
  stopped.
