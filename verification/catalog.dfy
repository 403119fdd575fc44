/**
 * The colour catalog of an image: its distinct colours in the order in which
 * a scan of the pixel data first meets them (palette_swap.py, get_im_data).
 */
module ColorCatalog {
  import opened Colors

  /**
   * The distinct colours of `pixels`, built as `get_im_data` builds them: walk the
   * pixels in order and append each colour not already recorded.
   */
  function Catalog(pixels: seq<Color>): (present: seq<Color>)
    ensures NoDuplicates(present)
    ensures forall c :: c in present <==> c in pixels
    ensures |present| <= |pixels|
    decreases |pixels|
  {
    if |pixels| == 0 then []
    else
      var seen := Catalog(pixels[..|pixels| - 1]);
      var c := pixels[|pixels| - 1];
      if c in seen then seen else seen + [c]
  }

  /**
   * Every colour of `present` occurs in `pixels`, and the colours of `present`
   * are listed in increasing order of their first occurrence in `pixels`.
   */
  predicate FirstOccurrenceOrdered(present: seq<Color>, pixels: seq<Color>)
  {
    && (forall c :: c in present ==> c in pixels)
    && forall i, j :: 0 <= i < j < |present| ==> FirstIndex(pixels, present[i]) < FirstIndex(pixels, present[j])
  }

  /** The catalog lists colours in first-occurrence order of the scan. */
  lemma {:induction false} CatalogIsFirstOccurrenceOrdered(pixels: seq<Color>)
    ensures FirstOccurrenceOrdered(Catalog(pixels), pixels)
    decreases |pixels|
  {
    if |pixels| > 0 {
      var n := |pixels| - 1;
      var prefix := pixels[..n];
      var c := pixels[n];
      var seen := Catalog(prefix);
      CatalogIsFirstOccurrenceOrdered(prefix);
      assert pixels == prefix + [c];
      forall x | x in prefix
        ensures FirstIndex(pixels, x) == FirstIndex(prefix, x)
      {
        FirstIndexOfPrefix(prefix, c, x);
      }
      if c !in seen {
        FirstIndexIsUnique(pixels, c, n);
        var present := seen + [c];
        forall i, j | 0 <= i < j < |present|
          ensures FirstIndex(pixels, present[i]) < FirstIndex(pixels, present[j])
        {
          if j < |seen| {
            assert present[i] == seen[i] && present[j] == seen[j];
          } else {
            assert present[i] in prefix;
          }
        }
      }
    }
  }

  /**
   * The catalog is the only duplicate-free listing of the scanned colours in
   * first-occurrence order: any other such listing equals it.
   */
  lemma CatalogIsUnique(pixels: seq<Color>, listing: seq<Color>)
    requires forall c :: c in listing <==> c in pixels
    requires FirstOccurrenceOrdered(listing, pixels)
    ensures listing == Catalog(pixels)
  {
    CatalogIsFirstOccurrenceOrdered(pixels);
    OrderedListingsAgree(pixels, listing, Catalog(pixels));
  }

  /** Two listings of the same colours, both in first-occurrence order, are equal. */
  lemma {:induction false} OrderedListingsAgree(pixels: seq<Color>, t: seq<Color>, u: seq<Color>)
    requires forall c :: c in t <==> c in u
    requires FirstOccurrenceOrdered(t, pixels)
    requires FirstOccurrenceOrdered(u, pixels)
    ensures t == u
    decreases |t|
  {
    if |t| == 0 {
      DistinctCardinality(t);
      DistinctCardinality(u);
      assert (set c | c in t) == (set c | c in u);
    } else {
      assert t[0] in u;
      OrderedHeadsAgree(pixels, t, u);
      OrderedTail(pixels, t);
      OrderedTail(pixels, u);
      forall c
        ensures c in t[1..] <==> c in u[1..]
      {
        OrderedTailMembership(pixels, t, c);
        OrderedTailMembership(pixels, u, c);
      }
      OrderedListingsAgree(pixels, t[1..], u[1..]);
      assert t == [t[0]] + t[1..];
      assert u == [u[0]] + u[1..];
    }
  }

  /** Two non-empty ordered listings of the same colours start with the same colour. */
  lemma OrderedHeadsAgree(pixels: seq<Color>, t: seq<Color>, u: seq<Color>)
    requires |t| > 0 && |u| > 0
    requires forall c :: c in t <==> c in u
    requires FirstOccurrenceOrdered(t, pixels)
    requires FirstOccurrenceOrdered(u, pixels)
    ensures t[0] == u[0]
  {
    assert t[0] in u && u[0] in t;
  }

  /** Dropping the head of an ordered listing keeps it ordered. */
  lemma OrderedTail(pixels: seq<Color>, t: seq<Color>)
    requires |t| > 0
    requires FirstOccurrenceOrdered(t, pixels)
    ensures FirstOccurrenceOrdered(t[1..], pixels)
  {
    forall i, j | 0 <= i < j < |t[1..]|
      ensures FirstIndex(pixels, t[1..][i]) < FirstIndex(pixels, t[1..][j])
    {
      assert t[1..][i] == t[i + 1] && t[1..][j] == t[j + 1];
    }
  }

  /** The tail of an ordered listing holds exactly its colours other than the head. */
  lemma OrderedTailMembership(pixels: seq<Color>, t: seq<Color>, c: Color)
    requires |t| > 0
    requires FirstOccurrenceOrdered(t, pixels)
    ensures c in t[1..] <==> c in t && c != t[0]
  {
    if c in t[1..] {
      var i :| 0 <= i < |t[1..]| && t[1..][i] == c;
      assert t[i + 1] == c;
      assert FirstIndex(pixels, t[0]) < FirstIndex(pixels, t[i + 1]);
    }
    if c in t && c != t[0] {
      var k :| 0 <= k < |t| && t[k] == c;
      assert t[1..][k - 1] == c;
    }
  }

  /** A scan that meets no colour twice is its own catalog. */
  lemma {:induction false} CatalogOfDistinct(pixels: seq<Color>)
    requires NoDuplicates(pixels)
    ensures Catalog(pixels) == pixels
    decreases |pixels|
  {
    if |pixels| > 0 {
      var n := |pixels| - 1;
      CatalogOfDistinct(pixels[..n]);
      assert pixels[n] !in pixels[..n];
      assert pixels == pixels[..n] + [pixels[n]];
    }
  }

  /** Re-scanning a catalog changes nothing. */
  lemma CatalogIsIdempotent(pixels: seq<Color>)
    ensures Catalog(Catalog(pixels)) == Catalog(pixels)
  {
    CatalogOfDistinct(Catalog(pixels));
  }

  /** The catalog has exactly one entry per distinct colour of the scan. */
  lemma CatalogCountsDistinctColors(pixels: seq<Color>)
    ensures |Catalog(pixels)| == |set c | c in pixels|
  {
    var present := Catalog(pixels);
    DistinctCardinality(present);
    assert (set c | c in present) == (set c | c in pixels);
  }

  /** A duplicate-free sequence has as many elements as its set of colours. */
  lemma {:induction false} DistinctCardinality(s: seq<Color>)
    requires NoDuplicates(s)
    ensures |set c | c in s| == |s|
    decreases |s|
  {
    if |s| > 0 {
      var n := |s| - 1;
      DistinctCardinality(s[..n]);
      assert s[n] !in s[..n];
      assert (set c | c in s) == (set c | c in s[..n]) + {s[n]};
    }
  }

  /**
   * The scan loop of `get_im_data`, with the list it grows; it computes exactly
   * the catalog.
   */
  method ExtractColors(pixels: seq<Color>) returns (present: seq<Color>)
    ensures present == Catalog(pixels)
    ensures NoDuplicates(present)
    ensures forall c :: c in present <==> c in pixels
  {
    present := [];
    var i := 0;
    while i < |pixels|
      invariant 0 <= i <= |pixels|
      invariant present == Catalog(pixels[..i])
    {
      var color := pixels[i];
      assert pixels[..i + 1][..i] == pixels[..i];
      if color !in present {
        present := present + [color];
      }
      i := i + 1;
    }
    assert pixels[..i] == pixels;
  }
}
