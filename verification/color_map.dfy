/**
 * The colour map of the palette swap (palette_swap.py, get_color_map): the
 * i-th old colour is paired with the i-th new colour, and old colours past the
 * end of the new list keep their own colour.
 */
module ColorMap {
  import opened Colors

  /**
   * The colour `get_color_map` assigns at position `i` of the old list: the new
   * colour at the same position, or the old colour itself when `i` lies
   * beyond the last index of the new list.
   */
  function Target(oldColors: seq<Color>, newColors: seq<Color>, i: nat): Color
    requires i < |oldColors|
  {
    if i > |newColors| - 1 then oldColors[i] else newColors[i]
  }

  /**
   * The dictionary `get_color_map` builds by assigning, for each index of the old
   * list in increasing order, the old colour its target; a later assignment to
   * the same key overwrites an earlier one.
   */
  function BuildMap(oldColors: seq<Color>, newColors: seq<Color>): (colorMap: map<Color, Color>)
    ensures colorMap.Keys == set c | c in oldColors
    decreases |oldColors|
  {
    if |oldColors| == 0 then map[]
    else
      var k := |oldColors| - 1;
      BuildMap(oldColors[..k], newColors)[oldColors[k] := Target(oldColors, newColors, k)]
  }

  /** Index `i` is the last position of its colour in `s`. */
  predicate IsLastOccurrence(s: seq<Color>, i: nat)
    requires i < |s|
  {
    forall j :: i < j < |s| ==> s[j] != s[i]
  }

  /** Each key maps to the target of its last occurrence in the old list. */
  lemma {:induction false} LastAssignmentWins(oldColors: seq<Color>, newColors: seq<Color>, i: nat)
    requires i < |oldColors| && IsLastOccurrence(oldColors, i)
    ensures BuildMap(oldColors, newColors)[oldColors[i]] == Target(oldColors, newColors, i)
    decreases |oldColors|
  {
    var k := |oldColors| - 1;
    if i < k {
      var prefix := oldColors[..k];
      assert prefix[i] == oldColors[i];
      LastAssignmentWins(prefix, newColors, i);
    }
  }

  /** With a duplicate-free old list, the i-th old colour maps to the i-th new colour. */
  lemma PositionalPairing(oldColors: seq<Color>, newColors: seq<Color>, i: nat)
    requires NoDuplicates(oldColors)
    requires i < |oldColors| && i < |newColors|
    ensures BuildMap(oldColors, newColors)[oldColors[i]] == newColors[i]
  {
    LastAssignmentWins(oldColors, newColors, i);
  }

  /**
   * Old colours at or past the length of the new list map to themselves,
   * whether or not the old list repeats colours.
   */
  lemma IdentityFallback(oldColors: seq<Color>, newColors: seq<Color>, i: nat)
    requires |newColors| <= i < |oldColors|
    ensures BuildMap(oldColors, newColors)[oldColors[i]] == oldColors[i]
  {
    var last := LastIndexFrom(oldColors, i);
    LastAssignmentWins(oldColors, newColors, last);
  }

  /** The last position, at or after `i`, that holds the colour at `i`. */
  function LastIndexFrom(s: seq<Color>, i: nat): (last: nat)
    requires i < |s|
    ensures i <= last < |s| && s[last] == s[i]
    ensures IsLastOccurrence(s, last)
    decreases |s| - i
  {
    if exists j :: i < j < |s| && s[j] == s[i] then
      var j :| i < j < |s| && s[j] == s[i];
      LastIndexFrom(s, j)
    else i
  }

  /** New colours past the end of the old list play no part in the map. */
  lemma {:induction false} SurplusNewColorsIgnored(oldColors: seq<Color>, newColors: seq<Color>)
    requires |oldColors| <= |newColors|
    ensures BuildMap(oldColors, newColors) == BuildMap(oldColors, newColors[..|oldColors|])
    decreases |oldColors|
  {
    if |oldColors| > 0 {
      var k := |oldColors| - 1;
      SurplusNewColorsIgnored(oldColors[..k], newColors);
      assert newColors[..|oldColors|][..k] == newColors[..k];
      SurplusNewColorsIgnored(oldColors[..k], newColors[..|oldColors|]);
    }
  }

  /** Pairing a colour list with itself maps every key to itself. */
  lemma {:induction false} SelfMapIsIdentity(colors: seq<Color>)
    ensures forall c :: c in BuildMap(colors, colors) ==> BuildMap(colors, colors)[c] == c
    decreases |colors|
  {
    if |colors| > 0 {
      var k := |colors| - 1;
      var prefix := colors[..k];
      SelfMapIsIdentity(prefix);
      forall c | c in prefix
        ensures BuildMap(prefix, colors)[c] == BuildMap(prefix, prefix)[c]
      {
        var i :| 0 <= i < |prefix| && prefix[i] == c;
        var last := LastIndexFrom(prefix, i);
        LastAssignmentWins(prefix, colors, last);
        LastAssignmentWins(prefix, prefix, last);
      }
    }
  }

  /**
   * For a duplicate-free old list the map is, key by key, the target at that
   * key's position in the old list.
   */
  lemma ClosedForm(oldColors: seq<Color>, newColors: seq<Color>)
    requires NoDuplicates(oldColors)
    ensures BuildMap(oldColors, newColors)
         == map c | c in oldColors :: Target(oldColors, newColors, FirstIndex(oldColors, c))
  {
    var m := BuildMap(oldColors, newColors);
    forall c | c in oldColors
      ensures m[c] == Target(oldColors, newColors, FirstIndex(oldColors, c))
    {
      LastAssignmentWins(oldColors, newColors, FirstIndex(oldColors, c));
    }
  }

  /**
   * The loop of `get_color_map`: walk the old list, assigning each old colour
   * either its partner in the new list or itself.
   */
  method BuildColorMap(oldColors: seq<Color>, newColors: seq<Color>) returns (colorMap: map<Color, Color>)
    ensures colorMap == BuildMap(oldColors, newColors)
    ensures colorMap.Keys == set c | c in oldColors
  {
    colorMap := map[];
    var maxColors := |oldColors|;
    for i := 0 to maxColors
      invariant colorMap == BuildMap(oldColors[..i], newColors)
    {
      assert oldColors[..i + 1][..i] == oldColors[..i];
      if i > |newColors| - 1 {
        colorMap := colorMap[oldColors[i] := oldColors[i]];
      } else {
        colorMap := colorMap[oldColors[i] := newColors[i]];
      }
    }
    assert oldColors[..maxColors] == oldColors;
  }
}
