/**
 * Colours as the palette-swap engine sees them: four 8-bit channels
 * (red, green, blue, alpha) compared exactly, channel by channel.
 */
module Colors {

  /** One unsigned 8-bit channel value. */
  type Channel = x: int | 0 <= x < 256

  /** An RGBA colour; alpha is an ordinary channel for equality. */
  datatype Color = Color(red: Channel, green: Channel, blue: Channel, alpha: Channel)

  /** The fill of a freshly created output image: white, fully transparent. */
  const Transparent: Color := Color(255, 255, 255, 0)

  /** No colour appears twice in `s`. */
  predicate NoDuplicates(s: seq<Color>)
  {
    forall i, j :: 0 <= i < j < |s| ==> s[i] != s[j]
  }

  /** The position of the first occurrence of `c` in `s`. */
  function FirstIndex(s: seq<Color>, c: Color): (i: nat)
    requires c in s
    ensures i < |s| && s[i] == c
    ensures forall j :: 0 <= j < i ==> s[j] != c
  {
    if s[0] == c then 0 else 1 + FirstIndex(s[1..], c)
  }

  /** Any index that holds `c` with no earlier `c` is the first index. */
  lemma FirstIndexIsUnique(s: seq<Color>, c: Color, i: nat)
    requires i < |s| && s[i] == c
    requires forall j :: 0 <= j < i ==> s[j] != c
    ensures FirstIndex(s, c) == i
  {
    var k := FirstIndex(s, c);
    assert !(k < i);
    assert !(i < k);
  }

  /** Appending to a sequence does not move the first occurrence of a colour already in it. */
  lemma FirstIndexOfPrefix(s: seq<Color>, d: Color, c: Color)
    requires c in s
    ensures c in s + [d]
    ensures FirstIndex(s + [d], c) == FirstIndex(s, c)
  {
    var i := FirstIndex(s, c);
    FirstIndexIsUnique(s + [d], c, i);
  }
}
