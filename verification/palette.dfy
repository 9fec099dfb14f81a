/** Line colours of the chart: a fixed ring of eight hues picked by dataset
    position, overridden by a colour the dataset brings itself. */
module Palette {
  import opened Results
  import Text

  /** Sky, purple, green, orange, pink, teal, amber, blue. */
  const Hues: seq<nat> := [200, 280, 150, 35, 340, 170, 45, 220]

  /** The hue used for the dataset at position `index`. */
  function Hue(index: nat): (h: nat)
    ensures h in Hues
  {
    Hues[index % |Hues|]
  }

  /** `getLineColor`: the CSS colour `hsl(<hue>, 85%, 60%)`. */
  function LineColor(index: nat): string {
    "hsl(" + Text.NatToString(Hue(index)) + ", 85%, 60%)"
  }

  /** The stroke of the dataset at `index`: its own non-empty colour, or the
      palette colour (an empty string is falsy and falls back too). */
  function Stroke(borderColor: Option<string>, index: nat): (c: string)
    ensures borderColor.Some? && borderColor.value != "" ==> c == borderColor.value
    ensures borderColor.None? || borderColor.value == "" ==> c == LineColor(index)
  {
    if borderColor.Some? && borderColor.value != "" then borderColor.value else LineColor(index)
  }

  /** The palette repeats every eight datasets. */
  lemma LineColorPeriodic(index: nat)
    ensures LineColor(index) == LineColor(index + 8)
  {
    assert (index + 8) % 8 == index % 8;
  }

  /** Within one turn of the ring all eight colours differ: two positions get
      the same colour exactly when they are a multiple of eight apart. */
  lemma LineColorDistinct(i: nat, j: nat)
    ensures LineColor(i) == LineColor(j) <==> i % 8 == j % 8
  {
    var a := Text.NatToString(Hue(i));
    var b := Text.NatToString(Hue(j));
    if LineColor(i) == LineColor(j) {
      var prefix := "hsl(";
      var suffix := ", 85%, 60%)";
      assert |a| == |b|;
      assert a == LineColor(i)[|prefix|..|prefix| + |a|];
      assert b == LineColor(j)[|prefix|..|prefix| + |b|];
      Text.NatToStringInjective(Hue(i), Hue(j));
    }
  }
}
