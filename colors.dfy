/**
  The colours of the boids and the palette that new clusters draw from
  (main.py: WHITE and CLUSTER_COLORS).

  The program stores colours as RGB triples and only ever compares them for
  equality (as Counter keys and in `WHITE in cnt`). The model gives each
  colour a tag, WHITE or the position of a palette entry, and `ToRgb`
  recovers the triple; `ToRgbInjective` shows that comparing tags is the
  same as comparing the triples.
 */
module Colors {

  datatype Rgb = Rgb(r: int, g: int, b: int)

  /** The RGB value of WHITE. */
  const WhiteRgb := Rgb(255, 255, 255)

  /** The nine cluster colours, in the order new clusters receive them. */
  const ClusterColors: seq<Rgb> := [
    Rgb(255,  60,  60), Rgb( 60, 255,  60), Rgb( 60,  60, 255),
    Rgb(255, 255,  60), Rgb( 60, 255, 255), Rgb(255,  60, 255),
    Rgb(255, 128,   0), Rgb(128,   0, 255), Rgb(  0, 128, 128)
  ]

  /** A boid colour: WHITE, the colour of a boid no cluster has claimed, or entry k of the palette. */
  datatype Color = White | Entry(k: nat)

  ghost predicate ValidColor(c: Color)
  {
    c.Entry? ==> c.k < |ClusterColors|
  }

  /** The RGB triple the program stores for a colour. */
  function ToRgb(c: Color): Rgb
    requires ValidColor(c)
  {
    if c.White? then WhiteRgb else ClusterColors[c.k]
  }

  /** No two palette entries are the same colour, and none is WHITE. */
  lemma PaletteEntriesDistinct()
    ensures |ClusterColors| == 9
    ensures forall a, b :: 0 <= a < b < |ClusterColors| ==> ClusterColors[a] != ClusterColors[b]
    ensures forall a :: 0 <= a < |ClusterColors| ==> ClusterColors[a] != WhiteRgb
  {
  }

  /** Two colours are the same tag exactly when they are the same RGB triple. */
  lemma ToRgbInjective(c1: Color, c2: Color)
    requires ValidColor(c1) && ValidColor(c2)
    ensures ToRgb(c1) == ToRgb(c2) <==> c1 == c2
  {
    PaletteEntriesDistinct();
    if c1.Entry? && c2.Entry? && c1.k != c2.k {
      if c1.k < c2.k {
        assert ClusterColors[c1.k] != ClusterColors[c2.k];
      } else {
        assert ClusterColors[c2.k] != ClusterColors[c1.k];
      }
    }
  }

  /** The palette entry handed out when the counter reads `c`: `CLUSTER_COLORS[c % 9]`. */
  function PaletteColor(c: nat): (col: Color)
    ensures ValidColor(col) && col != White
  {
    Entry(c % |ClusterColors|)
  }

  /** The RGB triple of the entry handed out at counter `c`. */
  lemma PaletteColorRgb(c: nat)
    ensures ToRgb(PaletteColor(c)) == ClusterColors[c % 9] != WhiteRgb
  {
    PaletteEntriesDistinct();
  }

  /** Within one turn of the palette (fewer than nine allocations apart) the colours differ. */
  lemma CycleDistinct(c1: nat, c2: nat)
    requires c1 < c2 < c1 + |ClusterColors|
    ensures PaletteColor(c1) != PaletteColor(c2)
  {
    assert c1 % 9 != c2 % 9;
  }

  /** The palette wraps around after nine allocations. */
  lemma CycleRepeats(c: nat)
    ensures PaletteColor(c + |ClusterColors|) == PaletteColor(c)
  {
  }
}
