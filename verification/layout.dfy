/** The arithmetic of `drawWheel`: how the full circle is cut into one slice
    per option, where each slice starts and ends for the current rotation,
    where its label is turned to, and which palette colour fills it. The
    canvas calls themselves are not modelled. */
module Layout {
  import opened Angles

  /** The twelve fill colours, cycled by slice index. */
  const Palette: seq<string> := [
    "#FF6B6B", "#4ECDC4", "#45B7D1", "#96CEB4",
    "#FFEEAD", "#D4A5A5", "#9B59B6", "#3498DB",
    "#E67E22", "#27AE60", "#CC70AB", "#F1C40F"
  ]

  /** `i % colors.length`: always a valid palette index, and the identity on
      the first twelve slices. */
  function ColourIndex(i: nat): (c: nat)
    ensures c < |Palette|
    ensures i < |Palette| ==> c == i
  {
    i % |Palette|
  }

  /** The fill colour of slice `i`. */
  function SliceColour(i: nat): string
  {
    Palette[ColourIndex(i)]
  }

  /** Slices `i` and `i + 12` are painted alike. */
  lemma ColourRepeats(i: nat)
    ensures SliceColour(i + 12) == SliceColour(i)
  {
    assert ColourIndex(i + 12) == ColourIndex(i) by {
      assert i + 12 == (i / 12 + 1) * 12 + i % 12;
    }
  }

  /** The palette has no repeated colour, so two neighbouring slices
      `i`, `i + 1` always differ in colour. */
  lemma NeighboursDiffer(i: nat)
    ensures SliceColour(i) != SliceColour(i + 1)
  {
    var c := ColourIndex(i);
    assert ColourIndex(i + 1) == if c == 11 then 0 else c + 1;
  }

  /** The last slice also borders the first one; those two share a colour
      exactly when the wheel has one option or 12k + 1 options. */
  lemma WrapAroundColours(n: nat)
    requires n >= 1
    ensures SliceColour(n - 1) == SliceColour(0) <==> n % 12 == 1
  {
    assert SliceColour(0) == Palette[0];
    if (n - 1) % 12 != 0 {
      assert Palette[(n - 1) % 12] != Palette[0];
    }
  }

  /** `(Math.PI * 2) / options.length`: the N slices are equally wide and
      N of them make a full turn. */
  function SliceAngle(n: nat): (w: real)
    requires n >= 1
    ensures w > 0.0
    ensures (n as real) * w == TwoPi
  {
    TwoPi / (n as real)
  }

  /** `i * sliceAngle + currentRotation`. */
  function StartAngle(i: nat, n: nat, rotation: real): real
    requires n >= 1
  {
    (i as real) * SliceAngle(n) + rotation
  }

  /** `startAngle + sliceAngle`. */
  function EndAngle(i: nat, n: nat, rotation: real): real
    requires n >= 1
  {
    StartAngle(i, n, rotation) + SliceAngle(n)
  }

  /** One pie slice as `drawWheel` paints it: its caption, the arc from
      `start` to `stop`, the angle the label is rotated to, and the fill. */
  datatype Slice = Slice(caption: string, start: real, stop: real, textAngle: real, colour: string)

  /** What one call of `drawWheel` shows: the empty placeholder disc, or one
      slice per option. */
  datatype Drawing = Placeholder | Pie(slices: seq<Slice>)

  /** The body of the drawing loop for slice `i`. */
  function SliceOf(options: seq<string>, i: nat, rotation: real): (s: Slice)
    requires i < |options|
    ensures s.caption == options[i]
    ensures s.start == StartAngle(i, |options|, rotation)
    ensures s.stop == EndAngle(i, |options|, rotation)
    ensures s.start < s.textAngle < s.stop
    ensures s.textAngle - s.start == s.stop - s.textAngle
    ensures s.colour == Palette[i % 12]
  {
    var n := |options|;
    var start := StartAngle(i, n, rotation);
    Slice(options[i], start, start + SliceAngle(n), start + SliceAngle(n) / 2.0, SliceColour(i))
  }

  /** `drawWheel` for the given options and rotation. */
  method DrawWheel(options: seq<string>, rotation: real) returns (d: Drawing)
    ensures d.Placeholder? <==> options == []
    ensures d.Pie? ==> |d.slices| == |options|
    ensures d.Pie? ==> forall i :: 0 <= i < |options| ==> d.slices[i] == SliceOf(options, i, rotation)
  {
    if |options| == 0 {
      return Placeholder;
    }
    var slices: seq<Slice> := [];
    var i := 0;
    while i < |options|
      invariant 0 <= i <= |options|
      invariant |slices| == i
      invariant forall j :: 0 <= j < i ==> slices[j] == SliceOf(options, j, rotation)
    {
      slices := slices + [SliceOf(options, i, rotation)];
      i := i + 1;
    }
    d := Pie(slices);
  }

  /** Slice `i` ends exactly where slice `i + 1` starts. */
  lemma Contiguous(i: nat, n: nat, rotation: real)
    requires i + 1 < n
    ensures EndAngle(i, n, rotation) == StartAngle(i + 1, n, rotation)
  {
  }

  /** The first slice starts at the rotation and the last one ends a full
      turn later. */
  lemma SpansFullTurn(n: nat, rotation: real)
    requires n >= 1
    ensures StartAngle(0, n, rotation) == rotation
    ensures EndAngle(n - 1, n, rotation) == rotation + TwoPi
  {
  }

  /** Sum of the angular widths of a run of slices. */
  function TotalWidth(slices: seq<Slice>): real
  {
    if slices == [] then 0.0 else TotalWidth(slices[..|slices| - 1]) + (slices[|slices| - 1].stop - slices[|slices| - 1].start)
  }

  /** The slices of a drawn wheel add up to exactly one full turn. */
  lemma WidthsSumToFullTurn(options: seq<string>, rotation: real, slices: seq<Slice>)
    requires |options| >= 1 && |slices| == |options|
    requires forall i :: 0 <= i < |options| ==> slices[i] == SliceOf(options, i, rotation)
    ensures TotalWidth(slices) == TwoPi
  {
    var w := SliceAngle(|options|);
    forall i | 0 <= i < |slices|
      ensures slices[i].stop - slices[i].start == w
    {
      var s := SliceOf(options, i, rotation);
      assert s.stop - s.start == w;
    }
    EqualSlicesFillTurn(slices, |options|);
  }

  /** N slices that are each `2π/N` wide make one full turn. */
  lemma EqualSlicesFillTurn(slices: seq<Slice>, n: nat)
    requires n >= 1 && |slices| == n
    requires forall i :: 0 <= i < |slices| ==> slices[i].stop - slices[i].start == SliceAngle(n)
    ensures TotalWidth(slices) == TwoPi
  {
    EqualWidths(slices, SliceAngle(n));
  }

  /** A run of k slices that are all `w` wide is `k * w` wide. */
  lemma {:induction false} EqualWidths(slices: seq<Slice>, w: real)
    requires forall i :: 0 <= i < |slices| ==> slices[i].stop - slices[i].start == w
    ensures TotalWidth(slices) == (|slices| as real) * w
  {
    if slices != [] {
      var front := slices[..|slices| - 1];
      EqualWidths(front, w);
      assert TotalWidth(slices) == (|front| as real) * w + w;
    }
  }

  /** The slice that covers angle `theta` of the turn that starts at the
      rotation. */
  function SliceCovering(theta: real, n: nat, rotation: real): (k: nat)
    requires n >= 1
    requires rotation <= theta < rotation + TwoPi
    ensures k < n
    ensures StartAngle(k, n, rotation) <= theta < EndAngle(k, n, rotation)
  {
    var w := SliceAngle(n);
    var x := (theta - rotation) / w;
    assert x * w == theta - rotation;
    assert x < n as real;
    var k := x.Floor;
    assert (k as real) * w <= x * w;
    assert x * w < (k as real + 1.0) * w;
    k
  }

  /** No angle lies in two slices: the slices partition the turn. */
  lemma SlicesDisjoint(i: nat, j: nat, n: nat, rotation: real, theta: real)
    requires n >= 1
    requires StartAngle(i, n, rotation) <= theta < EndAngle(i, n, rotation)
    requires StartAngle(j, n, rotation) <= theta < EndAngle(j, n, rotation)
    ensures i == j
  {
  }
}
