/** Reading off the result when a spin ends: the rotation is reduced to one
    turn, divided into slice widths, and the slice under the pointer (angle
    0 of the canvas) is looked up. The code does this with JavaScript's `%`,
    which truncates; `ResolveAsWritten` models that, `Resolve` the floored
    reduction the lookup needs. */
module Winner {
  import opened Wrappers
  import opened Angles
  import Layout

  /** Multiplying by a positive factor keeps the order of two reals, and
      only the order of the factors decides the order of the products. */
  lemma ScaleCompare(a: real, b: real, m: real)
    requires 0.0 < m
    ensures a <= b <==> a * m <= b * m
    ensures a < b <==> a * m < b * m
  {
    if a <= b {
      ScaleLe(a, b, m);
    } else {
      ScaleLt(b, a, m);
    }
    if a < b {
      ScaleLt(a, b, m);
    } else {
      ScaleLe(b, a, m);
    }
  }

  /** The one-directional halves of `ScaleCompare`. */
  lemma ScaleLe(a: real, b: real, m: real)
    requires 0.0 < m && a <= b
    ensures a * m <= b * m
  {
    assert (b - a) * m >= 0.0;
  }

  lemma ScaleLt(a: real, b: real, m: real)
    requires 0.0 < m && a < b
    ensures a * m < b * m
  {
    assert (b - a) * m > 0.0;
  }

  lemma DivCancel(x: real, m: real)
    requires m != 0.0
    ensures (x / m) * m == x
  {
  }

  /** `Math.floor(x / m)`: the whole number of times `m` fits in `x`. */
  function FloorDiv(x: real, m: real): (k: int)
    requires 0.0 < m
    ensures (k as real) * m <= x < (k as real) * m + m
  {
    var q := x / m;
    var k := q.Floor;
    FloorBounds(x, m, q, k);
    k
  }

  lemma FloorBounds(x: real, m: real, q: real, k: int)
    requires 0.0 < m && q == x / m && k == q.Floor
    ensures (k as real) * m <= x < (k as real) * m + m
  {
    var kr := k as real;
    assert kr <= q < kr + 1.0;
    DivCancel(x, m);
    ScaleLe(kr, q, m);
    ScaleLt(q, kr + 1.0, m);
    AddOneTimes(kr, m);
  }

  lemma AddOneTimes(a: real, m: real)
    ensures (a + 1.0) * m == a * m + m
  {
  }

  /** Only one whole number `k` has `k * m <= x < k * m + m`. */
  lemma MultipleUnique(x: real, m: real, j: int, k: int)
    requires 0.0 < m
    requires (k as real) * m <= x < (k as real) * m + m
    requires (j as real) * m <= x < (j as real) * m + m
    ensures j == k
  {
    NoMultipleAbove(x, m, j as real, k as real);
    NoMultipleAbove(x, m, k as real, j as real);
  }

  /** If `a * m <= x < a * m + m`, no `b >= a + 1` has `b * m <= x`. */
  lemma NoMultipleAbove(x: real, m: real, a: real, b: real)
    requires 0.0 < m
    requires x < a * m + m && b * m <= x
    ensures b < a + 1.0
  {
    if a + 1.0 <= b {
      ScaleLe(a + 1.0, b, m);
      AddOneTimes(a, m);
    }
  }

  lemma FloorDivUnique(x: real, m: real, k: int)
    requires 0.0 < m
    requires (k as real) * m <= x < (k as real) * m + m
    ensures FloorDiv(x, m) == k
  {
    MultipleUnique(x, m, FloorDiv(x, m), k);
  }

  /** Rounding the quotient toward zero, as JavaScript's `%` does. */
  function TruncDiv(x: real, m: real): (k: int)
    requires 0.0 < m
    ensures 0.0 <= x ==> (k as real) * m <= x < (k as real) * m + m
    ensures x < 0.0 ==> (k as real) * m - m < x <= (k as real) * m
  {
    if 0.0 <= x then FloorDiv(x, m)
    else
      var j := FloorDiv(-x, m);
      assert ((-j) as real) * m == -((j as real) * m);
      -j
  }

  /** JavaScript's `x % m` for `m > 0`: the remainder takes the sign of `x`,
      and a dividend already smaller than `m` in size is returned unchanged. */
  function JsRemainder(x: real, m: real): (r: real)
    requires 0.0 < m
    ensures 0.0 <= x ==> 0.0 <= r < m
    ensures x <= 0.0 ==> -m < r <= 0.0
    ensures -m < x < m ==> r == x
    ensures x - r == (TruncDiv(x, m) as real) * m
  {
    var k := TruncDiv(x, m);
    if 0.0 <= x && x < m then
      FloorDivUnique(x, m, 0);
      x
    else if -m < x < 0.0 then
      FloorDivUnique(-x, m, 0);
      x
    else
      x - (k as real) * m
  }

  /** The floored remainder: always in [0, m), and `x` minus it is a whole
      multiple of `m`. */
  function FlooredRemainder(x: real, m: real): (r: real)
    requires 0.0 < m
    ensures 0.0 <= r < m
    ensures x - r == (FloorDiv(x, m) as real) * m
  {
    x - (FloorDiv(x, m) as real) * m
  }

  /** `Math.floor((-normalizedRotation / sliceAngle) % options.length)` with
      `normalizedRotation = currentRotation % (Math.PI * 2)`, both `%` being
      JavaScript's truncating remainder. */
  function WinnerIndexAsWritten(rotation: real, n: nat): (k: int)
    requires n >= 1
    ensures -(n as int) <= k < n
  {
    var normalized := JsRemainder(rotation, TwoPi);
    var sliceAngle := Layout.SliceAngle(n);
    JsRemainder(-normalized / sliceAngle, n as real).Floor
  }

  /** `options[index]` as written: `undefined` (None) for an index outside
      the array, and for an empty array. Whatever it finds is an option, and
      for a rotation that is not negative and not a whole number of turns it
      finds nothing. */
  function ResolveAsWritten(options: seq<string>, rotation: real): (r: Option<string>)
    ensures options == [] ==> r.None?
    ensures options != [] ==> (r.Some? <==> 0 <= WinnerIndexAsWritten(rotation, |options|))
    ensures r.Some? ==> r.value in options
    ensures r.Some? ==> 0 <= WinnerIndexAsWritten(rotation, |options|) < |options|
    ensures r.Some? ==> r.value == options[WinnerIndexAsWritten(rotation, |options|)]
    ensures options != [] && 0.0 <= rotation && JsRemainder(rotation, TwoPi) != 0.0 ==> r.None?
  {
    if |options| == 0 then None
    else
      var k := WinnerIndexAsWritten(rotation, |options|);
      if 0.0 <= rotation && JsRemainder(rotation, TwoPi) != 0.0 then
        AsWrittenIndexNegative(rotation, |options|);
        None
      else if 0 <= k then Some(options[k]) else None
  }

  /** As written, any rotation that is not a whole number of turns gives a
      negative index: the wheel only ever turns forward from 0, so the
      reduced rotation is positive, its negated slice count lies strictly
      between -N and 0, the truncating `%` leaves it there, and its floor is
      negative. */
  lemma AsWrittenIndexNegative(rotation: real, n: nat)
    requires n >= 1 && 0.0 <= rotation
    requires JsRemainder(rotation, TwoPi) != 0.0
    ensures WinnerIndexAsWritten(rotation, n) < 0
  {
    var normalized := JsRemainder(rotation, TwoPi);
    var w := Layout.SliceAngle(n);
    var m := n as real;
    var x := -normalized / w;
    NegatedRatio(normalized, w, m);
    assert JsRemainder(x, m) == x;
  }

  /** So whenever the wheel stops anywhere but a whole number of turns, the
      announced result is `undefined`: here half a turn on a two-option
      wheel. */
  lemma AsWrittenHalfTurnIsUndefined()
    ensures ResolveAsWritten(["A", "B"], Pi) == None
  {
    assert JsRemainder(Pi, TwoPi) == Pi;
    AsWrittenIndexNegative(Pi, 2);
  }

  /** How many whole turns the pointer lies at, counted on the wheel's own
      angle scale: the first multiple of a full turn at or after the
      rotation. */
  function PointerTurns(rotation: real): (j: int)
    ensures rotation <= (j as real) * TwoPi < rotation + TwoPi
  {
    var k := FloorDiv(-rotation, TwoPi);
    assert -((k as real) * TwoPi) == ((-k) as real) * TwoPi;
    -k
  }

  /** Only one whole number of turns lies in `[rotation, rotation + 2π)`. */
  lemma PointerTurnsUnique(rotation: real, j: int)
    requires rotation <= (j as real) * TwoPi < rotation + TwoPi
    ensures PointerTurns(rotation) == j
  {
    var k := PointerTurns(rotation);
    assert ((-j) as real) * TwoPi == -((j as real) * TwoPi);
    assert ((-k) as real) * TwoPi == -((k as real) * TwoPi);
    MultipleUnique(-rotation, TwoPi, -j, -k);
  }

  /** The pointer's angle on the turn the wheel has stopped in: a whole
      number of turns, and the first one at or after the rotation. */
  function PointerAngle(rotation: real): (a: real)
    ensures a == (PointerTurns(rotation) as real) * TwoPi
    ensures rotation <= a < rotation + TwoPi
  {
    (PointerTurns(rotation) as real) * TwoPi
  }

  /** Where the pointer is, given the rotation split into whole turns and a
      remainder in [0, 2π). */
  lemma PointerAngleOf(rotation: real, normalized: real)
    requires normalized == FlooredRemainder(rotation, TwoPi)
    ensures normalized == 0.0 ==> PointerAngle(rotation) == rotation
    ensures normalized > 0.0 ==> PointerAngle(rotation) == rotation - normalized + TwoPi
  {
    var q := FloorDiv(rotation, TwoPi);
    var turns := (q as real) * TwoPi;
    assert rotation == turns + normalized;
    if normalized == 0.0 {
      PointerTurnsUnique(rotation, q);
    } else {
      assert ((q + 1) as real) * TwoPi == turns + TwoPi;
      PointerTurnsUnique(rotation, q + 1);
    }
  }

  /** The lookup with floored remainders: it names a slice of the wheel, and
      that slice is the one lying under the pointer. */
  function WinnerIndex(rotation: real, n: nat): (k: nat)
    requires n >= 1
    ensures k < n
    ensures Layout.StartAngle(k, n, rotation) <= PointerAngle(rotation) < Layout.EndAngle(k, n, rotation)
  {
    var normalized := FlooredRemainder(rotation, TwoPi);
    var sliceAngle := Layout.SliceAngle(n);
    var y := FlooredRemainder(-normalized / sliceAngle, n as real);
    WinnerIndexCovers(rotation, n, normalized, y);
    y.Floor
  }

  /** The arithmetic behind `WinnerIndex`. */
  lemma WinnerIndexCovers(rotation: real, n: nat, normalized: real, y: real)
    requires n >= 1
    requires normalized == FlooredRemainder(rotation, TwoPi)
    requires y == FlooredRemainder(-normalized / Layout.SliceAngle(n), n as real)
    ensures 0 <= y.Floor < n
    ensures Layout.StartAngle(y.Floor, n, rotation) <= PointerAngle(rotation) < Layout.EndAngle(y.Floor, n, rotation)
  {
    var w := Layout.SliceAngle(n);
    var kr := y.Floor as real;
    PointerOffset(rotation, n, normalized, y);
    FloorCell(y, w);
    assert Layout.StartAngle(y.Floor, n, rotation) == kr * w + rotation;
    assert Layout.EndAngle(y.Floor, n, rotation) == kr * w + w + rotation;
  }

  /** The pointer lies `y` slice widths ahead of the rotation. */
  lemma PointerOffset(rotation: real, n: nat, normalized: real, y: real)
    requires n >= 1
    requires normalized == FlooredRemainder(rotation, TwoPi)
    requires y == FlooredRemainder(-normalized / Layout.SliceAngle(n), n as real)
    ensures PointerAngle(rotation) - rotation == y * Layout.SliceAngle(n)
  {
    PointerAngleOf(rotation, normalized);
    SliceOffset(n, normalized, y);
  }

  /** `y` widths of `w` reach into cell `y.Floor` of width `w`. */
  lemma FloorCell(y: real, w: real)
    requires 0.0 < w
    ensures (y.Floor as real) * w <= y * w < (y.Floor as real) * w + w
  {
    var kr := y.Floor as real;
    ScaleLe(kr, y, w);
    ScaleLt(y, kr + 1.0, w);
    AddOneTimes(kr, w);
  }

  /** The reduced lookup value `y`, measured in slice widths, is how far the
      pointer lies ahead of the wheel's rotation. */
  lemma SliceOffset(n: nat, normalized: real, y: real)
    requires n >= 1 && 0.0 <= normalized < TwoPi
    requires y == FlooredRemainder(-normalized / Layout.SliceAngle(n), n as real)
    ensures normalized == 0.0 ==> y == 0.0
    ensures normalized > 0.0 ==> y * Layout.SliceAngle(n) == TwoPi - normalized
  {
    var w := Layout.SliceAngle(n);
    var m := n as real;
    if normalized == 0.0 {
      FloorDivUnique(-normalized / w, m, 0);
    } else {
      OffsetInSlices(normalized, w, m, y);
    }
  }

  /** For `0 < d < m * w`: `-d / w` lies in (-m, 0), its floored remainder
      modulo `m` is `m - d / w`, and that many widths `w` make `m * w - d`. */
  lemma OffsetInSlices(d: real, w: real, m: real, y: real)
    requires 0.0 < w && 0.0 < m && 0.0 < d < m * w
    requires y == FlooredRemainder(-d / w, m)
    ensures y * w == m * w - d
  {
    var x := -d / w;
    NegatedRatio(d, w, m);
    FloorDivUnique(x, m, -1);
    assert y == x + m;
    DivCancel(-d, w);
    assert (x + m) * w == x * w + m * w;
  }

  /** For `0 < d < m * w`, `-d / w` lies strictly between `-m` and 0. */
  lemma NegatedRatio(d: real, w: real, m: real)
    requires 0.0 < w && 0.0 < d < m * w
    ensures -m < -d / w < 0.0
  {
    var x := -d / w;
    DivCancel(-d, w);
    assert x * w == -d;
    ScaleCompare(x, 0.0, w);
    ScaleCompare(-m, x, w);
    assert (-m) * w == -(m * w);
  }

  /** The result as the lookup is meant to work: the option whose slice is
      under the pointer, and `undefined` only for an empty wheel. */
  function Resolve(options: seq<string>, rotation: real): (r: Option<string>)
    ensures r.None? <==> options == []
    ensures r.Some? ==> r.value in options
    ensures r.Some? ==> r.value == options[WinnerIndex(rotation, |options|)]
  {
    if |options| == 0 then None else Some(options[WinnerIndex(rotation, |options|)])
  }

  /** Where the code as written does find an option, it is the intended one:
      at a whole number of turns for a non-negative rotation, and for every
      negative rotation. */
  lemma AsWrittenAgreesWhenDefined(options: seq<string>, rotation: real)
    requires ResolveAsWritten(options, rotation).Some?
    ensures ResolveAsWritten(options, rotation) == Resolve(options, rotation)
  {
    if rotation < 0.0 {
      AsWrittenAgreesNegative(rotation, |options|);
    } else {
      assert JsRemainder(rotation, TwoPi) == FlooredRemainder(rotation, TwoPi);
    }
  }

  /** For a negative rotation the truncating reduction lies in (-2π, 0], and
      the floored one is it shifted up by a turn, or both are 0. */
  lemma NegativeReduction(rotation: real)
    requires rotation < 0.0
    ensures var nj := JsRemainder(rotation, TwoPi);
      var nf := FlooredRemainder(rotation, TwoPi);
      && -TwoPi < nj <= 0.0
      && (nj == 0.0 ==> nf == 0.0)
      && (nj != 0.0 ==> nf == nj + TwoPi)
  {
    var nj := JsRemainder(rotation, TwoPi);
    var t := TruncDiv(rotation, TwoPi);
    assert rotation == (t as real) * TwoPi + nj;
    if nj == 0.0 {
      FloorDivUnique(rotation, TwoPi, t);
    } else {
      assert ((t - 1) as real) * TwoPi == (t as real) * TwoPi - TwoPi;
      FloorDivUnique(rotation, TwoPi, t - 1);
    }
  }

  /** For a negative rotation the code as written is right: its index is
      never negative and is the slice the floored lookup picks. */
  lemma AsWrittenAgreesNegative(rotation: real, n: nat)
    requires n >= 1 && rotation < 0.0
    ensures 0 <= WinnerIndexAsWritten(rotation, n)
    ensures WinnerIndexAsWritten(rotation, n) == WinnerIndex(rotation, n)
  {
    var nj := JsRemainder(rotation, TwoPi);
    var nf := FlooredRemainder(rotation, TwoPi);
    NegativeReduction(rotation);
    SameSliceOffset(nj, nf, Layout.SliceAngle(n), n as real);
  }

  /** With `nj` in `(-m * w, 0]` and `nf` equal to `nj` shifted up by
      `m * w` (or both 0): `-nj / w` lies in [0, m), JavaScript's `% m`
      keeps it, and the floored remainder of `-nf / w` equals it. */
  lemma SameSliceOffset(nj: real, nf: real, w: real, m: real)
    requires 0.0 < w && 0.0 < m
    requires -(m * w) < nj <= 0.0
    requires nj == 0.0 ==> nf == 0.0
    requires nj != 0.0 ==> nf == nj + m * w
    ensures 0.0 <= -nj / w < m
    ensures JsRemainder(-nj / w, m) == -nj / w
    ensures FlooredRemainder(-nf / w, m) == -nj / w
  {
    var x := -nj / w;
    DivCancel(-nj, w);
    ScaleCompare(0.0, x, w);
    ScaleCompare(x, m, w);
    var y := FlooredRemainder(-nf / w, m);
    if nj == 0.0 {
      FloorDivUnique(-nf / w, m, 0);
    } else {
      OffsetInSlices(nf, w, m, y);
      ScaleCompare(y, x, w);
      ScaleCompare(x, y, w);
    }
  }
}
