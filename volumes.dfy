/** Image volumes as the scripts see them after `get_fdata()`: a 3-D grid of
    voxel values, its shape, and the axis codes `aff2axcodes` reads from the
    affine. `check_and_reorient` (creer_GT/seg_vs_label.py:115-131 and
    creer_GT/GT_vs_label.py:38-54) and the `np.where(...)[2]` reductions that
    find the lowest and highest Z plane holding a selected voxel. */
module Volumes {
  import opened Wrappers

  /** One anatomical direction; an axis code names the direction the axis
      points to. `L`/`R` share the first world axis, `P`/`A` the second and
      `I`/`S` the third. */
  datatype AxisCode = L | R | P | A | I | S

  function WorldAxis(c: AxisCode): (w: nat)
    ensures w < 3
  {
    match c
    case L | R => 0
    case P | A => 1
    case I | S => 2
  }

  /** The default `desired_orientation` of `check_and_reorient`. */
  const RAS: seq<AxisCode> := [R, A, S]

  /** A voxel grid `data[x][y][z]` of the given shape. `codes[d]` is the code
      of array axis `d`, or `None` when the affine leaves it undetermined. */
  datatype Volume = Volume(shape: seq<nat>, data: seq<seq<seq<real>>>, codes: seq<Option<AxisCode>>)

  predicate Valid(v: Volume) {
    && |v.shape| == 3 && |v.codes| == 3
    && |v.data| == v.shape[0]
    && (forall x | 0 <= x < |v.data| :: |v.data[x]| == v.shape[1])
    && (forall x, y | 0 <= x < |v.data| && 0 <= y < |v.data[x]| :: |v.data[x][y]| == v.shape[2])
  }

  /** A volume whose grid matches its shape: what `get_fdata()` returns. */
  type Grid = v: Volume | Valid(v) witness Volume([0, 0, 0], [], [None, None, None])

  predicate InBounds(shape: seq<nat>, c: seq<nat>) {
    |shape| == 3 && |c| == 3 && c[0] < shape[0] && c[1] < shape[1] && c[2] < shape[2]
  }

  function At(v: Volume, c: seq<nat>): real
    requires Valid(v) && InBounds(v.shape, c)
  {
    v.data[c[0]][c[1]][c[2]]
  }

  // ---------------------------------------------------------------------
  // Orientation
  // ---------------------------------------------------------------------

  /** Three codes naming three different world axes: what nibabel's
      `ornt_transform` accepts as a start or end orientation. */
  predicate ProperTarget(t: seq<AxisCode>) {
    |t| == 3 && WorldAxis(t[0]) != WorldAxis(t[1]) && WorldAxis(t[0]) != WorldAxis(t[2])
    && WorldAxis(t[1]) != WorldAxis(t[2])
  }

  function Values(codes: seq<Option<AxisCode>>): (t: seq<AxisCode>)
    requires forall d | 0 <= d < |codes| :: codes[d].Some?
    ensures |t| == |codes| && forall d | 0 <= d < |codes| :: codes[d] == Some(t[d])
  {
    seq(|codes|, d requires 0 <= d < |codes| => codes[d].value)
  }

  function Somes(t: seq<AxisCode>): (codes: seq<Option<AxisCode>>)
    ensures |codes| == |t| && forall d | 0 <= d < |t| :: codes[d] == Some(t[d])
  {
    seq(|t|, d requires 0 <= d < |t| => Some(t[d]))
  }

  /** Three known codes along three different world axes: the codes
      `aff2axcodes` must give for `check_and_reorient` to go through. */
  predicate ProperCodes(codes: seq<Option<AxisCode>>)
    ensures ProperCodes(codes) <==>
              && |codes| == 3 && (forall d | 0 <= d < 3 :: codes[d].Some?)
              && forall d, e | 0 <= d < e < 3 :: WorldAxis(codes[d].value) != WorldAxis(codes[e].value)
  {
    |codes| == 3 && codes[0].Some? && codes[1].Some? && codes[2].Some? && ProperTarget(Values(codes))
  }

  /** The axis of `t` that points along the same world axis as `c`. */
  function AxisAlong(t: seq<AxisCode>, c: AxisCode): (a: nat)
    requires ProperTarget(t)
    ensures a < 3 && WorldAxis(t[a]) == WorldAxis(c)
  {
    if WorldAxis(t[0]) == WorldAxis(c) then 0
    else if WorldAxis(t[1]) == WorldAxis(c) then 1
    else 2
  }

  /** Each axis found along the target axes, taken back, is itself. */
  lemma AxisAlongInverse(src: seq<AxisCode>, t: seq<AxisCode>, d: nat)
    requires ProperTarget(src) && ProperTarget(t) && d < 3
    ensures AxisAlong(src, t[AxisAlong(t, src[d])]) == d
  {
  }

  /** The shape after moving axis `AxisAlong(src, t[a])` of `shape` to position `a`. */
  function MovedShape(shape: seq<nat>, src: seq<AxisCode>, t: seq<AxisCode>): (s: seq<nat>)
    requires |shape| == 3 && ProperTarget(src) && ProperTarget(t)
    ensures |s| == 3 && forall a | 0 <= a < 3 :: s[a] == shape[AxisAlong(src, t[a])]
  {
    seq(3, a requires 0 <= a < 3 => shape[AxisAlong(src, t[a])])
  }

  /** The input coordinate whose value lands on coordinate `c` of the
      reoriented grid: axis `d` of the input becomes axis `a` of the output,
      reversed when its code points the opposite way to `t[a]`. */
  function SourceCoord(shape: seq<nat>, src: seq<AxisCode>, t: seq<AxisCode>, c: seq<nat>): (s: seq<nat>)
    requires |shape| == 3 && ProperTarget(src) && ProperTarget(t)
    requires InBounds(MovedShape(shape, src, t), c)
    ensures InBounds(shape, s)
  {
    seq(3, d requires 0 <= d < 3 =>
      var a := AxisAlong(t, src[d]);
      AxisAlongInverse(src, t, d);
      if src[d] == t[a] then c[a] else shape[d] - 1 - c[a])
  }

  /** The value landing on voxel `[x, y, z]` of the reoriented grid. */
  function MovedVoxel(v: Volume, t: seq<AxisCode>, x: nat, y: nat, z: nat): real
    requires Valid(v) && ProperCodes(v.codes) && ProperTarget(t)
    requires InBounds(MovedShape(v.shape, Values(v.codes), t), [x, y, z])
  {
    At(v, SourceCoord(v.shape, Values(v.codes), t, [x, y, z]))
  }

  function MovedRow(v: Volume, t: seq<AxisCode>, x: nat, y: nat): (row: seq<real>)
    requires Valid(v) && ProperCodes(v.codes) && ProperTarget(t)
    requires var s := MovedShape(v.shape, Values(v.codes), t); x < s[0] && y < s[1]
    ensures |row| == MovedShape(v.shape, Values(v.codes), t)[2]
    ensures forall z | 0 <= z < |row| :: row[z] == MovedVoxel(v, t, x, y, z)
  {
    var s := MovedShape(v.shape, Values(v.codes), t);
    seq(s[2], z requires 0 <= z < s[2] => MovedVoxel(v, t, x, y, z))
  }

  function MovedSlab(v: Volume, t: seq<AxisCode>, x: nat): (slab: seq<seq<real>>)
    requires Valid(v) && ProperCodes(v.codes) && ProperTarget(t)
    requires x < MovedShape(v.shape, Values(v.codes), t)[0]
    ensures |slab| == MovedShape(v.shape, Values(v.codes), t)[1]
    ensures forall y | 0 <= y < |slab| :: slab[y] == MovedRow(v, t, x, y)
  {
    var s := MovedShape(v.shape, Values(v.codes), t);
    seq(s[1], y requires 0 <= y < s[1] => MovedRow(v, t, x, y))
  }

  /** The grid `img.as_reoriented(ornt_transform(...))` produces, labelled `t`. */
  function Transform(v: Volume, t: seq<AxisCode>): (r: Volume)
    requires Valid(v) && ProperCodes(v.codes) && ProperTarget(t)
    ensures Valid(r) && r.codes == Somes(t)
    ensures r.shape == MovedShape(v.shape, Values(v.codes), t)
    ensures forall x, y, z | 0 <= x < r.shape[0] && 0 <= y < r.shape[1] && 0 <= z < r.shape[2] ::
              r.data[x][y][z] == MovedVoxel(v, t, x, y, z)
  {
    var s := MovedShape(v.shape, Values(v.codes), t);
    var data := seq(s[0], x requires 0 <= x < s[0] => MovedSlab(v, t, x));
    Volume(s, data, Somes(t))
  }

  /** `check_and_reorient(img, t)`: the image itself when its codes already
      are `t`, an error when the codes do not name three different world
      axes (nibabel raises), and otherwise the reoriented image. */
  function CheckAndReorient(v: Volume, t: seq<AxisCode>): (r: Result<Volume, string>)
    requires Valid(v) && ProperTarget(t)
    ensures v.codes == Somes(t) ==> r == Ok(v)
    ensures r.Ok? <==> ProperCodes(v.codes)
    ensures r.Ok? ==> Valid(r.value) && r.value.codes == Somes(t)
    ensures r.Ok? && v.codes != Somes(t) ==> r.value == Transform(v, t)
  {
    if v.codes == Somes(t) then
      assert Values(v.codes) == t;
      Ok(v)
    else if !ProperCodes(v.codes) then Err("start and end orientations must have the same axes")
    else Ok(Transform(v, t))
  }

  /** Every voxel of the reoriented grid holds the value of the input voxel
      one permutation-and-flip of the axes away. */
  lemma TransformAt(v: Volume, t: seq<AxisCode>, c: seq<nat>)
    requires Valid(v) && ProperCodes(v.codes) && ProperTarget(t)
    requires InBounds(Transform(v, t).shape, c)
    ensures At(Transform(v, t), c) == At(v, SourceCoord(v.shape, Values(v.codes), t, c))
  {
    assert c == [c[0], c[1], c[2]];
    assert At(Transform(v, t), c) == MovedVoxel(v, t, c[0], c[1], c[2]);
  }

  /** Moving the axes to `t` and back restores the shape. */
  lemma MovedShapeRoundTrip(shape: seq<nat>, src: seq<AxisCode>, t: seq<AxisCode>)
    requires |shape| == 3 && ProperTarget(src) && ProperTarget(t)
    ensures MovedShape(MovedShape(shape, src, t), t, src) == shape
  {
    var back := MovedShape(MovedShape(shape, src, t), t, src);
    forall d | 0 <= d < 3 ensures back[d] == shape[d] {
      AxisAlongInverse(src, t, d);
    }
  }

  /** Following the coordinate map back and then forth again lands on the
      starting voxel. */
  lemma SourceCoordRoundTrip(shape: seq<nat>, src: seq<AxisCode>, t: seq<AxisCode>, c: seq<nat>)
    requires |shape| == 3 && ProperTarget(src) && ProperTarget(t) && InBounds(shape, c)
    ensures MovedShape(MovedShape(shape, src, t), t, src) == shape
    ensures SourceCoord(shape, src, t, SourceCoord(MovedShape(shape, src, t), t, src, c)) == c
  {
    MovedShapeRoundTrip(shape, src, t);
    var mid := MovedShape(shape, src, t);
    var s1 := SourceCoord(mid, t, src, c);
    var s0 := SourceCoord(shape, src, t, s1);
    forall d | 0 <= d < 3 ensures s0[d] == c[d] {
      AxisAlongInverse(src, t, d);
      var a := AxisAlong(t, src[d]);
      assert AxisAlong(src, t[a]) == d;
    }
  }

  /** Reorienting to `t` and then back to the original codes gives back the
      original image: no voxel is lost, moved elsewhere or duplicated. */
  lemma ReorientRoundTrip(v: Volume, t: seq<AxisCode>)
    requires Valid(v) && ProperCodes(v.codes) && ProperTarget(t)
    ensures Transform(Transform(v, t), Values(v.codes)) == v
  {
    var src := Values(v.codes);
    var mid := Transform(v, t);
    var back := Transform(mid, src);
    assert Values(mid.codes) == t;
    MovedShapeRoundTrip(v.shape, src, t);
    forall x, y, z | 0 <= x < v.shape[0] && 0 <= y < v.shape[1] && 0 <= z < v.shape[2]
      ensures back.data[x][y][z] == v.data[x][y][z]
    {
      var c := [x, y, z];
      TransformAt(mid, src, c);
      TransformAt(v, t, SourceCoord(mid.shape, t, src, c));
      SourceCoordRoundTrip(v.shape, src, t, c);
    }
    DataEqual(back, v);
  }

  /** Two valid volumes of one shape that agree voxel by voxel have the same grid. */
  lemma DataEqual(u: Volume, v: Volume)
    requires Valid(u) && Valid(v) && u.shape == v.shape
    requires forall x, y, z | 0 <= x < v.shape[0] && 0 <= y < v.shape[1] && 0 <= z < v.shape[2] ::
               u.data[x][y][z] == v.data[x][y][z]
    ensures u.data == v.data
  {
    forall x | 0 <= x < v.shape[0] ensures u.data[x] == v.data[x] {
      forall y | 0 <= y < v.shape[1] ensures u.data[x][y] == v.data[x][y] {
      }
    }
  }

  /** Reorienting twice to the same codes is reorienting once. */
  lemma ReorientIdempotent(v: Volume, t: seq<AxisCode>)
    requires Valid(v) && ProperTarget(t) && CheckAndReorient(v, t).Ok?
    ensures CheckAndReorient(CheckAndReorient(v, t).value, t) == CheckAndReorient(v, t)
  {
  }

  // ---------------------------------------------------------------------
  // Z extent of a selection
  // ---------------------------------------------------------------------

  /** Which voxels a script selects: `!= 0` for labels, `> 0` for segmentations. */
  datatype Selector = NonZero | Positive

  predicate Selected(sel: Selector, x: real) {
    match sel
    case NonZero => x != 0.0
    case Positive => x > 0.0
  }

  /** Some voxel of plane `z` is selected. */
  predicate PlaneHas(v: Volume, sel: Selector, z: nat)
    requires Valid(v)
  {
    z < v.shape[2] && exists x, y | 0 <= x < v.shape[0] && 0 <= y < v.shape[1] :: Selected(sel, v.data[x][y][z])
  }

  /** The highest plane below `bound` holding a selected voxel. */
  function HighestBelow(v: Volume, sel: Selector, bound: nat): (r: Option<nat>)
    requires Valid(v) && bound <= v.shape[2]
    ensures r.Some? ==> r.value < bound && PlaneHas(v, sel, r.value)
    ensures r.Some? ==> forall z: nat | r.value < z < bound :: !PlaneHas(v, sel, z)
    ensures r.None? ==> forall z: nat | z < bound :: !PlaneHas(v, sel, z)
    decreases bound
  {
    if bound == 0 then None
    else if PlaneHas(v, sel, bound - 1) then Some(bound - 1)
    else HighestBelow(v, sel, bound - 1)
  }

  /** The lowest plane at or above `from` holding a selected voxel. */
  function LowestFrom(v: Volume, sel: Selector, from: nat): (r: Option<nat>)
    requires Valid(v) && from <= v.shape[2]
    ensures r.Some? ==> from <= r.value < v.shape[2] && PlaneHas(v, sel, r.value)
    ensures r.Some? ==> forall z: nat | from <= z < r.value :: !PlaneHas(v, sel, z)
    ensures r.None? ==> forall z: nat | from <= z :: !PlaneHas(v, sel, z)
    decreases v.shape[2] - from
  {
    if from == v.shape[2] then None
    else if PlaneHas(v, sel, from) then Some(from)
    else LowestFrom(v, sel, from + 1)
  }

  /** `np.max(np.where(sel(data))[2])`, or `None` when nothing is selected. */
  function HighestZ(v: Volume, sel: Selector): (r: Option<nat>)
    requires Valid(v)
    ensures r.None? <==> forall z: nat :: !PlaneHas(v, sel, z)
    ensures r.Some? ==> PlaneHas(v, sel, r.value) && forall z: nat | z > r.value :: !PlaneHas(v, sel, z)
  {
    HighestBelow(v, sel, v.shape[2])
  }

  /** `np.min(np.where(sel(data))[2])`, or `None` when nothing is selected. */
  function LowestZ(v: Volume, sel: Selector): (r: Option<nat>)
    requires Valid(v)
    ensures r.None? <==> forall z: nat :: !PlaneHas(v, sel, z)
    ensures r.Some? ==> PlaneHas(v, sel, r.value) && forall z: nat | z < r.value :: !PlaneHas(v, sel, z)
  {
    LowestFrom(v, sel, 0)
  }

  /** The lowest selected plane is never above the highest one, and both
      exist together. */
  lemma ExtentOrdered(v: Volume, sel: Selector)
    requires Valid(v)
    ensures LowestZ(v, sel).Some? <==> HighestZ(v, sel).Some?
    ensures LowestZ(v, sel).Some? ==> LowestZ(v, sel).value <= HighestZ(v, sel).value
  {
  }
}
