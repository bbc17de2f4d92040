/** The earlier, NumPy-based batch iterator: it rasterises a person's joints
    into 17 label planes of a WIDTH x HEIGHT grid (plane 0 holds the image's
    first channel scaled to [0, 1]), and walks the parsed dataset one batch at
    a time.

    The script is Python 2: `W / 2` on ints is floor division, `int()` of a
    float truncates toward zero, NumPy slices clamp their bounds the way
    Python list slices do, and assigning an array into a NumPy slot
    broadcasts length-1 axes. Each of these is written out below. */
module TrainV1 {
  import opened Wrappers
  import opened Tensors
  import MpiiRead

  /** Plane 0 for the image channel, then one plane per joint. */
  const NumPlanes: nat := 17

  const DefaultBatchSize: nat := 1
  const DefaultWidth: nat := 380
  const DefaultHeight: nat := 380

  /** One label plane, indexed [row][column]. */
  type Plane = seq<seq<real>>

  /** The labelled joints `extract_labeled_joints` yields for one person:
      sparse x and y coordinates relative to the crop, their joint ids, and
      the parallel visibility flags. */
  datatype Pose = Pose(xs: seq<real>, ys: seq<real>, indices: seq<int>, isVisible: seq<int>)

  /** A NumPy image array with its shape. */
  datatype Image = Image(rows: nat, cols: nat, chans: nat, pixels: Tensor3)

  predicate WellShaped(img: Image) {
    IsTensor3(img.pixels, img.rows, img.cols, img.chans)
  }

  /** The exceptions the iterator can raise.
      - NoImageChannel: indexing channel 0 of an image without channels.
      - ShapeMismatch: an array assigned into a slot it cannot broadcast to.
      - MissingVisibility: fewer visibility flags than joint coordinates.
      - PlaneOutOfRange: a visible joint whose plane index is 17 or more.
      - NoPeople: fetching an example from an image with no annotated person,
        where the result variables are never bound.
      - ShortBatch: fewer dataset entries left than the batch size. */
  datatype LoadError = NoImageChannel | ShapeMismatch | MissingVisibility | PlaneOutOfRange | NoPeople | ShortBatch

  function Min(a: nat, b: nat): nat {
    if a <= b then a else b
  }

  // ---------------------------------------------------------------------------
  // Python 2 arithmetic and slicing

  /** `int(x)` on a float: truncation toward zero. */
  function Trunc(x: real): (n: int)
    ensures 0.0 <= x ==> n as real <= x < n as real + 1.0
    ensures x < 0.0 ==> n as real - 1.0 < x <= n as real
  {
    if x >= 0.0 then x.Floor else -((-x).Floor)
  }

  /** The pixel a normalised coordinate lands on: `int(extent * x) + extent / 2`. */
  function PixelOf(x: real, extent: nat): int {
    Trunc(extent as real * x) + extent / 2
  }

  /** A slice bound as Python normalises it against a length: a negative
      bound counts from the end, and the result is clamped into [0, len]. */
  function SliceBound(i: int, len: nat): (b: nat)
    ensures b <= len
    ensures 0 <= i <= len ==> b == i
    ensures -(len as int) <= i < 0 ==> b == i + len
    ensures i < -(len as int) ==> b == 0
    ensures i > len ==> b == len
  {
    if i < 0 then (if i + len < 0 then 0 else i + len)
    else if i > len then len
    else i
  }

  /** Cell (a, b) of a WIDTH x HEIGHT plane is inside the slice
      `[py:py+5, px:px+5]`. */
  predicate InStamp(a: int, b: int, py: int, px: int, width: nat, height: nat) {
    SliceBound(py, width) <= a < SliceBound(py + 5, width) &&
    SliceBound(px, height) <= b < SliceBound(px + 5, height)
  }

  /** Whatever the position, a stamp spans at most five rows and five columns. */
  lemma StampAtMostFive(py: int, px: int, width: nat, height: nat)
    ensures SliceBound(py + 5, width) <= SliceBound(py, width) + 5
    ensures SliceBound(px + 5, height) <= SliceBound(px, height) + 5
  {
  }

  /** A stamp that fits inside the plane covers exactly the 5x5 square from
      (py, px). */
  lemma StampInside(a: int, b: int, py: int, px: int, width: nat, height: nat)
    requires 0 <= py && py + 5 <= width && 0 <= px && px + 5 <= height
    ensures InStamp(a, b, py, px, width, height) <==> py <= a < py + 5 && px <= b < px + 5
  {
  }

  /** A stamp lying wholly above the grid wraps round to its bottom rows,
      because negative slice bounds count from the end: `py = -7` on a grid
      of 20 rows covers rows 13..17. */
  lemma StampWraps(a: int, b: int, py: int, px: int, width: nat, height: nat)
    requires -(width as int) <= py && py + 5 < 0 && 0 <= px && px + 5 <= height
    ensures InStamp(a, b, py, px, width, height) <==>
      py + width <= a < py + width + 5 && px <= b < px + 5
  {
  }

  /** A stamp reaching the top edge from above (`py < 0 <= py + 5`) covers
      nothing: its start counts from the end while its stop does not (a stop
      of 0 is not negative), so the slice is empty on any grid of at least
      five rows. */
  lemma StampStraddlingTopIsEmpty(a: int, b: int, py: int, px: int, width: nat, height: nat)
    requires py < 0 <= py + 5 && 5 <= width
    ensures !InStamp(a, b, py, px, width, height)
  {
  }

  // ---------------------------------------------------------------------------
  // Broadcasting

  /** NumPy broadcasting of one axis: equal lengths, or a source of length 1. */
  predicate Fits(src: nat, dst: nat) {
    src == dst || src == 1
  }

  /** The source position a broadcast reads for target position `a`. */
  function Spread(a: nat, src: nat): nat {
    if src == 1 then 0 else a
  }

  /** Assigning a `srcRows x srcCols` array into a `rows x cols` slot. */
  function BroadcastPlane(src: Plane, srcRows: nat, srcCols: nat, rows: nat, cols: nat): (r: Result<Plane, LoadError>)
    requires IsMatrix(src, srcRows, srcCols)
    ensures r.Success? <==> Fits(srcRows, rows) && Fits(srcCols, cols)
    ensures r.Success? ==> IsMatrix(r.value, rows, cols)
    ensures r.Success? ==> forall a, b :: 0 <= a < rows && 0 <= b < cols ==>
      r.value[a][b] == src[Spread(a, srcRows)][Spread(b, srcCols)]
  {
    if !(Fits(srcRows, rows) && Fits(srcCols, cols)) then Failure(ShapeMismatch)
    else
      Success(seq(rows, a requires 0 <= a < rows =>
        seq(cols, b requires 0 <= b < cols => src[Spread(a, srcRows)][Spread(b, srcCols)])))
  }

  /** An array of the slot's own shape is copied unchanged. */
  lemma BroadcastSameShape(src: Plane, rows: nat, cols: nat)
    requires IsMatrix(src, rows, cols)
    ensures BroadcastPlane(src, rows, cols, rows, cols) == Success(src)
  {
    var r := BroadcastPlane(src, rows, cols, rows, cols);
    assert r.Success?;
    var out := r.value;
    forall a | 0 <= a < rows
      ensures out[a] == src[a]
    {
      assert |out[a]| == cols == |src[a]|;
      forall b | 0 <= b < cols
        ensures out[a][b] == src[a][b]
      {
        assert Spread(a, rows) == a && Spread(b, cols) == b;
      }
    }
    assert out == src;
  }

  /** Assigning a whole image into a `width x height x 3` batch slot. */
  function BroadcastImage(img: Image, width: nat, height: nat): (r: Result<Tensor3, LoadError>)
    requires WellShaped(img)
    ensures r.Success? <==> Fits(img.rows, width) && Fits(img.cols, height) && Fits(img.chans, 3)
    ensures r.Success? ==> IsTensor3(r.value, width, height, 3)
    ensures r.Success? ==> forall a, b, k :: 0 <= a < width && 0 <= b < height && 0 <= k < 3 ==>
      r.value[a][b][k] == img.pixels[Spread(a, img.rows)][Spread(b, img.cols)][Spread(k, img.chans)]
  {
    if !(Fits(img.rows, width) && Fits(img.cols, height) && Fits(img.chans, 3)) then Failure(ShapeMismatch)
    else
      Success(seq(width, a requires 0 <= a < width =>
        seq(height, b requires 0 <= b < height =>
          seq(3, k requires 0 <= k < 3 =>
            img.pixels[Spread(a, img.rows)][Spread(b, img.cols)][Spread(k, img.chans)]))))
  }

  // ---------------------------------------------------------------------------
  // The planes

  function Zeros(rows: nat, cols: nat): (z: Plane)
    ensures IsMatrix(z, rows, cols)
    ensures forall a, b :: 0 <= a < rows && 0 <= b < cols ==> z[a][b] == 0.0
  {
    seq(rows, _ => seq(cols, _ => 0.0))
  }

  /** `img_tensor[0:W, 0:H, 0] / 255.` stored into a `W x H` plane: the
      slice keeps at most W rows and H columns, and the store broadcasts. */
  function ImagePlane(img: Image, width: nat, height: nat): (r: Result<Plane, LoadError>)
    requires WellShaped(img)
    ensures r.Success? <==>
      img.chans > 0 && Fits(Min(img.rows, width), width) && Fits(Min(img.cols, height), height)
    ensures r.Success? ==> IsMatrix(r.value, width, height)
    ensures r.Success? ==> forall a, b :: 0 <= a < width && 0 <= b < height ==>
      r.value[a][b] == img.pixels[Spread(a, Min(img.rows, width))][Spread(b, Min(img.cols, height))][0] / 255.0
  {
    if img.chans == 0 then Failure(NoImageChannel)
    else
      var rows := Min(img.rows, width);
      var cols := Min(img.cols, height);
      var slice := seq(rows, a requires 0 <= a < rows =>
        seq(cols, b requires 0 <= b < cols => img.pixels[a][b][0] / 255.0));
      BroadcastPlane(slice, rows, cols, width, height)
  }

  /** An image at least as large as the grid fills plane 0 with its own
      scaled top-left corner. */
  lemma ImagePlaneOfLargeImage(img: Image, width: nat, height: nat)
    requires WellShaped(img) && img.chans > 0 && width <= img.rows && height <= img.cols
    ensures ImagePlane(img, width, height).Success?
    ensures forall a, b :: 0 <= a < width && 0 <= b < height ==>
      ImagePlane(img, width, height).value[a][b] == img.pixels[a][b][0] / 255.0
  {
    var p := ImagePlane(img, width, height).value;
    forall a, b | 0 <= a < width && 0 <= b < height
      ensures p[a][b] == img.pixels[a][b][0] / 255.0
    {
      assert Spread(a, width) == a && Spread(b, height) == b;
    }
  }

  /** Plane 0 from the image and 16 zero planes: the arrays before the joint
      loop. */
  function InitialPlanes(plane0: Plane, width: nat, height: nat): (planes: seq<Plane>)
    requires IsMatrix(plane0, width, height)
    ensures |planes| == NumPlanes && planes[0] == plane0
    ensures forall p :: 0 <= p < NumPlanes ==> IsMatrix(planes[p], width, height)
    ensures forall p :: 1 <= p < NumPlanes ==> planes[p] == Zeros(width, height)
  {
    [plane0] + seq(NumPlanes - 1, _ => Zeros(width, height))
  }

  predicate ValidPlanes(planes: seq<Plane>, width: nat, height: nat) {
    |planes| == NumPlanes && forall p :: 0 <= p < NumPlanes ==> IsMatrix(planes[p], width, height)
  }

  /** The number of joints the loop visits: `zip` stops at the shorter list. */
  function JointCount(pose: Pose): nat {
    Min(|pose.xs|, |pose.ys|)
  }

  /** Joint `k` is visited by the loop and flagged visible. */
  predicate Visible(pose: Pose, k: nat) {
    k < JointCount(pose) && k < |pose.isVisible| && pose.isVisible[k] != 0
  }

  /** Joint `k`'s 5x5 stamp covers cell (a, b). */
  predicate JointCovers(pose: Pose, k: nat, a: int, b: int, width: nat, height: nat) {
    Visible(pose, k) &&
    InStamp(a, b, PixelOf(pose.ys[k], height), PixelOf(pose.xs[k], width), width, height)
  }

  /** The joint loop from joint `k` on raises nothing: every visited joint has
      a visibility flag, and every visible one a plane `k + offset` below 17. */
  predicate LoopSucceeds(pose: Pose, k: nat, offset: nat) {
    (k < JointCount(pose) ==> JointCount(pose) <= |pose.isVisible|) &&
    forall j :: k <= j < JointCount(pose) && pose.isVisible[j] != 0 ==> j + offset < NumPlanes
  }

  /** Sets the cells of `[py:py+5, px:px+5]` to 1. */
  function SetStamp(plane: Plane, py: int, px: int, width: nat, height: nat): (out: Plane)
    requires IsMatrix(plane, width, height)
    ensures IsMatrix(out, width, height)
    ensures forall a, b :: 0 <= a < width && 0 <= b < height ==>
      out[a][b] == (if InStamp(a, b, py, px, width, height) then 1.0 else plane[a][b])
  {
    seq(width, a requires 0 <= a < width =>
      seq(height, b requires 0 <= b < height =>
        if InStamp(a, b, py, px, width, height) then 1.0 else plane[a][b]))
  }

  /** The stamping loop of `load_binary_heatmap` from joint `k` on, joint `j`
      stamping plane `j + offset`. */
  function StampJoints(planes: seq<Plane>, pose: Pose, k: nat, offset: nat, width: nat, height: nat)
    : (r: Result<seq<Plane>, LoadError>)
    requires ValidPlanes(planes, width, height)
    ensures r.Success? <==> LoopSucceeds(pose, k, offset)
    ensures r.Success? ==> ValidPlanes(r.value, width, height)
    ensures r.Success? ==> forall p, a, b :: 0 <= p < NumPlanes && 0 <= a < width && 0 <= b < height ==>
      r.value[p][a][b] ==
        (if offset <= p && k <= p - offset && JointCovers(pose, p - offset, a, b, width, height) then 1.0
         else planes[p][a][b])
    decreases JointCount(pose) - k
  {
    if k >= JointCount(pose) then Success(planes)
    else if k >= |pose.isVisible| then Failure(MissingVisibility)
    else if pose.isVisible[k] != 0 then
      if k + offset >= NumPlanes then Failure(PlaneOutOfRange)
      else
        var p := k + offset;
        var stamped := SetStamp(planes[p], PixelOf(pose.ys[k], height), PixelOf(pose.xs[k], width), width, height);
        StampJoints(planes[p := stamped], pose, k + 1, offset, width, height)
    else
      StampJoints(planes, pose, k + 1, offset, width, height)
  }

  /** `load_binary_heatmap` with joint `j` written into plane `j + offset`. */
  function BinaryHeatmapAt(pose: Pose, img: Image, width: nat, height: nat, offset: nat)
    : (r: Result<seq<Plane>, LoadError>)
    requires WellShaped(img)
    ensures r.Success? <==> ImagePlane(img, width, height).Success? && LoopSucceeds(pose, 0, offset)
    ensures r.Success? ==> ValidPlanes(r.value, width, height)
    ensures r.Success? ==> forall p, a, b :: 0 <= p < NumPlanes && 0 <= a < width && 0 <= b < height ==>
      r.value[p][a][b] ==
        (if offset <= p && JointCovers(pose, p - offset, a, b, width, height) then 1.0
         else if p == 0 then ImagePlane(img, width, height).value[a][b]
         else 0.0)
  {
    var plane0 :- ImagePlane(img, width, height);
    StampJoints(InitialPlanes(plane0, width, height), pose, 0, offset, width, height)
  }

  /** `load_binary_heatmap` as written: the loop counter starts at 0, so
      joint k is stamped into plane k and joint 0 lands on the image plane. */
  function LoadBinaryHeatmap(pose: Pose, img: Image, width: nat, height: nat): (r: Result<seq<Plane>, LoadError>)
    requires WellShaped(img)
    ensures r.Success? <==> ImagePlane(img, width, height).Success? && LoopSucceeds(pose, 0, 0)
    ensures r.Success? ==> ValidPlanes(r.value, width, height)
    ensures r.Success? ==> forall p, a, b :: 0 <= p < NumPlanes && 0 <= a < width && 0 <= b < height ==>
      r.value[p][a][b] ==
        (if JointCovers(pose, p, a, b, width, height) then 1.0
         else if p == 0 then ImagePlane(img, width, height).value[a][b]
         else 0.0)
  {
    BinaryHeatmapAt(pose, img, width, height, 0)
  }

  /** With the loader as written, a visible joint 0 overwrites image pixels:
      on a black 10x10 image, a joint at the centre sets plane 0's centre to 1. */
  lemma BinaryHeatmapOverwritesImage()
    ensures var img := Image(10, 10, 1, seq(10, _ => seq(10, _ => [0.0])));
      var r := LoadBinaryHeatmap(Pose([0.0], [0.0], [0], [1]), img, 10, 10);
      r.Success? && ImagePlane(img, 10, 10).value[5][5] == 0.0 && r.value[0][5][5] == 1.0
  {
    var img := Image(10, 10, 1, seq(10, _ => seq(10, _ => [0.0])));
    var pose := Pose([0.0], [0.0], [0], [1]);
    assert PixelOf(0.0, 10) == 5;
    assert JointCovers(pose, 0, 5, 5, 10, 10);
    assert LoopSucceeds(pose, 0, 0);
    assert ImagePlane(img, 10, 10).Success?;
  }

  /** With the loader as written and at most 16 joints, the last plane is
      never stamped. */
  lemma BinaryHeatmapLastPlaneUnused(pose: Pose, img: Image, width: nat, height: nat)
    requires WellShaped(img) && JointCount(pose) <= NumPlanes - 1
    ensures var r := LoadBinaryHeatmap(pose, img, width, height);
      r.Success? ==> r.value[NumPlanes - 1] == Zeros(width, height)
  {
    var r := LoadBinaryHeatmap(pose, img, width, height);
    if r.Success? {
      forall a | 0 <= a < width
        ensures r.value[NumPlanes - 1][a] == Zeros(width, height)[a]
      {
      }
    }
  }

  /** The loader as the Gaussian loader's numbering intends: joint k in plane
      k + 1, plane 0 left to the image. */
  function LoadBinaryHeatmapCorrected(pose: Pose, img: Image, width: nat, height: nat)
    : (r: Result<seq<Plane>, LoadError>)
    requires WellShaped(img)
    ensures r.Success? <==> ImagePlane(img, width, height).Success? && LoopSucceeds(pose, 0, 1)
    ensures r.Success? ==> ValidPlanes(r.value, width, height)
    ensures r.Success? ==> r.value[0] == ImagePlane(img, width, height).value
    ensures r.Success? ==> forall p, a, b :: 1 <= p < NumPlanes && 0 <= a < width && 0 <= b < height ==>
      r.value[p][a][b] == (if JointCovers(pose, p - 1, a, b, width, height) then 1.0 else 0.0)
  {
    var r := BinaryHeatmapAt(pose, img, width, height, 1);
    if r.Failure? then r
    else
      var plane0 := ImagePlane(img, width, height).value;
      assert r.value[0] == plane0 by {
        forall a | 0 <= a < width
          ensures r.value[0][a] == plane0[a]
        {
        }
      }
      r
  }

  /** Every cell of the plane is 0 or 1. */
  ghost predicate IsBinary(plane: Plane, width: nat, height: nat)
    requires IsMatrix(plane, width, height)
  {
    forall a, b :: 0 <= a < width && 0 <= b < height ==> plane[a][b] == 0.0 || plane[a][b] == 1.0
  }

  /** Every joint plane of the corrected loader is binary, and a joint marked
      invisible leaves its plane all zero. */
  lemma CorrectedJointPlanes(pose: Pose, img: Image, width: nat, height: nat, k: nat)
    requires WellShaped(img) && k + 1 < NumPlanes
    ensures var r := LoadBinaryHeatmapCorrected(pose, img, width, height);
      r.Success? ==>
        IsBinary(r.value[k + 1], width, height) &&
        (!Visible(pose, k) ==> r.value[k + 1] == Zeros(width, height))
  {
    var r := LoadBinaryHeatmapCorrected(pose, img, width, height);
    if r.Success? && !Visible(pose, k) {
      forall a | 0 <= a < width
        ensures r.value[k + 1][a] == Zeros(width, height)[a]
      {
      }
    }
  }

  /** The Gaussian of a joint at (x, y), broadcast into a `width x height` plane. */
  function GaussPlane(gauss: (real, real) -> Plane, gaussRows: nat, gaussCols: nat,
                      x: real, y: real, width: nat, height: nat): (g: Result<Plane, LoadError>)
    requires forall x, y :: IsMatrix(gauss(x, y), gaussRows, gaussCols)
    ensures IsMatrix(gauss(x, y), gaussRows, gaussCols)
    ensures g.Success? <==> Fits(gaussRows, width) && Fits(gaussCols, height)
    ensures g.Success? ==> IsMatrix(g.value, width, height)
    ensures g.Success? ==> forall a, b :: 0 <= a < width && 0 <= b < height ==>
      g.value[a][b] == gauss(x, y)[Spread(a, gaussRows)][Spread(b, gaussCols)]
  {
    var src := gauss(x, y);
    assert IsMatrix(src, gaussRows, gaussCols);
    BroadcastPlane(src, gaussRows, gaussCols, width, height)
  }

  /** The joint loop of `load_gaussian_heatmap` from joint `k` on: a visible
      joint's plane `k + 1` is replaced by its Gaussian, broadcast into the
      plane. */
  function GaussianJoints(planes: seq<Plane>, pose: Pose, k: nat, gauss: (real, real) -> Plane,
                          gaussRows: nat, gaussCols: nat, width: nat, height: nat)
    : (r: Result<seq<Plane>, LoadError>)
    requires ValidPlanes(planes, width, height)
    requires forall x, y :: IsMatrix(gauss(x, y), gaussRows, gaussCols)
    ensures r.Success? <==> (LoopSucceeds(pose, k, 1) &&
      forall j :: k <= j < NumPlanes - 1 && Visible(pose, j) ==> Fits(gaussRows, width) && Fits(gaussCols, height))
    ensures r.Success? ==> ValidPlanes(r.value, width, height)
    ensures r.Success? ==> forall p :: 0 <= p < NumPlanes ==>
      r.value[p] ==
        (if 1 <= p && k <= p - 1 && Visible(pose, p - 1)
         then GaussPlane(gauss, gaussRows, gaussCols, pose.xs[p - 1], pose.ys[p - 1], width, height).value
         else planes[p])
    decreases JointCount(pose) - k
  {
    if k >= JointCount(pose) then Success(planes)
    else if k >= |pose.isVisible| then Failure(MissingVisibility)
    else if pose.isVisible[k] != 0 then
      if k + 1 >= NumPlanes then Failure(PlaneOutOfRange)
      else
        var g := GaussPlane(gauss, gaussRows, gaussCols, pose.xs[k], pose.ys[k], width, height);
        if g.Failure? then
          assert Visible(pose, k);
          Failure(g.error)
        else
          GaussianJoints(planes[k + 1 := g.value], pose, k + 1, gauss, gaussRows, gaussCols, width, height)
    else
      GaussianJoints(planes, pose, k + 1, gauss, gaussRows, gaussCols, width, height)
  }

  /** `load_gaussian_heatmap`: plane 0 is the image channel, plane k + 1 the
      Gaussian of joint k when it is visible and zero otherwise. */
  function LoadGaussianHeatmap(pose: Pose, img: Image, gauss: (real, real) -> Plane,
                               gaussRows: nat, gaussCols: nat, width: nat, height: nat)
    : (r: Result<seq<Plane>, LoadError>)
    requires WellShaped(img)
    requires forall x, y :: IsMatrix(gauss(x, y), gaussRows, gaussCols)
    ensures r.Success? <==> (ImagePlane(img, width, height).Success? && LoopSucceeds(pose, 0, 1) &&
      forall j :: 0 <= j < NumPlanes - 1 && Visible(pose, j) ==> Fits(gaussRows, width) && Fits(gaussCols, height))
    ensures r.Success? ==> ValidPlanes(r.value, width, height)
    ensures r.Success? ==> r.value[0] == ImagePlane(img, width, height).value
    ensures r.Success? ==> forall p :: 1 <= p < NumPlanes ==>
      r.value[p] ==
        (if Visible(pose, p - 1)
         then GaussPlane(gauss, gaussRows, gaussCols, pose.xs[p - 1], pose.ys[p - 1], width, height).value
         else Zeros(width, height))
  {
    var plane0 :- ImagePlane(img, width, height);
    GaussianJoints(InitialPlanes(plane0, width, height), pose, 0, gauss, gaussRows, gaussCols, width, height)
  }

  /** The corrected binary loader and the Gaussian loader agree on which
      plane belongs to which joint: a stamped cell in plane p means the
      Gaussian plane p holds joint p - 1's Gaussian, and a Gaussian plane
      that is all zero because its joint is invisible has an all-zero binary
      partner. */
  lemma BinaryAndGaussianPlanesAgree(pose: Pose, img: Image, gauss: (real, real) -> Plane,
                                     gaussRows: nat, gaussCols: nat, width: nat, height: nat, p: nat)
    requires WellShaped(img)
    requires forall x, y :: IsMatrix(gauss(x, y), gaussRows, gaussCols)
    requires 1 <= p < NumPlanes
    ensures var bin := LoadBinaryHeatmapCorrected(pose, img, width, height);
      var reg := LoadGaussianHeatmap(pose, img, gauss, gaussRows, gaussCols, width, height);
      bin.Success? && reg.Success? ==>
        bin.value[0] == reg.value[0] &&
        (forall a, b :: 0 <= a < width && 0 <= b < height && bin.value[p][a][b] == 1.0 ==>
          reg.value[p] == GaussPlane(gauss, gaussRows, gaussCols, pose.xs[p - 1], pose.ys[p - 1], width, height).value) &&
        (!Visible(pose, p - 1) ==> bin.value[p] == reg.value[p])
  {
    var bin := LoadBinaryHeatmapCorrected(pose, img, width, height);
    if bin.Success? {
      CorrectedJointPlanes(pose, img, width, height, p - 1);
    }
  }

  // ---------------------------------------------------------------------------
  // Fetching examples and batching

  /** The collaborators the iterator calls but that are not part of this
      model: `extract` stands for JPEG decoding, cropping and
      `extract_labeled_joints` for one person, `gauss` for `gaussian2d`,
      whose arrays are `gaussRows x gaussCols`. */
  datatype Collaborators = Collaborators(
    extract: (string, MpiiRead.Person) -> (Image, Pose),
    gauss: (real, real) -> Plane, gaussRows: nat, gaussCols: nat)

  ghost predicate ValidCollaborators(c: Collaborators) {
    (forall f, person :: WellShaped(c.extract(f, person).0)) &&
    (forall x, y :: IsMatrix(c.gauss(x, y), c.gaussRows, c.gaussCols))
  }

  /** `fetch_example`: the loop over the image's people keeps only the last
      person's crop and pose; with no people the result is never bound. */
  function FetchExample(fname: string, people: seq<MpiiRead.Person>, c: Collaborators)
    : (r: Result<(Image, Pose), LoadError>)
    ensures r.Success? <==> |people| > 0
    ensures r.Success? ==> r.value == c.extract(fname, people[|people| - 1])
  {
    if |people| == 0 then Failure(NoPeople) else Success(c.extract(fname, people[|people| - 1]))
  }

  /** One batch element: the image and its two label stacks. */
  datatype Example = Example(image: Tensor3, binary: seq<Plane>, gaussian: seq<Plane>)

  /** One iteration of the batch loop in `next`: the last person's crop, its
      binary planes from the loader as written, and its Gaussian planes. */
  function LoadExample(fname: string, people: seq<MpiiRead.Person>, width: nat, height: nat, c: Collaborators)
    : (r: Result<Example, LoadError>)
    requires ValidCollaborators(c)
    ensures r.Success? ==> |people| > 0
  {
    var fetched :- FetchExample(fname, people, c);
    var (img, pose) := fetched;
    var x :- BroadcastImage(img, width, height);
    var bin :- LoadBinaryHeatmap(pose, img, width, height);
    var reg :- LoadGaussianHeatmap(pose, img, c.gauss, c.gaussRows, c.gaussCols, width, height);
    Success(Example(x, bin, reg))
  }

  /** A loaded example is made of the last person's crop and pose: the crop
      broadcast into the slot, its binary planes and its Gaussian planes; and
      it loads whenever each of the three stages does. */
  lemma LoadExampleStages(fname: string, people: seq<MpiiRead.Person>, width: nat, height: nat, c: Collaborators)
    requires ValidCollaborators(c)
    requires |people| > 0
    ensures var (img, pose) := c.extract(fname, people[|people| - 1]);
      var r := LoadExample(fname, people, width, height, c);
      WellShaped(img) &&
      (r.Success? <==> BroadcastImage(img, width, height).Success? &&
                       LoadBinaryHeatmap(pose, img, width, height).Success? &&
                       LoadGaussianHeatmap(pose, img, c.gauss, c.gaussRows, c.gaussCols, width, height).Success?) &&
      (r.Success? ==>
        BroadcastImage(img, width, height) == Success(r.value.image) &&
        LoadBinaryHeatmap(pose, img, width, height) == Success(r.value.binary) &&
        LoadGaussianHeatmap(pose, img, c.gauss, c.gaussRows, c.gaussCols, width, height) == Success(r.value.gaussian))
  {
  }

  /** The iterator's state: the parsed dataset and the cursor. */
  datatype Iterator = Iterator(data: MpiiRead.MpiiDataset, currStep: nat, width: nat, height: nat, batchSize: nat)

  /** `MPIIBatchIterator.__init__`: the cursor starts at the first entry. */
  function NewIterator(data: MpiiRead.MpiiDataset, batchSize: nat, width: nat, height: nat): (it: Iterator)
    ensures it.currStep == 0 && it.data == data
    ensures it.batchSize == batchSize && it.width == width && it.height == height
  {
    Iterator(data, 0, width, height, batchSize)
  }

  /** One iteration's work on a file name and its people. */
  type EntryLoader = (string, seq<MpiiRead.Person>) -> Result<Example, LoadError>

  /** Iteration `i` of the batch loop over the lists `fnames` and `people`:
      indexing past the end of either list raises. */
  function ExampleAt(fnames: seq<string>, people: seq<seq<MpiiRead.Person>>, i: nat, load: EntryLoader)
    : Result<Example, LoadError>
  {
    if i < |fnames| && i < |people| then load(fnames[i], people[i]) else Failure(ShortBatch)
  }

  /** The batch loop of `next`: iterations 0 to `count - 1` in order, the
      first one that raises ending the loop. */
  function LoadBatch(fnames: seq<string>, people: seq<seq<MpiiRead.Person>>, count: nat, load: EntryLoader)
    : (r: Result<seq<Example>, LoadError>)
    ensures r.Success? <==> forall i :: 0 <= i < count ==> ExampleAt(fnames, people, i, load).Success?
    ensures r.Success? ==> |r.value| == count
    ensures r.Success? ==> forall i :: 0 <= i < count ==> ExampleAt(fnames, people, i, load) == Success(r.value[i])
  {
    var entry := (i: nat) => ExampleAt(fnames, people, i, load);
    var r := RunLoop(count, entry);
    assert forall i :: 0 <= i < count ==> entry(i) == ExampleAt(fnames, people, i, load);
    r
  }

  /** Python's `l[s:s + n]` for a non-negative start. */
  function Slice<T>(l: seq<T>, s: nat, n: nat): (r: seq<T>)
    ensures |r| == Min(n, |l| - Min(s, |l|))
    ensures forall i :: 0 <= i < |r| ==> r[i] == l[s + i]
  {
    l[SliceBound(s, |l|)..SliceBound(s + n, |l|)]
  }

  /** Iteration `i` over the two slices taken at the cursor is iteration
      `s + i` over the whole lists. */
  lemma SliceExampleAt(fnames: seq<string>, people: seq<seq<MpiiRead.Person>>, s: nat, n: nat, i: nat,
                       load: EntryLoader)
    requires i < n
    ensures ExampleAt(Slice(fnames, s, n), Slice(people, s, n), i, load) == ExampleAt(fnames, people, s + i, load)
  {
    var f := Slice(fnames, s, n);
    var p := Slice(people, s, n);
    assert i < |f| <==> s + i < |fnames|;
    assert i < |p| <==> s + i < |people|;
  }

  /** Iterations over the two slices are the iterations over the whole
      lists in the window from `s`. */
  lemma SliceWindow(fnames: seq<string>, people: seq<seq<MpiiRead.Person>>, s: nat, n: nat, load: EntryLoader)
    ensures forall j :: s <= j < s + n ==>
      ExampleAt(fnames, people, j, load) == ExampleAt(Slice(fnames, s, n), Slice(people, s, n), j - s, load)
  {
    forall j | s <= j < s + n
      ensures ExampleAt(fnames, people, j, load) == ExampleAt(Slice(fnames, s, n), Slice(people, s, n), j - s, load)
    {
      SliceExampleAt(fnames, people, s, n, j - s, load);
    }
  }

  /** `next`, with `load` the per-entry work (`ExampleLoader` in the
      iterator, see `IteratorEntry`): loads the `batchSize` entries from the cursor on and
      advances the cursor by `batchSize`; an exception leaves the cursor
      where it was. */
  function Next(it: Iterator, load: EntryLoader): (r: Result<(seq<Example>, Iterator), LoadError>)
    ensures r.Success? <==> forall j :: it.currStep <= j < it.currStep + it.batchSize ==>
      ExampleAt(it.data.imgFilenames, it.data.peopleInImgs, j, load).Success?
    ensures r.Success? ==> r.value.1 == it.(currStep := it.currStep + it.batchSize)
    ensures r.Success? ==> |r.value.0| == it.batchSize
    ensures r.Success? ==> forall j :: it.currStep <= j < it.currStep + it.batchSize ==>
      ExampleAt(it.data.imgFilenames, it.data.peopleInImgs, j, load) == Success(r.value.0[j - it.currStep])
  {
    var s := it.currStep;
    var n := it.batchSize;
    var fnames := Slice(it.data.imgFilenames, s, n);
    var people := Slice(it.data.peopleInImgs, s, n);
    SliceWindow(it.data.imgFilenames, it.data.peopleInImgs, s, n, load);
    var batch := LoadBatch(fnames, people, n, load);
    if batch.Failure? then
      assert !forall j :: s <= j < s + n ==> ExampleAt(it.data.imgFilenames, it.data.peopleInImgs, j, load).Success? by {
        var i :| 0 <= i < n && !ExampleAt(fnames, people, i, load).Success?;
        assert !ExampleAt(it.data.imgFilenames, it.data.peopleInImgs, s + i, load).Success?;
      }
      Failure(batch.error)
    else
      Success((batch.value, it.(currStep := s + n)))
  }

  /** The per-entry work of the iterator's `next`. */
  function ExampleLoader(width: nat, height: nat, c: Collaborators): EntryLoader
    requires ValidCollaborators(c)
  {
    (f: string, p: seq<MpiiRead.Person>) => LoadExample(f, p, width, height, c)
  }

  /** Iteration `j` of the iterator's batch loop loads file `j` with its
      people through `LoadExample` (so with the binary loader as written),
      and raises IndexError when either list has no entry `j`. */
  lemma IteratorEntry(fnames: seq<string>, people: seq<seq<MpiiRead.Person>>, j: nat, width: nat, height: nat,
                      c: Collaborators)
    requires ValidCollaborators(c)
    ensures ExampleAt(fnames, people, j, ExampleLoader(width, height, c)) ==
      if j < |fnames| && j < |people| then LoadExample(fnames[j], people[j], width, height, c) else Failure(ShortBatch)
  {
  }

  /** A call of `next` is determined by the loader's results in its window:
      any batch that matches them is the one it returns. */
  lemma NextWindow(it: Iterator, load: EntryLoader, b: seq<Example>)
    requires IsWindow(it.data.imgFilenames, it.data.peopleInImgs, load, it.currStep, it.batchSize, b)
    ensures Next(it, load) == Success((b, it.(currStep := it.currStep + it.batchSize)))
  {
    var r := Next(it, load);
    assert r.Success?;
    forall i | 0 <= i < |b|
      ensures r.value.0[i] == b[i]
    {
      assert ExampleAt(it.data.imgFilenames, it.data.peopleInImgs, it.currStep + i, load) == Success(b[i]);
    }
    assert r.value.0 == b;
  }

  /** The loader's results in a window, as a predicate on a candidate batch. */
  predicate IsWindow(fnames: seq<string>, people: seq<seq<MpiiRead.Person>>, load: EntryLoader,
                     s: nat, n: nat, b: seq<Example>) {
    |b| == n && forall j :: s <= j < s + n ==> ExampleAt(fnames, people, j, load) == Success(b[j - s])
  }

  /** Two adjacent windows of loader results make one window of twice the size. */
  lemma JoinWindows(fnames: seq<string>, people: seq<seq<MpiiRead.Person>>, load: EntryLoader,
                    s: nat, n: nat, b1: seq<Example>, b2: seq<Example>)
    requires IsWindow(fnames, people, load, s, n, b1)
    requires IsWindow(fnames, people, load, s + n, n, b2)
    ensures IsWindow(fnames, people, load, s, 2 * n, b1 + b2)
  {
    forall j | s <= j < s + 2 * n
      ensures ExampleAt(fnames, people, j, load) == Success((b1 + b2)[j - s])
    {
      if j < s + n {
        assert (b1 + b2)[j - s] == b1[j - s];
      } else {
        assert (b1 + b2)[j - s] == b2[j - (s + n)];
      }
    }
  }

  /** A successful `next` returns the loader's results in its window. */
  lemma NextReadsWindow(it: Iterator, load: EntryLoader)
    requires Next(it, load).Success?
    ensures IsWindow(it.data.imgFilenames, it.data.peopleInImgs, load, it.currStep, it.batchSize, Next(it, load).value.0)
    ensures Next(it, load).value.1 == it.(currStep := it.currStep + it.batchSize)
  {
  }

  /** Two successful calls of `next` read consecutive, non-overlapping
      windows of the dataset: together the same entries as one call with a
      doubled batch size. */
  lemma NextAdvances(it: Iterator, load: EntryLoader)
    requires Next(it, load).Success?
    ensures var it2 := Next(it, load).value.1;
      it2.currStep == it.currStep + it.batchSize && it2.data == it.data && it2.batchSize == it.batchSize &&
      (Next(it2, load).Success? ==>
        var both := Next(it.(batchSize := 2 * it.batchSize), load);
        both.Success? && both.value.0 == Next(it, load).value.0 + Next(it2, load).value.0 &&
        both.value.1.currStep == Next(it2, load).value.1.currStep)
  {
    var d := it.data;
    var s := it.currStep;
    var n := it.batchSize;
    NextReadsWindow(it, load);
    var it2 := Next(it, load).value.1;
    if Next(it2, load).Success? {
      NextReadsWindow(it2, load);
      var b1 := Next(it, load).value.0;
      var b2 := Next(it2, load).value.0;
      JoinWindows(d.imgFilenames, d.peopleInImgs, load, s, n, b1, b2);
      NextWindow(it.(batchSize := 2 * n), load, b1 + b2);
    }
  }
}
