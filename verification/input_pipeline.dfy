/** The label handling of the training and evaluation input pipeline.

    Images and ground-truth maps are rank-3 tensors laid out as
    [row][column][channel]. The random draws (the flip coin, the colour
    jitter magnitudes, the rotation angle), the Gaussian heatmap numerics and
    the rotation's interpolation are parameters: only the order in which they
    are applied, and the fact that labels and weights pass through them
    untouched, are modelled. */
module InputPipeline {
  import opened Wrappers
  import opened Tensors
  import MpiiRead

  /** Person.NUM_JOINTS: one map channel and one weight per joint. */
  const NumJoints: nat := MpiiRead.NumJoints

  /** The colour channels of a decoded image. */
  const ImageChannels: nat := 3

  /** Everything the per-example preprocessing can raise. */
  datatype PipelineError =
    | Sparse(cause: SparseError)   // tf.sparse_to_dense rejected its inputs
    | ImageSizeMismatch            // the decoded image does not reshape to [D, D, 3]
    | BinaryMapSizeMismatch        // the raw map buffer does not reshape to [D, D, 16]
    | WeightShapeMismatch          // an element-wise product of vectors of unequal length

  // ---------------------------------------------------------------------------
  // The left/right joint permutation

  /** LEFT_RIGHT_FLIPPED_INDICES: after mirroring, slot i holds what used to
      be in slot LeftRightFlippedIndices[i]. */
  const LeftRightFlippedIndices: seq<nat> := [5, 4, 3, 2, 1, 0, 6, 7, 8, 9, 15, 14, 13, 12, 11, 10]

  function OtherSide(s: MpiiRead.Side): MpiiRead.Side {
    match s
    case Right => MpiiRead.Left
    case Left => MpiiRead.Right
  }

  /** The joint that a mirror image shows in the place of `j`: limbs change
      side, joints on the body's axis stay where they are. */
  function Mirror(j: MpiiRead.Joint): MpiiRead.Joint {
    match j
    case Ankle(s) => MpiiRead.Ankle(OtherSide(s))
    case Knee(s) => MpiiRead.Knee(OtherSide(s))
    case Hip(s) => MpiiRead.Hip(OtherSide(s))
    case Wrist(s) => MpiiRead.Wrist(OtherSide(s))
    case Elbow(s) => MpiiRead.Elbow(OtherSide(s))
    case Shoulder(s) => MpiiRead.Shoulder(OtherSide(s))
    case Pelvis => j
    case Thorax => j
    case UpperNeck => j
    case HeadTop => j
  }

  /** Mirroring twice gives the joint back. */
  lemma MirrorInvolution(j: MpiiRead.Joint)
    ensures Mirror(Mirror(j)) == j
  {
  }

  /** The slot of a joint's mirror image points back at the joint's own slot. */
  lemma MirrorSlot(j: MpiiRead.Joint)
    ensures LeftRightFlippedIndices[MpiiRead.IdOfJoint(Mirror(j))] == MpiiRead.IdOfJoint(j)
  {
    LeftRightTableMirrors();
    MirrorInvolution(j);
  }

  /** The table sends every joint slot to the slot of its mirror-image joint. */
  lemma LeftRightTableMirrors()
    ensures |LeftRightFlippedIndices| == NumJoints
    ensures forall i :: 0 <= i < NumJoints ==>
      LeftRightFlippedIndices[i] == MpiiRead.IdOfJoint(Mirror(MpiiRead.JointTable[i]))
  {
  }

  /** The table is its own inverse and fixes exactly the four axial joints
      (slots 6 to 9). */
  lemma LeftRightTableInvolution()
    ensures forall i :: 0 <= i < NumJoints ==>
      LeftRightFlippedIndices[i] < NumJoints && LeftRightFlippedIndices[LeftRightFlippedIndices[i]] == i
    ensures forall i :: 0 <= i < NumJoints ==> (LeftRightFlippedIndices[i] == i <==> 6 <= i <= 9)
  {
  }

  /** The table holds every slot exactly once. */
  lemma LeftRightTableIsPermutation()
    ensures IsPermutation(LeftRightFlippedIndices, NumJoints)
  {
    var legs: seq<nat> := [0, 1, 2, 3, 4, 5];
    var axis: seq<nat> := [6, 7, 8, 9];
    var arms: seq<nat> := [10, 11, 12, 13, 14, 15];
    assert LeftRightFlippedIndices == Reverse(legs) + axis + Reverse(arms);
    assert Range(NumJoints) == legs + axis + arms;
    ReverseMultiset(legs);
    ReverseMultiset(arms);
  }

  // ---------------------------------------------------------------------------
  // Flipping weight vectors (_maybe_flip_weights)

  /** `tf.gather(weights, LEFT_RIGHT_FLIPPED_INDICES)`: slot i takes the
      weight of slot LeftRightFlippedIndices[i]; nothing is lost or duplicated. */
  function FlipWeights(w: seq<real>): (r: seq<real>)
    requires |w| == NumJoints
    ensures |r| == NumJoints
    ensures forall i :: 0 <= i < NumJoints ==>
      LeftRightFlippedIndices[i] < NumJoints && r[i] == w[LeftRightFlippedIndices[i]]
    ensures multiset(r) == multiset(w)
  {
    LeftRightTableInvolution();
    var r := Gather(w, LeftRightFlippedIndices);
    assert multiset(r) == multiset(w) by {
      LeftRightTableIsPermutation();
      GatherPermutation(w, LeftRightFlippedIndices);
    }
    r
  }

  /** In joint terms: the weight of every joint moves to the slot of its
      mirror-image joint. */
  lemma FlipWeightsMovesJoints(w: seq<real>, j: MpiiRead.Joint)
    requires |w| == NumJoints
    ensures FlipWeights(w)[MpiiRead.IdOfJoint(Mirror(j))] == w[MpiiRead.IdOfJoint(j)]
  {
    var slot := MpiiRead.IdOfJoint(Mirror(j));
    MirrorSlot(j);
    assert FlipWeights(w)[slot] == w[LeftRightFlippedIndices[slot]];
  }

  /** Flipping a weight vector twice gives it back. */
  lemma FlipWeightsInvolution(w: seq<real>)
    requires |w| == NumJoints
    ensures FlipWeights(FlipWeights(w)) == w
  {
    LeftRightTableInvolution();
    var f := FlipWeights(FlipWeights(w));
    forall i | 0 <= i < NumJoints
      ensures f[i] == w[i]
    {
      assert f[i] == FlipWeights(w)[LeftRightFlippedIndices[i]];
    }
  }

  /** `_maybe_flip_weights`: the weights permuted left-right when
      `shouldFlip`, untouched otherwise. */
  function MaybeFlipWeights(w: seq<real>, shouldFlip: bool): (r: seq<real>)
    requires |w| == NumJoints
    ensures |r| == NumJoints && multiset(r) == multiset(w)
    ensures forall i :: 0 <= i < NumJoints ==>
      r[i] == if shouldFlip then w[LeftRightFlippedIndices[i]] else w[i]
  {
    if shouldFlip then FlipWeights(w) else w
  }

  /** The same decision applied twice undoes itself. */
  lemma MaybeFlipWeightsTwice(w: seq<real>, shouldFlip: bool)
    requires |w| == NumJoints
    ensures MaybeFlipWeights(MaybeFlipWeights(w, shouldFlip), shouldFlip) == w
  {
    if shouldFlip {
      FlipWeightsInvolution(w);
    }
  }

  // ---------------------------------------------------------------------------
  // Flipping joint maps (_flip_with_left_right_permutation, _maybe_flip_maps)

  /** Reorders the channels of every pixel through the left/right table. */
  function PermuteChannels(m: Tensor3): (out: Tensor3)
    requires HasChannels(m, NumJoints)
  {
    seq(|m|, r requires 0 <= r < |m| =>
      seq(|m[r]|, c requires 0 <= c < |m[r]| => Gather(m[r][c], LeftRightFlippedIndices)))
  }

  /** Mirrors the maps along their width and moves every joint's plane to
      the plane of its mirror-image joint. */
  function FlipMaps(m: Tensor3): (out: Tensor3)
    requires HasChannels(m, NumJoints)
    ensures |out| == |m| && forall r :: 0 <= r < |m| ==> |out[r]| == |m[r]|
    ensures HasChannels(out, NumJoints)
    ensures forall r, c, ch :: 0 <= r < |m| && 0 <= c < |m[r]| && 0 <= ch < NumJoints ==>
      out[r][c][ch] == m[r][|m[r]| - 1 - c][LeftRightFlippedIndices[ch]]
  {
    var f := FlipLeftRight(m);
    assert HasChannels(f, NumJoints) by {
      forall r, c | 0 <= r < |f| && 0 <= c < |f[r]|
        ensures |f[r][c]| == NumJoints
      {
        assert f[r][c] == m[r][|m[r]| - 1 - c] by {
          assert f[r][|m[r]| - 1 - (|m[r]| - 1 - c)] == m[r][|m[r]| - 1 - c];
        }
      }
    }
    var out := PermuteChannels(f);
    assert forall r, c :: 0 <= r < |m| && 0 <= c < |m[r]| ==> f[r][c] == m[r][|m[r]| - 1 - c] by {
      forall r, c | 0 <= r < |m| && 0 <= c < |m[r]|
        ensures f[r][c] == m[r][|m[r]| - 1 - c]
      {
        assert f[r][|m[r]| - 1 - (|m[r]| - 1 - c)] == m[r][|m[r]| - 1 - c];
      }
    }
    out
  }

  /** In joint terms: the mirrored maps show joint `j`'s plane, mirrored, as
      the plane of `Mirror(j)`. */
  lemma FlipMapsMovesJoints(m: Tensor3, j: MpiiRead.Joint, r: nat, c: nat)
    requires HasChannels(m, NumJoints)
    requires r < |m| && c < |m[r]|
    ensures FlipMaps(m)[r][|m[r]| - 1 - c][MpiiRead.IdOfJoint(Mirror(j))] == m[r][c][MpiiRead.IdOfJoint(j)]
  {
    var slot := MpiiRead.IdOfJoint(Mirror(j));
    MirrorSlot(j);
    var c' := |m[r]| - 1 - c;
    assert FlipMaps(m)[r][c'][slot] == m[r][|m[r]| - 1 - c'][LeftRightFlippedIndices[slot]];
  }

  /** Flipping one pixel's channels twice gives them back. */
  lemma FlipMapsTwicePixel(m: Tensor3, r: nat, c: nat)
    requires HasChannels(m, NumJoints)
    requires r < |m| && c < |m[r]|
    ensures FlipMaps(FlipMaps(m))[r][c] == m[r][c]
  {
    LeftRightTableInvolution();
    var f := FlipMaps(m);
    var g := FlipMaps(f);
    var w := |m[r]|;
    forall ch | 0 <= ch < NumJoints
      ensures g[r][c][ch] == m[r][c][ch]
    {
      assert g[r][c][ch] == f[r][w - 1 - c][LeftRightFlippedIndices[ch]];
      assert f[r][w - 1 - c][LeftRightFlippedIndices[ch]] ==
        m[r][w - 1 - (w - 1 - c)][LeftRightFlippedIndices[LeftRightFlippedIndices[ch]]];
    }
  }

  /** Flipping maps twice gives them back. */
  lemma FlipMapsInvolution(m: Tensor3)
    requires HasChannels(m, NumJoints)
    ensures FlipMaps(FlipMaps(m)) == m
  {
    var g := FlipMaps(FlipMaps(m));
    forall r | 0 <= r < |m|
      ensures g[r] == m[r]
    {
      forall c | 0 <= c < |m[r]|
        ensures g[r][c] == m[r][c]
      {
        FlipMapsTwicePixel(m, r, c);
      }
    }
  }

  /** `_maybe_flip_maps`. */
  function MaybeFlipMaps(m: Tensor3, shouldFlip: bool): (out: Tensor3)
    requires HasChannels(m, NumJoints)
    ensures |out| == |m| && forall r :: 0 <= r < |m| ==> |out[r]| == |m[r]|
    ensures HasChannels(out, NumJoints)
    ensures !shouldFlip ==> out == m
    ensures shouldFlip ==> FlipMaps(out) == m
  {
    if shouldFlip then
      FlipMapsInvolution(m);
      FlipMaps(m)
    else m
  }

  /** `tf.image.flip_left_right` on the image when `shouldFlip`. */
  function MaybeFlipImage(image: Tensor3, shouldFlip: bool): (out: Tensor3)
    ensures |out| == |image| && forall r :: 0 <= r < |image| ==> |out[r]| == |image[r]|
    ensures !shouldFlip ==> out == image
    ensures shouldFlip ==> FlipLeftRight(out) == image
  {
    if shouldFlip then
      FlipLeftRightInvolution(image);
      FlipLeftRight(image)
    else image
  }

  /** The outcome of `_randomly_flip`: the three tensors and the one decision
      that was applied to all of them. */
  datatype Flipped = Flipped(image: Tensor3, binaryMaps: Tensor3, heatmaps: Tensor3, shouldFlip: bool)

  /** `_randomly_flip`, with the uniform draw `coin` passed in: a single
      decision, `coin < 0.5`, flips the image and both kinds of maps together. */
  function RandomlyFlip(image: Tensor3, binaryMaps: Tensor3, heatmaps: Tensor3, coin: real): (r: Flipped)
    requires HasChannels(binaryMaps, NumJoints) && HasChannels(heatmaps, NumJoints)
    ensures r.shouldFlip <==> coin < 0.5
    ensures r.image == MaybeFlipImage(image, r.shouldFlip)
    ensures r.binaryMaps == MaybeFlipMaps(binaryMaps, r.shouldFlip)
    ensures r.heatmaps == MaybeFlipMaps(heatmaps, r.shouldFlip)
  {
    var shouldFlip := coin < 0.5;
    Flipped(MaybeFlipImage(image, shouldFlip), MaybeFlipMaps(binaryMaps, shouldFlip),
            MaybeFlipMaps(heatmaps, shouldFlip), shouldFlip)
  }

  /** Flipping with the same draw a second time restores all three tensors. */
  lemma RandomlyFlipTwice(image: Tensor3, binaryMaps: Tensor3, heatmaps: Tensor3, coin: real)
    requires HasChannels(binaryMaps, NumJoints) && HasChannels(heatmaps, NumJoints)
    ensures var f := RandomlyFlip(image, binaryMaps, heatmaps, coin);
      var g := RandomlyFlip(f.image, f.binaryMaps, f.heatmaps, coin);
      g.image == image && g.binaryMaps == binaryMaps && g.heatmaps == heatmaps
  {
    var f := RandomlyFlip(image, binaryMaps, heatmaps, coin);
    if f.shouldFlip {
      FlipLeftRightInvolution(f.image);
      FlipMapsInvolution(f.binaryMaps);
      FlipMapsInvolution(f.heatmaps);
    }
  }

  // ---------------------------------------------------------------------------
  // Visibility weights (_get_is_visible_weights)

  /** The sparse visibility flags densified over the joint slots (0 where a
      joint is absent), multiplied element-wise by the presence weights. */
  function IsVisibleWeights(sparseJointIndices: seq<int>, isVisibleList: seq<int>, weights: seq<real>)
    : (r: Result<seq<real>, PipelineError>)
    ensures r.Success? <==>
      |isVisibleList| == |sparseJointIndices| && ValidSparseIndices(sparseJointIndices, NumJoints) &&
      |weights| == NumJoints
    ensures r.Success? ==> |r.value| == NumJoints
    ensures r.Success? ==> forall k :: 0 <= k < |sparseJointIndices| ==>
      r.value[sparseJointIndices[k]] == weights[sparseJointIndices[k]] * (isVisibleList[k] as real)
    ensures r.Success? ==> forall i :: 0 <= i < NumJoints && i !in sparseJointIndices ==> r.value[i] == 0.0
  {
    match ScatterDense(sparseJointIndices, isVisibleList, NumJoints, 0)
    case Failure(e) => Failure(Sparse(e))
    case Success(dense) =>
      if |weights| != |dense| then Failure(WeightShapeMismatch)
      else Success(seq(NumJoints, i requires 0 <= i < NumJoints => weights[i] * (dense[i] as real)))
  }

  /** With 0/1 flags and non-negative weights, a visibility weight lies
      between 0 and the presence weight, and is 0 wherever that weight is. */
  lemma IsVisibleWeightsBounded(sparseJointIndices: seq<int>, isVisibleList: seq<int>, weights: seq<real>)
    requires forall k :: 0 <= k < |isVisibleList| ==> isVisibleList[k] == 0 || isVisibleList[k] == 1
    requires forall i :: 0 <= i < |weights| ==> weights[i] >= 0.0
    ensures var r := IsVisibleWeights(sparseJointIndices, isVisibleList, weights);
      r.Success? ==> forall i :: 0 <= i < NumJoints ==>
        0.0 <= r.value[i] <= weights[i] && (weights[i] == 0.0 ==> r.value[i] == 0.0)
  {
    var r := IsVisibleWeights(sparseJointIndices, isVisibleList, weights);
    if r.Success? {
      forall i | 0 <= i < NumJoints
        ensures 0.0 <= r.value[i] <= weights[i] && (weights[i] == 0.0 ==> r.value[i] == 0.0)
      {
        if i in sparseJointIndices {
          var k :| 0 <= k < |sparseJointIndices| && sparseJointIndices[k] == i;
          assert r.value[i] == weights[i] * (isVisibleList[k] as real);
        }
      }
    }
  }

  // ---------------------------------------------------------------------------
  // Binary maps (_decode_binary_maps)

  /** `tf.decode_raw(..., tf.uint8)` followed by the cast to float. */
  function BytesToReal(buf: seq<byte>): (v: seq<real>)
    ensures |v| == |buf|
    ensures forall i :: 0 <= i < |buf| ==> v[i] == buf[i] as real && 0.0 <= v[i] <= 255.0
  {
    seq(|buf|, i requires 0 <= i < |buf| => buf[i] as real)
  }

  /** Every value of a decoded map lies in 0..255. */
  lemma DecodedRange(buf: seq<byte>, dim: nat)
    requires |buf| == dim * dim * NumJoints
    ensures InRange(Reshape3(BytesToReal(buf), dim, dim, NumJoints), 0.0, 255.0)
  {
    var t := Reshape3(BytesToReal(buf), dim, dim, NumJoints);
    forall r, c, k | 0 <= r < |t| && 0 <= c < |t[r]| && 0 <= k < |t[r][c]|
      ensures 0.0 <= t[r][c][k] <= 255.0
    {
      Reshape3At(BytesToReal(buf), dim, dim, NumJoints, r, c, k);
    }
  }

  /** Every element of a decoded map, located in the flat buffer. */
  lemma DecodedElements(buf: seq<byte>, dim: nat)
    requires |buf| == dim * dim * NumJoints
    ensures var t := Reshape3(BytesToReal(buf), dim, dim, NumJoints);
      forall row, c, j :: 0 <= row < dim && 0 <= c < dim && 0 <= j < NumJoints ==>
        FlatIndex(dim, NumJoints, row, c, j) < |buf| &&
        t[row][c][j] == buf[FlatIndex(dim, NumJoints, row, c, j)] as real
  {
    forall row, c, j | 0 <= row < dim && 0 <= c < dim && 0 <= j < NumJoints
      ensures FlatIndex(dim, NumJoints, row, c, j) < |buf|
      ensures Reshape3(BytesToReal(buf), dim, dim, NumJoints)[row][c][j] ==
        buf[FlatIndex(dim, NumJoints, row, c, j)] as real
    {
      Reshape3At(BytesToReal(buf), dim, dim, NumJoints, row, c, j);
    }
  }

  /** `_decode_binary_maps`: the buffer must hold exactly dim*dim*16 bytes;
      element [r][c][j] is byte (r*dim + c)*16 + j, and every value lies in
      0..255. */
  function DecodeBinaryMaps(buf: seq<byte>, dim: nat): (r: Result<Tensor3, PipelineError>)
    ensures r.Success? <==> |buf| == dim * dim * NumJoints
    ensures r.Success? ==> IsTensor3(r.value, dim, dim, NumJoints) && InRange(r.value, 0.0, 255.0)
    ensures r.Success? ==> forall row, c, j :: 0 <= row < dim && 0 <= c < dim && 0 <= j < NumJoints ==>
      FlatIndex(dim, NumJoints, row, c, j) < |buf| &&
      r.value[row][c][j] == buf[FlatIndex(dim, NumJoints, row, c, j)] as real
  {
    if |buf| != dim * dim * NumJoints then Failure(BinaryMapSizeMismatch)
    else
      DecodedElements(buf, dim);
      DecodedRange(buf, dim);
      Success(Reshape3(BytesToReal(buf), dim, dim, NumJoints))
  }

  /** Encoding a [dim, dim, 16] byte grid row-major and decoding it gives the
      grid back, value for value. */
  lemma DecodeEncodeRoundTrip(g: seq<seq<seq<byte>>>, dim: nat)
    requires IsTensor3(g, dim, dim, NumJoints)
    ensures var r := DecodeBinaryMaps(Flatten3(g), dim);
      r.Success? && IsTensor3(r.value, dim, dim, NumJoints) &&
      forall row, c, j :: 0 <= row < dim && 0 <= c < dim && 0 <= j < NumJoints ==>
        r.value[row][c][j] == g[row][c][j] as real
  {
    ReshapeFlatten(g, dim, dim, NumJoints);
    var buf := Flatten3(g);
    var t := DecodeBinaryMaps(buf, dim).value;
    forall row, c, j | 0 <= row < dim && 0 <= c < dim && 0 <= j < NumJoints
      ensures t[row][c][j] == g[row][c][j] as real
    {
      Reshape3At(buf, dim, dim, NumJoints, row, c, j);
    }
  }

  // ---------------------------------------------------------------------------
  // Colour distortion (_distort_colour)

  /** The four random colour adjustments; their magnitudes are drawn at random
      and are not modelled. */
  datatype ColourOp = Brightness | Saturation | Hue | Contrast

  /** The order in which a preprocessing thread applies the colour operations:
      brightness first, then saturation, hue, contrast on even threads and
      contrast, saturation, hue on odd ones; each operation exactly once. */
  function ColourOrdering(threadId: nat): (ops: seq<ColourOp>)
    ensures |ops| == 4 && ops[0] == Brightness
    ensures multiset(ops) == multiset{Brightness, Saturation, Hue, Contrast}
    ensures threadId % 2 == 0 ==> ops[1..] == [Saturation, Hue, Contrast]
    ensures threadId % 2 == 1 ==> ops[1..] == [Contrast, Saturation, Hue]
  {
    if threadId % 2 == 0 then [Brightness, Saturation, Hue, Contrast]
    else [Brightness, Contrast, Saturation, Hue]
  }

  /** The ordering depends on the thread's parity alone, and neighbouring
      threads use different orderings. */
  lemma ColourOrderingByParity(threadId: nat)
    ensures ColourOrdering(threadId + 2) == ColourOrdering(threadId)
    ensures ColourOrdering(threadId + 1) != ColourOrdering(threadId)
  {
    assert (threadId + 2) % 2 == threadId % 2;
    assert (threadId + 1) % 2 != threadId % 2;
    assert ColourOrdering(threadId + 1)[1] != ColourOrdering(threadId)[1];
  }

  /** Applies the operations in order, each through the opaque `jitter`. */
  function ApplyOps(image: Tensor3, ops: seq<ColourOp>, jitter: (ColourOp, Tensor3) -> Tensor3): Tensor3
    decreases |ops|
  {
    if |ops| == 0 then image else ApplyOps(jitter(ops[0], image), ops[1..], jitter)
  }

  /** `tf.clip_by_value(x, 0.0, 1.0)` on one value. */
  function Clip(x: real): (y: real)
    ensures 0.0 <= y <= 1.0
    ensures 0.0 <= x <= 1.0 ==> y == x
    ensures x < 0.0 ==> y == 0.0
    ensures x > 1.0 ==> y == 1.0
  {
    if x < 0.0 then 0.0 else if x > 1.0 then 1.0 else x
  }

  /** Clipping every value of a tensor into [0, 1]. */
  function ClipImage(t: Tensor3): (out: Tensor3)
    ensures |out| == |t| && forall r :: 0 <= r < |t| ==> |out[r]| == |t[r]|
    ensures forall r, c :: 0 <= r < |t| && 0 <= c < |t[r]| ==> |out[r][c]| == |t[r][c]|
    ensures forall r, c, k :: 0 <= r < |t| && 0 <= c < |t[r]| && 0 <= k < |t[r][c]| ==>
      out[r][c][k] == Clip(t[r][c][k])
    ensures InRange(out, 0.0, 1.0)
  {
    seq(|t|, r requires 0 <= r < |t| =>
      seq(|t[r]|, c requires 0 <= c < |t[r]| =>
        seq(|t[r][c]|, k requires 0 <= k < |t[r][c]| => Clip(t[r][c][k]))))
  }

  /** Clipping leaves a tensor already inside [0, 1] unchanged; so clipping
      twice is clipping once. */
  lemma ClipImageKeepsInRange(t: Tensor3)
    ensures InRange(t, 0.0, 1.0) ==> ClipImage(t) == t
    ensures ClipImage(ClipImage(t)) == ClipImage(t)
  {
    var out := ClipImage(t);
    if InRange(t, 0.0, 1.0) {
      forall r | 0 <= r < |t|
        ensures out[r] == t[r]
      {
        forall c | 0 <= c < |t[r]|
          ensures out[r][c] == t[r][c]
        {
        }
      }
    }
    var twice := ClipImage(out);
    forall r | 0 <= r < |out|
      ensures twice[r] == out[r]
    {
      forall c | 0 <= c < |out[r]|
        ensures twice[r][c] == out[r][c]
      {
      }
    }
  }

  /** `_distort_colour`: the thread's ordering of opaque colour operations,
      then a clip into [0, 1]. */
  function DistortColour(image: Tensor3, threadId: nat, jitter: (ColourOp, Tensor3) -> Tensor3): (out: Tensor3)
    ensures InRange(out, 0.0, 1.0)
    ensures var jittered := ApplyOps(image, ColourOrdering(threadId), jitter);
      |out| == |jittered| && (forall r :: 0 <= r < |jittered| ==> |out[r]| == |jittered[r]|) &&
      (forall r, c :: 0 <= r < |jittered| && 0 <= c < |jittered[r]| ==> |out[r][c]| == |jittered[r][c]|) &&
      (forall r, c, k :: 0 <= r < |jittered| && 0 <= c < |jittered[r]| && 0 <= k < |jittered[r][c]| ==>
        out[r][c][k] == Clip(jittered[r][c][k]))
    ensures InRange(ApplyOps(image, ColourOrdering(threadId), jitter), 0.0, 1.0) ==>
      out == ApplyOps(image, ColourOrdering(threadId), jitter)
  {
    ClipImageKeepsInRange(ApplyOps(image, ColourOrdering(threadId), jitter));
    ClipImage(ApplyOps(image, ColourOrdering(threadId), jitter))
  }

  // ---------------------------------------------------------------------------
  // Normalisation: (x - 0.5) * 2

  function Normalise(x: real): real {
    (x - 0.5) * 2.0
  }

  /** The inverse of Normalise. */
  function Denormalise(y: real): real {
    y / 2.0 + 0.5
  }

  /** Normalise is a bijection of the reals that maps [0, 1] onto [-1, 1]. */
  lemma NormaliseBijection(x: real, y: real)
    ensures Denormalise(Normalise(x)) == x && Normalise(Denormalise(y)) == y
    ensures 0.0 <= x <= 1.0 <==> -1.0 <= Normalise(x) <= 1.0
    ensures -1.0 <= y <= 1.0 <==> 0.0 <= Denormalise(y) <= 1.0
  {
  }

  /** `tf.multiply(tf.subtract(image, 0.5), 2.0)`. */
  function NormaliseImage(t: Tensor3): (out: Tensor3)
    ensures |out| == |t| && forall r :: 0 <= r < |t| ==> |out[r]| == |t[r]|
    ensures forall r, c :: 0 <= r < |t| && 0 <= c < |t[r]| ==> |out[r][c]| == |t[r][c]|
    ensures forall r, c, k :: 0 <= r < |t| && 0 <= c < |t[r]| && 0 <= k < |t[r][c]| ==>
      Denormalise(out[r][c][k]) == t[r][c][k]
  {
    seq(|t|, r requires 0 <= r < |t| =>
      seq(|t[r]|, c requires 0 <= c < |t[r]| =>
        seq(|t[r][c]|, k requires 0 <= k < |t[r][c]| => Normalise(t[r][c][k]))))
  }

  /** A tensor lies in [0, 1] exactly when its normalised form lies in [-1, 1]. */
  lemma NormaliseImageRange(t: Tensor3)
    ensures InRange(t, 0.0, 1.0) <==> InRange(NormaliseImage(t), -1.0, 1.0)
  {
    var out := NormaliseImage(t);
    if InRange(out, -1.0, 1.0) {
      forall r, c, k | 0 <= r < |t| && 0 <= c < |t[r]| && 0 <= k < |t[r][c]|
        ensures 0.0 <= t[r][c][k] <= 1.0
      {
        NormaliseBijection(t[r][c][k], out[r][c][k]);
      }
    }
    if InRange(t, 0.0, 1.0) {
      forall r, c, k | 0 <= r < |out| && 0 <= c < |out[r]| && 0 <= k < |out[r][c]|
        ensures -1.0 <= out[r][c][k] <= 1.0
      {
        NormaliseBijection(t[r][c][k], out[r][c][k]);
      }
    }
  }

  // ---------------------------------------------------------------------------
  // _distort_image

  /** The distorted image and maps, and the flip decision used for them. */
  datatype Distorted = Distorted(image: Tensor3, binaryMaps: Tensor3, heatmaps: Tensor3, shouldFlip: bool)

  /** `_distort_image`, with the flip draw `coin`, the colour jitter and the
      random rotation passed in. The stages run in the source's order:
      reshape and decode, flip, colour, rotate (one angle for the image and
      both maps), normalise. */
  function DistortImage(decodedImage: seq<real>, binaryMaps: seq<byte>, heatmaps: Tensor3, dim: nat, threadId: nat,
                        coin: real, jitter: (ColourOp, Tensor3) -> Tensor3, rotate: Tensor3 -> Tensor3)
    : (r: Result<Distorted, PipelineError>)
    requires IsTensor3(heatmaps, dim, dim, NumJoints)
    ensures r.Success? <==> |decodedImage| == dim * dim * ImageChannels && |binaryMaps| == dim * dim * NumJoints
    ensures r.Success? ==> r.value.shouldFlip == (coin < 0.5)
    ensures r.Success? ==>
      r.value.binaryMaps == rotate(MaybeFlipMaps(DecodeBinaryMaps(binaryMaps, dim).value, coin < 0.5))
    ensures r.Success? ==> r.value.heatmaps == rotate(MaybeFlipMaps(heatmaps, coin < 0.5))
    ensures r.Success? ==>
      r.value.image == NormaliseImage(rotate(DistortColour(
        MaybeFlipImage(Reshape3(decodedImage, dim, dim, ImageChannels), coin < 0.5), threadId, jitter)))
    ensures r.Success? && (forall t :: InRange(t, 0.0, 1.0) ==> InRange(rotate(t), 0.0, 1.0)) ==>
      InRange(r.value.image, -1.0, 1.0)
  {
    if |decodedImage| != dim * dim * ImageChannels then Failure(ImageSizeMismatch)
    else
      var image := Reshape3(decodedImage, dim, dim, ImageChannels);
      var maps :- DecodeBinaryMaps(binaryMaps, dim);
      var flipped := RandomlyFlip(image, maps, heatmaps, coin);
      var coloured := DistortColour(flipped.image, threadId, jitter);
      var rotated := rotate(coloured);
      NormaliseImageRange(rotated);
      Success(Distorted(NormaliseImage(rotated), rotate(flipped.binaryMaps), rotate(flipped.heatmaps),
                        flipped.shouldFlip))
  }

  /** Colour operations that change nothing leave the image as it was. */
  lemma {:induction false} ApplyOpsIdentity(image: Tensor3, ops: seq<ColourOp>, jitter: (ColourOp, Tensor3) -> Tensor3)
    requires forall op, t :: jitter(op, t) == t
    ensures ApplyOps(image, ops, jitter) == image
    decreases |ops|
  {
    if |ops| > 0 {
      ApplyOpsIdentity(jitter(ops[0], image), ops[1..], jitter);
    }
  }

  /** Mirroring moves values without changing them, so it keeps a tensor in [0, 1]. */
  lemma MaybeFlipImageInRange(image: Tensor3, shouldFlip: bool)
    requires InRange(image, 0.0, 1.0)
    ensures InRange(MaybeFlipImage(image, shouldFlip), 0.0, 1.0)
  {
    if shouldFlip {
      var out := FlipLeftRight(image);
      forall r, c, k | 0 <= r < |out| && 0 <= c < |out[r]| && 0 <= k < |out[r][c]|
        ensures 0.0 <= out[r][c][k] <= 1.0
      {
        assert out[r][c] == image[r][|image[r]| - 1 - c];
      }
      assert MaybeFlipImage(image, shouldFlip) == out;
    }
  }

  /** With colour jitter and rotation that change nothing, the distortion of
      an image already in [0, 1] is just the flip decision followed by the
      normalisation, and the maps are just flipped. */
  lemma DistortImageWithoutJitter(decodedImage: seq<real>, binaryMaps: seq<byte>, heatmaps: Tensor3, dim: nat,
                                  threadId: nat, coin: real, jitter: (ColourOp, Tensor3) -> Tensor3,
                                  rotate: Tensor3 -> Tensor3)
    requires IsTensor3(heatmaps, dim, dim, NumJoints)
    requires forall op, t :: jitter(op, t) == t
    requires forall t :: rotate(t) == t
    ensures var r := DistortImage(decodedImage, binaryMaps, heatmaps, dim, threadId, coin, jitter, rotate);
      r.Success? ==>
        r.value.binaryMaps == MaybeFlipMaps(DecodeBinaryMaps(binaryMaps, dim).value, coin < 0.5) &&
        r.value.heatmaps == MaybeFlipMaps(heatmaps, coin < 0.5) &&
        (InRange(Reshape3(decodedImage, dim, dim, ImageChannels), 0.0, 1.0) ==>
          r.value.image == NormaliseImage(MaybeFlipImage(Reshape3(decodedImage, dim, dim, ImageChannels), coin < 0.5)))
  {
    var r := DistortImage(decodedImage, binaryMaps, heatmaps, dim, threadId, coin, jitter, rotate);
    if r.Success? {
      var raw := Reshape3(decodedImage, dim, dim, ImageChannels);
      var flipped := MaybeFlipImage(raw, coin < 0.5);
      ApplyOpsIdentity(flipped, ColourOrdering(threadId), jitter);
      if InRange(raw, 0.0, 1.0) {
        MaybeFlipImageInRange(raw, coin < 0.5);
      }
    }
  }

  // ---------------------------------------------------------------------------
  // Sparse joints to dense (pose_utils.sparse_joints_to_dense_single_example)

  /** The dense x and y coordinates over the joint slots, the 0/1 presence
      weights, and the sparse indices they were built from. */
  datatype DenseJoints = DenseJoints(x: seq<real>, y: seq<real>, weights: seq<real>, indices: seq<int>)

  /** Densifies one example's sparse joint coordinates over the 16 slots,
      zero where a joint is absent, with weight 1 exactly at present joints. */
  function SparseJointsToDenseSingleExample(xJoints: seq<real>, yJoints: seq<real>, jointIndices: seq<int>)
    : (r: Result<DenseJoints, PipelineError>)
    ensures r.Success? <==>
      |xJoints| == |jointIndices| && |yJoints| == |jointIndices| && ValidSparseIndices(jointIndices, NumJoints)
    ensures r.Success? ==>
      |r.value.x| == NumJoints && |r.value.y| == NumJoints && |r.value.weights| == NumJoints &&
      r.value.indices == jointIndices
    ensures r.Success? ==> forall k :: 0 <= k < |jointIndices| ==>
      r.value.x[jointIndices[k]] == xJoints[k] && r.value.y[jointIndices[k]] == yJoints[k] &&
      r.value.weights[jointIndices[k]] == 1.0
    ensures r.Success? ==> forall i :: 0 <= i < NumJoints && i !in jointIndices ==>
      r.value.x[i] == 0.0 && r.value.y[i] == 0.0 && r.value.weights[i] == 0.0
    ensures r.Success? ==> Sum(r.value.weights) == |jointIndices| as real
    ensures r.Success? ==> forall i :: 0 <= i < NumJoints ==> r.value.weights[i] == 0.0 || r.value.weights[i] == 1.0
  {
    match ScatterDense(jointIndices, xJoints, NumJoints, 0.0)
    case Failure(e) => Failure(Sparse(e))
    case Success(x) =>
      match ScatterDense(jointIndices, yJoints, NumJoints, 0.0)
      case Failure(e) => Failure(Sparse(e))
      case Success(y) =>
        ValidSparseDistinct(jointIndices, NumJoints);
        IndicatorSum(jointIndices, NumJoints);
        Success(DenseJoints(x, y, Indicator(jointIndices, NumJoints), jointIndices))
  }

  // ---------------------------------------------------------------------------
  // Per-example preprocessing

  /** The fields of a parsed Example protobuf. `image` is the decoded JPEG,
      already converted to float and flattened row-major. */
  datatype Example = Example(
    image: seq<real>, binaryMaps: seq<byte>,
    jointIndices: seq<int>, isVisibleList: seq<int>,
    xJoints: seq<real>, yJoints: seq<real>, headSize: real)

  /** The example can be preprocessed without an exception. */
  predicate WellFormed(ex: Example, dim: nat) {
    |ex.xJoints| == |ex.jointIndices| && |ex.yJoints| == |ex.jointIndices| &&
    |ex.isVisibleList| == |ex.jointIndices| && ValidSparseIndices(ex.jointIndices, NumJoints) &&
    |ex.image| == dim * dim * ImageChannels && |ex.binaryMaps| == dim * dim * NumJoints
  }

  /** The densification demands strictly increasing joint indices, which
      `tf.sparse_merge` would not; the demand rejects nothing more, because
      `_get_is_visible_weights` scatters the same indices with
      `tf.sparse_to_dense`. With the other sizes right, an example is well
      formed exactly when that visibility scatter accepts it. */
  lemma OrderingDemandedByVisibility(ex: Example, dim: nat, weights: seq<real>)
    requires |weights| == NumJoints
    requires |ex.xJoints| == |ex.jointIndices| && |ex.yJoints| == |ex.jointIndices|
    requires |ex.image| == dim * dim * ImageChannels && |ex.binaryMaps| == dim * dim * NumJoints
    ensures WellFormed(ex, dim) <==> IsVisibleWeights(ex.jointIndices, ex.isVisibleList, weights).Success?
  {
  }

  /** One training thread's output. */
  datatype TrainEntry = TrainEntry(
    image: Tensor3, binaryMaps: Tensor3, heatmaps: Tensor3,
    weights: seq<real>, isVisibleWeights: seq<real>)

  /** The random draws of one training thread: the flip coin, and the colour
      jitter and rotation it applies. */
  datatype Draws = Draws(coin: real, jitter: (ColourOp, Tensor3) -> Tensor3, rotate: Tensor3 -> Tensor3)

  /** A training thread's output agrees with one flip decision `b`: the
      image, both maps and both weight vectors are mirrored when `b` and left
      alone otherwise. The image then goes through colour, rotation and
      normalisation, the maps through the same rotation. */
  predicate FlippedTogether(e: TrainEntry, ex: Example, dim: nat, threadId: nat, d: Draws, heatmaps: Tensor3,
                            dense: DenseJoints, isVisibleWeights: seq<real>, b: bool)
    requires |ex.image| == dim * dim * ImageChannels && |ex.binaryMaps| == dim * dim * NumJoints
    requires IsTensor3(heatmaps, dim, dim, NumJoints) && |dense.weights| == NumJoints && |isVisibleWeights| == NumJoints
  {
    e.image == NormaliseImage(d.rotate(DistortColour(MaybeFlipImage(Reshape3(ex.image, dim, dim, ImageChannels), b),
                                                     threadId, d.jitter))) &&
    e.binaryMaps == d.rotate(MaybeFlipMaps(DecodeBinaryMaps(ex.binaryMaps, dim).value, b)) &&
    e.heatmaps == d.rotate(MaybeFlipMaps(heatmaps, b)) &&
    e.weights == MaybeFlipWeights(dense.weights, b) &&
    e.isVisibleWeights == MaybeFlipWeights(isVisibleWeights, b)
  }

  /** One iteration of `_parse_and_preprocess_example_train`'s thread loop.
      `heatmapsOf` stands for `_get_joint_heatmaps`, whose Gaussian values are
      not modelled; it yields a [dim, dim, 16] tensor. */
  function PreprocessTrain(ex: Example, dim: nat, threadId: nat,
                           heatmapsOf: (seq<real>, seq<real>) -> Tensor3, d: Draws)
    : (r: Result<TrainEntry, PipelineError>)
    requires forall xs, ys :: IsTensor3(heatmapsOf(xs, ys), dim, dim, NumJoints)
    ensures r.Success? <==> WellFormed(ex, dim)
    ensures r.Success? ==> |r.value.weights| == NumJoints && |r.value.isVisibleWeights| == NumJoints
  {
    var dense :- SparseJointsToDenseSingleExample(ex.xJoints, ex.yJoints, ex.jointIndices);
    var vis :- IsVisibleWeights(dense.indices, ex.isVisibleList, dense.weights);
    var heatmaps := heatmapsOf(dense.x, dense.y);
    var distorted :- DistortImage(ex.image, ex.binaryMaps, heatmaps, dim, threadId, d.coin, d.jitter, d.rotate);
    Success(TrainEntry(distorted.image, distorted.binaryMaps, distorted.heatmaps,
                       MaybeFlipWeights(dense.weights, distorted.shouldFlip),
                       MaybeFlipWeights(vis, distorted.shouldFlip)))
  }

  /** The image and the labels of a training thread's output all follow one
      flip decision, and the image ends in [-1, 1] when the rotation keeps
      [0, 1]. */
  lemma PreprocessTrainFlipsTogether(ex: Example, dim: nat, threadId: nat,
                                     heatmapsOf: (seq<real>, seq<real>) -> Tensor3, d: Draws)
    requires forall xs, ys :: IsTensor3(heatmapsOf(xs, ys), dim, dim, NumJoints)
    ensures var r := PreprocessTrain(ex, dim, threadId, heatmapsOf, d);
      r.Success? ==>
        var dense := SparseJointsToDenseSingleExample(ex.xJoints, ex.yJoints, ex.jointIndices).value;
        var vis := IsVisibleWeights(dense.indices, ex.isVisibleList, dense.weights).value;
        var heatmaps := heatmapsOf(dense.x, dense.y);
        IsTensor3(heatmaps, dim, dim, NumJoints) &&
        FlippedTogether(r.value, ex, dim, threadId, d, heatmaps, dense, vis, d.coin < 0.5) &&
        ((forall t :: InRange(t, 0.0, 1.0) ==> InRange(d.rotate(t), 0.0, 1.0)) ==> InRange(r.value.image, -1.0, 1.0))
  {
  }

  /** `_parse_and_preprocess_example_train`: one entry per preprocessing
      thread, thread `t` using the draws `drawsOf(t)`. */
  function ParseAndPreprocessExampleTrain(ex: Example, numPreprocessThreads: nat, dim: nat,
                                          heatmapsOf: (seq<real>, seq<real>) -> Tensor3, drawsOf: nat -> Draws)
    : (r: Result<seq<TrainEntry>, PipelineError>)
    requires forall xs, ys :: IsTensor3(heatmapsOf(xs, ys), dim, dim, NumJoints)
    ensures r.Success? <==> WellFormed(ex, dim) || numPreprocessThreads == 0
    ensures r.Success? ==> |r.value| == numPreprocessThreads
    ensures r.Success? ==> forall t :: 0 <= t < numPreprocessThreads ==>
      PreprocessTrain(ex, dim, t, heatmapsOf, drawsOf(t)) == Success(r.value[t])
  {
    var entry := (t: nat) => PreprocessTrain(ex, dim, t, heatmapsOf, drawsOf(t));
    var r := RunLoop(numPreprocessThreads, entry);
    assert r.Success? <==> WellFormed(ex, dim) || numPreprocessThreads == 0 by {
      forall t | 0 <= t < numPreprocessThreads
        ensures entry(t).Success? <==> WellFormed(ex, dim)
      {
        assert entry(t) == PreprocessTrain(ex, dim, t, heatmapsOf, drawsOf(t));
      }
    }
    r
  }

  /** A flip moves a visibility weight and its presence weight together, so
      a bound between them survives it, and the presence weights keep their sum. */
  lemma MaybeFlipKeepsWeightBounds(weights: seq<real>, vis: seq<real>, b: bool)
    requires |weights| == NumJoints && |vis| == NumJoints
    requires forall i :: 0 <= i < NumJoints ==> 0.0 <= vis[i] <= weights[i]
    ensures forall i :: 0 <= i < NumJoints ==> 0.0 <= MaybeFlipWeights(vis, b)[i] <= MaybeFlipWeights(weights, b)[i]
    ensures Sum(MaybeFlipWeights(weights, b)) == Sum(weights)
  {
    LeftRightTableInvolution();
    SumOfPermutation(MaybeFlipWeights(weights, b), weights);
  }

  /** With 0/1 visibility flags, every training thread's visibility weight
      stays between 0 and its presence weight after the (possible) flip, and
      the presence weights still sum to the number of annotated joints. */
  lemma TrainWeightsConsistent(ex: Example, dim: nat, threadId: nat,
                               heatmapsOf: (seq<real>, seq<real>) -> Tensor3, d: Draws)
    requires forall xs, ys :: IsTensor3(heatmapsOf(xs, ys), dim, dim, NumJoints)
    requires forall k :: 0 <= k < |ex.isVisibleList| ==> ex.isVisibleList[k] == 0 || ex.isVisibleList[k] == 1
    ensures var r := PreprocessTrain(ex, dim, threadId, heatmapsOf, d);
      r.Success? ==>
        (forall i :: 0 <= i < NumJoints ==> 0.0 <= r.value.isVisibleWeights[i] <= r.value.weights[i]) &&
        Sum(r.value.weights) == |ex.jointIndices| as real
  {
    var r := PreprocessTrain(ex, dim, threadId, heatmapsOf, d);
    if r.Success? {
      var dense := SparseJointsToDenseSingleExample(ex.xJoints, ex.yJoints, ex.jointIndices).value;
      var vis := IsVisibleWeights(dense.indices, ex.isVisibleList, dense.weights).value;
      IsVisibleWeightsBounded(dense.indices, ex.isVisibleList, dense.weights);
      MaybeFlipKeepsWeightBounds(dense.weights, vis, d.coin < 0.5);
    }
  }

  /** The labels do not depend on the colour jitter: two runs that differ only
      in it produce the same maps and weights. */
  lemma TrainLabelsIgnoreJitter(ex: Example, dim: nat, threadId: nat,
                                heatmapsOf: (seq<real>, seq<real>) -> Tensor3, d1: Draws, d2: Draws)
    requires forall xs, ys :: IsTensor3(heatmapsOf(xs, ys), dim, dim, NumJoints)
    requires d1.coin == d2.coin && d1.rotate == d2.rotate
    ensures var r1 := PreprocessTrain(ex, dim, threadId, heatmapsOf, d1);
      var r2 := PreprocessTrain(ex, dim, threadId, heatmapsOf, d2);
      r1.Success? == r2.Success? &&
      (r1.Success? ==> r1.value.binaryMaps == r2.value.binaryMaps && r1.value.heatmaps == r2.value.heatmaps &&
                       r1.value.weights == r2.value.weights && r1.value.isVisibleWeights == r2.value.isVisibleWeights)
  {
  }

  /** One evaluation thread's output: no distortion, and the sparse ground
      truth passed through alongside the dense targets. */
  datatype EvalEntry = EvalEntry(
    image: Tensor3, binaryMaps: Tensor3, heatmaps: Tensor3,
    weights: seq<real>, isVisibleWeights: seq<real>,
    jointIndices: seq<int>, xJoints: seq<real>, yJoints: seq<real>, headSize: real)

  /** One iteration of `_parse_and_preprocess_example_eval`'s thread loop. */
  function PreprocessEval(ex: Example, dim: nat, heatmapsOf: (seq<real>, seq<real>) -> Tensor3)
    : (r: Result<EvalEntry, PipelineError>)
    ensures r.Success? <==> WellFormed(ex, dim)
    ensures r.Success? ==>
      r.value.binaryMaps == DecodeBinaryMaps(ex.binaryMaps, dim).value &&
      r.value.jointIndices == ex.jointIndices && r.value.xJoints == ex.xJoints &&
      r.value.yJoints == ex.yJoints && r.value.headSize == ex.headSize
    ensures r.Success? ==> IsTensor3(r.value.image, dim, dim, ImageChannels)
    ensures r.Success? ==>
      (InRange(Reshape3(ex.image, dim, dim, ImageChannels), 0.0, 1.0) <==> InRange(r.value.image, -1.0, 1.0))
    ensures r.Success? ==> |r.value.weights| == NumJoints && Sum(r.value.weights) == |ex.jointIndices| as real
    ensures r.Success? ==> r.value.image == NormaliseImage(Reshape3(ex.image, dim, dim, ImageChannels))
    ensures r.Success? ==>
      var dense := SparseJointsToDenseSingleExample(ex.xJoints, ex.yJoints, ex.jointIndices).value;
      r.value.heatmaps == heatmapsOf(dense.x, dense.y) && r.value.weights == dense.weights &&
      r.value.isVisibleWeights == IsVisibleWeights(dense.indices, ex.isVisibleList, dense.weights).value
  {
    var maps :- DecodeBinaryMaps(ex.binaryMaps, dim);
    if |ex.image| != dim * dim * ImageChannels then Failure(ImageSizeMismatch)
    else
      var raw := Reshape3(ex.image, dim, dim, ImageChannels);
      NormaliseImageRange(raw);
      var image := NormaliseImage(raw);
      var dense :- SparseJointsToDenseSingleExample(ex.xJoints, ex.yJoints, ex.jointIndices);
      var vis :- IsVisibleWeights(dense.indices, ex.isVisibleList, dense.weights);
      Success(EvalEntry(image, maps, heatmapsOf(dense.x, dense.y), dense.weights, vis,
                        ex.jointIndices, ex.xJoints, ex.yJoints, ex.headSize))
  }

  /** Evaluation preprocessing is training preprocessing without distortion:
      with no flip, colour jitter and rotation that change nothing, and an
      image in [0, 1], a training thread produces exactly the evaluation
      image, maps and weights. */
  lemma EvalIsUndistortedTrain(ex: Example, dim: nat, threadId: nat,
                               heatmapsOf: (seq<real>, seq<real>) -> Tensor3, d: Draws)
    requires forall xs, ys :: IsTensor3(heatmapsOf(xs, ys), dim, dim, NumJoints)
    requires d.coin >= 0.5
    requires forall op, t :: d.jitter(op, t) == t
    requires forall t :: d.rotate(t) == t
    requires |ex.image| == dim * dim * ImageChannels ==> InRange(Reshape3(ex.image, dim, dim, ImageChannels), 0.0, 1.0)
    ensures var train := PreprocessTrain(ex, dim, threadId, heatmapsOf, d);
      var eval := PreprocessEval(ex, dim, heatmapsOf);
      train.Success? == eval.Success? &&
      (train.Success? ==>
        train.value.image == eval.value.image && train.value.binaryMaps == eval.value.binaryMaps &&
        train.value.heatmaps == eval.value.heatmaps && train.value.weights == eval.value.weights &&
        train.value.isVisibleWeights == eval.value.isVisibleWeights)
  {
    var train := PreprocessTrain(ex, dim, threadId, heatmapsOf, d);
    if train.Success? {
      var dense := SparseJointsToDenseSingleExample(ex.xJoints, ex.yJoints, ex.jointIndices).value;
      var heatmaps := heatmapsOf(dense.x, dense.y);
      DistortImageWithoutJitter(ex.image, ex.binaryMaps, heatmaps, dim, threadId, d.coin, d.jitter, d.rotate);
    }
  }

  /** `_parse_and_preprocess_example_eval`: one entry per thread, all equal. */
  function ParseAndPreprocessExampleEval(ex: Example, numPreprocessThreads: nat, dim: nat,
                                         heatmapsOf: (seq<real>, seq<real>) -> Tensor3)
    : (r: Result<seq<EvalEntry>, PipelineError>)
    ensures r.Success? <==> WellFormed(ex, dim) || numPreprocessThreads == 0
    ensures r.Success? ==> |r.value| == numPreprocessThreads
    ensures r.Success? ==> forall t :: 0 <= t < numPreprocessThreads ==>
      PreprocessEval(ex, dim, heatmapsOf) == Success(r.value[t])
  {
    if numPreprocessThreads == 0 then Success([])
    else
      var entry :- PreprocessEval(ex, dim, heatmapsOf);
      Success(seq(numPreprocessThreads, _ => entry))
  }

  // ---------------------------------------------------------------------------
  // Summary maps (_setup_batch_queue)

  /** `tf.reduce_max(maps, 3)` reshaped to one channel: every pixel's largest
      channel value. */
  function ChannelMax(t: Tensor3): (m: Tensor3)
    requires forall r, c :: 0 <= r < |t| && 0 <= c < |t[r]| ==> |t[r][c]| > 0
    ensures |m| == |t| && forall r :: 0 <= r < |t| ==> |m[r]| == |t[r]|
    ensures HasChannels(m, 1)
    ensures forall r, c, k :: 0 <= r < |t| && 0 <= c < |t[r]| && 0 <= k < |t[r][c]| ==> t[r][c][k] <= m[r][c][0]
    ensures forall r, c :: 0 <= r < |t| && 0 <= c < |t[r]| ==> m[r][c][0] in t[r][c]
  {
    seq(|t|, r requires 0 <= r < |t| =>
      seq(|t[r]|, c requires 0 <= c < |t[r]| => [MaxOf(t[r][c])]))
  }

  /** Each pixel of the mirrored maps holds the same channel values as the
      mirror-image pixel of the original, rearranged. */
  lemma FlipMapsPixel(m: Tensor3, r: nat, c: nat)
    requires HasChannels(m, NumJoints)
    requires r < |m| && c < |m[r]|
    ensures |m[r][|m[r]| - 1 - c]| == NumJoints
    ensures multiset(FlipMaps(m)[r][c]) == multiset(m[r][|m[r]| - 1 - c])
  {
    var src := m[r][|m[r]| - 1 - c];
    LeftRightTableIsPermutation();
    LeftRightTableInvolution();
    assert FlipMaps(m)[r][c] == Gather(src, LeftRightFlippedIndices);
    GatherPermutation(src, LeftRightFlippedIndices);
  }

  /** One pixel of the summary of mirrored maps is the summary of the
      mirror-image pixel. */
  lemma ChannelMaxOfFlipPixel(m: Tensor3, r: nat, c: nat)
    requires HasChannels(m, NumJoints)
    requires r < |m| && c < |m[r]|
    ensures ChannelMax(FlipMaps(m))[r][c] == ChannelMax(m)[r][|m[r]| - 1 - c]
  {
    var f := FlipMaps(m);
    FlipMapsPixel(m, r, c);
    MaxOfPermutation(m[r][|m[r]| - 1 - c], f[r][c]);
  }

  /** The summary of mirrored maps is the mirrored summary: the joint
      permutation does not change a pixel's maximum. */
  lemma ChannelMaxOfFlip(m: Tensor3)
    requires HasChannels(m, NumJoints)
    ensures ChannelMax(FlipMaps(m)) == FlipLeftRight(ChannelMax(m))
  {
    var lhs := ChannelMax(FlipMaps(m));
    var cm := ChannelMax(m);
    var rhs := FlipLeftRight(cm);
    forall r | 0 <= r < |m|
      ensures lhs[r] == rhs[r]
    {
      forall c | 0 <= c < |m[r]|
        ensures lhs[r][c] == rhs[r][c]
      {
        ChannelMaxOfFlipPixel(m, r, c);
        assert rhs[r][|m[r]| - 1 - (|m[r]| - 1 - c)] == cm[r][|m[r]| - 1 - c];
      }
    }
  }

  /** The summary maps of a batch of label maps. */
  function MergeMaps(batch: seq<Tensor3>): (merged: seq<Tensor3>)
    requires forall b, r, c :: 0 <= b < |batch| && 0 <= r < |batch[b]| && 0 <= c < |batch[b][r]| ==>
      |batch[b][r][c]| > 0
    ensures |merged| == |batch|
    ensures forall b :: 0 <= b < |batch| ==> merged[b] == ChannelMax(batch[b])
  {
    seq(|batch|, b requires 0 <= b < |batch| => ChannelMax(batch[b]))
  }
}
