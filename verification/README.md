# Human pose input pipeline: label handling, in Dafny

This project models the label bookkeeping of a human pose estimation
training pipeline built on the MPII Human Pose dataset, and proves
properties of that model. It has four parts.

- **The annotation reader** (`mpii_read.dfy`, module `MpiiRead`).
  - `Person` has 16 joint slots. A slot holds the last point whose id names it, and a negative id counts from the end, as Python does.
  - The head rectangle comes from the explicit `x1..y2` fields. Otherwise it comes from the `objpos`/`scale` heuristic. A rectangle that has collapsed to a point is rejected.
  - `_parse_annotation` keeps the people that have a head rectangle, in annotation order. An entry without points gives a person with every slot empty.
  - The reading loop keeps an image when:
    - its train/test flag is the wanted one;
    - it has at least one person;
    - its file name is on disk.
  - The kept images are then shuffled, with one permutation shared by the file names and the people.
  - The directory listing and the shuffle are parameters. An absent MATLAB attribute is an `Option` field. An exception that escapes is a `Result` failure.
- **The TensorFlow input pipeline** (`input_pipeline.dfy`, module `InputPipeline`).
  - The left/right joint permutation table.
  - Mirroring maps: reverse the columns, then gather the channels through the table. Weight vectors are mirrored through the same table.
  - One coin decides the flip for the image, both kinds of maps and both weight vectors.
  - Visibility weights.
  - Decoding the raw binary-map bytes into a `D x D x 16` grid.
  - The colour-operation order chosen by thread parity, and the clip to [0, 1].
  - The `(x - 0.5) * 2` normalisation.
  - The per-pixel channel maximum used for the summary images.
  - The per-example training and evaluation preprocessing, with the stages in the source's order.
  - Colour jitter, rotation and the Gaussian heatmap numerics are function parameters. The model shows only where they apply and that they never touch a label or a weight.
- **Label densification in the training script** (`train.dfy`, module `Train`). A batch of sparse joint-coordinate lists becomes a dense `[batch, 32]` matrix, plus a parallel 0/1 weight matrix.
- **The earlier NumPy batch iterator** (`train_v1.dfy`, module `TrainV1`).
  - It rasterises each visible joint as a 5x5 stamp of ones into 17 planes. Plane 0 holds the image's first channel, divided by 255.
  - "Joint k" and "plane k" in this part mean the k-th entry of the pose's sparse lists, not MPII joint id k. Both loaders unpack `sparse_joint_indices` but never use it, so planes follow list position.
  - It builds the Gaussian planes. Here `gaussian2d` is a parameter.
  - It walks the dataset `BATCH_SIZE` entries per call of `next`.
  - The script is Python 2, and the model writes out each of these behaviours:
    - `int()` truncates toward zero, and `W / 2` is floor division;
    - NumPy slice bounds are normalised;
    - NumPy broadcasts an assignment into a slot;
    - `zip` stops at the shorter list.

Shared pieces:

- `wrappers.dfy` (`Wrappers`) has `Option` and `Result`.
- `tensors.dfy` (`Tensors`) has:
  - sequence and tensor helpers;
  - `tf.gather` over a permutation, and `tf.image.flip_left_right`;
  - `tf.sparse_to_dense` with index validation;
  - row-major reshape and flatten.

Floating-point tensors are sequences of `real`.

## Model

| member | source | states |
|---|---|---|
| MpiiRead.JointTableIsBijective | tensorflow_models/human_pose_model/mpii_read.py:43-68 | A person has exactly 16 joint slots, and the joint naming gives each slot one distinct joint, one to one. |
| MpiiRead.AssignJointsFails | tensorflow_models/human_pose_model/mpii_read.py:75-76 | The joint-writing loop raises exactly when some point lacks x, y or id, or has an id outside -16..15. When it raises, it does so with the fault of the first such point. |
| MpiiRead.AssignJointsValues | tensorflow_models/human_pose_model/mpii_read.py:71-76 | When no point is faulty, the loop yields 16 slots. Each slot holds the coordinates of the last point whose id (negative ids wrap) names it, or its initial value if none does. |
| MpiiRead.AssignJointsSpec | tensorflow_models/human_pose_model/mpii_read.py:70-76 | Both of the above for any point list: success iff there is no faulty point; then last-writer-wins per slot; otherwise the first fault. |
| MpiiRead.AssignJoints | tensorflow_models/human_pose_model/mpii_read.py:73-76 | The joint-writing loop succeeds iff no point is faulty, and then yields all 16 slots. |
| MpiiRead.NewPerson | tensorflow_models/human_pose_model/mpii_read.py:70-78 | `Person(joints, head_rect)` keeps the head rectangle and has 16 slots. Slot s is the last point naming s and `None` otherwise. A single point struct counts as a one-element list. Construction fails exactly on the first faulty point. |
| MpiiRead.GetHeadRect | tensorflow_models/human_pose_model/mpii_read.py:156-180 | With all of x1..y2 present, the rectangle is exactly (x1, y1, x2, y2). Otherwise, with objpos and scale present, it is (x-25s, y-70s, x+25s, y-20s). Otherwise it is `None`. The result is `None` exactly when the candidate collapses to a point (both x and y equal), so a zero-width or zero-height box is kept. |
| MpiiRead.PersonOf | tensorflow_models/human_pose_model/mpii_read.py:206-214 | An entry without a head rectangle gives no person. An entry whose points all parse gives exactly `Person(points, head_rect)`, keeping the head rectangle. An entry without `annopoints`, or with a point lacking an attribute, gives a person with all 16 slots empty. An out-of-range joint id is the only error that escapes. |
| MpiiRead.PersonOfJoints | tensorflow_models/human_pose_model/mpii_read.py:206-214 | Through `Person.__init__` (lines 70-76), a parsed person's slot s holds the coordinates of the last point whose id names s, or `None` if no point does. Every slot is `None` when the entry has no points or one of its points lacks an attribute. |
| MpiiRead.ParsePeople | tensorflow_models/human_pose_model/mpii_read.py:205-216 | It fails iff some entry's person raises. Otherwise the people are exactly `RetainedPeople`: one person per entry that has a head rectangle, joints included, in annotation order. Each has 16 slots. |
| MpiiRead.RetainedPeopleMembers | tensorflow_models/human_pose_model/mpii_read.py:205-216 | A person is retained iff some annorect entry yields exactly that person. |
| MpiiRead.RetainedPeopleRects | tensorflow_models/human_pose_model/mpii_read.py:205-216 | The retained people's head rectangles are the entries' head rectangles, in order, skipping entries without one. So there is at most one person per entry. |
| MpiiRead.ParseAnnotation | tensorflow_models/human_pose_model/mpii_read.py:200-216 | The path is the images directory joined with the image name. The people are `RetainedPeople` of the annorect list, with a lone struct treated as a one-element list. It fails iff some entry raises. |
| MpiiRead.SingleAnnorectIsOneElementList | tensorflow_models/human_pose_model/mpii_read.py:119-134 | An annotation whose `annorect` is one struct parses exactly like one whose `annorect` is the one-element list of it. |
| MpiiRead.MakeIterable | tensorflow_models/human_pose_model/mpii_read.py:119-134 | A lone struct becomes the one-element list holding it, and a list is returned as it is. |
| MpiiRead.BasenameIsLastComponent | tensorflow_models/human_pose_model/mpii_read.py:287 | `os.path.basename` yields the slash-free tail of the path, which is preceded by '/' unless it is the whole path. |
| MpiiRead.BasenameOfJoin | tensorflow_models/human_pose_model/mpii_read.py:200-201 | The basename of `os.path.join(dir, name)` is `name` for a slash-free name. So the on-disk test looks up the annotation's own image name. |
| MpiiRead.ShuffleList | tensorflow_models/human_pose_model/mpii_read.py:219-232 | `out[k] = l[idx[k]]`, and `len(out) = len(idx)`. When `idx` is a permutation of [0, n), the output is a permutation (same multiset) of the list. |
| MpiiRead.ShuffleDataset | tensorflow_models/human_pose_model/mpii_read.py:235-248 | Both lists are reordered by the same index sequence. Lengths are kept, the file names keep their multiset, and so does the multiset of (file name, people) pairs. |
| MpiiRead.ReaderFilter | tensorflow_models/human_pose_model/mpii_read.py:270-279 | The reading loop's inputs: one `_parse_annotation` outcome per image, the `img_train` flags, `int(is_train)` as the wanted flag, and a path counting as present iff its basename is in the directory listing. |
| MpiiRead.CollectFrom | tensorflow_models/human_pose_model/mpii_read.py:276-291 | The reading loop from image i on: every index it keeps lies between i and the number of images. |
| MpiiRead.CollectFromFails | tensorflow_models/human_pose_model/mpii_read.py:276-279 | The loop raises exactly when, for some image, the train flag is missing, or the image is selected and parsing its annotation raises. |
| MpiiRead.CollectFromIncreasing | tensorflow_models/human_pose_model/mpii_read.py:276-291 | The kept images come out in increasing index order (list order is kept, with no repeats). |
| MpiiRead.CollectFromSound | tensorflow_models/human_pose_model/mpii_read.py:276-291 | Every kept image has the wanted flag, at least one person, and its basename on disk. |
| MpiiRead.CollectFromComplete | tensorflow_models/human_pose_model/mpii_read.py:276-291 | Every image that has the wanted flag, at least one person, and its file on disk is kept. |
| MpiiRead.KeptCount | tensorflow_models/human_pose_model/mpii_read.py:276-291 | The loop keeps exactly one entry per qualifying image. |
| MpiiRead.KeptFromMembers | tensorflow_models/human_pose_model/mpii_read.py:276-291 | A (file, people) pair is in the reference list `KeptFrom` iff some image with the wanted flag, people and its file on disk parses to it. |
| MpiiRead.CollectFromPairs | tensorflow_models/human_pose_model/mpii_read.py:276-291 | The pairs of the indices the loop collects are exactly `KeptFrom`: every kept image once, in index order. |
| MpiiRead.FilterDataset | tensorflow_models/human_pose_model/mpii_read.py:276-296 | It fails iff some image raises. On success the two lists are parallel, and entry k is the pair at position `perm[k]` of `KeptFrom`, the kept images' (file, people) pairs in index order, where `perm` is the one shuffle permutation used for both lists. So as a multiset the entries are every qualifying image's parse exactly once. |
| MpiiRead.ParseMpiiDataFromMat | tensorflow_models/human_pose_model/mpii_read.py:270-296 | It fails iff some image raises. The result satisfies the `MpiiDataset` length assertion. Every entry has a non-empty people list and its basename on disk, and it is the parse of an image whose train flag equals `is_train`. Entry k is the kept pair at position `perm[k]` in index order, with one permutation shared by both lists, so each qualifying image's parse appears exactly once. |
| InputPipeline.LeftRightTableMirrors | human_pose_model/input_pipeline.py:9 | `LEFT_RIGHT_FLIPPED_INDICES` has 16 entries and maps each joint slot to the slot of its mirror-image joint (right and left ankle, knee, hip, wrist, elbow and shoulder swap; the axial joints stay). |
| InputPipeline.LeftRightTableInvolution | human_pose_model/input_pipeline.py:9 | The table is its own inverse, and it fixes exactly slots 6 to 9. |
| InputPipeline.LeftRightTableIsPermutation | human_pose_model/input_pipeline.py:9 | The table is a permutation of 0..15. |
| InputPipeline.FlipWeights | human_pose_model/input_pipeline.py:421 | `tf.gather(weights, table)` gives `out[i] = w[table[i]]`. It keeps the length and the multiset of values. |
| InputPipeline.FlipWeightsMovesJoints | human_pose_model/input_pipeline.py:421 | After gathering, the weight of each joint sits in the slot of its mirror-image joint. |
| InputPipeline.FlipWeightsInvolution | human_pose_model/input_pipeline.py:421 | Gathering a weight vector twice through the table gives it back. |
| InputPipeline.MaybeFlipWeights | human_pose_model/input_pipeline.py:418-422 | With `should_flip`, `out[i] = w[table[i]]`; otherwise `out == w`. Length and multiset are kept either way. |
| InputPipeline.MaybeFlipWeightsTwice | human_pose_model/input_pipeline.py:418-422 | Applying the same decision twice is the identity. |
| InputPipeline.FlipMaps | human_pose_model/input_pipeline.py:192-206 | `out[r][c][ch] = maps[r][W-1-c][table[ch]]`. The shape is kept. |
| InputPipeline.FlipMapsMovesJoints | human_pose_model/input_pipeline.py:200-206 | The flipped maps show joint j's plane, mirrored horizontally, as the plane of j's mirror-image joint. |
| InputPipeline.FlipMapsInvolution | human_pose_model/input_pipeline.py:192-206 | Flipping maps twice returns the input. |
| InputPipeline.MaybeFlipMaps | human_pose_model/input_pipeline.py:209-215 | Without the flip the maps are unchanged. With it, the result flipped once more is the input. The shape is kept. |
| InputPipeline.MaybeFlipImage | human_pose_model/input_pipeline.py:226-229 | Without the flip the image is unchanged. With it, mirroring the result once more gives the input. |
| InputPipeline.RandomlyFlip | human_pose_model/input_pipeline.py:218-234 | One decision, `uniform < 0.5`, is returned and is the one applied to the image, the binary maps and the heatmaps. |
| InputPipeline.RandomlyFlipTwice | human_pose_model/input_pipeline.py:218-234 | Flipping with the same draw a second time restores the image and both kinds of maps. |
| Tensors.ScatterDense | human_pose_model/input_pipeline.py:412-414 | `tf.sparse_to_dense` succeeds iff the values match the indices in number and the indices are strictly increasing and in range. The result has the output length, holds each value at its index, and the default elsewhere. |
| InputPipeline.IsVisibleWeights | human_pose_model/input_pipeline.py:408-415 | Succeeds iff the flags and indices match and are valid and there are 16 weights. `vis[i] = weights[i] * flag` at each sparse index, and 0 at indices absent from the sparse list. |
| InputPipeline.IsVisibleWeightsBounded | human_pose_model/input_pipeline.py:408-415 | With 0/1 flags and non-negative weights, `0 <= vis[i] <= weights[i]`, and `vis[i] = 0` wherever `weights[i] = 0`. |
| InputPipeline.DecodeBinaryMaps | human_pose_model/input_pipeline.py:181-189 | Succeeds iff the buffer holds exactly D*D*16 bytes. Element [r][c][j] is byte (r*D + c)*16 + j, and every value is in 0..255. |
| InputPipeline.DecodeEncodeRoundTrip | human_pose_model/input_pipeline.py:181-189 | A D x D x 16 byte grid, flattened row-major and then decoded, is returned value for value. |
| InputPipeline.ColourOrdering | human_pose_model/input_pipeline.py:166-176 | Brightness always comes first. An even thread then applies saturation, hue, contrast; an odd thread applies contrast, saturation, hue. Each of the four operations runs exactly once. |
| InputPipeline.ColourOrderingByParity | human_pose_model/input_pipeline.py:166 | The order depends only on `thread_id % 2`: it is the same two threads apart and differs for neighbouring threads. |
| InputPipeline.Clip | human_pose_model/input_pipeline.py:178 | The clipped value lies in [0, 1]. A value already in range is unchanged, and values below or above are sent to 0 and 1. |
| InputPipeline.ClipImageKeepsInRange | human_pose_model/input_pipeline.py:178 | Clipping leaves an image already in [0, 1] unchanged, and clipping twice is the same as clipping once. |
| InputPipeline.DistortColour | human_pose_model/input_pipeline.py:159-178 | Whatever the jitter does, the output lies in [0, 1]. Each value is the jittered value clipped to [0, 1], where brightness, saturation, hue and contrast run in the thread's order. A jittered image already in range is returned as it is. |
| InputPipeline.NormaliseBijection | human_pose_model/input_pipeline.py:292-293 | `(x - 0.5) * 2` is a bijection whose inverse is `y / 2 + 0.5`. It maps [0, 1] exactly onto [-1, 1]. |
| InputPipeline.NormaliseImageRange | human_pose_model/input_pipeline.py:323-324 | An image lies in [0, 1] iff its normalisation lies in [-1, 1]. |
| InputPipeline.DistortImage | human_pose_model/input_pipeline.py:255-295 | It succeeds iff the image and the map buffer have the sizes their reshapes need. The image is normalise(rotate(colour(flip(reshape(image))))), in that order, with the flip decided by `coin < 0.5`. Both maps are flipped by the same decision and then rotated by the same rotation. If the rotation keeps [0, 1], the image ends in [-1, 1]. |
| InputPipeline.DistortImageWithoutJitter | human_pose_model/input_pipeline.py:255-295 | With jitter and rotation that change nothing, the maps are just flipped by `coin < 0.5`. An image already in [0, 1] is just flipped and normalised. |
| InputPipeline.SparseJointsToDenseSingleExample | human_pose_model/input_pipeline.py:457-461 | Succeeds iff the coordinate lists match the indices and the indices are valid. Dense x and y over 16 slots hold each sparse value at its index and 0 elsewhere. The weights are 1 exactly at present joints and sum to their number. |
| InputPipeline.OrderingDemandedByVisibility | human_pose_model/input_pipeline.py:408-415 | With the coordinate lists and buffers of matching sizes, an example is well formed exactly when the visibility step's `tf.sparse_to_dense` accepts its joint indices. So the densification's demand for increasing indices rejects no example that step would accept. |
| InputPipeline.PreprocessTrain | human_pose_model/input_pipeline.py:454-487 | Succeeds iff the example is well formed (all four joint lists of equal length, strictly increasing joint indices below 16, image and binary maps of the target size), and then yields 16 weights and 16 visibility weights. |
| InputPipeline.PreprocessTrainFlipsTogether | human_pose_model/input_pipeline.py:454-487 | The image is the decoded image flipped by `coin < 0.5`, colour-jittered by the thread, rotated and normalised. The binary maps, heatmaps, weights and visibility weights are all flipped by that same decision (`FlippedTogether`). The image ends in [-1, 1] when the rotation keeps [0, 1]. |
| InputPipeline.ParseAndPreprocessExampleTrain | human_pose_model/input_pipeline.py:425-489 | One entry per preprocessing thread; entry t is thread t's preprocessing with its own draws. It fails iff the example is malformed and there is at least one thread. |
| InputPipeline.MaybeFlipKeepsWeightBounds | human_pose_model/input_pipeline.py:418-422 | A flip moves a visibility weight and its presence weight together, so `0 <= vis[i] <= weights[i]` survives it, and the presence weights keep their sum. |
| InputPipeline.TrainWeightsConsistent | human_pose_model/input_pipeline.py:457-481 | After the possible flip, every visibility weight lies between 0 and its presence weight, and the presence weights still sum to the number of annotated joints. |
| InputPipeline.TrainLabelsIgnoreJitter | human_pose_model/input_pipeline.py:472-481 | Two runs that differ only in colour jitter produce the same maps and weights. |
| InputPipeline.PreprocessEval | human_pose_model/input_pipeline.py:309-346 | It succeeds iff the example is well formed. No distortion is applied: the image is the normalised decoded image, and the binary maps are the decoded buffer. The heatmaps, weights and visibility weights are those of the dense joints. The sparse ground truth and head size pass through. The image lies in [-1, 1] iff the decoded image lies in [0, 1], and the weights sum to the number of joints present. |
| InputPipeline.EvalIsUndistortedTrain | human_pose_model/input_pipeline.py:298-346 | With no flip and with jitter and rotation that change nothing, a training thread and the evaluation preprocessing succeed together, and their image, maps and weights are equal. |
| InputPipeline.ParseAndPreprocessExampleEval | human_pose_model/input_pipeline.py:298-348 | One identical entry per thread. It fails iff the example is malformed and there is at least one thread. |
| InputPipeline.ChannelMax | human_pose_model/input_pipeline.py:503 | `reduce_max` over the channel axis yields one channel per pixel. That value is at least every channel value of the pixel, and is one of them. |
| InputPipeline.ChannelMaxOfFlip | human_pose_model/input_pipeline.py:503-506 | The summary of flipped maps is the mirrored summary of the original maps: the channel permutation does not change a pixel's maximum. |
| Train.NumJointCoordsValue | tensorflow_models/human_pose_model/train.py:16-17 | `NUM_JOINT_COORDS = 2 * NUM_JOINTS = 32`. |
| Train.SparseRowToDense | tensorflow_models/human_pose_model/train.py:83-95 | A row densifies iff its ids are distinct, in range, and matched by values. The dense row always has `num_joint_coords` entries. Each present id holds its value with weight 1, and every other slot is 0 with weight 0. |
| Train.DenseRowWeights | tensorflow_models/human_pose_model/train.py:92-95 | `weights[i] = 1` iff i is present, and 0 iff it is absent. The weights sum to the number of present ids, and a non-zero coordinate always has weight 1. |
| Train.DenseRowRecoversSparse | tensorflow_models/human_pose_model/train.py:83-95 | The dense row and its weights give back the sparse row: slot i is weighted 1 iff some sparse entry has id i and holds that entry's value. |
| Train.SparseJointsToDense | tensorflow_models/human_pose_model/train.py:67-97 | A batch densifies iff every row does. Row b of the result is row b's dense form, with `num_joint_coords` entries however many sparse entries it had. |
| Train.DenseBatchShape | tensorflow_models/human_pose_model/train.py:89-90 | The dense joints and the weights form `[batch_size, 32]` matrices. |
| TrainV1.Trunc | tensorflow_models/human_pose_model/train_v-1.py:75-76 | `int(x)` truncates toward zero: for x >= 0 it is the largest integer not above x, and for x < 0 the smallest integer not below x. |
| TrainV1.SliceBound | tensorflow_models/human_pose_model/train_v-1.py:77 | A slice bound as NumPy normalises it: in-range bounds are kept, negative bounds count from the end, and the result is clamped into [0, len]. |
| TrainV1.StampAtMostFive | tensorflow_models/human_pose_model/train_v-1.py:77 | Wherever the joint lands, the stamp spans at most 5 rows and 5 columns. |
| TrainV1.StampInside | tensorflow_models/human_pose_model/train_v-1.py:77 | A stamp that fits in the grid covers exactly the 5x5 square `[py, py+5) x [px, px+5)`. |
| TrainV1.StampWraps | tensorflow_models/human_pose_model/train_v-1.py:77 | A stamp lying wholly above the grid (`-W <= py` and `py + 5 < 0`) covers exactly rows `py+W .. py+W+4`, because negative slice bounds count from the end. |
| TrainV1.StampStraddlingTopIsEmpty | tensorflow_models/human_pose_model/train_v-1.py:77 | A stamp whose start is negative but whose stop is not (`py < 0 <= py + 5`) covers no cell of a grid with at least five rows. |
| TrainV1.BroadcastPlane | tensorflow_models/human_pose_model/train_v-1.py:71 | An array assigned into a `rows x cols` slot succeeds iff each axis matches or has length 1. Each target cell reads the source cell at the same position, or at 0 on a length-1 axis. |
| TrainV1.BroadcastSameShape | tensorflow_models/human_pose_model/train_v-1.py:71 | An array of the slot's own shape is stored unchanged. |
| TrainV1.BroadcastImage | tensorflow_models/human_pose_model/train_v-1.py:145 | `X[i] = img_tensor` succeeds iff the image broadcasts to `WIDTH x HEIGHT x 3`, and then copies it cell for cell. |
| TrainV1.ImagePlane | tensorflow_models/human_pose_model/train_v-1.py:71 | `img[0:W, 0:H, 0] / 255` stored into plane 0 fails iff the image has no channel or the clamped slice does not broadcast. Otherwise each cell is the image's first channel divided by 255. |
| TrainV1.ImagePlaneOfLargeImage | tensorflow_models/human_pose_model/train_v-1.py:71 | An image at least as large as the grid fills plane 0 with its own top-left corner, divided by 255. |
| TrainV1.InitialPlanes | tensorflow_models/human_pose_model/train_v-1.py:70-71 | Before the joint loop there are 17 `W x H` planes: plane 0 is the image plane and the others are zero. |
| TrainV1.SetStamp | tensorflow_models/human_pose_model/train_v-1.py:77 | The cells inside the (normalised) slice become 1, and every other cell is unchanged. |
| TrainV1.StampJoints | tensorflow_models/human_pose_model/train_v-1.py:72-78 | The loop raises iff a visited joint lacks a visibility flag or a visible joint's plane is 17 or more. Otherwise a cell of plane p is 1 iff some visible joint assigned to p covers it, and keeps its earlier value otherwise. |
| TrainV1.LoadBinaryHeatmap | tensorflow_models/human_pose_model/train_v-1.py:61-80 | As written: 17 planes. A cell of plane p is 1 iff visible joint p's stamp covers it. Otherwise plane 0 holds the image channel and every other plane holds 0. Invisible joints change nothing. |
| TrainV1.BinaryHeatmapOverwritesImage | tensorflow_models/human_pose_model/train_v-1.py:71-77 | As written, a visible joint 0 stamps the image plane: on a black 10x10 image, a joint at (0, 0) turns plane 0's pixel (5, 5) from 0 to 1. |
| TrainV1.BinaryHeatmapLastPlaneUnused | tensorflow_models/human_pose_model/train_v-1.py:70-78 | As written, with at most 16 joints, plane 16 stays all zero. |
| TrainV1.LoadBinaryHeatmapCorrected | tensorflow_models/human_pose_model/train_v-1.py:61-80 | Corrected numbering: plane 0 is exactly the image plane, and a cell of plane p >= 1 is 1 iff joint p-1 is visible and its stamp covers the cell, and 0 otherwise. |
| TrainV1.CorrectedJointPlanes | tensorflow_models/human_pose_model/train_v-1.py:72-78 | Every joint plane of the corrected loader holds only 0 and 1, and an invisible joint's plane is all zero. |
| TrainV1.GaussPlane | tensorflow_models/human_pose_model/train_v-1.py:101 | Storing `gaussian2d(x, y)` into a plane succeeds iff its shape broadcasts to `W x H`, and then copies it with broadcasting. |
| TrainV1.GaussianJoints | tensorflow_models/human_pose_model/train_v-1.py:98-102 | The loop raises iff a visited joint lacks a flag, a visible joint would need plane 17, or a Gaussian does not broadcast. Plane k+1 becomes joint k's Gaussian when k is visible, and is unchanged otherwise. |
| TrainV1.LoadGaussianHeatmap | tensorflow_models/human_pose_model/train_v-1.py:91-103 | Plane 0 is the image plane. Plane k+1 is joint k's Gaussian when k is visible, and all zero otherwise. |
| TrainV1.BinaryAndGaussianPlanesAgree | tensorflow_models/human_pose_model/train_v-1.py:96-101 | The corrected binary planes and the Gaussian planes share plane 0. A stamped cell in binary plane p means Gaussian plane p is joint p-1's Gaussian, and an invisible joint's two planes are both zero. |
| TrainV1.FetchExample | tensorflow_models/human_pose_model/train_v-1.py:106-127 | It fails iff the image has no people, in which case the result is never bound. Otherwise it returns the crop and pose of the last person only. |
| TrainV1.LoadExampleStages | tensorflow_models/human_pose_model/train_v-1.py:144-147 | One batch element loads iff the image broadcast, the binary planes (loader as written) and the Gaussian planes all succeed for the last person's crop. The element is made of exactly those three results. |
| TrainV1.NewIterator | tensorflow_models/human_pose_model/train_v-1.py:34-39 | A new iterator starts at step 0, with the given data, batch size, width and height. |
| Wrappers.RunLoop | tensorflow_models/human_pose_model/train_v-1.py:143-147 | A loop over 0..count-1 whose body may raise: it succeeds iff every iteration does, and then yields count values, value i being iteration i's result. |
| TrainV1.LoadBatch | tensorflow_models/human_pose_model/train_v-1.py:143-147 | The batch loop succeeds iff every iteration 0..count-1 does (indexing past a list's end raises). Element i is iteration i's example, and there are exactly `count` of them. |
| TrainV1.Slice | tensorflow_models/human_pose_model/train_v-1.py:134-136 | `l[s:s+n]` has `min(n, len - min(s, len))` elements, and element i is `l[s+i]`. |
| TrainV1.SliceExampleAt | tensorflow_models/human_pose_model/train_v-1.py:134-144 | Iteration i over the two slices taken at the cursor is the pairing of `img_filenames[s+i]` with `people_in_imgs[s+i]`. |
| TrainV1.Next | tensorflow_models/human_pose_model/train_v-1.py:129-149 | It succeeds iff every entry s..s+BATCH_SIZE-1 loads. The batch has BATCH_SIZE elements, element i pairs file s+i with people s+i, and the cursor advances by exactly BATCH_SIZE with nothing else changed. |
| TrainV1.IteratorEntry | tensorflow_models/human_pose_model/train_v-1.py:143-147 | Inside the iterator, entry j is `LoadExample` of file j and people j with the iterator's width and height (binary planes as written). Past the end of either list it raises. |
| TrainV1.NextWindow | tensorflow_models/human_pose_model/train_v-1.py:129-149 | `next` is determined by the loader's results in its window: any batch matching them is the one returned. |
| TrainV1.NextAdvances | tensorflow_models/human_pose_model/train_v-1.py:148 | Two successive calls read adjacent, non-overlapping windows. Together they return what one call with a doubled batch size returns, and they end at the same cursor. |

## Left out

- Queueing and threading are left out: the TFRecord readers, the shuffle and batch queues, `batch_join`, queue runners and the runner threads. They are concurrency plumbing inside the framework. The thread loop is modelled as one entry per thread id.
- File and image I/O are left out: `scipy.io.loadmat`, pickling, `os.listdir`, TFRecord and protobuf parsing, JPEG decoding, and PIL. The `.mat` contents and the protobuf fields are plain datatypes. The directory listing is a set of names.
- Gaussian heatmap values are left out (`_get_joints_normal_pdf`, `_get_joint_heatmaps`, `gaussian2d`), because they are exponential and PDF numerics. They are function parameters that yield arrays of a given shape. `gaussian2d`'s fixed 380-sample axis shows up only as the shape `gaussRows x gaussCols` of its arrays.
- Rotation and colour jitter are left out (`tf.contrib.image.rotate`, and the random brightness, saturation, hue and contrast magnitudes), because they are library numerics. They are opaque image functions, and the model records only where they apply.
- float32 rounding, and the uint8 to float32 cast beyond exact values, are left out: the model uses `real`.
- Randomness: `np.random.shuffle` becomes a permutation oracle `shuffleOf`, and `tf.random_uniform` becomes the number `coin`.
- `pose_utils.sparse_joints_to_dense_single_example` is not part of this model. `InputPipeline.SparseJointsToDenseSingleExample` is an assumed contract for it: it scatters x, y and 0/1 weights over 16 slots with `tf.sparse_to_dense` and passes the indices through unchanged. That is stricter than the training script's own densification (train.py:83-87), which goes through `tf.sparse_merge` and accepts distinct ids in any order (`Train.SparseRowToDense`). The stricter rule rejects nothing extra, provided the indices are passed through unchanged: `_get_is_visible_weights` (input_pipeline.py:412-414) scatters the same indices with `tf.sparse_to_dense` and needs them strictly increasing too (`InputPipeline.OrderingDemandedByVisibility`).
- `mpii_utils.find_person_bounding_box`, `find_padded_person_dim`, `ImageCoder.crop_pad_resize` and `extract_labeled_joints` are not part of this model. `TrainV1.Collaborators.extract` stands for them.
- The network, losses, optimizer, learning-rate schedule, summaries, flags, plotting and the `train()` drivers are left out: they are not label handling.
- Train.SparseJointsToDense: `tf.sparse_merge` may reorder a row's entries. The model therefore requires distinct in-range ids and takes no position on the order of entries inside TensorFlow.
- TrainV1.LoadExample: its own contract only says a loaded element comes from an image with people. Its full meaning is `TrainV1.LoadExampleStages`.
- TrainV1.FetchExample: extraction (`Collaborators.extract`) is assumed not to fail. The source computes a crop and pose for every person and keeps only the last; a failure while cropping an earlier person would raise, and the model does not represent that, so "fails iff no people" holds only under this assumption.
- TrainV1.Next: it takes the per-entry work as a parameter. The iterator passes `TrainV1.ExampleLoader`, which uses the binary loader as written, so its batches carry the plane-numbering defect described under Findings.
- InputPipeline.MergeMaps: it is only the per-example `ChannelMax` over a batch, so it has no property of its own.
- MpiiRead.ShuffleList: it requires every index to be in range. The reader only calls it with a permutation of the list's own indices, so the IndexError path is not modelled.
- MpiiRead.PersonOf: a joint id that is not an integer (a float or a string in the `.mat` file) is not modelled. Ids are integers.

## Findings

| source | as written | input that shows it | evidently intended | confidence | as-written member | corrected member |
|---|---|---|---|---|---|---|
| tensorflow_models/human_pose_model/train_v-1.py:72-77 | `load_binary_heatmap` starts its plane counter at 0. The k-th listed joint (list position, not joint id) is stamped into plane k, so the first listed joint overwrites the image channel in plane 0 and plane 16 is never used. | A black 10x10 image and one visible joint at (0, 0): plane 0's pixel (5, 5) becomes 1.0 instead of the image value 0.0. | The k-th listed joint in plane k+1, as `load_gaussian_heatmap` (train_v-1.py:98-101) numbers them, with plane 0 left to the image. | not executed | TrainV1.BinaryHeatmapOverwritesImage | TrainV1.BinaryAndGaussianPlanesAgree |
