/** The label densification of the training script: a batch of sparse joint
    coordinate lists becomes a dense [batch, 32] coordinate matrix and a
    parallel 0/1 presence-weight matrix. */
module Train {
  import opened Wrappers
  import opened Tensors
  import MpiiRead

  /** The training script's NUM_JOINTS: the same sixteen joints as Person.NUM_JOINTS. */
  const NumJoints: nat := MpiiRead.NumJoints

  /** Every joint contributes an x and a y coordinate. */
  const NumJointCoords: nat := 2 * NumJoints

  lemma NumJointCoordsValue()
    ensures NumJointCoords == 32 && NumJointCoords == 2 * NumJoints
  {
  }

  /** One example's sparse coordinate list: the coordinate slots present and
      their values, in the same order. */
  datatype SparseRow = SparseRow(ids: seq<int>, values: seq<real>)

  /** The row can be merged: one value per id, and the ids name distinct
      slots of the dense row. `tf.sparse_merge` reorders its entries, so
      their order does not matter; a repeated or out-of-range id is rejected
      when the merged tensor is densified. */
  predicate MergeableRow(row: SparseRow, numJointCoords: nat) {
    |row.values| == |row.ids| && Distinct(row.ids) && AllBelow(row.ids, numJointCoords)
  }

  /** One dense row and its presence weights. */
  datatype DenseRow = DenseRow(joints: seq<real>, weights: seq<real>)

  /** `_sparse_joints_to_dense` on one row of the batch. */
  function SparseRowToDense(row: SparseRow, numJointCoords: nat): (r: Result<DenseRow, SparseError>)
    ensures r.Success? <==> MergeableRow(row, numJointCoords)
    ensures r.Success? ==> |r.value.joints| == numJointCoords && |r.value.weights| == numJointCoords
    ensures r.Success? ==> forall k :: 0 <= k < |row.ids| ==>
      r.value.joints[row.ids[k]] == row.values[k] && r.value.weights[row.ids[k]] == 1.0
    ensures r.Success? ==> forall i :: 0 <= i < numJointCoords && i !in row.ids ==>
      r.value.joints[i] == 0.0 && r.value.weights[i] == 0.0
  {
    if |row.values| != |row.ids| then Failure(ValueCountMismatch)
    else if !(Distinct(row.ids) && AllBelow(row.ids, numJointCoords)) then Failure(InvalidSparseIndices)
    else
      var joints := seq(numJointCoords, i requires 0 <= i < numJointCoords => LookUp(row.ids, row.values, i, 0.0));
      assert forall k :: 0 <= k < |row.ids| ==> joints[row.ids[k]] == row.values[k] by {
        forall k | 0 <= k < |row.ids| {
          LookUpPresent(row.ids, row.values, k, 0.0);
        }
      }
      assert forall i :: 0 <= i < numJointCoords && i !in row.ids ==> joints[i] == 0.0 by {
        forall i | 0 <= i < numJointCoords && i !in row.ids {
          LookUpAbsent(row.ids, row.values, i, 0.0);
        }
      }
      Success(DenseRow(joints, Indicator(row.ids, numJointCoords)))
  }

  /** The weights mark exactly the present slots, they sum to the number of
      present coordinates, and a non-zero coordinate is always weighted. */
  lemma DenseRowWeights(row: SparseRow, numJointCoords: nat)
    requires SparseRowToDense(row, numJointCoords).Success?
    ensures var d := SparseRowToDense(row, numJointCoords).value;
      (forall i :: 0 <= i < numJointCoords ==> (d.weights[i] == 1.0 <==> i in row.ids)) &&
      (forall i :: 0 <= i < numJointCoords ==> (d.weights[i] == 0.0 <==> i !in row.ids)) &&
      (forall i :: 0 <= i < numJointCoords && d.joints[i] != 0.0 ==> d.weights[i] == 1.0) &&
      Sum(d.weights) == |row.ids| as real
  {
    var d := SparseRowToDense(row, numJointCoords).value;
    forall i | 0 <= i < numJointCoords && i in row.ids
      ensures d.weights[i] == 1.0
    {
      var k :| 0 <= k < |row.ids| && row.ids[k] == i;
    }
    IndicatorSum(row.ids, numJointCoords);
    assert d.weights == Indicator(row.ids, numJointCoords);
  }

  /** The dense row and its weights give the sparse row back: the present
      slots are those weighted 1, and each holds its value. */
  lemma DenseRowRecoversSparse(row: SparseRow, numJointCoords: nat, i: int)
    requires SparseRowToDense(row, numJointCoords).Success?
    requires 0 <= i < numJointCoords
    ensures var d := SparseRowToDense(row, numJointCoords).value;
      d.weights[i] == 1.0 <==> exists k :: 0 <= k < |row.ids| && row.ids[k] == i && d.joints[i] == row.values[k]
  {
    DenseRowWeights(row, numJointCoords);
  }

  /** `_sparse_joints_to_dense`: densifies every row of the batch, failing if
      any row cannot be merged. */
  function SparseJointsToDense(batch: seq<SparseRow>, numJointCoords: nat)
    : (r: Result<seq<DenseRow>, SparseError>)
    ensures r.Success? <==> forall b :: 0 <= b < |batch| ==> MergeableRow(batch[b], numJointCoords)
    ensures r.Success? ==> |r.value| == |batch|
    ensures r.Success? ==> forall b :: 0 <= b < |batch| ==>
      SparseRowToDense(batch[b], numJointCoords) == Success(r.value[b])
    ensures r.Success? ==> forall b :: 0 <= b < |batch| ==>
      |r.value[b].joints| == numJointCoords && |r.value[b].weights| == numJointCoords
  {
    if |batch| == 0 then Success([])
    else
      var first :- SparseRowToDense(batch[0], numJointCoords);
      var rest :- SparseJointsToDense(batch[1..], numJointCoords);
      Success([first] + rest)
  }

  /** The dense joints as the [batch, numJointCoords] matrix the network reads. */
  lemma DenseBatchShape(batch: seq<SparseRow>)
    requires SparseJointsToDense(batch, NumJointCoords).Success?
    ensures var rows := SparseJointsToDense(batch, NumJointCoords).value;
      IsMatrix(seq(|rows|, b requires 0 <= b < |rows| => rows[b].joints), |batch|, 32) &&
      IsMatrix(seq(|rows|, b requires 0 <= b < |rows| => rows[b].weights), |batch|, 32)
  {
  }
}
