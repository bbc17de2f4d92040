/** Sequence and tensor vocabulary shared by the pipeline: index permutations and
    gathers, left-right reversal of a grid, dense tensors as nested sequences,
    the sparse-to-dense scatter of TensorFlow (with index validation), sums,
    maxima and the chunking used by a reshape. */
module Tensors {
  import opened Wrappers

  /** An unsigned 8-bit value, as produced by decoding a raw uint8 buffer. */
  newtype byte = x: int | 0 <= x < 256

  /** A rank-3 tensor laid out as [row][column][channel]. */
  type Tensor3 = seq<seq<seq<real>>>

  // ---------------------------------------------------------------------------
  // Shapes

  predicate IsMatrix<T>(g: seq<seq<T>>, rows: nat, cols: nat) {
    |g| == rows && forall r :: 0 <= r < rows ==> |g[r]| == cols
  }

  predicate IsTensor3<T>(t: seq<seq<seq<T>>>, rows: nat, cols: nat, chans: nat) {
    IsMatrix(t, rows, cols) &&
    forall r, c :: 0 <= r < rows && 0 <= c < cols ==> |t[r][c]| == chans
  }

  /** Every pixel of `t` has exactly `chans` channels (rows may differ in length). */
  predicate HasChannels<T>(t: seq<seq<seq<T>>>, chans: nat) {
    forall r, c :: 0 <= r < |t| && 0 <= c < |t[r]| ==> |t[r][c]| == chans
  }

  /** Every value of `t` lies in the closed interval [lo, hi]. */
  predicate InRange(t: Tensor3, lo: real, hi: real) {
    forall r, c, k :: 0 <= r < |t| && 0 <= c < |t[r]| && 0 <= k < |t[r][c]| ==>
      lo <= t[r][c][k] <= hi
  }

  // ---------------------------------------------------------------------------
  // Index permutations and gathers

  /** The index list [0, 1, ..., n-1]. */
  function Range(n: nat): seq<nat> {
    seq(n, i => i)
  }

  /** `idx` holds every index of [0, n) exactly once. */
  predicate IsPermutation(idx: seq<nat>, n: nat) {
    multiset(idx) == multiset(Range(n))
  }

  lemma PermutationBounds(idx: seq<nat>, n: nat)
    requires IsPermutation(idx, n)
    ensures |idx| == n
    ensures forall k :: 0 <= k < |idx| ==> idx[k] < n
  {
    assert |multiset(idx)| == |idx|;
    assert |multiset(Range(n))| == n;
    forall k | 0 <= k < |idx|
      ensures idx[k] < n
    {
      assert idx[k] in multiset(idx);
      assert idx[k] in Range(n);
    }
  }

  /** `out[k] = s[idx[k]]`: a gather along the first axis. */
  function Gather<T>(s: seq<T>, idx: seq<nat>): seq<T>
    requires forall k :: 0 <= k < |idx| ==> idx[k] < |s|
  {
    seq(|idx|, k requires 0 <= k < |idx| => s[idx[k]])
  }

  /** Removing the position that holds the largest index of a permutation of
      [0, n] leaves a permutation of [0, n). */
  lemma PermutationDropLast(idx: seq<nat>, n: nat) returns (j: nat)
    requires IsPermutation(idx, n + 1)
    ensures j < |idx| && idx[j] == n
    ensures IsPermutation(idx[..j] + idx[j + 1..], n)
  {
    assert Range(n + 1) == Range(n) + [n];
    assert n in multiset(Range(n + 1));
    assert n in multiset(idx);
    j :| 0 <= j < |idx| && idx[j] == n;
    var rest := idx[..j] + idx[j + 1..];
    assert idx == idx[..j] + [n] + idx[j + 1..];
    assert multiset(rest) + multiset{n} == multiset(Range(n)) + multiset{n};
    calc {
      multiset(rest);
      (multiset(rest) + multiset{n}) - multiset{n};
      (multiset(Range(n)) + multiset{n}) - multiset{n};
      multiset(Range(n));
    }
  }

  /** Gathering through a permutation of all indices rearranges `s` without
      losing or duplicating anything. */
  lemma {:induction false} GatherPermutation<T>(s: seq<T>, idx: seq<nat>)
    requires IsPermutation(idx, |s|)
    ensures forall k :: 0 <= k < |idx| ==> idx[k] < |s|
    ensures multiset(Gather(s, idx)) == multiset(s)
    decreases |s|
  {
    PermutationBounds(idx, |s|);
    if |s| > 0 {
      var n := |s| - 1;
      var j := PermutationDropLast(idx, n);
      var rest := idx[..j] + idx[j + 1..];
      GatherPermutation(s[..n], rest);
      PermutationBounds(rest, n);
      GatherDropLast(s, idx, j, rest);
      assert s == s[..n] + [s[n]];
    }
  }

  /** Gathering through `idx`, whose position `j` names the last element,
      is gathering the other positions `rest` from the front plus that
      element. */
  lemma GatherDropLast<T>(s: seq<T>, idx: seq<nat>, j: nat, rest: seq<nat>)
    requires |s| > 0 && j < |idx| && idx[j] == |s| - 1
    requires rest == idx[..j] + idx[j + 1..]
    requires forall k :: 0 <= k < |rest| ==> rest[k] < |s| - 1
    ensures forall k :: 0 <= k < |idx| ==> idx[k] < |s|
    ensures multiset(Gather(s, idx)) == multiset(Gather(s[..|s| - 1], rest)) + multiset{s[|s| - 1]}
  {
    var n := |s| - 1;
    assert forall k :: 0 <= k < |idx| ==> idx[k] < |s| by {
      forall k | 0 <= k < |idx|
        ensures idx[k] < |s|
      {
        if k < j {
          assert idx[k] == rest[k];
        } else if k > j {
          assert idx[k] == rest[k - 1];
        }
      }
    }
    var g := Gather(s, idx);
    var h := Gather(s[..n], rest);
    var joined := h[..j] + [s[n]] + h[j..];
    assert g == joined by {
      forall k | 0 <= k < |g|
        ensures g[k] == joined[k]
      {
        if k < j {
          assert idx[k] == rest[k];
        } else if k > j {
          assert idx[k] == rest[k - 1];
        }
      }
    }
    assert h == h[..j] + h[j..];
  }

  /** Reverses one sequence. */
  function Reverse<T>(s: seq<T>): seq<T> {
    seq(|s|, i requires 0 <= i < |s| => s[|s| - 1 - i])
  }

  /** Reversal rearranges a sequence without changing its contents. */
  lemma {:induction false} ReverseMultiset<T>(s: seq<T>)
    ensures multiset(Reverse(s)) == multiset(s)
  {
    if |s| > 0 {
      ReverseMultiset(s[1..]);
      assert Reverse(s) == Reverse(s[1..]) + [s[0]];
      assert s == [s[0]] + s[1..];
    }
  }

  /** Mirrors a grid along its column axis (the image's width), as
      `tf.image.flip_left_right` does on a [row][column][channel] tensor. */
  function FlipLeftRight<T>(g: seq<seq<T>>): (f: seq<seq<T>>)
    ensures |f| == |g|
    ensures forall r :: 0 <= r < |g| ==> |f[r]| == |g[r]|
    ensures forall r, c :: 0 <= r < |g| && 0 <= c < |g[r]| ==> f[r][|g[r]| - 1 - c] == g[r][c]
  {
    seq(|g|, r requires 0 <= r < |g| => Reverse(g[r]))
  }

  /** Mirroring a grid twice gives the grid back. */
  lemma FlipLeftRightInvolution<T>(g: seq<seq<T>>)
    ensures FlipLeftRight(FlipLeftRight(g)) == g
  {
    var f := FlipLeftRight(FlipLeftRight(g));
    forall r | 0 <= r < |g|
      ensures f[r] == g[r]
    {
      assert Reverse(Reverse(g[r])) == g[r];
    }
  }

  // ---------------------------------------------------------------------------
  // Sparse to dense

  predicate StrictlyIncreasing(s: seq<int>) {
    forall a, b :: 0 <= a < b < |s| ==> s[a] < s[b]
  }

  /** A value below every element extends an increasing sequence at the front. */
  lemma IncreasingCons(x: int, s: seq<int>)
    requires StrictlyIncreasing(s) && forall k :: 0 <= k < |s| ==> x < s[k]
    ensures StrictlyIncreasing([x] + s)
  {
    var t := [x] + s;
    forall a, b | 0 <= a < b < |t| ensures t[a] < t[b] {
      assert t[b] == s[b - 1];
      if a > 0 {
        assert t[a] == s[a - 1];
      }
    }
  }

  /** No value occurs twice. */
  predicate Distinct(s: seq<int>) {
    forall a, b :: 0 <= a < b < |s| ==> s[a] != s[b]
  }

  /** Every value is a position of a length-n vector. */
  predicate AllBelow(s: seq<int>, n: nat) {
    forall k :: 0 <= k < |s| ==> 0 <= s[k] < n
  }

  /** The index validation `tf.sparse_to_dense` performs by default: indices
      sorted, without repeats, and inside the output shape. */
  predicate ValidSparseIndices(indices: seq<int>, n: nat) {
    StrictlyIncreasing(indices) && AllBelow(indices, n)
  }

  /** Sorted indices without repeats are in particular distinct. */
  lemma ValidSparseDistinct(indices: seq<int>, n: nat)
    requires ValidSparseIndices(indices, n)
    ensures Distinct(indices)
  {
    forall a, b | 0 <= a < b < |indices|
      ensures indices[a] != indices[b]
    {
      assert indices[a] < indices[b];
    }
  }

  datatype SparseError = ValueCountMismatch | InvalidSparseIndices

  /** The value stored for dense position `i`, or `default` when no sparse
      entry names `i`. */
  function LookUp<T>(indices: seq<int>, values: seq<T>, i: int, default: T): T
    requires |values| == |indices|
  {
    if |indices| == 0 then default
    else if indices[0] == i then values[0]
    else LookUp(indices[1..], values[1..], i, default)
  }

  lemma {:induction false} LookUpAbsent<T>(indices: seq<int>, values: seq<T>, i: int, default: T)
    requires |values| == |indices| && i !in indices
    ensures LookUp(indices, values, i, default) == default
  {
    if |indices| > 0 {
      LookUpAbsent(indices[1..], values[1..], i, default);
    }
  }

  lemma {:induction false} LookUpPresent<T>(indices: seq<int>, values: seq<T>, k: nat, default: T)
    requires |values| == |indices| && Distinct(indices) && k < |indices|
    ensures LookUp(indices, values, indices[k], default) == values[k]
  {
    if k > 0 {
      assert indices[0] != indices[k];
      assert indices[1..][k - 1] == indices[k];
      LookUpPresent(indices[1..], values[1..], k - 1, default);
    }
  }

  /** `tf.sparse_to_dense(indices, [n], values, default)` on a rank-1 output:
      fails on a value count that does not match the index count, or on
      indices that are unsorted, repeated or out of range. */
  function ScatterDense<T>(indices: seq<int>, values: seq<T>, n: nat, default: T): (r: Result<seq<T>, SparseError>)
    ensures r.Success? <==> |values| == |indices| && ValidSparseIndices(indices, n)
    ensures r.Success? ==> |r.value| == n
    ensures r.Success? ==> forall k :: 0 <= k < |indices| ==> r.value[indices[k]] == values[k]
    ensures r.Success? ==> forall i :: 0 <= i < n && i !in indices ==> r.value[i] == default
  {
    if |values| != |indices| then Failure(ValueCountMismatch)
    else if !ValidSparseIndices(indices, n) then Failure(InvalidSparseIndices)
    else
      var dense := seq(n, i requires 0 <= i < n => LookUp(indices, values, i, default));
      ValidSparseDistinct(indices, n);
      assert forall k :: 0 <= k < |indices| ==> dense[indices[k]] == values[k] by {
        forall k | 0 <= k < |indices| {
          LookUpPresent(indices, values, k, default);
        }
      }
      assert forall i :: 0 <= i < n && i !in indices ==> dense[i] == default by {
        forall i | 0 <= i < n && i !in indices {
          LookUpAbsent(indices, values, i, default);
        }
      }
      Success(dense)
  }

  // ---------------------------------------------------------------------------
  // Reductions

  function Sum(s: seq<real>): real {
    if |s| == 0 then 0.0 else s[0] + Sum(s[1..])
  }

  lemma {:induction false} SumZeros(s: seq<real>)
    requires forall i :: 0 <= i < |s| ==> s[i] == 0.0
    ensures Sum(s) == 0.0
  {
    if |s| > 0 {
      SumZeros(s[1..]);
    }
  }

  /** Raising one entry by one raises the sum by one. */
  lemma {:induction false} SumBump(s: seq<real>, m: nat)
    requires m < |s|
    ensures Sum(s[m := s[m] + 1.0]) == Sum(s) + 1.0
  {
    var t := s[m := s[m] + 1.0];
    if m > 0 {
      assert t[1..] == s[1..][m - 1 := s[m] + 1.0];
      SumBump(s[1..], m - 1);
    } else {
      assert t[1..] == s[1..];
    }
  }

  /** Rearranging a sequence does not change its sum. */
  lemma {:induction false} SumOfPermutation(s: seq<real>, t: seq<real>)
    requires multiset(s) == multiset(t)
    ensures Sum(s) == Sum(t)
    decreases |s|
  {
    if |s| > 0 {
      var j := MatchFirst(s, t);
      SumOfPermutation(s[1..], t[..j] + t[j + 1..]);
      SumStep(s, t, j);
    }
  }

  /** A rearrangement holds the first element somewhere; taking it out of
      both leaves two rearrangements of each other. */
  lemma MatchFirst<T>(s: seq<T>, t: seq<T>) returns (j: nat)
    requires |s| > 0 && multiset(s) == multiset(t)
    ensures j < |t| && t[j] == s[0]
    ensures multiset(s[1..]) == multiset(t[..j] + t[j + 1..])
  {
    assert s[0] in multiset(t);
    j :| 0 <= j < |t| && t[j] == s[0];
    MultisetDrop(t, j);
    assert s == [s[0]] + s[1..];
  }

  /** Matching the first element of `s` with position `j` of `t` reduces the
      equality of the sums to the equality of what remains. */
  lemma SumStep(s: seq<real>, t: seq<real>, j: nat)
    requires |s| > 0 && j < |t| && t[j] == s[0]
    requires Sum(s[1..]) == Sum(t[..j] + t[j + 1..])
    ensures Sum(s) == Sum(t)
  {
    SumRemove(t, j);
  }

  /** Dropping position `j` drops one copy of its element. */
  lemma MultisetDrop<T>(t: seq<T>, j: nat)
    requires j < |t|
    ensures multiset(t[..j] + t[j + 1..]) == multiset(t) - multiset{t[j]}
  {
    assert t == t[..j] + [t[j]] + t[j + 1..];
  }

  /** Taking one element out of a sequence takes it out of the sum. */
  lemma {:induction false} SumRemove(t: seq<real>, j: nat)
    requires j < |t|
    ensures Sum(t) == t[j] + Sum(t[..j] + t[j + 1..])
  {
    if j > 0 {
      SumRemove(t[1..], j - 1);
      assert t[1..][..j - 1] + t[1..][j..] == (t[..j] + t[j + 1..])[1..];
    } else {
      assert t[..j] + t[j + 1..] == t[1..];
    }
  }

  /** The 0/1 indicator of a set of positions, as a dense vector of length n. */
  function Indicator(indices: seq<int>, n: nat): seq<real> {
    seq(n, i => if i in indices then 1.0 else 0.0)
  }

  /** The indicator of distinct in-range positions sums to their count. */
  lemma {:induction false} IndicatorSum(indices: seq<int>, n: nat)
    requires Distinct(indices) && AllBelow(indices, n)
    ensures Sum(Indicator(indices, n)) == |indices| as real
    decreases |indices|
  {
    if |indices| == 0 {
      SumZeros(Indicator(indices, n));
    } else {
      var last := |indices| - 1;
      var front := indices[..last];
      var m := indices[last];
      assert m !in front;
      IndicatorSum(front, n);
      assert Indicator(indices, n) == Indicator(front, n)[m := Indicator(front, n)[m] + 1.0] by {
        assert indices == front + [m];
      }
      SumBump(Indicator(front, n), m);
    }
  }

  /** The largest element of a non-empty sequence. */
  function MaxOf(s: seq<real>): (m: real)
    requires |s| > 0
    ensures forall i :: 0 <= i < |s| ==> s[i] <= m
    ensures exists i :: 0 <= i < |s| && s[i] == m
  {
    if |s| == 1 then s[0]
    else
      var tail := MaxOf(s[1..]);
      if s[0] >= tail then s[0] else tail
  }

  /** Rearranging a sequence does not change its largest element. */
  lemma MaxOfPermutation(s: seq<real>, t: seq<real>)
    requires |s| > 0 && multiset(s) == multiset(t)
    ensures |t| > 0 && MaxOf(s) == MaxOf(t)
  {
    assert s[0] in multiset(t);
    var ms := MaxOf(s);
    var i :| 0 <= i < |s| && s[i] == ms;
    assert s[i] in multiset(t);
    var mt := MaxOf(t);
    var j :| 0 <= j < |t| && t[j] == mt;
    assert t[j] in multiset(s);
  }

  // ---------------------------------------------------------------------------
  // Chunking (the data movement of a row-major reshape)

  lemma MulMonotone(a: nat, b: nat, c: nat)
    requires a <= b
    ensures a * c <= b * c
  {
  }

  lemma MulPred(count: nat, len: nat)
    requires count > 0
    ensures (count - 1) * len + len == count * len
  {
  }

  /** Splits `s` into `count` consecutive blocks of length `len`. */
  function Chunk<T>(s: seq<T>, count: nat, len: nat): (r: seq<seq<T>>)
    requires |s| == count * len
    ensures |r| == count
    ensures forall i :: 0 <= i < count ==> |r[i]| == len
    decreases count
  {
    if count == 0 then []
    else [s[..len]] + Chunk(s[len..], count - 1, len)
  }

  /** Block `i` of a chunking is the slice starting at `i * len`. */
  lemma {:induction false} ChunkAt<T>(s: seq<T>, count: nat, len: nat, i: nat)
    requires |s| == count * len && i < count
    ensures i * len + len <= |s|
    ensures Chunk(s, count, len)[i] == s[i * len .. i * len + len]
    decreases count
  {
    MulMonotone(i + 1, count, len);
    if i > 0 {
      ChunkAt(s[len..], count - 1, len, i - 1);
      assert (i - 1) * len + len == i * len;
    }
  }

  /** Element k of block i of a chunking is element i*len + k of the sequence. */
  lemma ChunkElement<T>(s: seq<T>, count: nat, len: nat, i: nat, k: nat)
    requires |s| == count * len && i < count && k < len
    ensures i * len + k < |s|
    ensures Chunk(s, count, len)[i][k] == s[i * len + k]
  {
    ChunkAt(s, count, len, i);
  }

  /** Concatenates a sequence of sequences. */
  function Concat<T>(bs: seq<seq<T>>): seq<T> {
    if |bs| == 0 then [] else bs[0] + Concat(bs[1..])
  }

  lemma {:induction false} ConcatLength<T>(bs: seq<seq<T>>, len: nat)
    requires forall i :: 0 <= i < |bs| ==> |bs[i]| == len
    ensures |Concat(bs)| == |bs| * len
  {
    if |bs| > 0 {
      ConcatLength(bs[1..], len);
    }
  }

  /** Concatenating the blocks of a chunking gives back the sequence. */
  lemma {:induction false} ConcatChunk<T>(s: seq<T>, count: nat, len: nat)
    requires |s| == count * len
    ensures Concat(Chunk(s, count, len)) == s
    decreases count
  {
    if count > 0 {
      MulPred(count, len);
      var tail := s[len..];
      ConcatChunk(tail, count - 1, len);
      assert Chunk(s, count, len) == [s[..len]] + Chunk(tail, count - 1, len);
      assert s == s[..len] + tail;
    }
  }

  /** Chunking a concatenation of equal-length blocks gives back the blocks. */
  lemma {:induction false} ChunkConcat<T>(bs: seq<seq<T>>, len: nat)
    requires forall i :: 0 <= i < |bs| ==> |bs[i]| == len
    ensures |Concat(bs)| == |bs| * len
    ensures Chunk(Concat(bs), |bs|, len) == bs
  {
    ConcatLength(bs, len);
    if |bs| > 0 {
      ConcatLength(bs[1..], len);
      ChunkConcat(bs[1..], len);
      assert (bs[0] + Concat(bs[1..]))[..len] == bs[0];
      assert (bs[0] + Concat(bs[1..]))[len..] == Concat(bs[1..]);
    }
  }

  // ---------------------------------------------------------------------------
  // Row-major reshape of a flat buffer into [rows][cols][chans]

  lemma CellIndexBound(rows: nat, cols: nat, chans: nat, r: nat, c: nat, k: nat)
    requires r < rows && c < cols && k < chans
    ensures r * cols + c < rows * cols
    ensures r * cols + cols <= rows * cols
    ensures (r * cols + c) * chans + k < rows * cols * chans
    ensures (r * cols + c) * chans + chans <= rows * cols * chans
  {
    MulMonotone(r + 1, rows, cols);
    MulMonotone(r * cols + c + 1, rows * cols, chans);
  }

  /** `tf.reshape(flat, [rows, cols, chans])`. */
  function Reshape3<T>(flat: seq<T>, rows: nat, cols: nat, chans: nat): (g: seq<seq<seq<T>>>)
    requires |flat| == rows * cols * chans
    ensures IsTensor3(g, rows, cols, chans)
  {
    var cells := Chunk(flat, rows * cols, chans);
    var g := Chunk(cells, rows, cols);
    assert forall r, c :: 0 <= r < rows && 0 <= c < cols ==> |g[r][c]| == chans by {
      forall r, c | 0 <= r < rows && 0 <= c < cols
        ensures |g[r][c]| == chans
      {
        CellIndexBound(rows, cols, 1, r, c, 0);
        ChunkAt(cells, rows, cols, r);
        assert g[r][c] == cells[r * cols + c];
      }
    }
    g
  }

  /** Cell [r][c] of a reshape is cell r*cols + c of the chunked buffer. */
  lemma Reshape3Cell<T>(flat: seq<T>, rows: nat, cols: nat, chans: nat, r: nat, c: nat)
    requires |flat| == rows * cols * chans
    requires r < rows && c < cols
    ensures r * cols + c < rows * cols
    ensures Reshape3(flat, rows, cols, chans)[r][c] == Chunk(flat, rows * cols, chans)[r * cols + c]
  {
    CellIndexBound(rows, cols, 1, r, c, 0);
    ChunkAt(Chunk(flat, rows * cols, chans), rows, cols, r);
  }

  /** The row-major position of element [r][c][k] in a flat buffer with
      `cols` cells per row and `chans` values per cell. */
  function FlatIndex(cols: nat, chans: nat, r: nat, c: nat, k: nat): nat {
    (r * cols + c) * chans + k
  }

  /** Element [r][c][k] of a reshape is element (r*cols + c)*chans + k of the
      flat buffer. */
  lemma Reshape3At<T>(flat: seq<T>, rows: nat, cols: nat, chans: nat, r: nat, c: nat, k: nat)
    requires |flat| == rows * cols * chans
    requires r < rows && c < cols && k < chans
    ensures FlatIndex(cols, chans, r, c, k) < |flat|
    ensures Reshape3(flat, rows, cols, chans)[r][c][k] == flat[FlatIndex(cols, chans, r, c, k)]
  {
    var p := r * cols + c;
    var cells := Chunk(flat, rows * cols, chans);
    assert p < rows * cols && Reshape3(flat, rows, cols, chans)[r][c] == cells[p] by {
      Reshape3Cell(flat, rows, cols, chans, r, c);
    }
    assert p * chans + k < |flat| && cells[p][k] == flat[p * chans + k] by {
      ChunkElement(flat, rows * cols, chans, p, k);
    }
  }

  /** The row-major flattening a reshape inverts. */
  function Flatten3<T>(g: seq<seq<seq<T>>>): seq<T> {
    Concat(Concat(g))
  }

  /** Concatenating the rows of a grid keeps every cell's length. */
  lemma {:induction false} ConcatCells<T>(g: seq<seq<seq<T>>>, k: nat)
    requires forall r, c :: 0 <= r < |g| && 0 <= c < |g[r]| ==> |g[r][c]| == k
    ensures forall i :: 0 <= i < |Concat(g)| ==> |Concat(g)[i]| == k
  {
    if |g| > 0 {
      ConcatCells(g[1..], k);
      forall i | 0 <= i < |Concat(g)|
        ensures |Concat(g)[i]| == k
      {
        if i >= |g[0]| {
          assert Concat(g)[i] == Concat(g[1..])[i - |g[0]|];
        }
      }
    }
  }

  /** Reshaping then flattening gives the buffer back. */
  lemma FlattenReshape<T>(flat: seq<T>, rows: nat, cols: nat, chans: nat)
    requires |flat| == rows * cols * chans
    ensures Flatten3(Reshape3(flat, rows, cols, chans)) == flat
  {
    var cells := Chunk(flat, rows * cols, chans);
    ConcatChunk(cells, rows, cols);
    ConcatChunk(flat, rows * cols, chans);
  }

  /** Flattening then reshaping gives the grid back. */
  lemma ReshapeFlatten<T>(g: seq<seq<seq<T>>>, rows: nat, cols: nat, chans: nat)
    requires IsTensor3(g, rows, cols, chans)
    ensures |Flatten3(g)| == rows * cols * chans
    ensures Reshape3(Flatten3(g), rows, cols, chans) == g
  {
    var cells := Concat(g);
    ChunkConcat(g, cols);
    ConcatCells(g, chans);
    ChunkConcat(cells, chans);
  }
}
