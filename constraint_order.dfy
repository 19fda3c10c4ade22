/** The two flat layouts of a constraint matrix's last axis, and
    `reorder_constraints`, which converts between them.

    A constraint acts on a coefficient tensor with `nTargets` targets and
    `nFeatures` features, flattened to length nTargets * nFeatures:
    - target order keeps each target's features together:
      position t * nFeatures + f holds the entry for (target t, feature f);
    - row order keeps each feature's targets together:
      position f * nTargets + t holds the entry for (target t, feature f).
    Read as row-major matrices, target order is an nTargets x nFeatures
    matrix and row order is its transpose. */
module ConstraintOrder {
  import opened Reindexing

  // ---------------------------------------------------------------------
  // Row-major flattening of a two-dimensional index
  // ---------------------------------------------------------------------

  /** The position of entry (i, j) of a rows x cols matrix flattened row by row. */
  function FlatIndex(i: nat, j: nat, rows: nat, cols: nat): (k: nat)
    requires i < rows && j < cols
    ensures k < rows * cols
  {
    assert (i + 1) * cols <= rows * cols by {
      MulMonotone(i + 1, rows, cols);
    }
    i * cols + j
  }

  lemma MulMonotone(a: nat, b: nat, c: nat)
    requires a <= b
    ensures a * c <= b * c
  {
  }

  /** A flattened position determines its row and column. */
  lemma {:induction false} FlatIndexInverse(i: nat, j: nat, rows: nat, cols: nat)
    requires i < rows && j < cols
    ensures FlatIndex(i, j, rows, cols) / cols == i
    ensures FlatIndex(i, j, rows, cols) % cols == j
  {
    var k := i * cols + j;
    var q, r := k / cols, k % cols;
    assert k == q * cols + r;
    assert (q - i) * cols == j - r;
    if q > i {
      MulMonotone(1, q - i, cols);
    } else if q < i {
      MulMonotone(1, i - q, cols);
    }
  }

  /** Every position of a flattened rows x cols matrix is the position of some entry. */
  lemma Unflatten(k: nat, rows: nat, cols: nat)
    requires k < rows * cols
    ensures cols > 0 && k / cols < rows && k % cols < cols
    ensures FlatIndex(k / cols, k % cols, rows, cols) == k
  {
    assert cols > 0;
    if k / cols >= rows {
      MulMonotone(rows, k / cols, cols);
    }
  }

  // ---------------------------------------------------------------------
  // Transposition of a flattened matrix
  // ---------------------------------------------------------------------

  /** Where, in a flattened rows x cols matrix, the k-th entry of its
      flattened transpose comes from. */
  function TransposeSource(k: nat, rows: nat, cols: nat): (i: nat)
    requires k < rows * cols
    ensures i < rows * cols
  {
    Unflatten(k, cols, rows);
    FlatIndex(k % rows, k / rows, rows, cols)
  }

  /** Column j of the flattened rows x cols matrix `s`. */
  function Column<T>(s: seq<T>, rows: nat, cols: nat, j: nat): (c: seq<T>)
    requires |s| == rows * cols && j < cols
    ensures |c| == rows
    ensures forall i :: 0 <= i < rows ==> c[i] == s[FlatIndex(i, j, rows, cols)]
  {
    seq(rows, i requires 0 <= i < rows => s[FlatIndex(i, j, rows, cols)])
  }

  /** Columns j, j + 1, ..., cols - 1 of `s`, one after the other. */
  function ColumnsFrom<T>(s: seq<T>, rows: nat, cols: nat, j: nat): (r: seq<T>)
    requires |s| == rows * cols && j <= cols
    ensures |r| == (cols - j) * rows
    decreases cols - j
  {
    if j == cols then []
    else
      assert (cols - j) * rows == rows + (cols - (j + 1)) * rows;
      Column(s, rows, cols, j) + ColumnsFrom(s, rows, cols, j + 1)
  }

  /** Entry i of column c sits at offset (c - j) * rows + i of ColumnsFrom(s, rows, cols, j). */
  lemma {:induction false} ColumnsFromAt<T>(s: seq<T>, rows: nat, cols: nat, j: nat, i: nat, c: nat)
    requires |s| == rows * cols && i < rows && j <= c < cols
    ensures FlatIndex(c - j, i, cols - j, rows) < |ColumnsFrom(s, rows, cols, j)|
    ensures ColumnsFrom(s, rows, cols, j)[FlatIndex(c - j, i, cols - j, rows)] == s[FlatIndex(i, c, rows, cols)]
    decreases c - j
  {
    if c > j {
      ColumnsFromAt(s, rows, cols, j + 1, i, c);
      var d := c - (j + 1);
      assert (d + 1) * rows == rows + d * rows;
      assert FlatIndex(c - j, i, cols - j, rows) == rows + FlatIndex(d, i, cols - (j + 1), rows);
    }
  }

  /** The flattened transpose (cols x rows) of the flattened rows x cols
      matrix `s`: its columns, one after the other. */
  function Transpose<T>(s: seq<T>, rows: nat, cols: nat): (r: seq<T>)
    requires |s| == rows * cols
    ensures |r| == |s|
    ensures forall i, j :: 0 <= i < rows && 0 <= j < cols ==>
      r[FlatIndex(j, i, cols, rows)] == s[FlatIndex(i, j, rows, cols)]
  {
    var r := ColumnsFrom(s, rows, cols, 0);
    assert forall i, j :: 0 <= i < rows && 0 <= j < cols ==>
      r[FlatIndex(j, i, cols, rows)] == s[FlatIndex(i, j, rows, cols)] by {
      forall i, j | 0 <= i < rows && 0 <= j < cols
        ensures r[FlatIndex(j, i, cols, rows)] == s[FlatIndex(i, j, rows, cols)]
      {
        ColumnsFromAt(s, rows, cols, 0, i, j);
      }
    }
    r
  }

  /** Transposing twice gives back the matrix. */
  lemma {:induction false} TransposeTwice<T>(s: seq<T>, rows: nat, cols: nat)
    requires |s| == rows * cols
    ensures Transpose(Transpose(s, rows, cols), cols, rows) == s
  {
    var t := Transpose(s, rows, cols);
    var back := Transpose(t, cols, rows);
    forall k | 0 <= k < |s| ensures back[k] == s[k] {
      Unflatten(k, rows, cols);
      var i, j := k / cols, k % cols;
      assert back[FlatIndex(i, j, rows, cols)] == t[FlatIndex(j, i, cols, rows)];
    }
  }

  /** For each position of the transpose, the position of `s` it is read from. */
  function SourceIndices(rows: nat, cols: nat): (p: seq<nat>)
    ensures |p| == rows * cols
    ensures forall k :: 0 <= k < |p| ==> p[k] < rows * cols
  {
    seq(rows * cols, k requires 0 <= k < rows * cols => TransposeSource(k, rows, cols))
  }

  lemma GatherSourceIndices<T>(s: seq<T>, rows: nat, cols: nat)
    requires |s| == rows * cols
    ensures InBounds(s, SourceIndices(rows, cols))
    ensures Gather(s, SourceIndices(rows, cols)) == Transpose(s, rows, cols)
  {
    var p := SourceIndices(rows, cols);
    var r := Transpose(s, rows, cols);
    forall k | 0 <= k < |p| ensures r[k] == s[p[k]] {
      Unflatten(k, cols, rows);
      assert r[FlatIndex(k / rows, k % rows, cols, rows)] == s[FlatIndex(k % rows, k / rows, rows, cols)];
    }
  }

  /** Reading the transpose's sources back through the transpose of the
      transpose's sources gives every position: the two index maps are inverse. */
  lemma SourceIndicesInverse(rows: nat, cols: nat, a: nat)
    requires a < rows * cols
    ensures TransposeSource(a, cols, rows) < rows * cols
    ensures SourceIndices(rows, cols)[TransposeSource(a, cols, rows)] == a
  {
    Unflatten(a, rows, cols);
    FlatIndexInverse(a % cols, a / cols, cols, rows);
  }

  lemma SourceIndicesDistinct(rows: nat, cols: nat)
    ensures Distinct(SourceIndices(rows, cols))
  {
    var p := SourceIndices(rows, cols);
    forall a, b | 0 <= a < b < |p| ensures p[a] != p[b] {
      Unflatten(a, cols, rows);
      Unflatten(b, cols, rows);
      FlatIndexInverse(a % rows, a / rows, rows, cols);
      FlatIndexInverse(b % rows, b / rows, rows, cols);
    }
  }

  /** Transposing keeps the multiset of entries. */
  lemma TransposePermutes<T>(s: seq<T>, rows: nat, cols: nat)
    requires |s| == rows * cols
    ensures multiset(Transpose(s, rows, cols)) == multiset(s)
  {
    var p := SourceIndices(rows, cols);
    GatherSourceIndices(s, rows, cols);
    SourceIndicesDistinct(rows, cols);
    forall i | 0 <= i < |s| ensures i in p {
      SourceIndicesInverse(rows, cols, i);
    }
    GatherPermutes(s, p);
  }

  // ---------------------------------------------------------------------
  // reorder_constraints
  // ---------------------------------------------------------------------

  /** The layout `reorder_constraints` produces: row order by default,
      target order when asked for with output_order="target". */
  datatype OutputOrder = Row | Target

  /** What the function demands of its input: the last axis splits into
      whole blocks of `nFeatures`. */
  predicate ValidLength(len: nat, nFeatures: nat)
  {
    nFeatures > 0 && len % nFeatures == 0
  }

  /** The number of targets a last axis of length `len` stands for. */
  function Targets(len: nat, nFeatures: nat): (nTargets: nat)
    requires ValidLength(len, nFeatures)
    ensures len == nTargets * nFeatures
  {
    len / nFeatures
  }

  /** Target order to row order (the default direction). */
  function ToRowOrder<T>(s: seq<T>, nFeatures: nat): (r: seq<T>)
    requires ValidLength(|s|, nFeatures)
    ensures |r| == |s|
    ensures var nTargets := Targets(|s|, nFeatures);
      forall t, f :: 0 <= t < nTargets && 0 <= f < nFeatures ==>
        r[FlatIndex(f, t, nFeatures, nTargets)] == s[FlatIndex(t, f, nTargets, nFeatures)]
  {
    Transpose(s, Targets(|s|, nFeatures), nFeatures)
  }

  /** Row order to target order (output_order="target"). */
  function ToTargetOrder<T>(s: seq<T>, nFeatures: nat): (r: seq<T>)
    requires ValidLength(|s|, nFeatures)
    ensures |r| == |s|
    ensures var nTargets := Targets(|s|, nFeatures);
      forall t, f :: 0 <= t < nTargets && 0 <= f < nFeatures ==>
        r[FlatIndex(t, f, nTargets, nFeatures)] == s[FlatIndex(f, t, nFeatures, nTargets)]
  {
    Transpose(s, nFeatures, Targets(|s|, nFeatures))
  }

  /** `reorder_constraints` on a one-dimensional constraint vector. */
  function ReorderConstraints<T>(s: seq<T>, nFeatures: nat, order: OutputOrder): (r: seq<T>)
    requires ValidLength(|s|, nFeatures)
    ensures |r| == |s|
    ensures multiset(r) == multiset(s)
    ensures order == Row ==> r == ToRowOrder(s, nFeatures)
    ensures order == Target ==> r == ToTargetOrder(s, nFeatures)
  {
    var nTargets := Targets(|s|, nFeatures);
    match order
    case Row =>
      TransposePermutes(s, nTargets, nFeatures);
      ToRowOrder(s, nFeatures)
    case Target =>
      TransposePermutes(s, nFeatures, nTargets);
      ToTargetOrder(s, nFeatures)
  }

  /** Converting to row order and back to target order gives back the input. */
  lemma RowThenTarget<T>(s: seq<T>, nFeatures: nat)
    requires ValidLength(|s|, nFeatures)
    ensures ValidLength(|ToRowOrder(s, nFeatures)|, nFeatures)
    ensures ToTargetOrder(ToRowOrder(s, nFeatures), nFeatures) == s
  {
    TransposeTwice(s, Targets(|s|, nFeatures), nFeatures);
  }

  /** Converting to target order and back to row order gives back the input. */
  lemma TargetThenRow<T>(s: seq<T>, nFeatures: nat)
    requires ValidLength(|s|, nFeatures)
    ensures ValidLength(|ToTargetOrder(s, nFeatures)|, nFeatures)
    ensures ToRowOrder(ToTargetOrder(s, nFeatures), nFeatures) == s
  {
    TransposeTwice(s, nFeatures, Targets(|s|, nFeatures));
  }

  /** The two values of output_order undo each other, in both orders. */
  lemma ReorderRoundTrips<T>(s: seq<T>, nFeatures: nat)
    requires ValidLength(|s|, nFeatures)
    ensures ReorderConstraints(ReorderConstraints(s, nFeatures, Row), nFeatures, Target) == s
    ensures ReorderConstraints(ReorderConstraints(s, nFeatures, Target), nFeatures, Row) == s
  {
    RowThenTarget(s, nFeatures);
    TargetThenRow(s, nFeatures);
  }

  /** Entry j of the row-order vector, in closed form. */
  lemma ToRowOrderAt<T>(s: seq<T>, nFeatures: nat, j: nat)
    requires ValidLength(|s|, nFeatures) && j < |s|
    ensures var nTargets := Targets(|s|, nFeatures);
      (j % nTargets) * nFeatures + j / nTargets < |s| &&
      ToRowOrder(s, nFeatures)[j] == s[(j % nTargets) * nFeatures + j / nTargets]
  {
    var nTargets := Targets(|s|, nFeatures);
    Unflatten(j, nFeatures, nTargets);
    var t, f := j % nTargets, j / nTargets;
    var r := ToRowOrder(s, nFeatures);
    assert r[FlatIndex(f, t, nFeatures, nTargets)] == s[FlatIndex(t, f, nTargets, nFeatures)];
    assert FlatIndex(t, f, nTargets, nFeatures) == t * nFeatures + f;
  }

  /** Entry i of the target-order vector, in closed form. */
  lemma ToTargetOrderAt<T>(s: seq<T>, nFeatures: nat, i: nat)
    requires ValidLength(|s|, nFeatures) && i < |s|
    ensures var nTargets := Targets(|s|, nFeatures);
      (i % nFeatures) * nTargets + i / nFeatures < |s| &&
      ToTargetOrder(s, nFeatures)[i] == s[(i % nFeatures) * nTargets + i / nFeatures]
  {
    var nTargets := Targets(|s|, nFeatures);
    Unflatten(i, nTargets, nFeatures);
    var t, f := i / nFeatures, i % nFeatures;
    var r := ToTargetOrder(s, nFeatures);
    assert r[FlatIndex(t, f, nTargets, nFeatures)] == s[FlatIndex(f, t, nFeatures, nTargets)];
    assert FlatIndex(f, t, nFeatures, nTargets) == f * nTargets + t;
  }

  /** Six entries with three features make two targets. */
  lemma SixTargets()
    ensures ValidLength(6, 3) && Targets(6, 3) == 2
  {
  }

  /** Row order of two targets with three features each. */
  lemma RowOrderSix<T>(s: seq<T>)
    requires |s| == 6
    ensures ToRowOrder(s, 3) == [s[0], s[3], s[1], s[4], s[2], s[5]]
  {
    SixTargets();
    assert ToRowOrder(s, 3) == ColumnsFrom(s, 2, 3, 0);
    assert Column(s, 2, 3, 0) == [s[0], s[3]] by { assert FlatIndex(1, 0, 2, 3) == 3; }
    assert Column(s, 2, 3, 1) == [s[1], s[4]] by { assert FlatIndex(1, 1, 2, 3) == 4; }
    assert Column(s, 2, 3, 2) == [s[2], s[5]] by { assert FlatIndex(1, 2, 2, 3) == 5; }
    assert ColumnsFrom(s, 2, 3, 0) == [s[0], s[3]] + ([s[1], s[4]] + ([s[2], s[5]] + []));
  }

  /** A column of a flattened 3 x 2 matrix. */
  lemma ColumnOfThree<T>(s: seq<T>, j: nat)
    requires |s| == 6 && j < 2
    ensures Column(s, 3, 2, j) == [s[j], s[2 + j], s[4 + j]]
  {
    var c := Column(s, 3, 2, j);
    assert c[0] == s[j] by { assert FlatIndex(0, j, 3, 2) == j; }
    assert c[1] == s[2 + j] by { assert FlatIndex(1, j, 3, 2) == 2 + j; }
    assert c[2] == s[4 + j] by { assert FlatIndex(2, j, 3, 2) == 4 + j; }
  }

  /** Target order of two targets with three features each. */
  lemma TargetOrderSix<T>(s: seq<T>)
    requires |s| == 6
    ensures ToTargetOrder(s, 3) == [s[0], s[2], s[4], s[1], s[3], s[5]]
  {
    SixTargets();
    assert ToTargetOrder(s, 3) == ColumnsFrom(s, 3, 2, 0);
    ColumnOfThree(s, 0);
    ColumnOfThree(s, 1);
    assert ColumnsFrom(s, 3, 2, 0) == [s[0], s[2], s[4]] + ([s[1], s[3], s[5]] + []);
  }

  /** The default direction is not its own inverse, so the two directions
      are different maps. */
  lemma RowOrderIsNotAnInvolution()
    ensures ToRowOrder(ToRowOrder([0, 1, 2, 3, 4, 5], 3), 3) != [0, 1, 2, 3, 4, 5]
  {
    RowOrderSix([0, 1, 2, 3, 4, 5]);
    RowOrderSix([0, 3, 1, 4, 2, 5]);
  }

  /** The one-dimensional vectors of test_reorder_constraints_1D: the default direction. */
  lemma Reorder1DExample()
    ensures ReorderConstraints([0, 1, 2, 3, 4, 5], 3, Row) == [0, 3, 1, 4, 2, 5]
  {
    RowOrderSix([0, 1, 2, 3, 4, 5]);
  }

  /** The one-dimensional vectors of test_reorder_constraints_1D: output_order="target". */
  lemma Reorder1DTargetExample()
    ensures ReorderConstraints([0, 3, 1, 4, 2, 5], 3, Target) == [0, 1, 2, 3, 4, 5]
  {
    TargetOrderSix([0, 3, 1, 4, 2, 5]);
  }

  // ---------------------------------------------------------------------
  // Two-dimensional input: a batch of constraint rows
  // ---------------------------------------------------------------------

  /** Every row's length splits into whole blocks of `nFeatures`. */
  predicate ValidBatch<T>(m: seq<seq<T>>, nFeatures: nat)
  {
    forall i :: 0 <= i < |m| ==> ValidLength(|m[i]|, nFeatures)
  }

  /** `reorder_constraints` on a two-dimensional array: every row is
      reordered on its own, by the same map, and rows keep their places. */
  function ReorderBatch<T>(m: seq<seq<T>>, nFeatures: nat, order: OutputOrder): (r: seq<seq<T>>)
    requires ValidBatch(m, nFeatures)
    ensures |r| == |m|
    ensures forall i :: 0 <= i < |m| ==> |r[i]| == |m[i]| && multiset(r[i]) == multiset(m[i])
    ensures forall i :: 0 <= i < |m| ==> r[i] == ReorderConstraints(m[i], nFeatures, order)
  {
    seq(|m|, i requires 0 <= i < |m| => ReorderConstraints(m[i], nFeatures, order))
  }

  /** Rows are reordered independently: a batch splits into its parts. */
  lemma ReorderBatchAppend<T>(m1: seq<seq<T>>, m2: seq<seq<T>>, nFeatures: nat, order: OutputOrder)
    requires ValidBatch(m1, nFeatures) && ValidBatch(m2, nFeatures)
    ensures ValidBatch(m1 + m2, nFeatures)
    ensures ReorderBatch(m1 + m2, nFeatures, order)
         == ReorderBatch(m1, nFeatures, order) + ReorderBatch(m2, nFeatures, order)
  {
  }

  /** Both round trips hold row by row on a batch. */
  lemma {:induction false} ReorderBatchRoundTrips<T>(m: seq<seq<T>>, nFeatures: nat)
    requires ValidBatch(m, nFeatures)
    ensures ValidBatch(ReorderBatch(m, nFeatures, Row), nFeatures)
    ensures ReorderBatch(ReorderBatch(m, nFeatures, Row), nFeatures, Target) == m
    ensures ValidBatch(ReorderBatch(m, nFeatures, Target), nFeatures)
    ensures ReorderBatch(ReorderBatch(m, nFeatures, Target), nFeatures, Row) == m
  {
    forall i | 0 <= i < |m|
      ensures ReorderConstraints(ReorderConstraints(m[i], nFeatures, Row), nFeatures, Target) == m[i]
      ensures ReorderConstraints(ReorderConstraints(m[i], nFeatures, Target), nFeatures, Row) == m[i]
    {
      ReorderRoundTrips(m[i], nFeatures);
    }
  }

  /** A batch of two rows is the two rows reordered. */
  lemma ReorderTwoRows<T>(a: seq<T>, b: seq<T>, nFeatures: nat, order: OutputOrder)
    requires ValidLength(|a|, nFeatures) && ValidLength(|b|, nFeatures)
    ensures ValidBatch([a, b], nFeatures)
    ensures ReorderBatch([a, b], nFeatures, order)
         == [ReorderConstraints(a, nFeatures, order), ReorderConstraints(b, nFeatures, order)]
  {
  }

  /** The two-dimensional arrays of test_reorder_constraints_2D: the default direction. */
  lemma Reorder2DExample()
    ensures ReorderBatch([[0, 1, 2, 3, 4, 5], [6, 7, 8, 9, 10, 11]], 3, Row)
         == [[0, 3, 1, 4, 2, 5], [6, 9, 7, 10, 8, 11]]
  {
    SixTargets();
    ReorderTwoRows([0, 1, 2, 3, 4, 5], [6, 7, 8, 9, 10, 11], 3, Row);
    RowOrderSix([0, 1, 2, 3, 4, 5]);
    RowOrderSix([6, 7, 8, 9, 10, 11]);
  }

  /** The two-dimensional arrays of test_reorder_constraints_2D: output_order="target". */
  lemma Reorder2DTargetExample()
    ensures ReorderBatch([[0, 3, 1, 4, 2, 5], [6, 9, 7, 10, 8, 11]], 3, Target)
         == [[0, 1, 2, 3, 4, 5], [6, 7, 8, 9, 10, 11]]
  {
    SixTargets();
    ReorderTwoRows([0, 3, 1, 4, 2, 5], [6, 9, 7, 10, 8, 11], 3, Target);
    TargetOrderSix([0, 3, 1, 4, 2, 5]);
    TargetOrderSix([6, 9, 7, 10, 8, 11]);
  }
}
