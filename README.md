# Constraint reordering and control validation (pysindy utilities)

This project models two small utilities of pysindy, a library for sparse
identification of nonlinear dynamics. Both are rebuilt from what
`pysindy-master/test/utils/test_utils.py` asserts about them. The
implementations in `pysindy.utils` are not part of this model.

- `reorder_constraints(arr, n_features, output_order=...)` permutes the last
  axis of a constraint array. That axis has length `n_features * n_targets`.
  In *target order*, entry (target t, feature f) sits at `t * n_features + f`.
  In *row order*, it sits at `f * n_targets + t`. The default call converts
  target order to row order. `output_order="target"` converts back. A 2-D
  array is a batch of rows, and each row is converted on its own.

  The model reads target order as a row-major `n_targets x n_features`
  matrix. Row order is then its transpose, flattened. So `ToRowOrder` is
  `Transpose(s, nTargets, nFeatures)` and `ToTargetOrder` is
  `Transpose(s, nFeatures, nTargets)`. They are two different maps: applying
  the default twice does not give the input back. `Transpose` builds the
  transpose column by column. `ToRowOrderAt` and `ToTargetOrderAt` prove that
  it matches the closed-form index formula `out[j] = in[(j % n_targets) *
  n_features + j / n_targets]` and its inverse.

- `validate_control_variables(x, u, trim_last_point=False)` checks a list `x`
  of state trajectories against a list `u` of control trajectories. It fails
  when `x` is not a sequence, when `u` is not a sequence, when the two lists
  differ in length, and when some `u[i]` has a different time extent
  (`n_time`) than `x[i]`. When it succeeds it returns the control
  trajectories. With `trim_last_point=True`, each one loses its final time
  sample.

  A call argument is `Arg = Sequence(items) | NotASequence`. A trajectory is
  `AxesArray(samples)`, with time as its first axis, and `NTime()` is the
  number of samples. Errors are a `Result` carrying a `ControlError`.

Files: `constraint_order.dfy` (module `ConstraintOrder`, the reorderer);
`reindexing.dfy` (module `Reindexing`, a general proof that reading a sequence
through a permutation of its positions keeps its multiset);
`control_validation.dfy` (module `ControlValidation`).

## Model

| member | source | states |
|---|---|---|
| `ConstraintOrder.Transpose` | pysindy-master/test/utils/test_utils.py:9-31 | entry (i, j) of the flattened rows x cols input sits at position j * rows + i of the result; the length is unchanged |
| `ConstraintOrder.TransposeTwice` | pysindy-master/test/utils/test_utils.py:9-31 | transposing a rows x cols matrix and then the cols x rows result gives back the input |
| `ConstraintOrder.TransposePermutes` | pysindy-master/test/utils/test_utils.py:9-31 | the transpose has the same multiset of entries as the input |
| `ConstraintOrder.ToRowOrder` | pysindy-master/test/utils/test_utils.py:14-16 | default direction: the entry at target-order position t * n_features + f moves to row-order position f * n_targets + t, for every target t and feature f |
| `ConstraintOrder.ToTargetOrder` | pysindy-master/test/utils/test_utils.py:17-20 | output_order="target": the entry at row-order position f * n_targets + t moves to target-order position t * n_features + f |
| `ConstraintOrder.ToRowOrderAt` | pysindy-master/test/utils/test_utils.py:14-16 | row-order entry j equals input entry (j % n_targets) * n_features + j / n_targets |
| `ConstraintOrder.ToTargetOrderAt` | pysindy-master/test/utils/test_utils.py:17-20 | target-order entry i equals input entry (i % n_features) * n_targets + i / n_features |
| `ConstraintOrder.ReorderConstraints` | pysindy-master/test/utils/test_utils.py:9-20 | the 1-D call keeps the length and the multiset of entries; Row gives row order and Target gives target order |
| `ConstraintOrder.RowThenTarget` | pysindy-master/test/utils/test_utils.py:9-20 | converting to row order and then back to target order recovers the input |
| `ConstraintOrder.TargetThenRow` | pysindy-master/test/utils/test_utils.py:9-20 | converting to target order and then back to row order recovers the input |
| `ConstraintOrder.ReorderRoundTrips` | pysindy-master/test/utils/test_utils.py:9-20 | the two output_order values undo each other in both orders |
| `ConstraintOrder.RowOrderIsNotAnInvolution` | pysindy-master/test/utils/test_utils.py:10-11 | applying the default direction twice to 0..5 with three features does not give 0..5 back, so one map cannot serve both directions |
| `ConstraintOrder.Reorder1DExample` | pysindy-master/test/utils/test_utils.py:10-16 | the default reorder of [0,1,2,3,4,5] with three features is [0,3,1,4,2,5] |
| `ConstraintOrder.Reorder1DTargetExample` | pysindy-master/test/utils/test_utils.py:17-20 | the target reorder of [0,3,1,4,2,5] with three features is [0,1,2,3,4,5] |
| `ConstraintOrder.ReorderBatch` | pysindy-master/test/utils/test_utils.py:23-31 | a 2-D input keeps its number of rows and each row's length and multiset; row i of the result is row i reordered on its own |
| `ConstraintOrder.ReorderBatchAppend` | pysindy-master/test/utils/test_utils.py:23-31 | reordering two stacked batches equals stacking the two reordered batches, so rows do not affect each other |
| `ConstraintOrder.ReorderBatchRoundTrips` | pysindy-master/test/utils/test_utils.py:23-31 | on a 2-D input both round trips recover the input |
| `ConstraintOrder.Reorder2DExample` | pysindy-master/test/utils/test_utils.py:24-28 | the default reorder of rows 0..5 and 6..11 is [[0,3,1,4,2,5],[6,9,7,10,8,11]] |
| `ConstraintOrder.Reorder2DTargetExample` | pysindy-master/test/utils/test_utils.py:29-31 | the target reorder of [[0,3,1,4,2,5],[6,9,7,10,8,11]] is rows 0..5 and 6..11 |
| `ControlValidation.TrimLastPoint` | pysindy-master/test/utils/test_utils.py:44-45 | the trimmed trajectory is the input's samples without the last one: its time extent is one less, or zero for an empty trajectory |
| `ControlValidation.CheckControlShape` | pysindy-master/test/utils/test_utils.py:41-45 | one pair passes exactly when the time extents agree; the result is the control, trimmed when asked; otherwise the error is a time mismatch |
| `ControlValidation.CheckControlShapes` | pysindy-master/test/utils/test_utils.py:41-45 | a list of pairs passes exactly when every pair's time extents agree; the result holds each control, trimmed when asked |
| `ControlValidation.ValidateControlVariables` | pysindy-master/test/utils/test_utils.py:34-45 | fails when x is not a sequence, when u is not a sequence, or when their lengths differ; otherwise succeeds exactly when every time extent agrees, and returns one control per trajectory, trimmed when asked |
| `ControlValidation.ValidatedTimeExtent` | pysindy-master/test/utils/test_utils.py:44-45 | after a successful call, returned control i has the time extent of x[i], or one less when trimming a non-empty trajectory |
| `ControlValidation.UntrimmedIsIdentity` | pysindy-master/test/utils/test_utils.py:41-45 | a successful call without trimming returns u's own trajectories |
| `ControlValidation.UntrimmedIsIdempotent` | pysindy-master/test/utils/test_utils.py:41-45 | validating an untrimmed result again gives the same result |
| `ControlValidation.TrimAgreesWithUntrimmed` | pysindy-master/test/utils/test_utils.py:41-45 | trimming does not change whether the call succeeds; the trimmed result is the untrimmed one with each last sample dropped |
| `ControlValidation.RejectsNonSequences` | pysindy-master/test/utils/test_utils.py:35-38 | `(1, [])` and `([], 1)` are rejected |
| `ControlValidation.RejectsLengthMismatch` | pysindy-master/test/utils/test_utils.py:39-40 | `([], [v])` is rejected, whatever v holds |
| `ControlValidation.RejectsTimeMismatch` | pysindy-master/test/utils/test_utils.py:41-43 | a state trajectory with two time steps and a control with one are rejected |
| `ControlValidation.TrimmedExample` | pysindy-master/test/utils/test_utils.py:44-45 | with trim_last_point, a matching pair with two time steps is accepted and the returned control has one time step |

## Left out

- The implementation of `pysindy.utils` is not part of this model. Both utilities are rebuilt from the test's assertions. The test does not pin down the cases below, so the model makes the simplest choice consistent with the test:
  - the time extents must agree whether or not trimming is requested;
  - an empty control trajectory stays empty when trimmed, as `[:-1]` leaves it;
  - the checks run in this order: x is a sequence, u is a sequence, the lengths match, each pair's time extents agree.
- Errors for a last axis whose length `n_features` does not divide, for `n_features` = 0, or for an unknown `output_order` string are not asserted by the test. Divisibility and a positive `n_features` are therefore preconditions (`ValidLength`), and `output_order` is the two-valued `OutputOrder`.
- `AxesArray` is reduced to its time extent. Time is fixed as axis 0, and samples are rows. Named axes other than time, and slicing metadata, are not modelled.
- numpy details are not modelled: reshaping, flattening, dtypes, and 1-D input coming back 2-D. A 1-D array is a `seq`. A 2-D array is a `seq` of rows, each of whose lengths splits into whole blocks of `n_features`.
- The floating-point values of `np.ones` are integers in the examples. All other members are generic in the element type.
- Exception classes and messages are left out. Every failure in the test is a `ValueError`; the model's `ControlError` cases only say which check failed.
- `validate_control_variables([], [1])` passes a bare number inside `u`. The model's lists hold trajectories only. `RejectsLengthMismatch` covers every possible single element, because the length check comes first.
