/** `validate_control_variables`: checks a list of state trajectories `x`
    against a list of control trajectories `u` and, when asked, drops the
    last time sample of every control trajectory. */
module ControlValidation {

  datatype Result<+T, +E> = Success(value: T) | Failure(error: E)

  /** A trajectory whose time axis is its first axis: `samples[k]` holds the
      coordinates at time step k. */
  datatype AxesArray<T> = AxesArray(samples: seq<seq<T>>)
  {
    /** The extent of the time axis. */
    function NTime(): nat
    {
      |samples|
    }
  }

  /** A call argument: a sequence of items, or a value that is not a sequence
      (a bare number or array). */
  datatype Arg<T> = Sequence(items: seq<T>) | NotASequence

  /** Why validation fails. */
  datatype ControlError =
    | StateNotASequence     // x is not a sequence
    | ControlNotASequence   // u is not a sequence
    | LengthMismatch        // x and u hold different numbers of trajectories
    | TimeMismatch          // some u[i] and x[i] differ in time extent

  /** The trajectory without its final time sample; a trajectory with no
      samples stays empty, as slicing with [:-1] leaves it. */
  function TrimLastPoint<T>(a: AxesArray<T>): (r: AxesArray<T>)
    ensures r.NTime() == if a.NTime() == 0 then 0 else a.NTime() - 1
    ensures r.samples == a.samples[..r.NTime()]
  {
    if |a.samples| == 0 then a else AxesArray(a.samples[..|a.samples| - 1])
  }

  /** What a control trajectory that passed the check becomes. */
  function Adjusted<T>(u: AxesArray<T>, trimLastPoint: bool): AxesArray<T>
  {
    if trimLastPoint then TrimLastPoint(u) else u
  }

  /** Every `u[i]` has the time extent of `x[i]`. */
  predicate TimesAgree<T>(xs: seq<AxesArray<T>>, us: seq<AxesArray<T>>)
    requires |xs| == |us|
  {
    forall i :: 0 <= i < |xs| ==> xs[i].NTime() == us[i].NTime()
  }

  /** The check made for one pair of trajectories. */
  function CheckControlShape<T>(x: AxesArray<T>, u: AxesArray<T>, trimLastPoint: bool)
    : (r: Result<AxesArray<T>, ControlError>)
    ensures r.Success? <==> x.NTime() == u.NTime()
    ensures r.Success? ==> r.value == Adjusted(u, trimLastPoint)
    ensures r.Failure? ==> r.error == TimeMismatch
  {
    if x.NTime() != u.NTime() then Failure(TimeMismatch)
    else Success(Adjusted(u, trimLastPoint))
  }

  /** The check made for every pair, in order. */
  function CheckControlShapes<T>(xs: seq<AxesArray<T>>, us: seq<AxesArray<T>>, trimLastPoint: bool)
    : (r: Result<seq<AxesArray<T>>, ControlError>)
    requires |xs| == |us|
    ensures r.Success? <==> TimesAgree(xs, us)
    ensures r.Success? ==>
      |r.value| == |us| && forall i :: 0 <= i < |us| ==> r.value[i] == Adjusted(us[i], trimLastPoint)
    ensures r.Failure? ==> r.error == TimeMismatch
  {
    if |xs| == 0 then Success([])
    else
      match CheckControlShape(xs[0], us[0], trimLastPoint)
      case Failure(e) => Failure(e)
      case Success(v) =>
        match CheckControlShapes(xs[1..], us[1..], trimLastPoint)
        case Failure(e) =>
          assert !TimesAgree(xs, us) by {
            var i :| 0 <= i < |xs| - 1 && xs[1..][i].NTime() != us[1..][i].NTime();
            assert xs[i + 1].NTime() != us[i + 1].NTime();
          }
          Failure(e)
        case Success(vs) => Success([v] + vs)
  }

  /** `validate_control_variables(x, u, trim_last_point)`. */
  function ValidateControlVariables<T>(x: Arg<AxesArray<T>>, u: Arg<AxesArray<T>>, trimLastPoint: bool)
    : (r: Result<seq<AxesArray<T>>, ControlError>)
    ensures x.NotASequence? ==> r == Failure(StateNotASequence)
    ensures x.Sequence? && u.NotASequence? ==> r == Failure(ControlNotASequence)
    ensures x.Sequence? && u.Sequence? && |x.items| != |u.items| ==> r == Failure(LengthMismatch)
    ensures r.Success? <==>
      x.Sequence? && u.Sequence? && |x.items| == |u.items| && TimesAgree(x.items, u.items)
    ensures r.Failure? && x.Sequence? && u.Sequence? && |x.items| == |u.items| ==>
      r.error == TimeMismatch
    ensures r.Success? ==>
      |r.value| == |u.items| &&
      forall i :: 0 <= i < |u.items| ==> r.value[i] == Adjusted(u.items[i], trimLastPoint)
  {
    match (x, u)
    case (NotASequence, _) => Failure(StateNotASequence)
    case (Sequence(_), NotASequence) => Failure(ControlNotASequence)
    case (Sequence(xs), Sequence(us)) =>
      if |xs| != |us| then Failure(LengthMismatch)
      else CheckControlShapes(xs, us, trimLastPoint)
  }

  /** On success, every returned control trajectory has the time extent of
      its state trajectory, less one when trimming a non-empty one. */
  lemma ValidatedTimeExtent<T>(x: Arg<AxesArray<T>>, u: Arg<AxesArray<T>>, trimLastPoint: bool, i: nat)
    requires ValidateControlVariables(x, u, trimLastPoint).Success?
    requires i < |u.items|
    ensures var r := ValidateControlVariables(x, u, trimLastPoint).value;
      i < |r| && i < |x.items| &&
      r[i].NTime() == if trimLastPoint && x.items[i].NTime() > 0 then x.items[i].NTime() - 1 else x.items[i].NTime()
  {
  }

  /** Without trimming, validation hands back `u` itself. */
  lemma UntrimmedIsIdentity<T>(x: Arg<AxesArray<T>>, u: Arg<AxesArray<T>>)
    requires ValidateControlVariables(x, u, false).Success?
    ensures u.Sequence? && ValidateControlVariables(x, u, false).value == u.items
  {
    var r := ValidateControlVariables(x, u, false).value;
    assert |r| == |u.items|;
    assert forall i :: 0 <= i < |r| ==> r[i] == u.items[i];
  }

  /** Validating the untrimmed result again changes nothing. */
  lemma UntrimmedIsIdempotent<T>(x: Arg<AxesArray<T>>, u: Arg<AxesArray<T>>)
    requires ValidateControlVariables(x, u, false).Success?
    ensures var r := ValidateControlVariables(x, u, false).value;
      ValidateControlVariables(x, Sequence(r), false) == ValidateControlVariables(x, u, false)
  {
    UntrimmedIsIdentity(x, u);
  }

  /** Trimming does not change whether validation succeeds; when it does,
      the trimmed result is the untrimmed one with each last sample dropped. */
  lemma TrimAgreesWithUntrimmed<T>(x: Arg<AxesArray<T>>, u: Arg<AxesArray<T>>)
    ensures ValidateControlVariables(x, u, true).Success? <==> ValidateControlVariables(x, u, false).Success?
    ensures ValidateControlVariables(x, u, true).Success? ==>
      var trimmed := ValidateControlVariables(x, u, true).value;
      var untrimmed := ValidateControlVariables(x, u, false).value;
      |trimmed| == |untrimmed| &&
      forall i :: 0 <= i < |trimmed| ==> trimmed[i] == TrimLastPoint(untrimmed[i])
  {
  }

  // ---------------------------------------------------------------------
  // The cases of test_validate_controls
  // ---------------------------------------------------------------------

  /** `validate_control_variables(1, [])` and `validate_control_variables([], 1)`. */
  lemma RejectsNonSequences()
    ensures ValidateControlVariables<int>(NotASequence, Sequence([]), false).Failure?
    ensures ValidateControlVariables<int>(Sequence([]), NotASequence, false).Failure?
  {
  }

  /** `validate_control_variables([], [1])`, whatever the single control holds. */
  lemma RejectsLengthMismatch<T>(v: AxesArray<T>)
    ensures ValidateControlVariables(Sequence([]), Sequence([v]), false).Failure?
  {
  }

  /** The 2 x 2 trajectory of ones with time as axis 0. */
  function OnesTwoByTwo(): (a: AxesArray<int>)
    ensures a.NTime() == 2
  {
    AxesArray([[1, 1], [1, 1]])
  }

  /** `validate_control_variables([arr], [arr[:1]])`: time extents 2 and 1. */
  lemma RejectsTimeMismatch()
    ensures var arr := OnesTwoByTwo();
      ValidateControlVariables(Sequence([arr]), Sequence([AxesArray(arr.samples[..1])]), false).Failure?
  {
  }

  /** `validate_control_variables([arr], [arr], trim_last_point=True)[0].n_time == 1`. */
  lemma TrimmedExample()
    ensures var arr := OnesTwoByTwo();
      var r := ValidateControlVariables(Sequence([arr]), Sequence([arr]), true);
      r.Success? && |r.value| == 1 && r.value[0].NTime() == 1
  {
  }
}
