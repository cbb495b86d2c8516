/**
 * The frame-total estimate of `start` (ffmpeg_progress/lib.py:183-199): an
 * ordered chain of checks over the probe record, each failure mapped to one
 * error kind, ending in total_frames = int(duration * fps) > 0.
 * Arithmetic is exact: fps is the rational num/den and the duration a real.
 */
module Estimator {
  import opened Wrappers
  import opened Exceptions
  import opened ProbeTypes

  /** Python's int() on a number: truncation toward zero. */
  function Trunc(x: real): (t: int)
    ensures 0.0 <= x ==> 0 <= t && t as real <= x < t as real + 1.0
    ensures x < 0.0 ==> t <= 0 && t as real - 1.0 < x <= t as real
  {
    if 0.0 <= x then x.Floor else -((-x).Floor)
  }

  /** A truncated value is a positive count exactly when the value is at least one. */
  lemma {:induction false} TruncPositiveIff(x: real)
    ensures Trunc(x) >= 1 <==> x >= 1.0
  {
  }

  /**
   * probe['streams'][index] under Python's sequence indexing, which also
   * accepts -len <= index < 0 counting from the end; None where Python
   * raises KeyError (no streams key) or IndexError.
   */
  function SelectStream(probe: Probe, index: int): (r: Option<ProbeStream>)
    ensures r.Some? <==> probe.streams.Some? && -|probe.streams.value| <= index < |probe.streams.value|
    ensures r.Some? && index < 0 ==> r.value == probe.streams.value[|probe.streams.value| + index]
    ensures r.Some? && 0 <= index ==> r.value == probe.streams.value[index]
  {
    match probe.streams
    case None => None
    case Some(streams) =>
      if 0 <= index < |streams| then Some(streams[index])
      else if -|streams| <= index < 0 then Some(streams[|streams| + index])
      else None
  }

  /** The value eval() gives a usable "num/den" rate. */
  function Fps(rate: FrameRate): (fps: real)
    requires rate.den != 0
    ensures fps * rate.den as real == rate.num as real
  {
    rate.num as real / rate.den as real
  }

  lemma {:induction false} FpsZeroIff(rate: FrameRate)
    requires rate.den != 0
    ensures Fps(rate) == 0.0 <==> rate.num == 0
  {
    if Fps(rate) == 0.0 {
      assert rate.num as real == Fps(rate) * rate.den as real;
    }
  }

  /** float(probe['format']['duration']); None where either key is absent. */
  function DurationOf(probe: Probe): (r: Option<real>)
    ensures r.Some? <==> probe.format.Some? && probe.format.value.duration.Some?
  {
    match probe.format
    case None => None
    case Some(format) => format.duration
  }

  /** The estimate: total frames, or the first check that fails. */
  function Estimate(probe: Probe, index: int): (r: Result<int, Error>)
    ensures SelectStream(probe, index).None? ==> r == Failure(ProbeFailed)
    ensures SelectStream(probe, index).Some? ==>
              var rate := SelectStream(probe, index).value.avgFrameRate;
              && (rate.den == 0 ==> r == Failure(InvalidFPS))
              && (rate.den != 0 && rate.num == 0 ==> r == Failure(UnexpectedZeroFPS))
              && (rate.den != 0 && rate.num != 0 && DurationOf(probe).None? ==> r == Failure(NoDuration))
    ensures r.Success? ==> r.value >= 1
  {
    match SelectStream(probe, index)
    case None => Failure(ProbeFailed)
    case Some(stream) =>
      var rate := stream.avgFrameRate;
      if rate.den == 0 then Failure(InvalidFPS)
      else
        var fps := Fps(rate);
        if fps == 0.0 then
          FpsZeroIff(rate);
          Failure(UnexpectedZeroFPS)
        else
          match DurationOf(probe)
          case None =>
            FpsZeroIff(rate);
            Failure(NoDuration)
          case Some(duration) =>
            var total := Trunc(duration * fps);
            FpsZeroIff(rate);
            if total <= 0 then Failure(TotalFramesLTEZero) else Success(total)
  }

  /** The inputs that pass every check up to the product. */
  predicate Usable(probe: Probe, index: int)
  {
    && SelectStream(probe, index).Some?
    && SelectStream(probe, index).value.avgFrameRate.den != 0
    && SelectStream(probe, index).value.avgFrameRate.num != 0
    && DurationOf(probe).Some?
  }

  /**
   * The estimate succeeds exactly when the checks pass and duration * fps is
   * at least one frame, and it is then the floor of that product.
   */
  lemma {:induction false} EstimateSucceedsIff(probe: Probe, index: int)
    ensures Estimate(probe, index).Success? <==>
              Usable(probe, index) &&
              DurationOf(probe).value * Fps(SelectStream(probe, index).value.avgFrameRate) >= 1.0
    ensures Estimate(probe, index) == Failure(TotalFramesLTEZero) <==>
              Usable(probe, index) &&
              DurationOf(probe).value * Fps(SelectStream(probe, index).value.avgFrameRate) < 1.0
    ensures Estimate(probe, index).Success? ==>
              var x := DurationOf(probe).value * Fps(SelectStream(probe, index).value.avgFrameRate);
              Estimate(probe, index).value == x.Floor
  {
    var r := Estimate(probe, index);
    if Usable(probe, index) {
      var x := DurationOf(probe).value * Fps(SelectStream(probe, index).value.avgFrameRate);
      TruncPositiveIff(x);
      if r.Success? {
        assert 0.0 <= x;
        assert r.value == Trunc(x);
      }
    }
  }

  /** The scenarios of tests/test_lib.py for the checks. */
  lemma {:induction false} EstimateExamples()
    ensures Estimate(Probe(Some([ProbeStream(FrameRate(25, 1))]), Some(ProbeFormat(Some(10.0)))), 0) == Success(250)
    ensures Estimate(Probe(Some([ProbeStream(FrameRate(1, 0))]), Some(ProbeFormat(Some(10.0)))), 0) == Failure(InvalidFPS)
    ensures Estimate(Probe(Some([ProbeStream(FrameRate(0, 1))]), Some(ProbeFormat(Some(10.0)))), 0) == Failure(UnexpectedZeroFPS)
    ensures Estimate(Probe(Some([ProbeStream(FrameRate(25, 1))]), Some(ProbeFormat(None))), 0) == Failure(NoDuration)
    ensures Estimate(Probe(Some([ProbeStream(FrameRate(25, 1))]), Some(ProbeFormat(Some(0.0)))), 0) == Failure(TotalFramesLTEZero)
    ensures Estimate(Probe(Some([ProbeStream(FrameRate(25, 1))]), Some(ProbeFormat(Some(10.0)))), 5) == Failure(ProbeFailed)
  {
    assert Fps(FrameRate(25, 1)) == 25.0;
    assert Trunc(10.0 * 25.0) == 250;
  }
}
