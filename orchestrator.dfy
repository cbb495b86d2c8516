/**
 * `start` (ffmpeg_progress/lib.py:181-207): the frame estimate, then the
 * temporary statistics file, the launch, the PID check, the initial sleep,
 * the polling loop, the close and the completion callback.
 *
 * What the environment answers is an input: mkstemp's descriptor and path,
 * the PID ffmpeg_func returns, which on_message display calls, whether an
 * on_done callback was given, the two waits, and the polls the loop will observe.  The result is how start
 * ended together with the effects it made, in order.
 */
module Orchestrator {
  import opened Wrappers
  import opened Exceptions
  import opened ProbeTypes
  import opened Estimator
  import opened Effects
  import opened ProgressLoop
  import TextOps

  datatype Env = Env(
    statsFd: int,
    statsPath: string,
    pid: int,
    onMessage: Callback,
    hasOnDone: bool,
    initialWait: real,
    wait: real,
    polls: seq<Poll>)

  /**
   * Completed: start returned normally.  Failed: an exception left start.
   * Polling: the polls were used up while display was still looping.
   */
  datatype Outcome = Completed(totalFrames: int) | Failed(failure: Failure) | Polling

  datatype StartRun = StartRun(outcome: Outcome, trace: seq<Effect>)

  /** mkstemp, then ffmpeg_func(in_file, outfile, vstats_path). */
  function Launched(input: string, output: string, env: Env): seq<Effect>
  {
    [CreateTemp(env.statsFd, env.statsPath), Launch(input, output, env.statsPath)]
  }

  /** The effects of line 205 and lines 206-207. */
  function Finish(env: Env): seq<Effect>
  {
    [Close(env.statsFd)] + (if env.hasOnDone then [Done] else [])
  }

  function Start(input: string, output: string, probe: Probe, index: int, env: Env): (r: StartRun)
    ensures Estimate(probe, index).Failure? ==> r == StartRun(Failed(Raised(Estimate(probe, index).error)), [])
    ensures Estimate(probe, index).Success? ==> |r.trace| >= 2 && r.trace[..2] == Launched(input, output, env)
    ensures r.outcome.Completed? ==> Estimate(probe, index) == Success(r.outcome.totalFrames)
  {
    match Estimate(probe, index)
    case Failure(e) => StartRun(Failed(Raised(e)), [])
    case Success(total) =>
      var launched := Launched(input, output, env);
      if env.pid == 0 then StartRun(Failed(Raised(InvalidPID)), launched)
      else if env.initialWait < 0.0 then StartRun(Failed(Uncaught(ValueError)), launched)
      else
        var run := Loop(total, env.wait, env.onMessage, Initial, env.polls);
        var shown := launched + [Sleep(env.initialWait), Display(total, env.statsFd, env.pid)] + run.trace;
        match run.exit
        case Crashed(b) => StartRun(Failed(Uncaught(b)), shown)
        case OutOfPolls => StartRun(Polling, shown)
        case _ => StartRun(Completed(total), shown + Finish(env))
  }

  /** No effect of start itself is made inside the loop: its trace is sleeps and callbacks only. */
  predicate LoopEffect(e: Effect)
  {
    e.Sleep? || e.Message?
  }

  lemma {:induction false} LoopTraceOnlyLoopEffects(total: int, wait: real, callback: Callback, polls: seq<Poll>)
    ensures forall e :: e in Loop(total, wait, callback, Initial, polls).trace ==> LoopEffect(e)
  {
    LoopPaced(total, wait, callback, Initial, polls);
  }

  lemma NotInLoopTrace(t: seq<Effect>, x: Effect)
    requires forall e :: e in t ==> LoopEffect(e)
    requires !LoopEffect(x)
    ensures multiset(t)[x] == 0
  {
    assert x !in t;
  }

  /**
   * Validation errors: every failure of the frame estimate leaves start as
   * that error, before mkstemp; an estimate that succeeds never does.
   */
  lemma {:induction false} StartRaisesEstimateErrors(input: string, output: string, probe: Probe, index: int, env: Env, e: Error)
    requires e != InvalidPID
    ensures Start(input, output, probe, index, env).outcome == Failed(Raised(e)) <==> Estimate(probe, index) == Failure(e)
  {
  }

  /**
   * A falsy PID raises InvalidPID right after the launch: no sleep, no
   * polling, and the descriptor from mkstemp is not closed.
   */
  lemma {:induction false} InvalidPidLeavesFdOpen(input: string, output: string, probe: Probe, index: int, env: Env)
    requires Estimate(probe, index).Success?
    ensures var r := Start(input, output, probe, index, env);
            r.outcome == Failed(Raised(InvalidPID)) <==> env.pid == 0
    ensures env.pid == 0 ==>
            var r := Start(input, output, probe, index, env);
            r.trace == Launched(input, output, env) &&
            Close(env.statsFd) !in r.trace && Sleep(env.initialWait) !in r.trace
  {
    var r := Start(input, output, probe, index, env);
    if env.pid != 0 {
      var total := Estimate(probe, index).value;
      LoopTraceOnlyLoopEffects(total, env.wait, env.onMessage, env.polls);
      var run := Loop(total, env.wait, env.onMessage, Initial, env.polls);
      LoopExits(total, env.wait, env.onMessage, Initial, env.polls);
    }
  }

  /**
   * On normal return the effects come in the order of lines 200-207:
   * mkstemp, the launch, the initial sleep, display with the estimated
   * total, the loop's own sleeps and callbacks, os.close, and on_done when
   * given; the launch, display and close each happen exactly once.
   */
  lemma {:induction false} CompletedOrder(input: string, output: string, probe: Probe, index: int, env: Env)
    ensures var r := Start(input, output, probe, index, env);
            r.outcome.Completed? ==>
              var total := r.outcome.totalFrames;
              var loopTrace := Loop(total, env.wait, env.onMessage, Initial, env.polls).trace;
              && env.pid != 0
              && r.trace == Launched(input, output, env)
                            + [Sleep(env.initialWait), Display(total, env.statsFd, env.pid)]
                            + loopTrace + Finish(env)
              && (forall e :: e in loopTrace ==> LoopEffect(e))
              && multiset(r.trace)[Launch(input, output, env.statsPath)] == 1
              && multiset(r.trace)[Display(total, env.statsFd, env.pid)] == 1
              && multiset(r.trace)[Close(env.statsFd)] == 1
              && multiset(r.trace)[Done] == (if env.hasOnDone then 1 else 0)
  {
    var r := Start(input, output, probe, index, env);
    if r.outcome.Completed? {
      var total := r.outcome.totalFrames;
      LoopTraceOnlyLoopEffects(total, env.wait, env.onMessage, env.polls);
      TraceCounts(input, output, env, total, Loop(total, env.wait, env.onMessage, Initial, env.polls).trace);
    }
  }

  /** start returns normally only when neither sleep was given a negative length. */
  lemma {:induction false} CompletedNeedsNonNegativeWaits(input: string, output: string, probe: Probe, index: int, env: Env)
    ensures Start(input, output, probe, index, env).outcome.Completed? ==> 0.0 <= env.initialWait && 0.0 <= env.wait
  {
    if Estimate(probe, index).Success? && env.wait < 0.0 {
      NegativeWaitFromStart(Estimate(probe, index).value, env.wait, env.onMessage, env.polls);
    }
  }

  /** Counting in a completed trace: the loop's part holds none of start's own effects. */
  lemma TraceCounts(input: string, output: string, env: Env, total: int, loopTrace: seq<Effect>)
    requires forall e :: e in loopTrace ==> LoopEffect(e)
    ensures var t := Launched(input, output, env) + [Sleep(env.initialWait), Display(total, env.statsFd, env.pid)]
                     + loopTrace + Finish(env);
            && multiset(t)[Launch(input, output, env.statsPath)] == 1
            && multiset(t)[Display(total, env.statsFd, env.pid)] == 1
            && multiset(t)[Close(env.statsFd)] == 1
            && multiset(t)[Done] == (if env.hasOnDone then 1 else 0)
  {
    var head := Launched(input, output, env) + [Sleep(env.initialWait), Display(total, env.statsFd, env.pid)];
    assert multiset(head + loopTrace + Finish(env)) == multiset(head) + multiset(loopTrace) + multiset(Finish(env));
    NotInLoopTrace(loopTrace, Launch(input, output, env.statsPath));
    NotInLoopTrace(loopTrace, Display(total, env.statsFd, env.pid));
    NotInLoopTrace(loopTrace, Close(env.statsFd));
    NotInLoopTrace(loopTrace, Done);
  }

  /** os.close runs exactly when start returns normally: not after InvalidPID, not after an escaping error. */
  lemma {:induction false} CloseIffCompleted(input: string, output: string, probe: Probe, index: int, env: Env)
    ensures var r := Start(input, output, probe, index, env);
            Close(env.statsFd) in r.trace <==> r.outcome.Completed?
    ensures var r := Start(input, output, probe, index, env);
            Done in r.trace <==> r.outcome.Completed? && env.hasOnDone
  {
    var r := Start(input, output, probe, index, env);
    if Estimate(probe, index).Success? && env.pid != 0 {
      var total := Estimate(probe, index).value;
      LoopTraceOnlyLoopEffects(total, env.wait, env.onMessage, env.polls);
      var loopTrace := Loop(total, env.wait, env.onMessage, Initial, env.polls).trace;
      var shown := Launched(input, output, env) + [Sleep(env.initialWait), Display(total, env.statsFd, env.pid)] + loopTrace;
      assert Close(env.statsFd) !in shown && Done !in shown;
      if r.outcome.Completed? {
        assert r.trace == shown + Finish(env);
        assert r.trace[|shown|] == Close(env.statsFd);
      }
    }
  }

  /**
   * What can leave start: one of the package's own errors, or, only after
   * the launch, an OSError from the tail scan, a ValueError from int() or
   * from sleep(), or the IndexError of the default renderer when no
   * on_message was given.
   */
  lemma {:induction false} StartFailures(input: string, output: string, probe: Probe, index: int, env: Env)
    ensures var r := Start(input, output, probe, index, env);
            r.outcome.Failed? ==>
              r.outcome.failure.Raised? ||
              ((r.outcome.failure.builtin in {OSError, ValueError} ||
                (r.outcome.failure.builtin == IndexError && env.onMessage == DefaultRenderer)) &&
               env.pid != 0 && Estimate(probe, index).Success?)
  {
    var r := Start(input, output, probe, index, env);
    if Estimate(probe, index).Success? && env.pid != 0 {
      var total := Estimate(probe, index).value;
      LoopCrashKinds(total, env.wait, env.onMessage, Initial, env.polls);
    }
  }

  /**
   * sleep() raises ValueError for a negative length.  A negative
   * initial_wait_time raises right after the launch; a negative wait_time
   * raises inside display, after the initial sleep and before any poll.
   * Either way os.close and on_done never run.
   */
  lemma {:induction false} NegativeSleepRaises(input: string, output: string, probe: Probe, index: int, env: Env)
    requires Estimate(probe, index).Success? && env.pid != 0
    requires env.initialWait < 0.0 || env.wait < 0.0
    ensures var r := Start(input, output, probe, index, env);
            var total := Estimate(probe, index).value;
            && r.outcome == Failed(Uncaught(ValueError))
            && (env.initialWait < 0.0 ==> r.trace == Launched(input, output, env))
            && (0.0 <= env.initialWait ==>
                  r.trace == Launched(input, output, env) + [Sleep(env.initialWait), Display(total, env.statsFd, env.pid)])
            && Close(env.statsFd) !in r.trace && Done !in r.trace
  {
    var total := Estimate(probe, index).value;
    if 0.0 <= env.initialWait {
      NegativeWaitFromStart(total, env.wait, env.onMessage, env.polls);
      var shown := Launched(input, output, env) + [Sleep(env.initialWait), Display(total, env.statsFd, env.pid)];
      assert shown + [] == shown;
    }
    CloseIffCompleted(input, output, probe, index, env);
  }

  /**
   * Without on_message, a log line whose frame field reaches 1.075 times
   * the estimate makes default_on_message raise IndexError inside display:
   * it leaves start, and os.close and on_done never run.
   */
  lemma {:induction false} StartOvershootRaises(input: string, output: string, probe: Probe, index: int, env: Env,
                                                total: int, l: LineLayout, clock: real, v: int)
    requires Estimate(probe, index) == Success(total) && 0 < total && 40 * v >= 43 * total
    requires env.pid != 0 && env.onMessage == DefaultRenderer && 0.0 <= env.initialWait && 0.0 <= env.wait
    requires OneLine(l) && |l.fields| >= 6 && TextOps.ParseInt(l.fields[5]) == Some(v)
    requires env.polls == [Running(LogEndingWith(LineText(l)), clock)]
    ensures var r := Start(input, output, probe, index, env);
            r.outcome == Failed(Uncaught(IndexError)) && Close(env.statsFd) !in r.trace && Done !in r.trace
  {
    OvershootReported(total, env.wait, DefaultRenderer, 0.0, l, clock, v);
    CloseIffCompleted(input, output, probe, index, env);
  }

  /**
   * test_start_success: 25 fps for 10 seconds, descriptor 123 at
   * "vstats_path", PID 456, no on_message, on_done given; the first poll
   * finds ffmpeg gone.
   */
  lemma StartSuccessExample(c: real)
    ensures var probe := Probe(Some([ProbeStream(FrameRate(25, 1))]), Some(ProbeFormat(Some(10.0))));
            var env := Env(123, "vstats_path", 456, DefaultRenderer, true, 2.0, 1.0, [Poll(false, false, [], c)]);
            Start("input.mp4", "output.mp4", probe, 0, env) ==
              StartRun(Completed(250),
                       [CreateTemp(123, "vstats_path"), Launch("input.mp4", "output.mp4", "vstats_path"),
                        Sleep(2.0), Display(250, 123, 456), Sleep(1.0), Close(123), Done])
  {
    var probe := Probe(Some([ProbeStream(FrameRate(25, 1))]), Some(ProbeFormat(Some(10.0))));
    EstimateExamples();
    ProcessGoneExample(250, 1.0, DefaultRenderer, Poll(false, false, [], c), []);
    assert [Poll(false, false, [], c)] + [] == [Poll(false, false, [], c)];
  }

  /** test_start_invalid_pid: ffmpeg_func returns 0. */
  lemma StartInvalidPidExample(c: real)
    ensures var probe := Probe(Some([ProbeStream(FrameRate(25, 1))]), Some(ProbeFormat(Some(10.0))));
            var env := Env(123, "vstats_path", 0, DefaultRenderer, false, 2.0, 1.0, []);
            Start("input.mp4", "output.mp4", probe, 0, env) ==
              StartRun(Failed(Raised(InvalidPID)),
                       [CreateTemp(123, "vstats_path"), Launch("input.mp4", "output.mp4", "vstats_path")])
  {
    EstimateExamples();
  }
}
