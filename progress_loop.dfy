/**
 * The polling loop of `display` (ffmpeg_progress/lib.py:82-114).
 *
 * The state is the frame count, the percentage and the elapsed time.  The
 * outside world is a finite sequence of polls, one per iteration, each
 * saying what the iteration observes after its sleep: whether os.kill(pid, 0)
 * finds the process, whether psutil reports it a zombie, the bytes of the
 * statistics log, and the seconds since the loop began.  When the polls run
 * out while the loop would go on, the run stops with OutOfPolls.
 */
module ProgressLoop {
  import opened Wrappers
  import opened Exceptions
  import opened TextOps
  import opened Tailer
  import opened Effects
  import Utils

  datatype Poll = Poll(alive: bool, zombie: bool, log: seq<byte>, clock: real)

  datatype State = State(frames: int, percent: real, elapsed: real)

  /** fr_cnt = 0 and elapsed = percent = 0.0 on entry. */
  const Initial := State(0, 0.0, 0.0)

  datatype Exit = Finished | ProcessGone | Zombie | Crashed(builtin: Builtin) | OutOfPolls

  /** How the loop ended, its effects, its last state and how many polls it consumed. */
  datatype Run = Run(exit: Exit, trace: seq<Effect>, final: State, used: nat)

  /**
   * on_message as display calls it (lines 86-87): the callback the caller
   * passed, which returns normally, or default_on_message when the caller
   * passed none.
   */
  datatype Callback = Given | DefaultRenderer

  /**
   * The exception one on_message call raises, if any.  A given callback
   * returns normally; the default renderer raises only IndexError, and for
   * a count that is not negative only from 1.075 * total_frames on.
   */
  function CallbackRaises(callback: Callback, s: Sample): (r: Option<Builtin>)
    ensures callback == Given ==> r == None
    ensures s.totalFrames > 0 && s.frames >= 0 ==>
              (r.Some? <==> callback == DefaultRenderer && 40 * s.frames >= 43 * s.totalFrames)
    ensures r.Some? && s.totalFrames != 0 ==> r == Some(IndexError)
  {
    match callback
    case Given => None
    case DefaultRenderer => Utils.DefaultRaises(s.frames, s.totalFrames)
  }

  /**
   * The loop condition, line 88.  While the percentage is the one fr_cnt
   * gives, its half of the condition adds nothing.
   */
  predicate Continues(total: int, st: State): (r: bool)
    ensures PercentOfFrames(total, st) ==> (r <==> st.frames < total)
  {
    assert PercentOfFrames(total, st) ==> (st.percent < 100.0 <==> st.frames < total) by {
      if PercentOfFrames(total, st) {
        PercentBelowHundredIff(total, st.frames);
      }
    }
    st.frames < total && st.percent < 100.0
  }

  /**
   * Lines 105-109: field 5 of the stripped line split on whitespace, read by
   * int(); 0 when the line has fewer than six fields, ValueError when the
   * field is not an integer.
   */
  function FramesField(raw: seq<byte>): (r: Result<int, Builtin>)
    ensures r.Failure? ==> r.error == ValueError
    ensures |Split(Strip(raw))| < 6 ==> r == Success(0)
    ensures |Split(Strip(raw))| >= 6 ==> (r.Success? <==> ParseInt(Split(Strip(raw))[5]).Some?)
  {
    var fields := Split(Strip(raw));
    if |fields| < 6 then Success(0)
    else
      match ParseInt(fields[5])
      case None => Failure(ValueError)
      case Some(v) => Success(v)
  }

  datatype Step = Stop(exit: Exit) | Skip | Report(next: State)

  /** One iteration after its sleep and before its callback (lines 90-113). */
  function StepSpec(total: int, st: State, poll: Poll): (r: Step)
    requires 0 <= st.frames < total
    ensures r.Report? ==> st.frames <= r.next.frames && r.next.elapsed == poll.clock
    ensures !poll.alive ==> r == Stop(ProcessGone)
    ensures poll.alive && poll.zombie ==> r == Stop(Zombie)
    ensures r.Skip? <==> poll.alive && !poll.zombie && TailSpec(poll.log).NotReady?
  {
    if !poll.alive then Stop(ProcessGone)
    else if poll.zombie then Stop(Zombie)
    else
      match TailSpec(poll.log)
      case NotReady => Skip
      case Failed(b) => Stop(Crashed(b))
      case Line(raw) =>
        match FramesField(raw)
        case Failure(b) => Stop(Crashed(b))
        case Success(v) =>
          if v > st.frames then Report(State(v, 100.0 * (v as real / total as real), poll.clock))
          else Report(State(st.frames, st.percent, poll.clock))
  }

  /** The percentage changes only with fr_cnt, and then to 100 * fr_cnt / total_frames. */
  lemma StepPercent(total: int, st: State, poll: Poll)
    requires 0 <= st.frames < total
    ensures var r := StepSpec(total, st, poll);
            && (r.Report? && r.next.frames == st.frames ==> r.next.percent == st.percent)
            && (r.Report? && r.next.frames != st.frames ==>
                  r.next.percent == 100.0 * (r.next.frames as real / total as real))
  {
  }

  function SampleOf(st: State, total: int): Sample
  {
    Sample(st.percent, st.frames, total, st.elapsed)
  }

  /** The run after one more poll, with the effects of that poll in front. */
  function AfterPoll(effects: seq<Effect>, run: Run): Run
  {
    Run(run.exit, effects + run.trace, run.final, run.used + 1)
  }

  /**
   * The whole loop from state st over the given polls.  An iteration that
   * reports calls on_message (line 114); an exception the callback raises
   * ends the loop right there.
   */
  function Loop(total: int, wait: real, callback: Callback, st: State, polls: seq<Poll>): (r: Run)
    requires 0 <= st.frames
    ensures r.used <= |polls|
    ensures r.used == 0 <==> !Continues(total, st) || wait < 0.0 || polls == []
    ensures r.used == 0 <==> r.trace == []
    decreases |polls|
  {
    if !Continues(total, st) then Run(Finished, [], st, 0)
    else if wait < 0.0 then Run(Crashed(ValueError), [], st, 0)
    else if polls == [] then Run(OutOfPolls, [], st, 0)
    else
      match StepSpec(total, st, polls[0])
      case Stop(exit) => Run(exit, [Sleep(wait)], st, 1)
      case Skip => AfterPoll([Sleep(wait)], Loop(total, wait, callback, st, polls[1..]))
      case Report(next) =>
        var effects := [Sleep(wait), Message(SampleOf(next, total))];
        match CallbackRaises(callback, SampleOf(next, total))
        case Some(b) => Run(Crashed(b), effects, next, 1)
        case None => AfterPoll(effects, Loop(total, wait, callback, next, polls[1..]))
  }

  /** A run's trace put behind effects already made and polls already used. */
  function Behind(done: seq<Effect>, used: nat, run: Run): Run
  {
    Run(run.exit, done + run.trace, run.final, used + run.used)
  }

  /** The loop unrolled once at a state where it goes on and a poll remains. */
  lemma {:induction false} LoopUnroll(total: int, wait: real, callback: Callback, st: State, polls: seq<Poll>)
    requires 0 <= st.frames && Continues(total, st) && 0.0 <= wait && polls != []
    ensures StepSpec(total, st, polls[0]).Stop? ==>
              Loop(total, wait, callback, st, polls) == Run(StepSpec(total, st, polls[0]).exit, [Sleep(wait)], st, 1)
    ensures StepSpec(total, st, polls[0]).Skip? ==>
              Loop(total, wait, callback, st, polls) == AfterPoll([Sleep(wait)], Loop(total, wait, callback, st, polls[1..]))
    ensures StepSpec(total, st, polls[0]).Report? ==>
              var next := StepSpec(total, st, polls[0]).next;
              var effects := [Sleep(wait), Message(SampleOf(next, total))];
              && (CallbackRaises(callback, SampleOf(next, total)).None? ==>
                    Loop(total, wait, callback, st, polls) == AfterPoll(effects, Loop(total, wait, callback, next, polls[1..])))
              && (CallbackRaises(callback, SampleOf(next, total)).Some? ==>
                    Loop(total, wait, callback, st, polls) ==
                    Run(Crashed(CallbackRaises(callback, SampleOf(next, total)).value), effects, next, 1))
  {
  }

  lemma {:induction false} UnrollStop(total: int, wait: real, callback: Callback, st: State, polls: seq<Poll>)
    requires 0 <= st.frames && Continues(total, st) && 0.0 <= wait && polls != []
    requires StepSpec(total, st, polls[0]).Stop?
    ensures Loop(total, wait, callback, st, polls) == Run(StepSpec(total, st, polls[0]).exit, [Sleep(wait)], st, 1)
  {
  }

  lemma {:induction false} UnrollSkip(total: int, wait: real, callback: Callback, st: State, polls: seq<Poll>)
    requires 0 <= st.frames && Continues(total, st) && 0.0 <= wait && polls != []
    requires StepSpec(total, st, polls[0]).Skip?
    ensures Loop(total, wait, callback, st, polls) == AfterPoll([Sleep(wait)], Loop(total, wait, callback, st, polls[1..]))
  {
  }

  lemma {:induction false} UnrollReport(total: int, wait: real, callback: Callback, st: State, polls: seq<Poll>, next: State)
    requires 0 <= st.frames && Continues(total, st) && 0.0 <= wait && polls != []
    requires StepSpec(total, st, polls[0]) == Report(next)
    requires CallbackRaises(callback, SampleOf(next, total)).None?
    ensures Loop(total, wait, callback, st, polls) ==
            AfterPoll([Sleep(wait), Message(SampleOf(next, total))], Loop(total, wait, callback, next, polls[1..]))
  {
  }

  lemma {:induction false} UnrollRaise(total: int, wait: real, callback: Callback, st: State, polls: seq<Poll>, next: State, b: Builtin)
    requires 0 <= st.frames && Continues(total, st) && 0.0 <= wait && polls != []
    requires StepSpec(total, st, polls[0]) == Report(next)
    requires CallbackRaises(callback, SampleOf(next, total)) == Some(b)
    ensures Loop(total, wait, callback, st, polls) == Run(Crashed(b), [Sleep(wait), Message(SampleOf(next, total))], next, 1)
  {
  }

  /** Moving one poll's effects from the remaining run to the finished part. */
  lemma {:induction false} BehindAfterPoll(done: seq<Effect>, used: nat, effects: seq<Effect>, run: Run)
    ensures Behind(done, used, AfterPoll(effects, run)) == Behind(done + effects, used + 1, run)
  {
    assert done + (effects + run.trace) == (done + effects) + run.trace;
  }

  /** `display`: the loop as the source runs it, state in local variables. */
  method Display(totalFrames: int, waitTime: real, callback: Callback, polls: seq<Poll>) returns (run: Run)
    ensures run == Loop(totalFrames, waitTime, callback, Initial, polls)
    ensures Paced(waitTime, run.trace) && multiset(run.trace)[Sleep(waitTime)] == run.used && run.used <= |polls|
    ensures FramesBetween(0, run.trace, run.final.frames)
    ensures StopsAtCompletion(totalFrames, run.trace, run.exit == Finished || run.exit == Crashed(IndexError))
    ensures totalFrames > 0 ==> SamplesConsistent(totalFrames, run.trace)
    ensures totalFrames > 0 && waitTime < 0.0 ==> run == Run(Crashed(ValueError), [], Initial, 0)
  {
    run := DisplayLoop(totalFrames, waitTime, callback, polls);
    LoopPaced(totalFrames, waitTime, callback, Initial, polls);
    LoopMonotone(totalFrames, waitTime, callback, Initial, polls);
    LoopStopsAtCompletion(totalFrames, waitTime, callback, Initial, polls);
    if totalFrames > 0 {
      InitialPercent(totalFrames);
      LoopSamples(totalFrames, waitTime, callback, Initial, polls);
    }
  }

  /** The while loop of `display` itself. */
  method DisplayLoop(totalFrames: int, waitTime: real, callback: Callback, polls: seq<Poll>) returns (run: Run)
    ensures run == Loop(totalFrames, waitTime, callback, Initial, polls)
  {
    var frames := 0;
    var percent := 0.0;
    var elapsed := 0.0;
    var trace: seq<Effect> := [];
    var i := 0;
    while frames < totalFrames && percent < 100.0
      invariant 0 <= i <= |polls| && 0 <= frames
      invariant Loop(totalFrames, waitTime, callback, Initial, polls) ==
                Behind(trace, i, Loop(totalFrames, waitTime, callback, State(frames, percent, elapsed), polls[i..]))
      decreases |polls| - i
    {
      var st := State(frames, percent, elapsed);
      if waitTime < 0.0 {
        assert trace + [] == trace;
        return Run(Crashed(ValueError), trace, st, i);
      }
      if i == |polls| {
        return Run(OutOfPolls, trace, st, i);
      }
      ghost var done := trace;
      trace := trace + [Sleep(waitTime)];
      var step := PollOnce(totalFrames, st, polls[i]);
      match step {
        case Stop(exit) =>
          AdvanceStop(totalFrames, waitTime, callback, done, i, st, polls);
          return Run(exit, trace, st, i + 1);
        case Skip =>
          AdvanceSkip(totalFrames, waitTime, callback, done, i, st, polls);
        case Report(next) =>
          frames, percent, elapsed := next.frames, next.percent, next.elapsed;
          var sample := Sample(percent, frames, totalFrames, elapsed);
          trace := trace + [Message(sample)];
          var raised := CallOnMessage(callback, sample);
          if raised.Some? {
            AdvanceRaise(totalFrames, waitTime, callback, done, i, st, polls, next, raised.value);
            return Run(Crashed(raised.value), trace, next, i + 1);
          }
          AdvanceReport(totalFrames, waitTime, callback, done, i, st, polls, next);
      }
      i := i + 1;
    }
    run := Run(Finished, trace, State(frames, percent, elapsed), i);
  }

  /**
   * The body of one iteration after its sleep (lines 90-113): the liveness
   * checks, the tail scan, int() of field 5 and the update of fr_cnt and
   * percent.
   */
  method PollOnce(totalFrames: int, st: State, poll: Poll) returns (step: Step)
    requires 0 <= st.frames < totalFrames
    ensures step == StepSpec(totalFrames, st, poll)
  {
    if !poll.alive {
      return Stop(ProcessGone);
    }
    if poll.zombie {
      return Stop(Zombie);
    }
    var tail, _ := TailLastLine(poll.log);
    if tail.NotReady? {
      return Skip;
    }
    if tail.Failed? {
      return Stop(Crashed(tail.builtin));
    }
    var vstats := FramesField(tail.text);
    if vstats.Failure? {
      return Stop(Crashed(vstats.error));
    }
    var frames, percent := st.frames, st.percent;
    if vstats.value > frames {
      frames := vstats.value;
      percent := 100.0 * (frames as real / totalFrames as real);
    }
    step := Report(State(frames, percent, poll.clock));
  }

  /**
   * The call of line 114: a given callback returns; default_on_message
   * renders its bar, and the exception that raises leaves the loop.
   */
  method CallOnMessage(callback: Callback, s: Sample) returns (raised: Option<Builtin>)
    ensures raised == CallbackRaises(callback, s)
  {
    raised := None;
    if callback == DefaultRenderer {
      var bar := Utils.RenderBar(s.frames, s.totalFrames);
      if bar.Failure? {
        raised := Some(bar.error);
      }
    }
  }

  /** An iteration that ends the loop: its sleep is the last effect. */
  lemma {:induction false} AdvanceStop(total: int, wait: real, callback: Callback, done: seq<Effect>, i: nat, st: State, polls: seq<Poll>)
    requires i < |polls| && 0 <= st.frames && Continues(total, st) && 0.0 <= wait
    requires StepSpec(total, st, polls[i]).Stop?
    requires Loop(total, wait, callback, Initial, polls) == Behind(done, i, Loop(total, wait, callback, st, polls[i..]))
    ensures Loop(total, wait, callback, Initial, polls) == Run(StepSpec(total, st, polls[i]).exit, done + [Sleep(wait)], st, i + 1)
  {
    var rest := polls[i..];
    assert rest[0] == polls[i];
    UnrollStop(total, wait, callback, st, rest);
  }

  /** An iteration that finds no complete line: one sleep, same state. */
  lemma {:induction false} AdvanceSkip(total: int, wait: real, callback: Callback, done: seq<Effect>, i: nat, st: State, polls: seq<Poll>)
    requires i < |polls| && 0 <= st.frames && Continues(total, st) && 0.0 <= wait
    requires StepSpec(total, st, polls[i]).Skip?
    requires Loop(total, wait, callback, Initial, polls) == Behind(done, i, Loop(total, wait, callback, st, polls[i..]))
    ensures Loop(total, wait, callback, Initial, polls) ==
            Behind(done + [Sleep(wait)], i + 1, Loop(total, wait, callback, st, polls[i + 1..]))
  {
    var rest := polls[i..];
    assert rest[0] == polls[i] && rest[1..] == polls[i + 1..];
    UnrollSkip(total, wait, callback, st, rest);
    BehindAfterPoll(done, i, [Sleep(wait)], Loop(total, wait, callback, st, polls[i + 1..]));
  }

  /** An iteration that reports: a sleep, then the callback with the new state. */
  lemma {:induction false} AdvanceReport(total: int, wait: real, callback: Callback, done: seq<Effect>, i: nat, st: State, polls: seq<Poll>, next: State)
    requires i < |polls| && 0 <= st.frames && Continues(total, st) && 0.0 <= wait
    requires StepSpec(total, st, polls[i]) == Report(next)
    requires CallbackRaises(callback, SampleOf(next, total)).None?
    requires Loop(total, wait, callback, Initial, polls) == Behind(done, i, Loop(total, wait, callback, st, polls[i..]))
    ensures Loop(total, wait, callback, Initial, polls) ==
            Behind(done + [Sleep(wait)] + [Message(SampleOf(next, total))], i + 1, Loop(total, wait, callback, next, polls[i + 1..]))
  {
    UnrollReportAt(total, wait, callback, st, polls, i, next);
    BehindAfterTwo(done, i, Sleep(wait), Message(SampleOf(next, total)), Loop(total, wait, callback, next, polls[i + 1..]));
  }

  /** An iteration whose callback raises: the sleep and the callback are the last effects. */
  lemma {:induction false} AdvanceRaise(total: int, wait: real, callback: Callback, done: seq<Effect>, i: nat, st: State, polls: seq<Poll>, next: State, b: Builtin)
    requires i < |polls| && 0 <= st.frames && Continues(total, st) && 0.0 <= wait
    requires StepSpec(total, st, polls[i]) == Report(next)
    requires CallbackRaises(callback, SampleOf(next, total)) == Some(b)
    requires Loop(total, wait, callback, Initial, polls) == Behind(done, i, Loop(total, wait, callback, st, polls[i..]))
    ensures Loop(total, wait, callback, Initial, polls) ==
            Run(Crashed(b), done + [Sleep(wait)] + [Message(SampleOf(next, total))], next, i + 1)
  {
    var rest := polls[i..];
    assert rest[0] == polls[i];
    UnrollRaise(total, wait, callback, st, rest, next, b);
    assert done + [Sleep(wait), Message(SampleOf(next, total))] == done + [Sleep(wait)] + [Message(SampleOf(next, total))];
  }

  lemma {:induction false} UnrollReportAt(total: int, wait: real, callback: Callback, st: State, polls: seq<Poll>, i: nat, next: State)
    requires i < |polls| && 0 <= st.frames && Continues(total, st) && 0.0 <= wait
    requires StepSpec(total, st, polls[i]) == Report(next)
    requires CallbackRaises(callback, SampleOf(next, total)).None?
    ensures Loop(total, wait, callback, st, polls[i..]) ==
            AfterPoll([Sleep(wait), Message(SampleOf(next, total))], Loop(total, wait, callback, next, polls[i + 1..]))
  {
    var rest := polls[i..];
    assert rest[0] == polls[i] && rest[1..] == polls[i + 1..];
    UnrollReport(total, wait, callback, st, rest, next);
  }

  lemma {:induction false} BehindAfterTwo(done: seq<Effect>, used: nat, a: Effect, b: Effect, run: Run)
    ensures Behind(done, used, AfterPoll([a, b], run)) == Behind(done + [a] + [b], used + 1, run)
  {
    assert done + ([a, b] + run.trace) == done + [a] + [b] + run.trace;
  }

  // What the polling loop promises, proved about Loop and so about every run of Display.

  /** Every callback directly follows its own iteration's sleep; nothing else is in the trace. */
  ghost predicate Paced(wait: real, trace: seq<Effect>)
  {
    && (forall i :: 0 <= i < |trace| ==> trace[i] == Sleep(wait) || trace[i].Message?)
    && (forall i :: 0 <= i < |trace| && trace[i].Message? ==> 0 < i && trace[i - 1] == Sleep(wait))
  }

  lemma {:induction false} PacedAfterPoll(wait: real, effects: seq<Effect>, trace: seq<Effect>)
    requires Paced(wait, effects) && Paced(wait, trace)
    requires effects != [] && effects[0] == Sleep(wait)
    ensures Paced(wait, effects + trace)
  {
    var t := effects + trace;
    forall i | 0 <= i < |t| && t[i].Message?
      ensures 0 < i && t[i - 1] == Sleep(wait)
    {
      if i >= |effects| {
        assert t[i] == trace[i - |effects|];
        if i > |effects| {
          assert t[i - 1] == trace[i - 1 - |effects|];
        }
      }
    }
  }

  /** The run a raising callback leaves: its iteration's sleep and callback, nothing more. */
  function Raised(b: Builtin, effects: seq<Effect>, next: State): Run
  {
    Run(Crashed(b), effects, next, 1)
  }

  lemma {:induction false} RaisedAfterPoll(b: Builtin, effects: seq<Effect>, next: State)
    ensures Raised(b, effects, next) == AfterPoll(effects, Run(Crashed(b), [], next, 0))
  {
    assert effects + [] == effects;
  }

  /**
   * Each consumed poll left exactly one sleep, each callback follows its
   * sleep, and no more polls are consumed than there are.
   */
  lemma {:induction false} LoopPaced(total: int, wait: real, callback: Callback, st: State, polls: seq<Poll>)
    requires 0 <= st.frames
    ensures var run := Loop(total, wait, callback, st, polls);
            && Paced(wait, run.trace)
            && multiset(run.trace)[Sleep(wait)] == run.used
            && run.used <= |polls|
    decreases |polls|
  {
    if Continues(total, st) && 0.0 <= wait && polls != [] {
      match StepSpec(total, st, polls[0])
      case Stop(_) =>
        UnrollStop(total, wait, callback, st, polls);
      case Skip =>
        UnrollSkip(total, wait, callback, st, polls);
        LoopPaced(total, wait, callback, st, polls[1..]);
        PacedRunAfterPoll(wait, [Sleep(wait)], Loop(total, wait, callback, st, polls[1..]));
      case Report(next) =>
        var effects := [Sleep(wait), Message(SampleOf(next, total))];
        match CallbackRaises(callback, SampleOf(next, total))
        case Some(b) =>
          UnrollRaise(total, wait, callback, st, polls, next, b);
          RaisedAfterPoll(b, effects, next);
          PacedRunAfterPoll(wait, effects, Run(Crashed(b), [], next, 0));
        case None =>
          UnrollReport(total, wait, callback, st, polls, next);
          LoopPaced(total, wait, callback, next, polls[1..]);
          PacedRunAfterPoll(wait, effects, Loop(total, wait, callback, next, polls[1..]));
    }
  }

  /** One more poll keeps a run paced and adds exactly one sleep. */
  lemma {:induction false} PacedRunAfterPoll(wait: real, effects: seq<Effect>, run: Run)
    requires Paced(wait, run.trace) && multiset(run.trace)[Sleep(wait)] == run.used
    requires effects == [Sleep(wait)] || (|effects| == 2 && effects[0] == Sleep(wait) && effects[1].Message?)
    ensures var r := AfterPoll(effects, run);
            Paced(wait, r.trace) && multiset(r.trace)[Sleep(wait)] == r.used
  {
    PacedAfterPoll(wait, effects, run.trace);
    assert multiset(effects + run.trace) == multiset(effects) + multiset(run.trace);
    if |effects| == 2 {
      assert effects == [Sleep(wait)] + [effects[1]];
    }
  }

  /** The frame counts the callbacks report lie between lo and hi and never decrease. */
  ghost predicate FramesBetween(lo: int, trace: seq<Effect>, hi: int)
  {
    && (forall i :: 0 <= i < |trace| && trace[i].Message? ==> lo <= trace[i].sample.frames <= hi)
    && (forall i, j :: 0 <= i < j < |trace| && trace[i].Message? && trace[j].Message? ==>
          trace[i].sample.frames <= trace[j].sample.frames)
  }

  lemma {:induction false} FramesBetweenAfterPoll(lo: int, effects: seq<Effect>, trace: seq<Effect>, hi: int)
    requires |effects| >= 1 && effects[0].Sleep?
    requires |effects| == 1 ||
             (|effects| == 2 && effects[1].Message? && lo <= effects[1].sample.frames <= hi)
    requires FramesBetween(if |effects| == 2 then effects[1].sample.frames else lo, trace, hi)
    requires lo <= hi
    ensures FramesBetween(lo, effects + trace, hi)
  {
    var t := effects + trace;
    var n := |effects|;
    forall i | 0 <= i < |t| && t[i].Message?
      ensures lo <= t[i].sample.frames <= hi
    {
      if i >= n {
        assert t[i] == trace[i - n];
      } else {
        assert i == 1 && n == 2;
        assert t[1] == effects[1];
      }
    }
    forall i, j | 0 <= i < j < |t| && t[i].Message? && t[j].Message?
      ensures t[i].sample.frames <= t[j].sample.frames
    {
      assert t[j] == trace[j - n];
      if i >= n {
        assert t[i] == trace[i - n];
      }
    }
  }

  /**
   * fr_cnt never decreases, whatever the log shows: the final count is at
   * least the starting one and the callbacks see a non-decreasing count.
   */
  lemma {:induction false} LoopMonotone(total: int, wait: real, callback: Callback, st: State, polls: seq<Poll>)
    requires 0 <= st.frames
    ensures var run := Loop(total, wait, callback, st, polls);
            st.frames <= run.final.frames && FramesBetween(st.frames, run.trace, run.final.frames)
    decreases |polls|
  {
    if Continues(total, st) && 0.0 <= wait && polls != [] {
      LoopUnroll(total, wait, callback, st, polls);
      var step := StepSpec(total, st, polls[0]);
      if step.Skip? {
        LoopMonotone(total, wait, callback, st, polls[1..]);
        var r := Loop(total, wait, callback, st, polls[1..]);
        FramesBetweenAfterPoll(st.frames, [Sleep(wait)], r.trace, r.final.frames);
      } else if step.Report? {
        var next := step.next;
        var effects := [Sleep(wait), Message(SampleOf(next, total))];
        var raised := CallbackRaises(callback, SampleOf(next, total));
        if raised.Some? {
          RaisedAfterPoll(raised.value, effects, next);
          FramesBetweenAfterPoll(st.frames, effects, [], next.frames);
        } else {
          LoopMonotone(total, wait, callback, next, polls[1..]);
          var r := Loop(total, wait, callback, next, polls[1..]);
          FramesBetweenAfterPoll(st.frames, effects, r.trace, r.final.frames);
        }
      }
    }
  }

  /** The state's percentage is the one its frame count gives. */
  ghost predicate PercentOfFrames(total: int, st: State)
  {
    total > 0 && st.percent == 100.0 * (st.frames as real / total as real)
  }

  /** Each callback carries total_frames and percent = 100 * fr_cnt / total_frames. */
  ghost predicate SamplesConsistent(total: int, trace: seq<Effect>)
  {
    forall i :: 0 <= i < |trace| && trace[i].Message? ==>
      && trace[i].sample.totalFrames == total
      && total > 0
      && trace[i].sample.percent == 100.0 * (trace[i].sample.frames as real / total as real)
  }

  lemma {:induction false} SamplesConsistentAppend(total: int, a: seq<Effect>, b: seq<Effect>)
    requires SamplesConsistent(total, a) && SamplesConsistent(total, b)
    ensures SamplesConsistent(total, a + b)
  {
    var t := a + b;
    forall i | 0 <= i < |t| && t[i].Message?
      ensures t[i].sample.totalFrames == total && total > 0
      ensures t[i].sample.percent == 100.0 * (t[i].sample.frames as real / total as real)
    {
      if i >= |a| {
        assert t[i] == b[i - |a|];
      } else {
        assert t[i] == a[i];
      }
    }
  }

  lemma InitialPercent(total: int)
    requires total > 0
    ensures PercentOfFrames(total, Initial)
  {
    assert 0 as real / total as real == 0.0;
  }

  lemma {:induction false} LoopSamples(total: int, wait: real, callback: Callback, st: State, polls: seq<Poll>)
    requires 0 <= st.frames && PercentOfFrames(total, st)
    ensures var run := Loop(total, wait, callback, st, polls);
            PercentOfFrames(total, run.final) && SamplesConsistent(total, run.trace)
    decreases |polls|
  {
    if Continues(total, st) && 0.0 <= wait && polls != [] {
      match StepSpec(total, st, polls[0])
      case Stop(_) =>
        UnrollStop(total, wait, callback, st, polls);
      case Skip =>
        UnrollSkip(total, wait, callback, st, polls);
        LoopSamples(total, wait, callback, st, polls[1..]);
        SamplesConsistentAppend(total, [Sleep(wait)], Loop(total, wait, callback, st, polls[1..]).trace);
      case Report(next) =>
        StepPercent(total, st, polls[0]);
        assert PercentOfFrames(total, next);
        var effects := [Sleep(wait), Message(SampleOf(next, total))];
        match CallbackRaises(callback, SampleOf(next, total))
        case Some(b) =>
          UnrollRaise(total, wait, callback, st, polls, next, b);
          SamplesConsistentAppend(total, effects, []);
          assert effects + [] == effects;
        case None =>
          UnrollReport(total, wait, callback, st, polls, next);
          LoopSamples(total, wait, callback, next, polls[1..]);
          SamplesConsistentAppend(total, effects, Loop(total, wait, callback, next, polls[1..]).trace);
    }
  }

  /** With total > 0, percent < 100 exactly when fr_cnt < total_frames. */
  lemma {:induction false} PercentBelowHundredIff(total: int, frames: int)
    requires total > 0
    ensures 100.0 * (frames as real / total as real) < 100.0 <==> frames < total
  {
    var q := frames as real / total as real;
    assert frames as real == q * total as real;
  }

  /** The trace of a run that ended without a callback after its last sleep. */
  ghost predicate EndsWithSleep(wait: real, trace: seq<Effect>)
  {
    trace != [] && trace[|trace| - 1] == Sleep(wait)
  }

  /** The trace ends with a callback whose count the default renderer cannot draw. */
  ghost predicate EndsWithOvershoot(total: int, trace: seq<Effect>)
  {
    trace != [] && trace[|trace| - 1].Message? && 40 * trace[|trace| - 1].sample.frames >= 43 * total
  }

  /** Effects put in front leave the last effect of a trace as it was. */
  lemma {:induction false} LastAfterPoll(effects: seq<Effect>, trace: seq<Effect>)
    requires trace != []
    ensures (effects + trace)[|effects + trace| - 1] == trace[|trace| - 1]
  {
  }

  /** Every one of the first n polls saw a live, non-zombie process. */
  ghost predicate LiveFor(polls: seq<Poll>, n: int)
  {
    forall k :: 0 <= k < n && k < |polls| ==> polls[k].alive && !polls[k].zombie
  }

  lemma {:induction false} LiveForCons(polls: seq<Poll>, n: int)
    requires polls != [] && polls[0].alive && !polls[0].zombie && LiveFor(polls[1..], n - 1)
    ensures LiveFor(polls, n)
  {
    forall k | 0 <= k < n && k < |polls|
      ensures polls[k].alive && !polls[k].zombie
    {
      if k > 0 {
        assert polls[k] == polls[1..][k - 1];
      }
    }
  }

  /** The poll that ended a run, given how the run ended. */
  ghost predicate EndedBy(exit: Exit, polls: seq<Poll>, used: nat)
  {
    && (exit == ProcessGone ==> 1 <= used <= |polls| && !polls[used - 1].alive)
    && (exit == Zombie ==> 1 <= used <= |polls| && polls[used - 1].alive && polls[used - 1].zombie)
  }

  lemma {:induction false} EndedByCons(exit: Exit, polls: seq<Poll>, used: nat)
    requires polls != [] && EndedBy(exit, polls[1..], used)
    ensures EndedBy(exit, polls, used + 1)
  {
    if exit == ProcessGone || exit == Zombie {
      assert polls[used] == polls[1..][used - 1];
    }
  }

  /**
   * How a run ends.  Finished: the loop condition failed.  OutOfPolls: every
   * poll was consumed and the loop would go on.  ProcessGone, Zombie, and an
   * OSError or ValueError: the last consumed poll ended it right after its
   * sleep, with no callback.  A crash before any poll is the ValueError of
   * sleep() for a negative wait_time, with no effect at all.  Every poll
   * before the last one consumed saw a live, non-zombie process.
   */
  ghost predicate EndsAsPolled(total: int, wait: real, polls: seq<Poll>, run: Run)
  {
    && run.used <= |polls|
    && (run.exit == Finished ==> !Continues(total, run.final))
    && (run.exit == OutOfPolls ==> run.used == |polls| && Continues(total, run.final))
    && EndedBy(run.exit, polls, run.used)
    && (run.exit.ProcessGone? || run.exit.Zombie? || run.exit == Crashed(OSError) ||
        (run.exit == Crashed(ValueError) && run.used > 0) ==>
          EndsWithSleep(wait, run.trace))
    && (run.exit.Crashed? && run.used == 0 ==> wait < 0.0 && run.exit == Crashed(ValueError) && run.trace == [])
    && LiveFor(polls, run.used - 1)
  }

  lemma {:induction false} EndsAsPolledAfterPoll(total: int, wait: real, effects: seq<Effect>, polls: seq<Poll>, run: Run)
    requires polls != [] && polls[0].alive && !polls[0].zombie && effects != [] && 0.0 <= wait
    requires EndsAsPolled(total, wait, polls[1..], run)
    ensures EndsAsPolled(total, wait, polls, AfterPoll(effects, run))
  {
    EndedByCons(run.exit, polls, run.used);
    LiveForCons(polls, run.used);
    if run.exit.ProcessGone? || run.exit.Zombie? || run.exit == Crashed(OSError) ||
       (run.exit == Crashed(ValueError) && run.used > 0) {
      LastAfterPoll(effects, run.trace);
    }
  }

  lemma {:induction false} LoopExits(total: int, wait: real, callback: Callback, st: State, polls: seq<Poll>)
    requires 0 <= st.frames
    ensures EndsAsPolled(total, wait, polls, Loop(total, wait, callback, st, polls))
    decreases |polls|
  {
    if Continues(total, st) && 0.0 <= wait && polls != [] {
      match StepSpec(total, st, polls[0])
      case Stop(_) =>
        UnrollStop(total, wait, callback, st, polls);
      case Skip =>
        UnrollSkip(total, wait, callback, st, polls);
        LoopExits(total, wait, callback, st, polls[1..]);
        EndsAsPolledAfterPoll(total, wait, [Sleep(wait)], polls, Loop(total, wait, callback, st, polls[1..]));
      case Report(next) =>
        match CallbackRaises(callback, SampleOf(next, total))
        case Some(b) =>
          UnrollRaise(total, wait, callback, st, polls, next, b);
        case None =>
          UnrollReport(total, wait, callback, st, polls, next);
          LoopExits(total, wait, callback, next, polls[1..]);
          EndsAsPolledAfterPoll(total, wait, [Sleep(wait), Message(SampleOf(next, total))], polls,
                                Loop(total, wait, callback, next, polls[1..]));
    }
  }

  /**
   * The only exceptions that escape the loop: OSError from the backward
   * seek, ValueError from int(), and the IndexError of the default renderer,
   * raised by its callback for a count of at least 1.075 * total_frames.
   */
  ghost predicate CrashesAllowed(total: int, callback: Callback, run: Run)
  {
    run.exit.Crashed? ==>
      || run.exit.builtin == OSError
      || run.exit.builtin == ValueError
      || (run.exit.builtin == IndexError && callback == DefaultRenderer && EndsWithOvershoot(total, run.trace))
  }

  lemma {:induction false} CrashesAllowedAfterPoll(total: int, callback: Callback, effects: seq<Effect>, run: Run)
    requires CrashesAllowed(total, callback, run)
    ensures CrashesAllowed(total, callback, AfterPoll(effects, run))
  {
    if run.exit == Crashed(IndexError) {
      LastAfterPoll(effects, run.trace);
    }
  }

  lemma {:induction false} LoopCrashKinds(total: int, wait: real, callback: Callback, st: State, polls: seq<Poll>)
    requires 0 <= st.frames
    ensures CrashesAllowed(total, callback, Loop(total, wait, callback, st, polls))
    decreases |polls|
  {
    if Continues(total, st) && 0.0 <= wait && polls != [] {
      match StepSpec(total, st, polls[0])
      case Stop(_) =>
        UnrollStop(total, wait, callback, st, polls);
      case Skip =>
        UnrollSkip(total, wait, callback, st, polls);
        LoopCrashKinds(total, wait, callback, st, polls[1..]);
        CrashesAllowedAfterPoll(total, callback, [Sleep(wait)], Loop(total, wait, callback, st, polls[1..]));
      case Report(next) =>
        match CallbackRaises(callback, SampleOf(next, total))
        case Some(b) =>
          UnrollRaise(total, wait, callback, st, polls, next, b);
        case None =>
          UnrollReport(total, wait, callback, st, polls, next);
          LoopCrashKinds(total, wait, callback, next, polls[1..]);
          CrashesAllowedAfterPoll(total, callback, [Sleep(wait), Message(SampleOf(next, total))],
                                  Loop(total, wait, callback, next, polls[1..]));
    }
  }

  /** A callback reporting fr_cnt >= total_frames is the last effect of a run that ended. */
  ghost predicate StopsAtCompletion(total: int, trace: seq<Effect>, ended: bool)
  {
    forall i :: 0 <= i < |trace| && trace[i].Message? && trace[i].sample.frames >= total ==>
      i == |trace| - 1 && ended
  }

  lemma {:induction false} StopsAtCompletionAfterPoll(total: int, effects: seq<Effect>, trace: seq<Effect>, ended: bool)
    requires StopsAtCompletion(total, trace, ended)
    requires |effects| >= 1 && effects[0].Sleep?
    requires |effects| == 1 || (|effects| == 2 && effects[1].Message? &&
                                (effects[1].sample.frames >= total ==> trace == [] && ended))
    ensures StopsAtCompletion(total, effects + trace, ended)
  {
    var t := effects + trace;
    var n := |effects|;
    forall i | 0 <= i < |t| && t[i].Message? && t[i].sample.frames >= total
      ensures i == |t| - 1 && ended
    {
      if i >= n {
        assert t[i] == trace[i - n];
      } else {
        assert t[i] == effects[i];
      }
    }
  }

  /**
   * No iteration starts once fr_cnt has reached total_frames: a callback
   * reporting fr_cnt >= total_frames is the last effect of the run, which
   * then ends Finished, or with the IndexError of the default renderer.
   */
  lemma {:induction false} LoopStopsAtCompletion(total: int, wait: real, callback: Callback, st: State, polls: seq<Poll>)
    requires 0 <= st.frames
    ensures var run := Loop(total, wait, callback, st, polls);
            StopsAtCompletion(total, run.trace, run.exit == Finished || run.exit == Crashed(IndexError))
    decreases |polls|
  {
    if Continues(total, st) && 0.0 <= wait && polls != [] {
      LoopUnroll(total, wait, callback, st, polls);
      var step := StepSpec(total, st, polls[0]);
      if step.Skip? {
        LoopStopsAtCompletion(total, wait, callback, st, polls[1..]);
        var r := Loop(total, wait, callback, st, polls[1..]);
        StopsAtCompletionAfterPoll(total, [Sleep(wait)], r.trace, r.exit == Finished || r.exit == Crashed(IndexError));
      } else if step.Report? {
        var next := step.next;
        var effects := [Sleep(wait), Message(SampleOf(next, total))];
        var raised := CallbackRaises(callback, SampleOf(next, total));
        if raised.Some? {
          RaisedAfterPoll(raised.value, effects, next);
          StopsAtCompletionAfterPoll(total, effects, [], true);
        } else {
          LoopStopsAtCompletion(total, wait, callback, next, polls[1..]);
          var r := Loop(total, wait, callback, next, polls[1..]);
          if next.frames >= total {
            assert r == Run(Finished, [], next, 0);
          }
          StopsAtCompletionAfterPoll(total, effects, r.trace, r.exit == Finished || r.exit == Crashed(IndexError));
        }
      }
    }
  }

  /**
   * sleep() rejects a negative wait_time with ValueError.  The loop always
   * starts from fr_cnt = 0 when total_frames is positive, so a negative wait
   * ends it on its first pass, before any poll and with no effect; a loop
   * that does not start never sleeps.
   */
  lemma {:induction false} NegativeWaitRaises(total: int, wait: real, callback: Callback, st: State, polls: seq<Poll>)
    requires 0 <= st.frames && wait < 0.0
    ensures Loop(total, wait, callback, st, polls) ==
            Run(if Continues(total, st) then Crashed(ValueError) else Finished, [], st, 0)
  {
  }

  /** From the initial state with a positive total_frames, a negative wait raises at once. */
  lemma {:induction false} NegativeWaitFromStart(total: int, wait: real, callback: Callback, polls: seq<Poll>)
    requires 0 < total && wait < 0.0
    ensures Loop(total, wait, callback, Initial, polls) == Run(Crashed(ValueError), [], Initial, 0)
  {
    NegativeWaitRaises(total, wait, callback, Initial, polls);
  }

  // Log lines, and concrete runs of the loop after the display tests of tests/test_lib.py.

  /**
   * A statistics line as it may be laid out: fields with runs of whitespace
   * between them, and whitespace before the first and after the last.
   */
  datatype LineLayout = LineLayout(lead: seq<byte>, fields: seq<seq<byte>>, seps: seq<seq<byte>>, trail: seq<byte>)

  /** Proper fields, a non-empty run of whitespace between each two, whitespace padding. */
  predicate WellSpaced(l: LineLayout)
  {
    ProperFields(l.fields) && Separators(l.fields, l.seps) && AllSpace(l.lead) && AllSpace(l.trail)
  }

  function LineText(l: LineLayout): seq<byte>
    requires l.fields != [] && |l.seps| == |l.fields| - 1
  {
    l.lead + JoinRuns(l.fields, l.seps) + l.trail
  }

  /** A well-spaced layout holding no newline: one line of the log. */
  predicate OneLine(l: LineLayout)
  {
    && WellSpaced(l)
    && NEWLINE !in l.lead && NEWLINE !in l.trail
    && (forall k :: 0 <= k < |l.fields| ==> NEWLINE !in l.fields[k])
    && (forall k :: 0 <= k < |l.seps| ==> NEWLINE !in l.seps[k])
  }

  /**
   * Whatever whitespace separates and pads the fields, the frame count is
   * field 5, or 0 when there are fewer than six fields.
   */
  lemma FramesFieldOfLine(l: LineLayout)
    requires WellSpaced(l)
    ensures |l.fields| < 6 ==> FramesField(LineText(l)) == Success(0)
    ensures |l.fields| >= 6 && ParseInt(l.fields[5]).Some? ==> FramesField(LineText(l)) == Success(ParseInt(l.fields[5]).value)
    ensures |l.fields| >= 6 && ParseInt(l.fields[5]).None? ==> FramesField(LineText(l)) == Failure(ValueError)
  {
    JoinTrimmed(l.fields, l.seps);
    StripPadded(l.lead, JoinRuns(l.fields, l.seps), l.trail);
    SplitJoinRuns(l.fields, l.seps);
  }

  /** The fields of a line, one space between each two and no padding. */
  function SingleSpaced(fields: seq<seq<byte>>): LineLayout
    requires fields != []
  {
    LineLayout([], fields, seq(|fields| - 1, _ => [32]), [])
  }

  /** The fields of the statistics line "0 0 0 0 0 100". */
  const CompleteFields: seq<seq<byte>> := [[48], [48], [48], [48], [48], [49, 48, 48]]

  /** The fields of "invalid line". */
  const InvalidFields: seq<seq<byte>> := [[105, 110, 118, 97, 108, 105, 100], [108, 105, 110, 101]]

  /** The fields of "0 0 0 0 0 x", whose field 5 is not an integer. */
  const MalformedFields: seq<seq<byte>> := [[48], [48], [48], [48], [48], [120]]

  /** A log whose last complete line is the given line. */
  function LogEndingWith(line: seq<byte>): seq<byte>
  {
    [NEWLINE] + line + [NEWLINE]
  }

  /** The tail of such a log is that line. */
  lemma TailOfLogEndingWith(l: LineLayout)
    requires OneLine(l)
    ensures TailSpec(LogEndingWith(LineText(l))) == Line(LineText(l))
  {
    JoinAvoids(l.fields, l.seps, NEWLINE);
    JoinTrimmed(l.fields, l.seps);
    TailOfCompleteLine([], LineText(l));
    assert [] + [NEWLINE] + LineText(l) + [NEWLINE] == LogEndingWith(LineText(l));
  }

  /** Single-spaced proper fields without a newline make one line. */
  lemma {:induction false} SingleSpacedLine(fields: seq<seq<byte>>)
    requires ProperFields(fields) && forall k :: 0 <= k < |fields| ==> NEWLINE !in fields[k]
    ensures OneLine(SingleSpaced(fields))
  {
    JoinSingleSpaced(fields);
  }

  lemma CompleteFieldsRead()
    ensures OneLine(SingleSpaced(CompleteFields)) && |CompleteFields| == 6 && ParseInt(CompleteFields[5]) == Some(100)
  {
    SingleSpacedLine(CompleteFields);
    assert DigitsValue([49, 48, 48]) == 100 by {
      assert [49, 48, 48][..2] == [49, 48];
      assert [49, 48][..1] == [49];
    }
  }

  lemma InvalidFieldsRead()
    ensures OneLine(SingleSpaced(InvalidFields)) && |InvalidFields| == 2
  {
    SingleSpacedLine(InvalidFields);
  }

  lemma MalformedFieldsRead()
    ensures OneLine(SingleSpaced(MalformedFields)) && |MalformedFields| == 6 && ParseInt(MalformedFields[5]) == None
  {
    SingleSpacedLine(MalformedFields);
  }

  lemma FullPercent(total: int)
    requires total > 0
    ensures 100.0 * (total as real / total as real) == 100.0
  {
    var t := total as real;
    assert t / t == 1.0;
  }

  /** A poll while ffmpeg runs, with the given log. */
  function Running(log: seq<byte>, clock: real): Poll
  {
    Poll(true, false, log, clock)
  }

  /** A log ending in a complete line whose field 5 reads as v. */
  lemma LogReadsAs(l: LineLayout, v: int)
    requires OneLine(l) && |l.fields| >= 6 && ParseInt(l.fields[5]) == Some(v)
    ensures TailSpec(LogEndingWith(LineText(l))) == Line(LineText(l))
    ensures FramesField(LineText(l)) == Success(v)
  {
    TailOfLogEndingWith(l);
    FramesFieldOfLine(l);
  }

  /**
   * A poll of a running process whose log ends in a line reading v: fr_cnt
   * becomes max(fr_cnt, v), percent follows it when it grows, and elapsed is
   * the poll's clock.
   */
  lemma StepOnLine(total: int, st: State, poll: Poll, line: seq<byte>, v: int)
    requires 0 <= st.frames < total && poll.alive && !poll.zombie
    requires TailSpec(poll.log) == Line(line) && FramesField(line) == Success(v)
    ensures StepSpec(total, st, poll) ==
            if v > st.frames then Report(State(v, 100.0 * (v as real / total as real), poll.clock))
            else Report(State(st.frames, st.percent, poll.clock))
  {
  }

  /** A poll that reports and reaches completion ends the loop, normally or with its callback's exception. */
  lemma {:induction false} LastPoll(total: int, wait: real, callback: Callback, st: State, poll: Poll, next: State)
    requires 0 <= st.frames && Continues(total, st) && 0.0 <= wait
    requires StepSpec(total, st, poll) == Report(next) && !Continues(total, next)
    ensures var raised := CallbackRaises(callback, SampleOf(next, total));
            Loop(total, wait, callback, st, [poll]) ==
            Run(if raised.Some? then Crashed(raised.value) else Finished,
                [Sleep(wait), Message(SampleOf(next, total))], next, 1)
  {
    match CallbackRaises(callback, SampleOf(next, total))
    case Some(b) =>
      UnrollRaise(total, wait, callback, st, [poll], next, b);
    case None =>
      UnrollReport(total, wait, callback, st, [poll], next);
      assert [poll][1..] == [];
      assert Loop(total, wait, callback, next, []) == Run(Finished, [], next, 0);
      assert [Sleep(wait), Message(SampleOf(next, total))] + [] == [Sleep(wait), Message(SampleOf(next, total))];
  }

  /**
   * LastPoll with the callback's outcome spelled out: the default renderer
   * raises IndexError from 1.075 * total_frames on, a given callback never.
   */
  lemma {:induction false} LastPollEndsWith(total: int, wait: real, callback: Callback, st: State, poll: Poll, next: State)
    requires 0 < total && 0 <= st.frames && Continues(total, st) && 0.0 <= wait
    requires StepSpec(total, st, poll) == Report(next) && !Continues(total, next)
    ensures Loop(total, wait, callback, st, [poll]) ==
            Run(if callback == DefaultRenderer && 40 * next.frames >= 43 * total then Crashed(IndexError) else Finished,
                [Sleep(wait), Message(SampleOf(next, total))], next, 1)
  {
    OvershootExit(total, callback, next);
    LastPoll(total, wait, callback, st, poll, next);
  }

  /**
   * With no frames counted yet, one poll that finds a complete line whose
   * field 5 is total_frames: one callback with 100 percent, which neither
   * callback raises on, then the loop ends.
   */
  lemma {:induction false} FinishesOnLastLine(total: int, wait: real, callback: Callback, elapsed: real, l: LineLayout, clock: real)
    requires 0 < total && 0.0 <= wait && OneLine(l) && |l.fields| >= 6
    requires ParseInt(l.fields[5]) == Some(total)
    ensures Loop(total, wait, callback, State(0, 0.0, elapsed), [Running(LogEndingWith(LineText(l)), clock)]) ==
            Run(Finished, [Sleep(wait), Message(Sample(100.0, total, total, clock))], State(total, 100.0, clock), 1)
  {
    var st := State(0, 0.0, elapsed);
    var poll := Running(LogEndingWith(LineText(l)), clock);
    var next := State(total, 100.0, clock);
    assert StepSpec(total, st, poll) == Report(next) by {
      LogReadsAs(l, total);
      StepOnLine(total, st, poll, LineText(l), total);
      FullPercent(total);
    }
    assert CallbackRaises(callback, SampleOf(next, total)).None?;
    LastPoll(total, wait, callback, st, poll, next);
  }

  /**
   * Nothing bounds fr_cnt by total_frames: a line whose frame field exceeds
   * the estimate is passed on to the callback as it is, with a percentage
   * above 100.  The loop then ends: normally, or, for the default renderer
   * and a count of at least 1.075 * total_frames, with its IndexError.
   */
  lemma {:induction false} OvershootReported(total: int, wait: real, callback: Callback, elapsed: real, l: LineLayout, clock: real, v: int)
    requires 0 < total < v && 0.0 <= wait && OneLine(l) && |l.fields| >= 6
    requires ParseInt(l.fields[5]) == Some(v)
    ensures var s := Sample(100.0 * (v as real / total as real), v, total, clock);
            Loop(total, wait, callback, State(0, 0.0, elapsed), [Running(LogEndingWith(LineText(l)), clock)]) ==
            Run(if callback == DefaultRenderer && 40 * v >= 43 * total then Crashed(IndexError) else Finished,
                [Sleep(wait), Message(s)], State(v, s.percent, clock), 1)
  {
    ReadsAtStart(total, elapsed, l, clock, v);
    OvershootStops(total, wait, callback, State(0, 0.0, elapsed), Running(LogEndingWith(LineText(l)), clock), v);
    assert SampleOf(State(v, 100.0 * (v as real / total as real), clock), total) ==
           Sample(100.0 * (v as real / total as real), v, total, clock);
  }

  /** A poll that reports a count v >= total_frames is the last one, however it ends. */
  lemma {:induction false} OvershootStops(total: int, wait: real, callback: Callback, st: State, poll: Poll, v: int)
    requires 0 < total <= v && 0 <= st.frames && Continues(total, st) && 0.0 <= wait
    requires StepSpec(total, st, poll) == Report(State(v, 100.0 * (v as real / total as real), poll.clock))
    ensures var next := State(v, 100.0 * (v as real / total as real), poll.clock);
            Loop(total, wait, callback, st, [poll]) ==
            Run(if callback == DefaultRenderer && 40 * v >= 43 * total then Crashed(IndexError) else Finished,
                [Sleep(wait), Message(SampleOf(next, total))], next, 1)
  {
    var next := State(v, 100.0 * (v as real / total as real), poll.clock);
    assert !Continues(total, next);
    LastPollEndsWith(total, wait, callback, st, poll, next);
  }

  /** From fr_cnt = 0, a poll whose log ends in a line reading v > 0 reports v. */
  lemma {:induction false} ReadsAtStart(total: int, elapsed: real, l: LineLayout, clock: real, v: int)
    requires 0 < v && 0 < total && OneLine(l) && |l.fields| >= 6
    requires ParseInt(l.fields[5]) == Some(v)
    ensures StepSpec(total, State(0, 0.0, elapsed), Running(LogEndingWith(LineText(l)), clock)) ==
            Report(State(v, 100.0 * (v as real / total as real), clock))
    ensures Continues(total, State(0, 0.0, elapsed))
  {
    LogReadsAs(l, v);
    StepOnLine(total, State(0, 0.0, elapsed), Running(LogEndingWith(LineText(l)), clock), LineText(l), v);
  }

  /** How the callback ends a run at a count v: IndexError for the default renderer from 1.075 * total_frames on. */
  lemma {:induction false} OvershootExit(total: int, callback: Callback, next: State)
    requires 0 < total && 0 <= next.frames
    ensures var raised := CallbackRaises(callback, SampleOf(next, total));
            (if raised.Some? then Crashed(raised.value) else Finished) ==
            (if callback == DefaultRenderer && 40 * next.frames >= 43 * total then Crashed(IndexError) else Finished)
  {
  }


  /**
   * test_display_success: a first poll whose log has no complete line yet
   * (skipped, no callback), then the line "0 0 0 0 0 100" with
   * total_frames = 100: one callback (100.0, 100, 100, elapsed), and the loop ends.
   */
  lemma {:induction false} DisplaySuccessExample(wait: real, c0: real, c1: real)
    requires 0.0 <= wait
    ensures var line := LineText(SingleSpaced(CompleteFields));
            Loop(100, wait, Given, Initial, [Running([NEWLINE, NEWLINE], c0), Running(LogEndingWith(line), c1)]) ==
            Run(Finished, [Sleep(wait), Sleep(wait), Message(Sample(100.0, 100, 100, c1))], State(100, 100.0, c1), 2)
  {
    var line := LineText(SingleSpaced(CompleteFields));
    var polls := [Running([NEWLINE, NEWLINE], c0), Running(LogEndingWith(line), c1)];
    assert TailSpec(polls[0].log) == NotReady;
    UnrollSkip(100, wait, Given, Initial, polls);
    assert polls[1..] == [Running(LogEndingWith(line), c1)];
    CompleteFieldsRead();
    FinishesOnLastLine(100, wait, Given, 0.0, SingleSpaced(CompleteFields), c1);
  }

  /**
   * test_display_invalid_vstats_line: a line with fewer than six fields
   * counts as 0 frames and still produces a callback; the complete line that
   * follows produces the second and last.
   */
  lemma {:induction false} InvalidLineExample(wait: real, c0: real, c1: real)
    requires 0.0 <= wait
    ensures var run := Loop(100, wait, Given, Initial, [Running(LogEndingWith(LineText(SingleSpaced(InvalidFields))), c0),
                                                        Running(LogEndingWith(LineText(SingleSpaced(CompleteFields))), c1)]);
            run.exit == Finished &&
            run.trace == [Sleep(wait), Message(Sample(0.0, 0, 100, c0)), Sleep(wait), Message(Sample(100.0, 100, 100, c1))]
  {
    var invalid := LineText(SingleSpaced(InvalidFields));
    var polls := [Running(LogEndingWith(invalid), c0), Running(LogEndingWith(LineText(SingleSpaced(CompleteFields))), c1)];
    var first := State(0, 0.0, c0);
    assert StepSpec(100, Initial, polls[0]) == Report(first) by {
      InvalidFieldsRead();
      TailOfLogEndingWith(SingleSpaced(InvalidFields));
      FramesFieldOfLine(SingleSpaced(InvalidFields));
      StepOnLine(100, Initial, polls[0], invalid, 0);
    }
    UnrollReport(100, wait, Given, Initial, polls, first);
    assert polls[1..] == [Running(LogEndingWith(LineText(SingleSpaced(CompleteFields))), c1)];
    CompleteFieldsRead();
    FinishesOnLastLine(100, wait, Given, c0, SingleSpaced(CompleteFields), c1);
  }

  /** test_display_process_terminated: os.kill finds no process; the loop ends after one sleep, no callback. */
  lemma {:induction false} ProcessGoneExample(total: int, wait: real, callback: Callback, poll: Poll, rest: seq<Poll>)
    requires total > 0 && 0.0 <= wait && !poll.alive
    ensures Loop(total, wait, callback, Initial, [poll] + rest) == Run(ProcessGone, [Sleep(wait)], Initial, 1)
  {
    LoopUnroll(total, wait, callback, Initial, [poll] + rest);
  }

  /** test_display_zombie_process: the process is a zombie; the loop ends after one sleep, no callback. */
  lemma {:induction false} ZombieExample(total: int, wait: real, callback: Callback, poll: Poll, rest: seq<Poll>)
    requires total > 0 && 0.0 <= wait && poll.alive && poll.zombie
    ensures Loop(total, wait, callback, Initial, [poll] + rest) == Run(Zombie, [Sleep(wait)], Initial, 1)
  {
    LoopUnroll(total, wait, callback, Initial, [poll] + rest);
  }

  /** Field 5 that int() rejects: the ValueError escapes the loop. */
  lemma {:induction false} MalformedLineExample(total: int, wait: real, callback: Callback, clock: real, rest: seq<Poll>)
    requires total > 0 && 0.0 <= wait
    ensures Loop(total, wait, callback, Initial, [Running(LogEndingWith(LineText(SingleSpaced(MalformedFields))), clock)] + rest) ==
            Run(Crashed(ValueError), [Sleep(wait)], Initial, 1)
  {
    MalformedFieldsRead();
    var polls := [Running(LogEndingWith(LineText(SingleSpaced(MalformedFields))), clock)] + rest;
    TailOfLogEndingWith(SingleSpaced(MalformedFields));
    FramesFieldOfLine(SingleSpaced(MalformedFields));
    assert StepSpec(total, Initial, polls[0]) == Stop(Crashed(ValueError));
    LoopUnroll(total, wait, callback, Initial, polls);
  }

  /** A log of two or more bytes with no newline before its last byte: the backward seek fails with OSError. */
  lemma {:induction false} NoNewlineExample(total: int, wait: real, callback: Callback, clock: real, rest: seq<Poll>)
    requires total > 0 && 0.0 <= wait
    ensures Loop(total, wait, callback, Initial, [Running([65, 66, 67], clock)] + rest) == Run(Crashed(OSError), [Sleep(wait)], Initial, 1)
  {
    var polls := [Running([65, 66, 67], clock)] + rest;
    assert TailSpec(polls[0].log) == Failed(OSError);
    LoopUnroll(total, wait, callback, Initial, polls);
  }
}
