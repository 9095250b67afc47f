/** The app parses the same frames in several places: three copies of the
    step-frame parser (`BLEEngine.swift`, `JobProgress.swift`,
    `DrinkJobStatus.swift`) and two of the system-frame parser
    (`getStatusMessage` and `RobotStatus.setFrom`). These lemmas state in
    which respects the copies agree. */
module Agreement {
  import opened Wrappers
  import BLE
  import Progress
  import DrinkJob
  import Robot
  import opened SwiftStrings
  import SwiftNumbers
  import StepFrames

  /** `ProcessStatus.Result` seen as a `JobProgress.Result`. */
  function ProgressResult(r: BLE.Result): Progress.Result {
    match r
    case Processing => Progress.Processing
    case Complete => Progress.Complete
    case Failed => Progress.Failed
    case Unknown => Progress.Unknown
  }

  /** `ProcessStatus.Result` seen as a `JobStatus.Result`. */
  function JobResult(r: BLE.Result): DrinkJob.Result {
    match r
    case Processing => DrinkJob.Processing
    case Complete => DrinkJob.Complete
    case Failed => DrinkJob.Failed
    case Unknown => DrinkJob.Unknown
  }

  /** A weight frame: all three parsers read the same step and weight, and
      report the `Unknown` state. */
  lemma WeightFramesAgree(m: string)
    requires StepFrames.StepFrame(m).Some? && StartsWith(m, 'W')
    ensures var (step, payload) := StepFrames.StepFrame(m).value;
      var w := SwiftNumbers.ParseDecimal(StepFrames.CleanPayload(payload)).GetOr(0.0);
      BLE.InterpretRobotStatus(m) == Some(BLE.ProcessStatus(step, w, BLE.Unknown)) &&
      Progress.MakeStatusFrom(m) == Some(Progress.JobProgress(step, w, Progress.Unknown)) &&
      DrinkJob.MakeStatusFrom(m) == Some(DrinkJob.JobStatus(step, w, DrinkJob.Unknown))
  {
  }

  /** A state frame: all three parsers read the same step, the `-1` weight
      and the same state. */
  lemma StateFramesAgree(m: string)
    requires StepFrames.StepFrame(m).Some? && StartsWith(m, 'S')
    ensures var (step, payload) := StepFrames.StepFrame(m).value;
      var code := StepFrames.CleanPayload(payload);
      BLE.InterpretRobotStatus(m) == Some(BLE.ProcessStatus(step, -1.0, BLE.StateOf(code))) &&
      Progress.MakeStatusFrom(m) == Some(Progress.JobProgress(step, -1.0, ProgressResult(BLE.StateOf(code)))) &&
      DrinkJob.MakeStatusFrom(m) == Some(DrinkJob.JobStatus(step, -1.0, JobResult(BLE.StateOf(code))))
  {
    var code := StepFrames.CleanPayload(StepFrames.StepFrame(m).value.1);
    assert ProgressResult(BLE.StateOf(code)) == Progress.StateOf(code);
    assert JobResult(BLE.StateOf(code)) == DrinkJob.StateOf(code);
  }

  /** Any other frame is refused by all three parsers. */
  lemma OtherFramesAgree(m: string)
    requires StepFrames.StepFrame(m).None? || (!StartsWith(m, 'W') && !StartsWith(m, 'S'))
    ensures BLE.InterpretRobotStatus(m).None?
    ensures Progress.MakeStatusFrom(m).None? && DrinkJob.MakeStatusFrom(m).None?
  {
  }

  /** The three step-frame parsers accept the same frames and read the same
      step, weight and state from them; none of them ever yields `Sent`. */
  lemma StepParsersAgree(m: string)
    ensures var b, p, j := BLE.InterpretRobotStatus(m), Progress.MakeStatusFrom(m), DrinkJob.MakeStatusFrom(m);
      (b.Some? <==> p.Some?) && (b.Some? <==> j.Some?) &&
      (b.Some? ==>
        p.value == Progress.JobProgress(b.value.step, b.value.weight, ProgressResult(b.value.status)) &&
        j.value == DrinkJob.JobStatus(b.value.step, b.value.weight, JobResult(b.value.status)))
  {
    if StepFrames.StepFrame(m).Some? && StartsWith(m, 'W') {
      WeightFramesAgree(m);
    } else if StepFrames.StepFrame(m).Some? && StartsWith(m, 'S') {
      StateFramesAgree(m);
    } else {
      OtherFramesAgree(m);
    }
  }

  /** A system frame that `getStatusMessage` reads is also accepted by
      `RobotStatus.setFrom`, and both take the same text from a type-0 frame
      and the same cup flag from a type-1 frame. `setFrom` accepts more:
      frames whose type is not an integer. */
  lemma SystemParsersAgree(s: Robot.Snapshot, m: string)
    ensures BLE.GetStatusMessage(m).Some? ==> Robot.AfterFrame(s, m).0
    ensures forall v :: BLE.GetStatusMessage(m) == Some((0, v)) ==> Robot.AfterFrame(s, m).1.text == Some(v)
    ensures forall v :: BLE.GetStatusMessage(m) == Some((1, v)) ==> Robot.AfterFrame(s, m).1.isCupReady == Some(v == "1")
  {
  }

  /** The frame `$x=1` is accepted by `setFrom` (and clears the status) but
      not by `getStatusMessage`. */
  lemma SetFromAcceptsMore(s: Robot.Snapshot)
    ensures BLE.GetStatusMessage("$x=1") == None
    ensures Robot.AfterFrame(s, "$x=1") == (true, Robot.Initial)
  {
    assert "$x=1" == "$" + SwiftStrings.Repeat('=', 0) + "x" + "=" + "1";
    StepFrames.StatusSplitOf(0, "x", "1");
    assert SwiftNumbers.ParseInt("x") == None;
  }
}
