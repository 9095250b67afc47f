/** `MixBot/Models/DrinkJobStatus.swift`: the older per-step status record and
    its own copy of the step-frame parser. */
module DrinkJob {
  import opened Wrappers
  import opened SwiftStrings
  import opened SwiftNumbers
  import opened StepFrames

  /** `JobStatus.Result` */
  datatype Result = Processing | Complete | Failed | Sent | Unknown

  /** The state a cleaned `S` payload names: `P` processing, `C` complete,
      anything else failed. */
  function StateOf(code: string): Result {
    if code == "P" then Processing else if code == "C" then Complete else Failed
  }

  /** `JobStatus` */
  datatype JobStatus = JobStatus(step: int, weight: real, status: Result) {

    /** `setStatus(_:)`: every field is overwritten by the input's, so
        nothing of the record's previous contents survives. */
    function SetStatus(input: JobStatus): (r: JobStatus)
      ensures r.step == input.step && r.weight == input.weight && r.status == input.status
    {
      this.(step := input.step).(weight := input.weight).(status := input.status)
    }
  }

  /** `makeStatusFrom(message:) -> JobStatus?`: a weight frame gives its
      weight (0 when unreadable) and the `Unknown` state, a state frame the
      `-1` weight and the state its code names; any other frame gives `nil`. */
  function MakeStatusFrom(input: string): (r: Option<JobStatus>)
    ensures StepFrame(input).None? ==> r.None?
    ensures !StartsWith(input, 'W') && !StartsWith(input, 'S') ==> r.None?
    ensures StepFrame(input).Some? && (StartsWith(input, 'W') || StartsWith(input, 'S')) ==>
      r.Some? && r.value.step == StepFrame(input).value.0
    ensures r.Some? && StartsWith(input, 'W') ==>
      r.value.status == Unknown &&
      r.value.weight == ParseDecimal(CleanPayload(StepFrame(input).value.1)).GetOr(0.0)
    ensures r.Some? && StartsWith(input, 'S') ==>
      r.value.weight == -1.0 && r.value.status == StateOf(CleanPayload(StepFrame(input).value.1))
  {
    match StepFrame(input)
    case None => None
    case Some((step, payload)) =>
      var result := JobStatus(step, -1.0, Unknown);
      if StartsWith(input, 'W') then
        Some(result.(weight := ParseDecimal(CleanPayload(payload)).GetOr(0.0)))
      else if StartsWith(input, 'S') then
        Some(result.(status := StateOf(CleanPayload(payload))))
      else None
  }

  // ------------------------------------------------------------- lemmas

  /** Setting from the same input gives the same record whatever was there
      before, and setting twice is setting once. */
  lemma SetStatusForgets(a: JobStatus, b: JobStatus, input: JobStatus)
    ensures a.SetStatus(input) == b.SetStatus(input) == input
    ensures a.SetStatus(input).SetStatus(input) == a.SetStatus(input)
  {
  }

  /** A weight frame `W<step>=<amount>;` parses to that step, the amount as
      printed with two decimals, and the `Unknown` state. */
  lemma MakeWeightFrame(step: int, x: real)
    requires InIntRange(step)
    ensures MakeStatusFrom("W" + Show(step) + "=" + Format2(x) + ";") == Some(JobStatus(step, Round2(x), Unknown))
  {
    WeightFrameRendered('W', step, x);
    assert "W" + Show(step) + "=" + Format2(x) + ";" == ['W'] + Show(step) + "=" + Format2(x) + ";";
    assert StartsWith("W" + Show(step) + "=" + Format2(x) + ";", 'W');
  }

  /** A state frame `S<step>=<code>;` parses to that step, the `-1` weight
      and the state the code names. */
  lemma MakeStateFrame(step: int, code: string)
    requires InIntRange(step) && code != [] && '=' !in code
    requires !IsWhitespace(code[0]) && !IsWhitespace(code[|code| - 1])
    requires code[0] != ';' && code[|code| - 1] != ';'
    ensures MakeStatusFrom("S" + Show(step) + "=" + code + ";") == Some(JobStatus(step, -1.0, StateOf(code)))
  {
    assert "S" + Show(step) + "=" + code + ";" == ['S'] + Show(step) + "=" + (code + ";");
    StepFrameRendered('S', step, code + ";");
    CleanTerminated(code);
  }
}
