/** `MixBot/Models/Status/JobProgress.swift`: the per-step progress record that
    `RemoteEngine` keeps for the job being dispensed, its two merge rules, and
    the parser that turns a step frame into such a record. The struct's
    `mutating` method and the `inout` function are modelled as functions
    giving the record they leave behind. */
module Progress {
  import opened Wrappers
  import opened SwiftStrings
  import opened SwiftNumbers
  import opened StepFrames

  /** `JobProgress.Result` */
  datatype Result = Processing | Complete | Failed | Sent | Unknown

  /** The state a cleaned `S` payload names: `P` processing, `C` complete,
      anything else failed. */
  function StateOf(code: string): Result {
    if code == "P" then Processing else if code == "C" then Complete else Failed
  }

  /** `JobProgress`: a step of the job, the weight observed for it, its state. */
  datatype JobProgress = JobProgress(step: int, weight: real, status: Result) {

    /** `update(with:)`: merges an update for the same step. The weight is
        taken only when the update carries a positive one (so `-1`, the
        weight of every state update, never overwrites it); the state is
        always taken. A step mismatch is a `fatalError`, hence the precondition. */
    function UpdateWith(u: JobProgress): (r: JobProgress)
      requires step == u.step
      ensures r.step == step
      ensures r.status == u.status
      ensures u.weight > 0.0 ==> r.weight == u.weight
      ensures u.weight <= 0.0 ==> r.weight == weight
    {
      var w := if u.weight != -1.0 && u.weight > 0.0 then u.weight else weight;
      JobProgress(step, w, u.status)
    }
  }

  /** `update(status:from:)`: applies a frame to an `inout` record. A weight
      frame raises the weight, and only when the stored one is not `-1`; a
      state frame replaces the state. The step number in the frame is never
      compared with the record's, and the record's step never changes. */
  function UpdateFrom(status: JobProgress, input: string): (r: JobProgress)
    ensures r.step == status.step
    ensures r.weight >= status.weight
    ensures status.weight == -1.0 ==> r.weight == -1.0
    ensures StepFrame(input).None? ==> r == status
    ensures !StartsWith(input, 'W') && !StartsWith(input, 'S') ==> r == status
    ensures StartsWith(input, 'W') ==> r.status == status.status
    ensures StartsWith(input, 'W') && StepFrame(input).Some? ==>
      var w := ParseDecimal(CleanPayload(StepFrame(input).value.1)).GetOr(0.0);
      r.weight == if w > status.weight && status.weight != -1.0 then w else status.weight
    ensures StartsWith(input, 'S') ==> r.weight == status.weight
    ensures StartsWith(input, 'S') && StepFrame(input).Some? ==>
      r.status == StateOf(CleanPayload(StepFrame(input).value.1))
  {
    match StepFrame(input)
    case None => status
    case Some((_, payload)) =>
      if StartsWith(input, 'W') then
        var w := ParseDecimal(CleanPayload(payload)).GetOr(0.0);
        if w > status.weight && status.weight != -1.0 then status.(weight := w) else status
      else if StartsWith(input, 'S') then
        status.(status := StateOf(CleanPayload(payload)))
      else status
  }

  /** `makeStatusFrom(message:) -> JobProgress?`: a weight frame gives its
      weight (0 when unreadable) and the `Unknown` state, a state frame the
      `-1` weight and the state its code names; any other frame gives `nil`. */
  function MakeStatusFrom(input: string): (r: Option<JobProgress>)
    ensures StepFrame(input).None? ==> r.None?
    ensures !StartsWith(input, 'W') && !StartsWith(input, 'S') ==> r.None?
    ensures StepFrame(input).Some? && (StartsWith(input, 'W') || StartsWith(input, 'S')) ==>
      r.Some? && r.value.step == StepFrame(input).value.0
    ensures r.Some? && StartsWith(input, 'W') ==>
      r.value.status == Unknown &&
      r.value.weight == ParseDecimal(CleanPayload(StepFrame(input).value.1)).GetOr(0.0)
    ensures r.Some? && StartsWith(input, 'S') ==>
      r.value.weight == -1.0 && r.value.status == StateOf(CleanPayload(StepFrame(input).value.1))
  {
    match StepFrame(input)
    case None => None
    case Some((step, payload)) =>
      var result := JobProgress(step, -1.0, Unknown);
      if StartsWith(input, 'W') then
        Some(result.(weight := ParseDecimal(CleanPayload(payload)).GetOr(0.0)))
      else if StartsWith(input, 'S') then
        Some(result.(status := StateOf(CleanPayload(payload))))
      else None
  }

  // ------------------------------------------------------------- lemmas

  /** A weight frame `W<step>=<amount>;` parses to that step, the amount as
      printed with two decimals, and the `Unknown` state. */
  lemma MakeWeightFrame(step: int, x: real)
    requires InIntRange(step)
    ensures MakeStatusFrom("W" + Show(step) + "=" + Format2(x) + ";") == Some(JobProgress(step, Round2(x), Unknown))
  {
    WeightFrameRendered('W', step, x);
    assert "W" + Show(step) + "=" + Format2(x) + ";" == ['W'] + Show(step) + "=" + Format2(x) + ";";
    assert StartsWith("W" + Show(step) + "=" + Format2(x) + ";", 'W');
  }

  /** A state frame `S<step>=<code>;` parses to that step, the `-1` weight
      and the state the code names. */
  lemma MakeStateFrame(step: int, code: string)
    requires InIntRange(step) && code != [] && '=' !in code
    requires !IsWhitespace(code[0]) && !IsWhitespace(code[|code| - 1])
    requires code[0] != ';' && code[|code| - 1] != ';'
    ensures MakeStatusFrom("S" + Show(step) + "=" + code + ";") == Some(JobProgress(step, -1.0, StateOf(code)))
  {
    assert "S" + Show(step) + "=" + code + ";" == ['S'] + Show(step) + "=" + (code + ";");
    StepFrameRendered('S', step, code + ";");
    CleanTerminated(code);
  }

  /** Merging a parsed state frame for the record's own step keeps the
      weight and takes the state. */
  lemma MergeStateFrame(p: JobProgress, code: string)
    requires InIntRange(p.step) && code != [] && '=' !in code
    requires !IsWhitespace(code[0]) && !IsWhitespace(code[|code| - 1])
    requires code[0] != ';' && code[|code| - 1] != ';'
    ensures var u := MakeStatusFrom("S" + Show(p.step) + "=" + code + ";");
      u.Some? && u.value.step == p.step && p.UpdateWith(u.value) == p.(status := StateOf(code))
  {
    MakeStateFrame(p.step, code);
  }

  /** Merging a parsed weight frame for the record's own step takes a
      positive weight, and always resets the state to `Unknown`. */
  lemma MergeWeightFrame(p: JobProgress, x: real)
    requires InIntRange(p.step)
    ensures var u := MakeStatusFrom("W" + Show(p.step) + "=" + Format2(x) + ";");
      u.Some? && u.value.step == p.step &&
      p.UpdateWith(u.value) == JobProgress(p.step, if Round2(x) > 0.0 then Round2(x) else p.weight, Unknown)
  {
    MakeWeightFrame(p.step, x);
  }

  /** `update(status:from:)` on a weight frame keeps the larger of the stored
      and the printed weight, unless the stored one is the `-1` sentinel,
      whichever step the frame names. */
  lemma UpdateFromWeightFrame(p: JobProgress, step: int, x: real)
    requires InIntRange(step)
    ensures UpdateFrom(p, "W" + Show(step) + "=" + Format2(x) + ";")
         == if p.weight != -1.0 && Round2(x) > p.weight then p.(weight := Round2(x)) else p
  {
    WeightFrameRendered('W', step, x);
    assert "W" + Show(step) + "=" + Format2(x) + ";" == ['W'] + Show(step) + "=" + Format2(x) + ";";
    assert StartsWith("W" + Show(step) + "=" + Format2(x) + ";", 'W');
  }

  /** `update(status:from:)` ignores the frame's step number: two frames that
      differ only in it leave the record alike. */
  lemma UpdateFromIgnoresStep(p: JobProgress, kind: char, s1: int, s2: int, payload: string)
    requires InIntRange(s1) && InIntRange(s2) && payload != [] && '=' !in payload
    ensures UpdateFrom(p, [kind] + Show(s1) + "=" + payload) == UpdateFrom(p, [kind] + Show(s2) + "=" + payload)
  {
    var a, b := [kind] + Show(s1) + "=" + payload, [kind] + Show(s2) + "=" + payload;
    StepFrameRendered(kind, s1, payload);
    StepFrameRendered(kind, s2, payload);
    assert a[0] == kind && b[0] == kind;
    SamePayloadSameUpdate(p, a, b);
  }

  lemma SamePayloadSameUpdate(p: JobProgress, a: string, b: string)
    requires StepFrame(a).Some? && StepFrame(b).Some? && StepFrame(a).value.1 == StepFrame(b).value.1
    requires a != [] && b != [] && a[0] == b[0]
    ensures UpdateFrom(p, a) == UpdateFrom(p, b)
  {
    assert StartsWith(a, 'W') == StartsWith(b, 'W');
    assert StartsWith(a, 'S') == StartsWith(b, 'S');
  }

  /** The record after `update(status:from:)` with each frame in turn. */
  ghost function UpdateAll(p: JobProgress, frames: seq<string>): JobProgress
    decreases |frames|
  {
    if frames == [] then p else UpdateAll(UpdateFrom(p, frames[0]), frames[1..])
  }

  /** Whatever frames arrive, in whatever order: the step stays, the weight
      never decreases, and a `-1` weight stays `-1`. */
  lemma {:induction false} UpdateAllMonotone(p: JobProgress, frames: seq<string>)
    ensures UpdateAll(p, frames).step == p.step
    ensures UpdateAll(p, frames).weight >= p.weight
    ensures p.weight == -1.0 ==> UpdateAll(p, frames).weight == -1.0
    decreases |frames|
  {
    if frames != [] {
      UpdateAllMonotone(UpdateFrom(p, frames[0]), frames[1..]);
    }
  }

  lemma {:induction false} UpdateAllAppend(p: JobProgress, a: seq<string>, b: seq<string>)
    ensures UpdateAll(p, a + b) == UpdateAll(UpdateAll(p, a), b)
    decreases |a|
  {
    if a != [] {
      assert (a + b)[0] == a[0];
      assert (a + b)[1..] == a[1..] + b;
      UpdateAllAppend(UpdateFrom(p, a[0]), a[1..], b);
    } else {
      assert a + b == b;
    }
  }

  /** The weight seen after more of a frame stream is never below the weight
      seen after less of it. */
  lemma WeightNeverRegresses(p: JobProgress, frames: seq<string>, i: nat, j: nat)
    requires i <= j <= |frames|
    ensures UpdateAll(p, frames[..i]).weight <= UpdateAll(p, frames[..j]).weight
  {
    assert frames[..j] == frames[..i] + frames[i..j];
    UpdateAllAppend(p, frames[..i], frames[i..j]);
    UpdateAllMonotone(UpdateAll(p, frames[..i]), frames[i..j]);
  }
}
