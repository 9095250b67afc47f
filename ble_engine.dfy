/** `MixBot/BLEEngine.swift`: the two parsers of frames received on the robot
    status characteristic, and how a received frame updates the engine's
    published fields. */
module BLE {
  import opened Wrappers
  import opened SwiftStrings
  import opened SwiftNumbers
  import opened StepFrames

  /** `ProcessStatus.Result` */
  datatype Result = Processing | Complete | Failed | Unknown

  /** `ProcessStatus`: one step's reported state, or its weight. */
  datatype ProcessStatus = ProcessStatus(step: int, weight: real, status: Result)

  /** The state a cleaned `S` payload names: `P` processing, `C` complete,
      anything else failed. */
  function StateOf(code: string): Result {
    if code == "P" then Processing else if code == "C" then Complete else Failed
  }

  /** `interpretRobotStatus(_:)`: a step frame becomes a `ProcessStatus`; any
      other frame gives `nil`. */
  function InterpretRobotStatus(input: string): (r: Option<ProcessStatus>)
    ensures StepFrame(input).None? ==> r.None?
    ensures !StartsWith(input, 'W') && !StartsWith(input, 'S') ==> r.None?
    ensures StepFrame(input).Some? && (StartsWith(input, 'W') || StartsWith(input, 'S')) ==>
      r.Some? && r.value.step == StepFrame(input).value.0
    ensures r.Some? && StartsWith(input, 'W') ==>
      r.value.status == Unknown &&
      r.value.weight == ParseDecimal(CleanPayload(StepFrame(input).value.1)).GetOr(0.0)
    ensures r.Some? && StartsWith(input, 'S') ==>
      r.value.weight == -1.0 && r.value.status == StateOf(CleanPayload(StepFrame(input).value.1))
  {
    match StepFrame(input)
    case None => None
    case Some((step, payload)) =>
      var result := ProcessStatus(step, -1.0, Unknown);
      if StartsWith(input, 'W') then
        Some(result.(weight := ParseDecimal(CleanPayload(payload)).GetOr(0.0)))
      else if StartsWith(input, 'S') then
        Some(result.(status := StateOf(CleanPayload(payload))))
      else None
  }

  /** `getStatusMessage(_:)`: a system frame `$<type>=<value>` gives its type
      number and its value; `nil` when the frame is not one, or when its type
      is not an integer (the cast to `(Int, String)` fails). */
  function GetStatusMessage(input: string): (r: Option<(int, string)>)
    ensures StatusSplit(input).None? ==> r.None?
    ensures r.Some? ==> StatusSplit(input) == Some((StatusSplit(input).value.0, r.value.1))
    ensures r.Some? ==> ParseInt(StatusSplit(input).value.0) == Some(r.value.0)
    ensures StatusSplit(input).Some? && ParseInt(StatusSplit(input).value.0).Some? ==> r.Some?
  {
    match StatusSplit(input)
    case None => None
    case Some((t, v)) =>
      match ParseInt(t)
      case None => None
      case Some(n) => Some((n, v))
  }

  /** A weight frame `W<step>=<amount>;` whose amount is printed with two
      decimals reads back as that step, the printed amount, and no state. */
  lemma InterpretWeightFrame(step: int, x: real)
    requires InIntRange(step)
    ensures InterpretRobotStatus("W" + Show(step) + "=" + Format2(x) + ";")
         == Some(ProcessStatus(step, Round2(x), Unknown))
  {
    WeightFrameRendered('W', step, x);
    assert "W" + Show(step) + "=" + Format2(x) + ";" == ['W'] + Show(step) + "=" + Format2(x) + ";";
    assert StartsWith("W" + Show(step) + "=" + Format2(x) + ";", 'W');
  }

  /** A state frame `S<step>=<code>;` reads back as that step, the state
      the code names, and the `-1` weight. */
  lemma InterpretStateFrame(step: int, code: string)
    requires InIntRange(step) && code != [] && '=' !in code
    requires !IsWhitespace(code[0]) && !IsWhitespace(code[|code| - 1])
    requires code[0] != ';' && code[|code| - 1] != ';'
    ensures InterpretRobotStatus("S" + Show(step) + "=" + code + ";")
         == Some(ProcessStatus(step, -1.0, StateOf(code)))
  {
    assert "S" + Show(step) + "=" + code + ";" == ['S'] + Show(step) + "=" + (code + ";");
    StepFrameRendered('S', step, code + ";");
    CleanTerminated(code);
  }

  /** A frame of any other kind is never a process update, however well
      formed its remainder. */
  lemma InterpretOtherKind(kind: char, step: int, payload: string)
    requires kind != 'W' && kind != 'S'
    requires InIntRange(step) && payload != [] && '=' !in payload
    ensures StepFrame([kind] + Show(step) + "=" + payload).Some?
    ensures InterpretRobotStatus([kind] + Show(step) + "=" + payload) == None
  {
    StepFrameRendered(kind, step, payload);
  }

  /** Every system frame `$<type>=<value>` with an integer type gives that
      type and the value verbatim, after any `=` that directly follow the `$`. */
  lemma GetStatusOf(n: nat, t: int, v: string)
    requires InIntRange(t) && v != []
    ensures GetStatusMessage("$" + Repeat('=', n) + Show(t) + "=" + v) == Some((t, v))
  {
    ShowIsPiece(t);
    StatusSplitOf(n, Show(t), v);
    ParseShow(t);
  }

  // The protocol's example frames, one lemma each.

  /** How the example frames are spelled. */
  lemma Spelled()
    ensures "S" + Show(0) + "=" + "P" + ";" == "S0=P;"
    ensures "S" + Show(0) + "=" + "C" + ";" == "S0=C;"
    ensures "S" + Show(0) + "=" + "X" + ";" == "S0=X;"
    ensures ['S'] + Repeat('=', 0) + [] + Show(0) + [] + Repeat('=', 2) + "P" + Repeat('=', 0) == "S0==P"
    ensures "$" + Repeat('=', 0) + Show(0) + "=" + "hello" == "$0=hello"
  {
    assert Show(0) == "0";
  }

  lemma SpelledWeight()
    ensures "W" + Show(2) + "=" + Format2(15.5) + ";" == "W2=15.50;"
  {
    assert Show(2) == "2";
    FifteenFifty();
  }

  lemma RenderedProcessing()
    ensures InterpretRobotStatus("S" + Show(0) + "=" + "P" + ";") == Some(ProcessStatus(0, -1.0, Processing))
  {
    InterpretStateFrame(0, "P");
  }

  /** `S0=P;` reports step 0 processing. */
  lemma ProcessingExample()
    ensures InterpretRobotStatus("S0=P;") == Some(ProcessStatus(0, -1.0, Processing))
  {
    RenderedProcessing();
    Spelled();
  }

  lemma RenderedComplete()
    ensures InterpretRobotStatus("S" + Show(0) + "=" + "C" + ";") == Some(ProcessStatus(0, -1.0, Complete))
  {
    InterpretStateFrame(0, "C");
  }

  /** `S0=C;` reports step 0 complete. */
  lemma CompleteExample()
    ensures InterpretRobotStatus("S0=C;") == Some(ProcessStatus(0, -1.0, Complete))
  {
    RenderedComplete();
    Spelled();
  }

  lemma RenderedFailed()
    ensures InterpretRobotStatus("S" + Show(0) + "=" + "X" + ";") == Some(ProcessStatus(0, -1.0, Failed))
  {
    InterpretStateFrame(0, "X");
  }

  /** `S0=X;` (any code but `P` and `C`) reports step 0 failed. */
  lemma FailedExample()
    ensures InterpretRobotStatus("S0=X;") == Some(ProcessStatus(0, -1.0, Failed))
  {
    RenderedFailed();
    Spelled();
  }

  lemma RenderedDoubled()
    ensures StepFrame(['S'] + Repeat('=', 0) + [] + Show(0) + [] + Repeat('=', 2) + "P" + Repeat('=', 0)) == Some((0, "P"))
  {
    StepFrameOf('S', 0, [], 0, [], 2, "P", 0);
  }

  lemma CleanLetter()
    ensures CleanPayload("P") == "P"
  {
    var p, semi := "P", CharactersIn({';'});
    assert p[0] == 'P' && !IsWhitespace(p[0]) && !semi.Contains(p[0]);
    TrimmedOf(p, WhitespacesAndNewlines);
    TrimmedOf(p, semi);
  }

  /** A doubled `=` is omitted by the split: `S0==P` still reports step 0 processing. */
  lemma DoubledSeparatorExample()
    ensures InterpretRobotStatus("S0==P") == Some(ProcessStatus(0, -1.0, Processing))
  {
    RenderedDoubled();
    Spelled();
    CleanLetter();
  }

  lemma FifteenFifty()
    ensures Format2(15.5) == "15.50" && Round2(15.5) == 15.5
  {
    assert (15.5 * 100.0).Floor == 1550;
    assert RoundHundredths(15.5) == 1550;
    assert ShowNat(15) == "15";
  }

  lemma RenderedWeight()
    ensures InterpretRobotStatus("W" + Show(2) + "=" + Format2(15.5) + ";") == Some(ProcessStatus(2, Round2(15.5), Unknown))
  {
    InterpretWeightFrame(2, 15.5);
  }

  /** `W2=15.50;` reports a weight of 15.5 on step 2. */
  lemma WeightExample()
    ensures InterpretRobotStatus("W2=15.50;") == Some(ProcessStatus(2, 15.5, Unknown))
  {
    RenderedWeight();
    SpelledWeight();
    FifteenFifty();
  }

  /** A weight frame whose amount has no point, `W<step>=<digits>;`, gives
      that whole number as the weight. */
  lemma InterpretWholeWeight(step: int, w: string)
    requires InIntRange(step) && w != [] && AllDigits(w)
    ensures InterpretRobotStatus("W" + Show(step) + "=" + w + ";") == Some(ProcessStatus(step, DigitsValue(w) as real, Unknown))
  {
    assert "W" + Show(step) + "=" + w + ";" == ['W'] + Show(step) + "=" + (w + ";");
    WholePiece(w);
    StepFrameRendered('W', step, w + ";");
    WholePayloadReads(w);
  }

  lemma WholePiece(w: string)
    requires AllDigits(w)
    ensures '=' !in w + ";"
  {
    assert forall i :: 0 <= i < |w + ";"| ==> (w + ";")[i] != '=';
  }

  lemma WholePayloadReads(w: string)
    requires w != [] && AllDigits(w)
    ensures ParseDecimal(CleanPayload(w + ";")) == Some(DigitsValue(w) as real)
  {
    assert IsDigit(w[0]) && IsDigit(w[|w| - 1]);
    CleanTerminated(w);
    ParseDecimalWhole("", w);
    assert "" + w == w;
  }

  /** `W0=7;` is a weight of 7. */
  lemma WholeWeightExample()
    ensures InterpretRobotStatus("W0=7;") == Some(ProcessStatus(0, 7.0, Unknown))
  {
    InterpretWholeWeight(0, "7");
    SpelledSeven();
  }

  lemma SpelledSeven()
    ensures "W" + Show(0) + "=" + "7" + ";" == "W0=7;"
    ensures AllDigits("7") && DigitsValue("7") == 7
  {
    assert Show(0) == "0";
    assert "7"[..0] == [];
  }

  /** An unreadable weight counts as 0. */
  lemma InterpretUnreadableWeight(step: int)
    requires InIntRange(step)
    ensures InterpretRobotStatus("W" + Show(step) + "=x;") == Some(ProcessStatus(step, 0.0, Unknown))
  {
    assert "W" + Show(step) + "=x;" == ['W'] + Show(step) + "=" + "x;";
    StepFrameRendered('W', step, "x;");
    UnreadablePayload();
  }

  lemma UnreadablePayload()
    ensures ParseDecimal(CleanPayload("x;")) == None
  {
    CleanTerminated("x");
    assert "x" + ";" == "x;";
    ParseDecimalShape("x");
    assert !IsDigit("x"[0]);
  }

  /** `W0=x;` is a weight of 0. */
  lemma UnreadableWeightExample()
    ensures InterpretRobotStatus("W0=x;") == Some(ProcessStatus(0, 0.0, Unknown))
  {
    InterpretUnreadableWeight(0);
    SpelledUnreadable();
  }

  lemma SpelledUnreadable()
    ensures "W" + Show(0) + "=x;" == "W0=x;"
  {
    assert Show(0) == "0";
  }

  /** A step frame without a step number is rejected. */
  lemma MissingStepExample()
    ensures InterpretRobotStatus("S=P;") == None
  {
    StepFrameWithoutStep('S', "P;");
    assert ['S'] + "=" + "P;" == "S=P;";
  }

  /** A system frame without a value is rejected. */
  lemma MissingValueExample()
    ensures GetStatusMessage("$0=") == None
  {
    StatusSplitOnePiece(0, "0", 1);
    assert "$" + Repeat('=', 0) + "0" + Repeat('=', 1) == "$0=";
  }

  lemma RenderedText()
    ensures GetStatusMessage("$" + Repeat('=', 0) + Show(0) + "=" + "hello") == Some((0, "hello"))
  {
    GetStatusOf(0, 0, "hello");
  }

  /** `$0=hello` is the text status `hello`. */
  lemma TextExample()
    ensures GetStatusMessage("$0=hello") == Some((0, "hello"))
  {
    RenderedText();
    Spelled();
  }

  /** The part of `BluetoothEngine` that the protocol drives: the fields
      published from received status frames, the connection flag, and the
      frames handed to the transport for sending. */
  class BluetoothEngine {
    var robotStatus: string
    var cupStatus: bool
    var robotProcess: Option<ProcessStatus>
    var isConnected: bool
    /** Every frame passed to `sendStringToPeripheral`, oldest first. */
    var outbox: seq<string>

    constructor ()
      ensures robotStatus == "" && !cupStatus && robotProcess == None
      ensures !isConnected && outbox == []
    {
      robotStatus := "";
      cupStatus := false;
      robotProcess := None;
      isConnected := false;
      outbox := [];
    }

    /** `sendStringToPeripheral(_:)`: the frame is handed to the transport. */
    method SendStringToPeripheral(frame: string)
      modifies this`outbox
      ensures outbox == old(outbox) + [frame]
    {
      outbox := outbox + [frame];
    }

    /** The status-characteristic branch of `peripheral(_:didUpdateValueFor:error:)`:
        a step frame replaces `robotProcess` and nothing else; otherwise a
        system frame of type 0 replaces `robotStatus`, of type 1 sets
        `cupStatus` to whether its value is `1`; every other frame changes nothing. */
    method DidUpdateStatusValue(message: string)
      modifies this`robotProcess, this`robotStatus, this`cupStatus
      ensures InterpretRobotStatus(message).Some? ==>
        robotProcess == InterpretRobotStatus(message) &&
        robotStatus == old(robotStatus) && cupStatus == old(cupStatus)
      ensures InterpretRobotStatus(message).None? ==> robotProcess == old(robotProcess)
      ensures InterpretRobotStatus(message).None? ==>
        match GetStatusMessage(message)
        case Some((0, v)) => robotStatus == v && cupStatus == old(cupStatus)
        case Some((1, v)) => cupStatus == (v == "1") && robotStatus == old(robotStatus)
        case _ => robotStatus == old(robotStatus) && cupStatus == old(cupStatus)
    {
      var process := InterpretRobotStatus(message);
      if process.Some? {
        robotProcess := process;
      } else {
        var status := GetStatusMessage(message);
        if status.Some? {
          if status.value.0 == 0 {
            robotStatus := status.value.1;
          } else if status.value.0 == 1 {
            cupStatus := status.value.1 == "1";
          }
        }
      }
    }
  }
}
