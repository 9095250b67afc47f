/** `RobotStatus` (declared identically in `MixBot/Models/Status/RobotStatus.swift`
    and `MixBot/RemoteEngine.swift`): what the robot last said about itself
    through a system frame `$<type>=<value>`. Type 0 is a text message, type 1
    the cup sensor, where the value `1` means a cup is in place. */
module Robot {
  import opened Wrappers
  import opened SwiftStrings
  import opened SwiftNumbers
  import opened StepFrames

  /** `RobotStatus.StatusType` */
  datatype StatusType = Cup | Text | Unknown

  /** The three fields of a `RobotStatus`, as one value. */
  datatype Snapshot = Snapshot(isCupReady: Option<bool>, text: Option<string>, statusType: StatusType)

  /** The status a fresh `RobotStatus()` holds. */
  const Initial: Snapshot := Snapshot(None, None, Unknown)

  /** What `setFrom(text:)` returns, and the status it leaves, as a function
      of the status before: it accepts exactly the frames that split into a
      type and a value; a type that reads as 0 sets the text, one that reads
      as 1 sets the cup flag, and anything else (another number, or no
      number at all) clears both. */
  function AfterFrame(s: Snapshot, input: string): (r: (bool, Snapshot))
    ensures r.0 <==> StatusSplit(input).Some?
    ensures !r.0 ==> r.1 == s
    ensures r.1.statusType != Text ==> r.1.text == s.text || r.1.text == None
    ensures r.1.statusType == Text && r.0 ==>
      r.1.text == Some(StatusSplit(input).value.1) && r.1.isCupReady == s.isCupReady
    ensures r.1.statusType == Cup && r.0 ==>
      r.1.isCupReady == Some(StatusSplit(input).value.1 == "1") && r.1.text == s.text
    ensures r.0 && ParseInt(StatusSplit(input).value.0) == Some(0) ==>
      r.1 == s.(statusType := Text, text := Some(StatusSplit(input).value.1))
    ensures r.0 && ParseInt(StatusSplit(input).value.0) == Some(1) ==>
      r.1 == s.(statusType := Cup, isCupReady := Some(StatusSplit(input).value.1 == "1"))
    ensures r.0 && ParseInt(StatusSplit(input).value.0) != Some(0) && ParseInt(StatusSplit(input).value.0) != Some(1) ==>
      r.1 == Initial
  {
    match StatusSplit(input)
    case None => (false, s)
    case Some((t, v)) =>
      var messageType := ParseInt(t);
      if messageType == Some(0) then (true, s.(statusType := Text, text := Some(v)))
      else if messageType == Some(1) then (true, s.(statusType := Cup, isCupReady := Some(v == "1")))
      else (true, Snapshot(None, None, Unknown))
  }

  /** `struct RobotStatus`; its fields change in place under `setFrom`. */
  class RobotStatus {
    var isCupReady: Option<bool>
    var text: Option<string>
    var statusType: StatusType

    constructor ()
      ensures View() == Initial
    {
      isCupReady := None;
      text := None;
      statusType := Unknown;
    }

    function View(): Snapshot
      reads this
    {
      Snapshot(isCupReady, text, statusType)
    }

    /** `setFrom(text:)` */
    method SetFrom(input: string) returns (ok: bool)
      modifies this
      ensures (ok, View()) == AfterFrame(old(View()), input)
    {
      if !StartsWith(input, '$') {
        return false;
      }
      var components := SplitOnce(input[1..], '=');
      if |components| != 2 {
        return false;
      }
      var messageType := ParseInt(components[0]);
      var cleanedText := components[1];
      if messageType == Some(0) {
        statusType := Text;
        text := Some(cleanedText);
      } else if messageType == Some(1) {
        statusType := Cup;
        isCupReady := Some(cleanedText == "1");
      } else {
        statusType := Unknown;
        isCupReady := None;
        text := None;
      }
      return true;
    }
  }

  // ------------------------------------------------------------- lemmas

  /** Every system frame `$<type>=<value>` with an integer type is accepted.
      Type 0 stores the value verbatim as the text, type 1 reports a cup
      exactly when the value is `1`, and any other type clears the status. */
  lemma TypedFrame(s: Snapshot, t: int, v: string)
    requires InIntRange(t) && v != []
    ensures AfterFrame(s, "$" + Show(t) + "=" + v) ==
      (true,
       if t == 0 then s.(statusType := Text, text := Some(v))
       else if t == 1 then s.(statusType := Cup, isCupReady := Some(v == "1"))
       else Initial)
  {
    ShowIsPiece(t);
    assert "$" + Show(t) + "=" + v == "$" + Repeat('=', 0) + Show(t) + "=" + v;
    StatusSplitOf(0, Show(t), v);
    ParseShow(t);
  }

  /** The same for a type spelled any way `Int(_)` reads, with a sign or
      leading zeros: a plain frame `$<type>=<value>` is accepted and acts by
      the type's value, so `$00=hi` is a text and `$+1=1` a cup report. */
  lemma SpelledTypeFrame(s: Snapshot, t: string, v: string)
    requires t != [] && '=' !in t && v != [] && ParseInt(t).Some?
    ensures AfterFrame(s, "$" + t + "=" + v) ==
      (true,
       if ParseInt(t) == Some(0) then s.(statusType := Text, text := Some(v))
       else if ParseInt(t) == Some(1) then s.(statusType := Cup, isCupReady := Some(v == "1"))
       else Initial)
  {
    assert "$" + t + "=" + v == "$" + Repeat('=', 0) + t + "=" + v;
    StatusSplitOf(0, t, v);
  }

  /** Leading zeros do not hide a text frame. */
  lemma LeadingZeroTypeExample(s: Snapshot)
    ensures AfterFrame(s, "$00=hi") == (true, s.(statusType := Text, text := Some("hi")))
  {
    LeadingZeroIntExample();
    SpelledTypeFrame(s, "00", "hi");
    assert "$" + "00" + "=" + "hi" == "$00=hi";
  }

  /** A leading `+` does not hide a cup frame. */
  lemma PlusTypeExample(s: Snapshot)
    ensures AfterFrame(s, "$+1=1") == (true, s.(statusType := Cup, isCupReady := Some(true)))
  {
    PlusIntExample();
    SpelledTypeFrame(s, "+1", "1");
    assert "$" + "+1" + "=" + "1" == "$+1=1";
  }

  /** A type that is not an integer at all also clears the status, and the
      frame still counts as accepted. */
  lemma UntypedFrame(s: Snapshot, t: string, v: string)
    requires t != [] && '=' !in t && v != [] && ParseInt(t).None?
    ensures AfterFrame(s, "$" + t + "=" + v) == (true, Initial)
  {
    assert "$" + t + "=" + v == "$" + Repeat('=', 0) + t + "=" + v;
    StatusSplitOf(0, t, v);
  }

  /** A frame without a value (`$0=`, `$0`) is refused and changes nothing. */
  lemma ValuelessFrame(s: Snapshot, t: string, m: nat)
    requires t != [] && '=' !in t && m <= 1
    ensures AfterFrame(s, "$" + t + Repeat('=', m)) == (false, s)
  {
    assert "$" + t + Repeat('=', m) == "$" + Repeat('=', 0) + t + Repeat('=', m);
    StatusSplitOnePiece(0, t, m);
  }

  /** The cup frame of the protocol: `$1=1` means a cup is in place, while
      `$1=0` (or any other value) means none is. */
  lemma CupFrames(s: Snapshot)
    ensures AfterFrame(s, "$1=1") == (true, s.(statusType := Cup, isCupReady := Some(true)))
    ensures AfterFrame(s, "$1=0") == (true, s.(statusType := Cup, isCupReady := Some(false)))
  {
    TypedFrame(s, 1, "1");
    TypedFrame(s, 1, "0");
    CupSpelled();
  }

  lemma CupSpelled()
    ensures "$" + Show(1) + "=" + "1" == "$1=1" && "$" + Show(1) + "=" + "0" == "$1=0"
  {
    assert Show(1) == "1";
  }

  /** Frames are applied one after another; the status after a stream. */
  ghost function AfterFrames(s: Snapshot, frames: seq<string>): Snapshot
    decreases |frames|
  {
    if frames == [] then s else AfterFrames(AfterFrame(s, frames[0]).1, frames[1..])
  }

  /** Once a stream has set the text, only a later text frame (or a frame
      that clears the whole status) changes it: a stream with no accepted
      frame of a type other than 1 leaves the text as it was. */
  lemma {:induction false} TextSurvivesCupFrames(s: Snapshot, frames: seq<string>)
    requires forall i :: 0 <= i < |frames| ==>
      StatusSplit(frames[i]).None? || ParseInt(StatusSplit(frames[i]).value.0) == Some(1)
    ensures AfterFrames(s, frames).text == s.text
    decreases |frames|
  {
    if frames != [] {
      TextSurvivesCupFrames(AfterFrame(s, frames[0]).1, frames[1..]);
    }
  }
}
