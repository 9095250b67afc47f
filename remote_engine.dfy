/** `MixBot/RemoteEngine.swift`: the object the views talk to. It encodes a
    drink as a job frame, keeps one `JobProgress` per ingredient of the job
    being poured, and routes every frame the robot sends either to that
    table or to the `RobotStatus`. */
module Remote {
  import opened Wrappers
  import opened SwiftStrings
  import opened SwiftNumbers
  import opened StepFrames
  import opened Drinks
  import opened Progress
  import BLE
  import Robot

  // ------------------------------------------------------ the job frame

  /** The quantity of an ingredient: the drink's total times its percentage. */
  function Amount(d: Drink, g: Ingredient): real {
    d.totalQty as real * (g.percent / 100.0)
  }

  /** One entry of a job frame: the station, `=`, and the quantity printed
      with two decimals. */
  function EntryText(d: Drink, g: Ingredient): string {
    Show(g.stationId) + "=" + Format2(Amount(d, g))
  }

  /** The frame `sendJobToRobot` sends: `D:` and every entry followed by a
      comma, less the last character. */
  function JobFrame(d: Drink): string {
    DropLast("D:" + Terminated(Texts(d), ','))
  }

  /** The entries of a drink, in order. */
  function Texts(d: Drink): (r: seq<string>)
    ensures |r| == |d.ingredients|
  {
    seq(|d.ingredients|, i requires 0 <= i < |d.ingredients| => EntryText(d, d.ingredients[i]))
  }

  /** What a job frame tells the robot: each station and the quantity it
      pours, to the hundredth. */
  function Portions(d: Drink): (r: seq<(int, real)>)
    ensures |r| == |d.ingredients|
  {
    seq(|d.ingredients|, i requires 0 <= i < |d.ingredients| =>
      (d.ingredients[i].stationId, Round2(Amount(d, d.ingredients[i]))))
  }

  /** A reading of job frames, used to state what a frame carries: `D` is
      the empty job, otherwise `D:` and comma-separated `<station>=<amount>`
      entries. */
  function DecodeJobFrame(s: string): (r: Option<seq<(int, real)>>)
    ensures r.Some? ==> s == "D" || (|s| >= 2 && s[..2] == "D:")
  {
    if s == "D" then Some([])
    else if |s| >= 2 && s[..2] == "D:" then DecodeEntries(Split(s[2..], ','))
    else None
  }

  function DecodeEntries(ps: seq<string>): (r: Option<seq<(int, real)>>)
    ensures r.Some? ==> |r.value| == |ps|
  {
    if ps == [] then Some([])
    else
      match (DecodeEntry(ps[0]), DecodeEntries(ps[1..]))
      case (Some(e), Some(es)) => Some([e] + es)
      case _ => None
  }

  function DecodeEntry(p: string): (r: Option<(int, real)>)
  {
    var pieces := Split(p, '=');
    if |pieces| != 2 then None
    else
      match (ParseInt(pieces[0]), ParseDecimal(pieces[1]))
      case (Some(n), Some(x)) => Some((n, x))
      case _ => None
  }

  predicate StationsInRange(d: Drink) {
    forall i :: 0 <= i < |d.ingredients| ==> InIntRange(d.ingredients[i].stationId)
  }

  /** The message the `isConnected` sink of `init` writes. */
  function ConnectionMessage(isConnected: bool): (r: string)
    ensures r == "Connected" <==> isConnected
  {
    if isConnected then "Connected" else "Not Connected"
  }

  /** The empty frame, the first value the `rx` sink passes on, is neither a
      step frame nor a system frame: routing it changes nothing. */
  lemma EmptyFrameIgnored(s: Robot.Snapshot)
    ensures MakeStatusFrom("").None?
    ensures Robot.AfterFrame(s, "") == (false, s)
  {
    assert Split(DropFirst(""), '=') == [];
  }

  // ---------------------------------------------------------- the engine

  /** `class RemoteEngine`. The published fields are plain fields; the
      Bluetooth engine and the robot status are objects it owns. */
  class RemoteEngine {
    var isReady: bool
    var stateMessage: string
    const robotStatus: Robot.RobotStatus
    const bluetoothEngine: BLE.BluetoothEngine
    var jobProgress: seq<JobProgress>

    /** Entry `i` of the table is the progress of step `i`. */
    ghost predicate Valid()
      reads this
    {
      forall i :: 0 <= i < |jobProgress| ==> jobProgress[i].step == i
    }

    /** `init(targetPeripheralUUIDString:)`. Subscribing to the published
        `isConnected` delivers its current value, `false`, at once, so the
        engine starts out reporting `Not Connected`. The first value of `rx`
        is the empty frame, which changes nothing (`EmptyFrameIgnored`), and
        the `ehlo` of the `txReady` sink finds no peripheral to go to. */
    constructor ()
      ensures fresh(robotStatus) && fresh(bluetoothEngine)
      ensures !isReady && stateMessage == "Not Connected" && jobProgress == [] && Valid()
      ensures robotStatus.View() == Robot.Initial && bluetoothEngine.outbox == []
      ensures !bluetoothEngine.isConnected
    {
      isReady := false;
      stateMessage := "";
      robotStatus := new Robot.RobotStatus();
      bluetoothEngine := new BLE.BluetoothEngine();
      jobProgress := [];
      new;
      stateMessage := ConnectionMessage(bluetoothEngine.isConnected);
    }

    /** `sendJobToRobot(_:)`: resets the table to one entry per ingredient,
        the first processing and the rest sent, all with weight 0, and sends
        the job frame. */
    method SendJobToRobot(drink: Drink)
      modifies this`jobProgress, bluetoothEngine`outbox
      ensures |jobProgress| == |drink.ingredients| && Valid()
      ensures forall i :: 0 <= i < |jobProgress| ==>
        jobProgress[i] == JobProgress(i, 0.0, if i == 0 then Processing else Sent)
      ensures bluetoothEngine.outbox == old(bluetoothEngine.outbox) + [JobFrame(drink)]
    {
      jobProgress := [];
      var txString := "D:";
      var step := 0;
      assert Texts(drink)[..0] == [];
      for k := 0 to |drink.ingredients|
        invariant step == k && jobProgress == InitialTable(k)
        invariant txString == JobPrefix(drink, k)
        invariant bluetoothEngine.outbox == old(bluetoothEngine.outbox)
      {
        var ingredient := drink.ingredients[k];
        jobProgress := jobProgress + [JobProgress(step, 0.0, Sent)];
        var amt := Amount(drink, ingredient);
        NextEntry(drink, k);
        txString := txString + Show(ingredient.stationId) + "=" + Format2(amt) + ",";
        if step == 0 {
          jobProgress := jobProgress[0 := jobProgress[0].(status := Processing)];
        }
        step := step + 1;
      }
      assert Texts(drink)[..|drink.ingredients|] == Texts(drink);
      txString := DropLast(txString);
      bluetoothEngine.SendStringToPeripheral(txString);
    }

    /** `beginDispensing(drink:)`: always reports the request; sends the
        job only when connected. */
    method BeginDispensing(drink: Drink)
      modifies this`stateMessage, this`jobProgress, bluetoothEngine`outbox
      ensures stateMessage == "Requesting Drink..."
      ensures bluetoothEngine.isConnected ==>
        |jobProgress| == |drink.ingredients| && Valid() &&
        (forall i :: 0 <= i < |jobProgress| ==>
          jobProgress[i] == JobProgress(i, 0.0, if i == 0 then Processing else Sent)) &&
        bluetoothEngine.outbox == old(bluetoothEngine.outbox) + [JobFrame(drink)]
      ensures !bluetoothEngine.isConnected ==>
        jobProgress == old(jobProgress) && bluetoothEngine.outbox == old(bluetoothEngine.outbox)
    {
      stateMessage := "Requesting Drink...";
      if bluetoothEngine.isConnected {
        SendJobToRobot(drink);
      }
    }

    /** `cancelServing()`: always reports the request; sends `C!` only when
        connected; never touches the table. */
    method CancelServing()
      modifies this`stateMessage, bluetoothEngine`outbox
      ensures stateMessage == "Cancel Requested" && jobProgress == old(jobProgress)
      ensures bluetoothEngine.outbox == old(bluetoothEngine.outbox) + (if bluetoothEngine.isConnected then ["C!"] else [])
    {
      stateMessage := "Cancel Requested";
      if bluetoothEngine.isConnected {
        bluetoothEngine.SendStringToPeripheral("C!");
      }
    }

    /** `didReceivedMessage(_:)` as written: a step frame updates the table
        entry its step number names, without a bounds check (an index
        outside the table traps, and so does an entry for another step), and
        leaves the robot status alone; any other frame goes to
        `RobotStatus.setFrom`. */
    method DidReceivedMessage(message: Option<string>)
      requires message.Some? && MakeStatusFrom(message.value).Some? ==>
        var s := MakeStatusFrom(message.value).value.step;
        0 <= s < |jobProgress| && jobProgress[s].step == s
      modifies this`jobProgress, robotStatus
      ensures message.None? ==> jobProgress == old(jobProgress) && robotStatus.View() == old(robotStatus.View())
      ensures message.Some? && MakeStatusFrom(message.value).Some? ==>
        var u := MakeStatusFrom(message.value).value;
        jobProgress == old(jobProgress)[u.step := old(jobProgress)[u.step].UpdateWith(u)] &&
        robotStatus.View() == old(robotStatus.View())
      ensures message.Some? && MakeStatusFrom(message.value).None? ==>
        jobProgress == old(jobProgress) &&
        robotStatus.View() == Robot.AfterFrame(old(robotStatus.View()), message.value).1
      ensures old(Valid()) ==> Valid()
    {
      if message.None? {
        return;
      }
      var newUpdate := MakeStatusFrom(message.value);
      if newUpdate.Some? {
        var u := newUpdate.value;
        jobProgress := jobProgress[u.step := jobProgress[u.step].UpdateWith(u)];
        return;
      }
      var ok := robotStatus.SetFrom(message.value);
    }

    /** `didReceivedMessage(_:)` with the bounds check it lacks: a step frame
        for a step outside the table is dropped. While the table is valid,
        every frame is safe to route. */
    method DidReceivedMessageChecked(message: Option<string>)
      requires Valid()
      modifies this`jobProgress, robotStatus
      ensures Valid()
      ensures message.None? ==> jobProgress == old(jobProgress) && robotStatus.View() == old(robotStatus.View())
      ensures message.Some? && MakeStatusFrom(message.value).Some? ==>
        var u := MakeStatusFrom(message.value).value;
        robotStatus.View() == old(robotStatus.View()) &&
        jobProgress == if 0 <= u.step < |old(jobProgress)|
                       then old(jobProgress)[u.step := old(jobProgress)[u.step].UpdateWith(u)]
                       else old(jobProgress)
      ensures message.Some? && MakeStatusFrom(message.value).None? ==>
        jobProgress == old(jobProgress) &&
        robotStatus.View() == Robot.AfterFrame(old(robotStatus.View()), message.value).1
    {
      if message.None? {
        return;
      }
      var newUpdate := MakeStatusFrom(message.value);
      if newUpdate.Some? {
        var u := newUpdate.value;
        if 0 <= u.step < |jobProgress| {
          jobProgress := jobProgress[u.step := jobProgress[u.step].UpdateWith(u)];
        }
        return;
      }
      var ok := robotStatus.SetFrom(message.value);
    }
  }

  // ------------------------------------------------------------- lemmas

  /** With no ingredients the trailing character dropped is the colon. */
  lemma EmptyJobFrame(d: Drink)
    requires d.ingredients == []
    ensures JobFrame(d) == "D"
  {
  }

  /** One turn of the loop of `sendJobToRobot` appends the next entry and a comma. */
  lemma EntriesGrow(ts: seq<string>, k: nat, tx: string, s: string, f: string)
    requires k < |ts| && tx == "D:" + Terminated(ts[..k], ',') && ts[k] == s + "=" + f
    ensures tx + s + "=" + f + "," == "D:" + Terminated(ts[..k + 1], ',')
  {
    assert ts[..k + 1] == ts[..k] + [ts[k]];
    TerminatedSnoc(ts[..k], ts[k], ',');
    Regroup("D:", Terminated(ts[..k], ','), s, "=", f, ",");
  }

  /** The table `sendJobToRobot` has built after `n` ingredients: step 0
      processing, the later steps sent, every weight 0. */
  function InitialTable(n: nat): (r: seq<JobProgress>)
    ensures |r| == n
    ensures forall i :: 0 <= i < n ==> r[i] == JobProgress(i, 0.0, if i == 0 then Processing else Sent)
  {
    if n == 0 then []
    else if n == 1 then [JobProgress(0, 0.0, Processing)]
    else InitialTable(n - 1) + [JobProgress(n - 1, 0.0, Sent)]
  }

  /** The text `sendJobToRobot` has built after `k` ingredients. */
  function JobPrefix(d: Drink, k: nat): string
    requires k <= |d.ingredients|
  {
    "D:" + Terminated(Texts(d)[..k], ',')
  }

  lemma NextEntry(d: Drink, k: nat)
    requires k < |d.ingredients|
    ensures var g := d.ingredients[k];
      JobPrefix(d, k) + Show(g.stationId) + "=" + Format2(Amount(d, g)) + "," == JobPrefix(d, k + 1)
  {
    var g := d.ingredients[k];
    TextAt(d, k);
    EntriesGrow(Texts(d), k, JobPrefix(d, k), Show(g.stationId), Format2(Amount(d, g)));
  }

  lemma TextAt(d: Drink, k: nat)
    requires k < |d.ingredients|
    ensures Texts(d)[k] == Show(d.ingredients[k].stationId) + "=" + Format2(Amount(d, d.ingredients[k]))
  {
  }

  lemma Regroup(x: string, y: string, a: string, b: string, c: string, z: string)
    ensures x + y + a + b + c + z == x + (y + (a + b + c) + z)
  {
  }

  /** A drink with ingredients is sent as `D:` and its entries separated by
      commas, with no comma at the end. */
  lemma JobFrameJoined(d: Drink)
    requires d.ingredients != []
    ensures JobFrame(d) == "D:" + Join(Texts(d), ',')
  {
    var t := Texts(d);
    TerminatedJoin(t, ',');
    assert "D:" + Terminated(t, ',') == ("D:" + Join(t, ',')) + [','];
  }

  lemma EntryIsPiece(d: Drink, g: Ingredient)
    ensures EntryText(d, g) != [] && ',' !in EntryText(d, g)
  {
    ShowIsPiece(g.stationId);
    var f := Format2(Amount(d, g));
    assert ',' !in f by {
      assert forall i :: 0 <= i < |f| ==> f[i] != ',';
    }
  }

  /** One entry reads back as its station and its quantity to the hundredth. */
  lemma DecodeEntryText(d: Drink, g: Ingredient)
    requires InIntRange(g.stationId)
    ensures DecodeEntry(EntryText(d, g)) == Some((g.stationId, Round2(Amount(d, g))))
  {
    var a, b := Show(g.stationId), Format2(Amount(d, g));
    ShowIsPiece(g.stationId);
    assert '=' !in b by {
      assert forall i :: 0 <= i < |b| ==> b[i] != '=';
    }
    assert EntryText(d, g) == Repeat('=', 0) + a + Repeat('=', 1) + b + Repeat('=', 0);
    SplitTwo(0, a, 1, b, 0, '=');
    ParseShow(g.stationId);
    Format2Parses(Amount(d, g));
  }

  lemma {:induction false} DecodeEntriesOf(ts: seq<string>, es: seq<(int, real)>)
    requires |ts| == |es| && forall i :: 0 <= i < |ts| ==> DecodeEntry(ts[i]) == Some(es[i])
    ensures DecodeEntries(ts) == Some(es)
    decreases |ts|
  {
    if ts != [] {
      assert forall i :: 0 <= i < |ts| - 1 ==> ts[1..][i] == ts[i + 1] && es[1..][i] == es[i + 1];
      DecodeEntriesOf(ts[1..], es[1..]);
      DecodeEntriesCons(ts, es);
    }
  }

  lemma DecodeEntriesCons(ts: seq<string>, es: seq<(int, real)>)
    requires ts != [] && |ts| == |es|
    requires DecodeEntry(ts[0]) == Some(es[0]) && DecodeEntries(ts[1..]) == Some(es[1..])
    ensures DecodeEntries(ts) == Some(es)
  {
    assert es == [es[0]] + es[1..];
  }

  /** The job frame carries, in order, every ingredient's station and its
      quantity to the hundredth, and nothing else. */
  lemma JobFrameCarriesPortions(d: Drink)
    requires StationsInRange(d)
    ensures DecodeJobFrame(JobFrame(d)) == Some(Portions(d))
  {
    if d.ingredients == [] {
      EmptyJobFrame(d);
    } else {
      var t := Texts(d);
      JobFrameJoined(d);
      var s := JobFrame(d);
      assert s[..2] == "D:" && s[2..] == Join(t, ',');
      assert s != "D";
      forall i | 0 <= i < |t|
        ensures t[i] != [] && ',' !in t[i]
      {
        EntryIsPiece(d, d.ingredients[i]);
      }
      SplitJoin(t, ',');
      forall i | 0 <= i < |t|
        ensures DecodeEntry(t[i]) == Some(Portions(d)[i])
      {
        DecodeEntryText(d, d.ingredients[i]);
      }
      DecodeEntriesOf(t, Portions(d));
    }
  }

  /** While the table is valid, a frame whose step lies inside it meets the
      precondition of `update(with:)`. */
  lemma ValidMeetsMergePrecondition(job: seq<JobProgress>, u: JobProgress)
    requires forall i :: 0 <= i < |job| ==> job[i].step == i
    requires 0 <= u.step < |job|
    ensures job[u.step].step == u.step
    ensures var merged := job[u.step := job[u.step].UpdateWith(u)];
      |merged| == |job| && (forall i :: 0 <= i < |job| ==> merged[i].step == i) &&
      (forall i :: 0 <= i < |job| && i != u.step ==> merged[i] == job[i])
  {
  }

  /** The frame `S0=P;` parses as an update for step 0, so before any job has
      been sent (the table is empty) it indexes past the end of the table. */
  lemma StrayFrameIndexesEmptyTable(job: seq<JobProgress>)
    requires job == []
    ensures MakeStatusFrom("S0=P;") == Some(JobProgress(0, -1.0, Progress.Processing))
    ensures !(0 <= MakeStatusFrom("S0=P;").value.step < |job|)
  {
    MakeStateFrame(0, "P");
    BLE.Spelled();
  }
}
