# MixBot protocol model

MixBot is an iOS app that drives a cocktail-mixing robot over Bluetooth LE.
The app and the robot exchange short text frames:

- **Job frame** (app to robot): `D:<station>=<amount>,<station>=<amount>,...`.
  It sends one entry per ingredient, with the amount printed with two decimals.
  A drink without ingredients is sent as `D`.
- **Cancel frame** (app to robot): `C!`.
- **Step frames** (robot to app): `W<step>=<weight>;` reports the weight poured
  for a step. `S<step>=<code>;` reports a step's state: `P` processing, `C`
  complete, anything else failed.
- **System frames** (robot to app): `$<type>=<value>`. Type 0 carries a text
  message. Type 1 carries the cup sensor, where `1` means a cup is in place.

This project models that protocol and the bookkeeping built on it:

- the three copies of the step-frame parser;
- the two copies of the system-frame parser;
- the merge rules of the per-step progress record;
- the job encoder and frame router of `RemoteEngine`;
- the serving table of `DrinkServeStatus`.

It proves what each does on every input, in terms of models of `Int(_)` and
`Float(_)` whose values are pinned for every literal they accept.

## Layout

| module | file | models |
|---|---|---|
| `Wrappers` | `wrappers.dfy` | Swift `Optional` and `??` |
| `SwiftStrings` | `swift_strings.dfy` | What the code uses of Swift strings: `dropFirst`/`dropLast`, `split(separator:omittingEmptySubsequences:)` with and without `maxSplits: 1`, `trimmingCharacters(in:)` |
| `SwiftNumbers` | `swift_numbers.dfy` | `Int(String)`, `String(Int)`, `Float(String)` on decimal literals, `String(format: "%.2f")`, with floating point as exact reals |
| `StepFrames` | `step_frames.dfy` | The front half that all step-frame parsers share, and the split of a system frame |
| `BLE` | `ble_engine.dfy` | `ProcessStatus`, `interpretRobotStatus`, `getStatusMessage`, and the status-characteristic routing of `BluetoothEngine` |
| `Progress` | `job_progress.dfy` | `JobProgress`, `update(with:)`, `update(status:from:)`, `makeStatusFrom -> JobProgress?` |
| `DrinkJob` | `drink_job_status.dfy` | `JobStatus`, `setStatus`, `makeStatusFrom -> JobStatus?` |
| `Robot` | `robot_status.dfy` | `RobotStatus` and `setFrom(text:)` |
| `Drinks` | `drinks.dfy` | `Drink`, `Ingredient`, `IngredientServeStatus` |
| `Serving` | `drink_serve_status.dfy` | `DrinkServeStatus.updateIngredientStatusIdx` |
| `Remote` | `remote_engine.dfy` | `RemoteEngine`: `sendJobToRobot`, `beginDispensing`, `cancelServing`, `didReceivedMessage` |
| `Agreement` | `agreement.dfy` | How the duplicated parsers agree: the three step-frame copies are the same Swift text, while the two system-frame parsers really differ |

Objects whose fields the code updates in place are classes:

- `BluetoothEngine`;
- `RemoteEngine`;
- `RobotStatus`;
- `DrinkServeStatus`.

Each has a `View()` function or plain fields, and its methods state their whole new state.

The Swift structs changed by `mutating` methods or `inout` parameters are datatypes: `JobProgress` and `JobStatus`. Each such operation is modelled as a function that gives the record it leaves behind.

Sending a frame is modelled as appending it to `BluetoothEngine.outbox`.

### Behaviour of the code worth knowing

- **`split` with empty pieces omitted**, as used by all three step-frame parsers:
  - runs of `=` count as one separator;
  - leading and trailing `=` are ignored;
  - so `S0==P` is step 0 with payload `P`, and `S=P;` is rejected.
- **`split` with `maxSplits: 1`** skips leading `=` before the first piece, then keeps the rest verbatim. So `$0=a=b` has the value `a=b`, and `$0=` is rejected.
- **Cleaning a payload** strips every leading and trailing `;`, not just the final one.
- **The cast at `BLEEngine.swift:313`** makes `getStatusMessage` give `nil` whenever the type is not an integer. `RobotStatus.setFrom` instead accepts such a frame and clears the status.
- **`sendJobToRobot`** starts every entry with weight `0.0`, not the `-1` used by parsed state updates.
- **The two merge rules behave differently:**
  - `update(status:from:)` raises the weight only when the stored weight is not `-1`. It never replaces a `-1`, and its weight never decreases.
  - `update(with:)` takes any positive weight, so it can lower the weight.
- **`didReceivedMessage` never receives a real frame:**
  - it is only subscribed to `BluetoothEngine.rx`;
  - `rx` is never assigned in `BluetoothEngine`, so the routed frames only arrive when the method is called directly;
  - it is modelled as written.
- **The three step-frame parsers are one text.** `interpretRobotStatus` (`MixBot/BLEEngine.swift:245-297`), `JobProgress.makeStatusFrom` (`MixBot/Models/Status/JobProgress.swift:91-138`) and `JobStatus.makeStatusFrom` (`MixBot/Models/DrinkJobStatus.swift:32-76`) are the same code apart from logging and a variable name. So the model builds all three on one `StepFrame` and one `CleanPayload`. The `Agreement` lemmas only show that the three result types correspond. They are not an independent check of three different parsers.
- **`RobotStatus` is declared twice,** in `MixBot/Models/Status/RobotStatus.swift` and in `MixBot/RemoteEngine.swift`. The two declarations are identical, so one model covers both.

## Model

| member | source | states |
|---|---|---|
| `SwiftStrings.DropFirst` | MixBot/BLEEngine.swift:248 | `dropFirst` removes the first character of a non-empty string and leaves an empty one empty |
| `SwiftStrings.DropLast` | MixBot/RemoteEngine.swift:120 | `dropLast` removes the last character of a non-empty string and leaves an empty one empty |
| `SwiftStrings.Split` | MixBot/BLEEngine.swift:251 | every piece of a split with empty pieces omitted is non-empty and free of the separator |
| `SwiftStrings.SplitKeepsOthers` | MixBot/BLEEngine.swift:251 | the pieces laid end to end are the input with every separator removed: nothing else is lost or reordered |
| `SwiftStrings.SplitTwo` | MixBot/BLEEngine.swift:251-252 | any number of leading or trailing separators, and a run of one or more between two pieces, split into exactly those two pieces |
| `SwiftStrings.SplitJoin` | MixBot/BLEEngine.swift:251 | splitting pieces joined by the separator gives back the pieces, when they are non-empty and separator-free |
| `SwiftStrings.SplitOnce` | MixBot/BLEEngine.swift:304 | the `maxSplits: 1` split gives at most two non-empty pieces; with two, the input is leading separators, the first piece, one separator and the second piece verbatim |
| `SwiftStrings.SplitOnceOf` | MixBot/BLEEngine.swift:304-305 | leading separators, a separator-free piece, one separator and any non-empty rest split into that piece and that rest, including any later separators |
| `SwiftStrings.SplitOnceSingle` | MixBot/BLEEngine.swift:304-305 | a piece followed by at most one separator gives a single piece, so the two-piece test fails |
| `SwiftStrings.Trim` | MixBot/BLEEngine.swift:258 | trimming never lengthens the string and leaves neither end in the set |
| `SwiftStrings.TrimEmpty` | MixBot/BLEEngine.swift:258 | trimming gives the empty string exactly when every character is in the set |
| `SwiftStrings.TrimmedOf` | MixBot/BLEEngine.swift:269-270 | a non-empty string whose two ends are outside the set is left as it is |
| `SwiftStrings.TrimOf` | MixBot/BLEEngine.swift:269-270 | trimming a string made of members of the set, a middle part with both ends outside the set, and members of the set gives that middle part |
| `SwiftStrings.TerminatedJoin` | MixBot/RemoteEngine.swift:113-120 | pieces each followed by a separator are the pieces joined by it plus one final separator |
| `SwiftNumbers.ShowNat` | MixBot/RemoteEngine.swift:113 | `String(n)` of a natural number is a non-empty string of digits without a leading zero whose value is `n` |
| `SwiftNumbers.Show` | MixBot/RemoteEngine.swift:113 | `String(n)` is non-empty, starts with a digit or a minus and ends in a digit |
| `SwiftNumbers.ShowChars` | MixBot/RemoteEngine.swift:113 | every character of `String(n)` is a digit, except possibly a leading minus |
| `SwiftNumbers.ParseInt` | MixBot/BLEEngine.swift:259 | `Int(s)` succeeds only for an optional sign followed by one or more digits (so a bare `+` or `-` is `nil`), and only with a value in the 64-bit range |
| `SwiftNumbers.ParseIntOf` | MixBot/BLEEngine.swift:259 | an optional `+` or `-` followed by digits reads as the signed value of the digits, leading zeros included, exactly when that value is in the 64-bit range, and as `nil` otherwise |
| `SwiftNumbers.PlusIntExample` | MixBot/BLEEngine.swift:259 | `Int("+1")` is 1 |
| `SwiftNumbers.LeadingZeroIntExample` | MixBot/BLEEngine.swift:259 | `Int("00")` is 0 |
| `SwiftNumbers.MinusZeroIntExample` | MixBot/BLEEngine.swift:259 | `Int("-0")` is 0 |
| `SwiftNumbers.BareSignIntExample` | MixBot/BLEEngine.swift:259 | `Int("+")` and `Int("-")` are `nil` |
| `SwiftNumbers.BlankIntExample` | MixBot/BLEEngine.swift:259 | `Int(" 1")` is `nil` |
| `SwiftNumbers.ParseShow` | MixBot/BLEEngine.swift:259 | `Int(String(n))` is `n` for every 64-bit `n` |
| `SwiftNumbers.ParseDecimal` | MixBot/BLEEngine.swift:271 | `Float(s)` succeeds only on non-empty text; its shape and sign are stated by `ParseDecimalShape`, and its value on every literal of that shape by `ParseDecimalWhole` and `ParseDecimalPointed` |
| `SwiftNumbers.ParseDecimalShape` | MixBot/BLEEngine.swift:271 | `Float(s)` succeeds only for a non-empty text of digits with at most one point, at least one digit and possibly a leading sign, and is negative only after a leading minus |
| `SwiftNumbers.ParseDecimalWhole` | MixBot/BLEEngine.swift:271 | an optional sign followed by digits reads as the signed value of the digits |
| `SwiftNumbers.ParseDecimalPointed` | MixBot/BLEEngine.swift:271 | an optional sign, digits, a point and digits, with at least one digit, reads as the signed whole part plus the decimal fraction |
| `SwiftNumbers.ParseDecimalShow` | MixBot/BLEEngine.swift:271 | `Float(String(n))` is `n` for every integer `n` |
| `SwiftNumbers.WholeDecimalExample` | MixBot/BLEEngine.swift:271 | `Float("7")` is 7 |
| `SwiftNumbers.SignedDecimalExample` | MixBot/BLEEngine.swift:271 | `Float("+3.25")` is 3.25 |
| `SwiftNumbers.FractionDecimalExample` | MixBot/BLEEngine.swift:271 | `Float(".5")` is 0.5 |
| `SwiftNumbers.WordDecimalExample` | MixBot/BLEEngine.swift:271 | `Float("notanumber")` is `nil` |
| `SwiftNumbers.Round2` | MixBot/RemoteEngine.swift:113 | the value `%.2f` prints is within half a hundredth of the number |
| `SwiftNumbers.Format2` | MixBot/RemoteEngine.swift:113 | `%.2f` prints at least four characters, starting with a digit or a minus and ending in a digit |
| `SwiftNumbers.Format2Chars` | MixBot/RemoteEngine.swift:113 | `%.2f` prints only digits, a point and possibly a leading minus |
| `SwiftNumbers.Format2Parses` | MixBot/BLEEngine.swift:271 | `Float` reads the `%.2f` text of `x` back as `x` rounded to hundredths |
| `StepFrames.StepFrame` | MixBot/BLEEngine.swift:247-262 | an accepted step frame gives a 64-bit step and a non-empty payload free of `=` |
| `StepFrames.StepFrameOf` | MixBot/BLEEngine.swift:248-262 | every frame `<kind><step>=<payload>` is accepted with that step and payload, also with blanks around the step and extra `=` before, between and after the pieces |
| `StepFrames.StepFrameRendered` | MixBot/BLEEngine.swift:248-262 | the plain frame `<kind><step>=<payload>` gives that step and payload |
| `StepFrames.StepFrameWithoutStep` | MixBot/BLEEngine.swift:251-255 | a frame without a step number is rejected for having one piece |
| `StepFrames.CleanPayload` | MixBot/BLEEngine.swift:269-270 | a cleaned payload neither starts nor ends with `;` |
| `StepFrames.CleanTerminated` | MixBot/BLEEngine.swift:269-270 | cleaning a payload ending in `;` strips the `;` and nothing else when the payload has no blank or `;` at its ends |
| `StepFrames.WeightFrameRendered` | MixBot/BLEEngine.swift:268-271 | a frame with a `%.2f` amount gives its step, and its cleaned payload reads back as the rounded amount |
| `StepFrames.StatusSplit` | MixBot/BLEEngine.swift:300-308 | an accepted system frame starts with `$` and is leading `=`, a type free of `=`, one `=` and a non-empty value |
| `StepFrames.StatusSplitOf` | MixBot/BLEEngine.swift:300-308 | `$`, any `=`, a type, `=` and a non-empty value split into that type and the value verbatim |
| `StepFrames.StatusSplitOnePiece` | MixBot/BLEEngine.swift:304-308 | `$<type>` and `$<type>=` are rejected |
| `BLE.InterpretRobotStatus` | MixBot/BLEEngine.swift:245-297 | `nil` unless the frame splits into a step and a payload and starts with `W` or `S`; otherwise the step is the parsed one, a `W` frame has its parsed weight (0 if unreadable) and state `Unknown`, and an `S` frame has weight `-1` and the state its cleaned code names |
| `BLE.GetStatusMessage` | MixBot/BLEEngine.swift:299-314 | gives the type and the verbatim value exactly when the frame splits and its type is an integer |
| `BLE.InterpretWeightFrame` | MixBot/BLEEngine.swift:264-271 | `W<step>=<%.2f amount>;` gives that step, the rounded amount and state `Unknown` |
| `BLE.InterpretWholeWeight` | MixBot/BLEEngine.swift:264-271 | `W<step>=<digits>;` gives that step, the value of the digits as weight and state `Unknown` |
| `BLE.WholeWeightExample` | MixBot/BLEEngine.swift:264-271 | `W0=7;` gives step 0, weight 7 and `Unknown` |
| `BLE.InterpretUnreadableWeight` | MixBot/BLEEngine.swift:271 | a `W` frame whose weight does not read gives weight 0 |
| `BLE.UnreadableWeightExample` | MixBot/BLEEngine.swift:271 | `W0=x;` gives step 0, weight 0 and `Unknown` |
| `BLE.InterpretStateFrame` | MixBot/BLEEngine.swift:272-290 | `S<step>=<code>;` gives that step, weight `-1` and the state the code names |
| `BLE.InterpretOtherKind` | MixBot/BLEEngine.swift:291-293 | a frame of any other kind gives `nil`, even when the rest splits and parses |
| `BLE.GetStatusOf` | MixBot/BLEEngine.swift:299-314 | every `$<int>=<value>` gives that type and the value verbatim |
| `BLE.ProcessingExample` | MixBot/BLEEngine.swift:279-281 | `S0=P;` is step 0, weight `-1`, processing |
| `BLE.CompleteExample` | MixBot/BLEEngine.swift:282-285 | `S0=C;` is step 0, weight `-1`, complete |
| `BLE.FailedExample` | MixBot/BLEEngine.swift:286-290 | `S0=X;` is step 0, weight `-1`, failed |
| `BLE.DoubledSeparatorExample` | MixBot/BLEEngine.swift:251 | `S0==P` is still step 0, processing |
| `BLE.WeightExample` | MixBot/BLEEngine.swift:268-271 | `W2=15.50;` is step 2 with weight 15.5 |
| `BLE.MissingStepExample` | MixBot/BLEEngine.swift:252-255 | `S=P;` is rejected |
| `BLE.MissingValueExample` | MixBot/BLEEngine.swift:305-308 | `$0=` is rejected |
| `BLE.TextExample` | MixBot/BLEEngine.swift:299-314 | `$0=hello` is type 0 with value `hello` |
| `BLE.BluetoothEngine.constructor` | MixBot/BLEEngine.swift:21-27 | the published fields start empty, false and `nil`, and nothing has been sent |
| `BLE.BluetoothEngine.SendStringToPeripheral` | MixBot/BLEEngine.swift:233-241 | the frame is handed to the transport after every earlier one |
| `BLE.BluetoothEngine.DidUpdateStatusValue` | MixBot/BLEEngine.swift:166-174 | a step frame replaces `robotProcess` and nothing else; otherwise type 0 sets `robotStatus` to the value, type 1 sets `cupStatus` to whether the value is `1`, and every other frame changes nothing |
| `Progress.JobProgress.UpdateWith` | MixBot/Models/Status/JobProgress.swift:23-34 | requires the steps to match; keeps the step, always takes the state, takes the weight exactly when it is positive, so `-1` or `0` never overwrite it |
| `Progress.UpdateFrom` | MixBot/Models/Status/JobProgress.swift:40-87 | keeps the step; never lowers the weight and never replaces `-1`; leaves the record unchanged for malformed frames and other kinds; a `W` frame keeps the state and sets the weight to the payload's value (0 if unreadable) exactly when that is larger and the stored weight is not `-1`; an `S` frame keeps the weight and sets the state its code names |
| `Progress.MakeStatusFrom` | MixBot/Models/Status/JobProgress.swift:91-138 | same acceptance and results as `interpretRobotStatus`: the parsed step, the weight and `Unknown` for `W`, and `-1` and the named state for `S` |
| `Progress.MakeWeightFrame` | MixBot/Models/Status/JobProgress.swift:109-117 | `W<step>=<%.2f amount>;` gives that step, the rounded amount and `Unknown` |
| `Progress.MakeStateFrame` | MixBot/Models/Status/JobProgress.swift:118-131 | `S<step>=<code>;` gives that step, `-1` and the named state |
| `Progress.MergeStateFrame` | MixBot/Models/Status/JobProgress.swift:23-34 | merging a parsed state frame for the record's step keeps the weight and takes the state |
| `Progress.MergeWeightFrame` | MixBot/Models/Status/JobProgress.swift:23-34 | merging a parsed weight frame takes a positive weight and resets the state to `Unknown` |
| `Progress.UpdateFromWeightFrame` | MixBot/Models/Status/JobProgress.swift:60-68 | a weight frame, for any step, raises the weight to the rounded amount when that is larger and the stored weight is not `-1`, and otherwise changes nothing |
| `Progress.UpdateFromIgnoresStep` | MixBot/Models/Status/JobProgress.swift:40-87 | two frames that differ only in their step number have the same effect |
| `Progress.UpdateAllMonotone` | MixBot/Models/Status/JobProgress.swift:64-68 | after any stream of frames the step is the same, the weight has not decreased, and a `-1` weight is still `-1` |
| `Progress.UpdateAllAppend` | MixBot/Models/Status/JobProgress.swift:40-87 | applying two streams one after the other is applying their concatenation |
| `Progress.WeightNeverRegresses` | MixBot/Models/Status/JobProgress.swift:64-68 | the weight after a longer prefix of a stream is never below the weight after a shorter one |
| `DrinkJob.JobStatus.SetStatus` | MixBot/Models/DrinkJobStatus.swift:23-27 | all three fields are copied from the input |
| `DrinkJob.SetStatusForgets` | MixBot/Models/DrinkJobStatus.swift:23-27 | the result is the input whatever the record held, and setting twice is setting once |
| `DrinkJob.MakeStatusFrom` | MixBot/Models/DrinkJobStatus.swift:32-76 | `nil` unless the frame splits into a step and a payload and starts with `W` or `S`; the parsed step with the weight and `Unknown` for `W`, or with `-1` and the named state for `S` |
| `DrinkJob.MakeWeightFrame` | MixBot/Models/DrinkJobStatus.swift:50-55 | `W<step>=<%.2f amount>;` gives that step, the rounded amount and `Unknown` |
| `DrinkJob.MakeStateFrame` | MixBot/Models/DrinkJobStatus.swift:56-69 | `S<step>=<code>;` gives that step, `-1` and the named state |
| `Robot.AfterFrame` | MixBot/RemoteEngine.swift:24-52 | accepted exactly when the frame splits into a type and a value, and a refused frame changes nothing; a type that reads as the integer 0 sets the type to text and the text to the value, keeping the cup flag; one that reads as 1 sets the type to cup and the cup flag to whether the value is `1`, keeping the text; any other type, integer or not, leaves the initial status |
| `Robot.RobotStatus.constructor` | MixBot/Models/Status/RobotStatus.swift:17-19 | no cup flag, no text, type `Unknown` |
| `Robot.RobotStatus.SetFrom` | MixBot/Models/Status/RobotStatus.swift:21-49 | returns and leaves behind exactly what `AfterFrame` gives for the status before |
| `Robot.TypedFrame` | MixBot/Models/Status/RobotStatus.swift:32-48 | `$<int>=<value>` is accepted; type 0 stores the value verbatim, type 1 reports a cup exactly for `1`, and any other type clears the whole status |
| `Robot.UntypedFrame` | MixBot/Models/Status/RobotStatus.swift:32-48 | a type that is not an integer also clears the status, and the frame counts as accepted |
| `Robot.SpelledTypeFrame` | MixBot/Models/Status/RobotStatus.swift:26-48 | `$<type>=<value>` with an integer type is accepted; 0 stores the value as text, 1 sets the cup flag to whether the value is `1`, any other integer clears the status |
| `Robot.LeadingZeroTypeExample` | MixBot/Models/Status/RobotStatus.swift:32-38 | `$00=hi` stores the text `hi` |
| `Robot.PlusTypeExample` | MixBot/Models/Status/RobotStatus.swift:32-41 | `$+1=1` reports a cup |
| `Robot.ValuelessFrame` | MixBot/Models/Status/RobotStatus.swift:26-30 | `$<type>` and `$<type>=` are refused and change nothing |
| `Robot.CupFrames` | MixBot/Models/Status/RobotStatus.swift:39-41 | `$1=1` reports a cup and `$1=0` reports none |
| `Robot.TextSurvivesCupFrames` | MixBot/Models/Status/RobotStatus.swift:35-46 | a stream of refused frames and cup frames leaves the text as it was |
| `Serving.Recorded` | MixBot/Models/DrinkServeStatus.swift:19-25 | the ingredient's weight is overwritten; it becomes done when reported done and a report of not done never clears it; the total grows by the weight only when reported done; no other ingredient changes |
| `Serving.UpdatedAsWritten` | MixBot/Models/DrinkServeStatus.swift:19-30 | as written, the drink's `done` flag never changes |
| `Serving.Updated` | MixBot/Models/DrinkServeStatus.swift:26-28 | with the intended test, the drink becomes done exactly when its last ingredient is reported done |
| `Serving.DrinkServeStatus.constructor` | MixBot/Models/DrinkServeStatus.swift:11-17 | the fields are the arguments, `done` included (Swift's default for it is `false`) |
| `Serving.DrinkServeStatus.UpdateIngredientStatusIdx` | MixBot/Models/DrinkServeStatus.swift:19-30 | requires an index inside the table and leaves exactly the state `UpdatedAsWritten` describes |
| `Serving.DrinkServeStatus.UpdateIngredientStatusIdxCorrected` | MixBot/Models/DrinkServeStatus.swift:19-30 | the same update with the intended closing test, leaving the state `Updated` describes |
| `Serving.NeverClosesExample` | MixBot/Models/DrinkServeStatus.swift:26 | a one-ingredient drink whose ingredient is reported done stays not done as written, and is done as intended |
| `Serving.AsWrittenNeverDone` | MixBot/Models/DrinkServeStatus.swift:23-28 | as written, no sequence of reports marks a drink done, and the total grows by exactly the weights reported done, repeats included |
| `Serving.DoneIffLastReported` | MixBot/Models/DrinkServeStatus.swift:23-28 | as intended, a sequence of reports marks the drink done exactly when one of them reports the last ingredient done; the total grows by the weights reported done |
| `Remote.EmptyJobFrame` | MixBot/RemoteEngine.swift:106-120 | a drink without ingredients is sent as `D` |
| `Remote.JobFrameJoined` | MixBot/RemoteEngine.swift:106-120 | a drink with ingredients is sent as `D:` and its entries `<station>=<%.2f amount>` in order, separated by commas, with no comma at the end |
| `Remote.DecodeEntryText` | MixBot/RemoteEngine.swift:111-113 | one entry reads back as the station and the amount, the total times the percentage over 100, to the hundredth |
| `Remote.JobFrameCarriesPortions` | MixBot/RemoteEngine.swift:102-123 | the job frame reads back as every ingredient's station and amount, in order, and nothing else |
| `Remote.ValidMeetsMergePrecondition` | MixBot/RemoteEngine.swift:146 | while entry `i` of the table is step `i`, a frame whose step is inside the table meets the precondition of `update(with:)`, and the merge keeps the table valid and changes no other entry |
| `Remote.StrayFrameIndexesEmptyTable` | MixBot/RemoteEngine.swift:145-146 | `S0=P;` parses as an update for step 0, which lies outside a table that is still empty |
| `Remote.ConnectionMessage` | MixBot/RemoteEngine.swift:76-86 | the `isConnected` sink writes `Connected` exactly when connected, and `Not Connected` otherwise |
| `Remote.EmptyFrameIgnored` | MixBot/RemoteEngine.swift:88-92 | the empty frame, the first value the `rx` sink passes to `didReceivedMessage`, is neither a step frame nor a system frame and changes nothing |
| `Remote.RemoteEngine.constructor` | MixBot/RemoteEngine.swift:66-100 | an empty table, a fresh robot status and a disconnected Bluetooth engine, nothing sent, and the state message `Not Connected` that the `isConnected` sink writes when it receives the current value on subscription |
| `Remote.InitialTable` | MixBot/RemoteEngine.swift:104-116 | after `n` ingredients the table has `n` entries, entry `i` being step `i` with weight `0`, processing for the first and sent for the rest |
| `Remote.RemoteEngine.SendJobToRobot` | MixBot/RemoteEngine.swift:102-123 | the table becomes one entry per ingredient, entry `i` being step `i` with weight `0`, processing for the first and sent for the rest; exactly the job frame is sent |
| `Remote.RemoteEngine.BeginDispensing` | MixBot/RemoteEngine.swift:125-130 | the message is always `Requesting Drink...`; when connected the job is sent as above, and otherwise neither the table nor the outbox changes |
| `Remote.RemoteEngine.CancelServing` | MixBot/RemoteEngine.swift:132-137 | the message is always `Cancel Requested`; `C!` is sent exactly when connected, and the table is untouched |
| `Remote.RemoteEngine.DidReceivedMessage` | MixBot/RemoteEngine.swift:139-155 | `nil` changes nothing; a parsed step frame requires its step to be an in-range entry for that step, merges into that entry alone and leaves the robot status; any other frame leaves the table and applies `setFrom`; a valid table stays valid |
| `Remote.RemoteEngine.DidReceivedMessageChecked` | MixBot/RemoteEngine.swift:145-148 | with a bounds check, a valid table accepts every frame: step frames outside the table are dropped, and the table stays valid |
| `Agreement.WeightFramesAgree` | MixBot/Models/DrinkJobStatus.swift:50-55 | on a `W` frame that splits, all three step-frame parsers give the parsed step, the weight read from the cleaned payload (0 if unreadable) and `Unknown` |
| `Agreement.StateFramesAgree` | MixBot/Models/DrinkJobStatus.swift:56-69 | on an `S` frame that splits, all three give the parsed step, `-1` and the state the cleaned code names |
| `Agreement.OtherFramesAgree` | MixBot/Models/DrinkJobStatus.swift:32-76 | a frame that does not split, or of another kind, is refused by all three |
| `Agreement.StepParsersAgree` | MixBot/Models/DrinkJobStatus.swift:32-76 | the three step-frame parsers accept the same frames and give the same step, weight and state |
| `Agreement.SystemParsersAgree` | MixBot/BLEEngine.swift:299-314 | every frame `getStatusMessage` reads, `setFrom` accepts, with the same text for type 0 and the same cup flag for type 1 |
| `Agreement.SetFromAcceptsMore` | MixBot/Models/Status/RobotStatus.swift:32-48 | `$x=1` is refused by `getStatusMessage` but accepted by `setFrom`, which clears the status |

## Left out

- The CoreBluetooth lifecycle: the central manager, scanning, connecting, and service and characteristic discovery (`MixBot/BLEEngine.swift:38-148`, 195-229). `isConnected` is a plain field that this lifecycle would set.
- BLE.BluetoothEngine.SendStringToPeripheral: it always hands the frame over. The source silently drops it when no peripheral or characteristic is found, and that is CoreBluetooth state.
- BLE.BluetoothEngine.DidUpdateStatusValue: takes the decoded message as its argument. These parts of the delegate callback are I/O:
  - the error and missing-data returns;
  - UTF-8 decoding;
  - the choice of characteristic;
  - the control-characteristic branch.
- The later firings of the Combine subscriptions in `RemoteEngine.init` (`MixBot/RemoteEngine.swift:70-99`). Only their first, synchronous delivery on subscription is modelled:
  - the `isConnected` sink writes `Not Connected` (`Remote.ConnectionMessage`);
  - the `rx` sink passes the empty frame, which changes nothing (`Remote.EmptyFrameIgnored`);
  - the `txReady` sink's `ehlo` finds no peripheral and is dropped, so nothing is sent.
  The model has no publishers, so a later connection change does not rewrite `stateMessage`.
- `objectWillChange` forwarding (`MixBot/RemoteEngine.swift:70-74`) is SwiftUI notification only.
- `isReady` and `comStatus` are never changed by the modelled code. `rx` is never assigned anywhere.
- SwiftNumbers.ParseDecimal: reads only plain decimals with an optional sign. `Float(_)` also accepts exponents, `inf`, `nan` and hexadecimal forms, which the robot does not send.
- SwiftNumbers.Format2: rounds the exact real half to even. `%.2f` on a binary `Float` rounds its binary value. `Float` and `Double` precision is not modelled; amounts and weights are exact reals.
- Strings are sequences of Unicode scalars. Swift's `Character` is a grapheme cluster, so `dropFirst` on a frame starting with a combining sequence, or with `\r\n`, drops more than one scalar in Swift.
- `print` logging throughout.
- `simulateConnect`'s timed dispatch (`MixBot/BLEEngine.swift:101-106`).
- The `UUID` identities of `Drink`, `Ingredient` and friends. `Drink.totalQty` is a `UInt` and is modelled as an unbounded natural number.
- `MenuManager.swift` (download, cache, JSON decoding), the SwiftUI views and `MixBotApp.swift`. `ProcessView` reads `robotProcess` but is view glue.
- `fatalError` and out-of-range subscripts trap. They are modelled as preconditions, and the program state after a trap is not modelled.

## Findings

| source | as written | input that shows it | evidently intended | confidence | as-written member | corrected member |
|---|---|---|---|---|---|---|
| MixBot/Models/DrinkServeStatus.swift:26 | `idx-1 == ingredients.count` closes the drink; an index that passes `ingredients[idx]` is below the count, so the test never holds | a one-ingredient drink, `updateIngredientStatusIdx(idx: 0, weight: w, done: true)`: the ingredient is done, the drink is not | `idx + 1 == ingredients.count`: the drink is done when its last ingredient is | not executed; high that the test never passes, medium on the intended test | `Serving.AsWrittenNeverDone` | `Serving.DoneIffLastReported` |
| MixBot/RemoteEngine.swift:146 | `self.jobProgress[newUpdate.step]` indexes with the step number the robot sent, unchecked | `S0=P;` arriving before any job was sent (empty table) traps | frames for steps outside the current job are dropped | not executed; medium | `Remote.StrayFrameIndexesEmptyTable` | `Remote.RemoteEngine.DidReceivedMessageChecked` |
