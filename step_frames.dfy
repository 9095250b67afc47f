/** The two frame shapes the robot sends on its status characteristic, read
    the way every parser of the app reads them: step frames
    `<kind><step>=<payload>` and system frames `$<type>=<value>`. */
module StepFrames {
  import opened Wrappers
  import opened SwiftStrings
  import opened SwiftNumbers

  /** The front half that every step-frame parser repeats: drop the kind
      character, split the rest on `=` with empty pieces omitted, demand
      exactly two pieces, and read the whitespace-trimmed first piece as an
      `Int`. Gives the step and the second piece, untouched. */
  function StepFrame(input: string): (r: Option<(int, string)>)
    ensures r.Some? ==> InIntRange(r.value.0) && r.value.1 != [] && '=' !in r.value.1
  {
    var pieces := Split(DropFirst(input), '=');
    if |pieces| != 2 then None
    else
      match ParseInt(Trim(pieces[0], WhitespacesAndNewlines))
      case None => None
      case Some(step) => Some((step, pieces[1]))
  }

  /** A payload with its surrounding whitespace trimmed, and then every
      leading and every trailing `;`. */
  function CleanPayload(p: string): (r: string)
    ensures r != [] ==> r[0] != ';' && r[|r| - 1] != ';'
  {
    Trim(Trim(p, WhitespacesAndNewlines), CharactersIn({';'}))
  }

  /** The front half of `getStatusMessage` and `RobotStatus.setFrom`: the
      first character must be `$`, and the rest, split once at `=` with empty
      pieces omitted, must give exactly two pieces, the type text and the value. */
  function StatusSplit(input: string): (r: Option<(string, string)>)
    ensures r.Some? ==> StartsWith(input, '$')
    ensures r.Some? ==>
      var (t, v) := r.value;
      t != [] && '=' !in t && v != [] && |input| >= |t| + |v| + 2 &&
      input == "$" + Repeat('=', |input| - |t| - |v| - 2) + t + "=" + v
  {
    if !StartsWith(input, '$') then None
    else
      var pieces := SplitOnce(input[1..], '=');
      if |pieces| != 2 then None
      else
        var n := |input[1..]| - |pieces[0]| - 1 - |pieces[1]|;
        Prefixed(input, '$', Repeat('=', n), pieces[0], ['='], pieces[1]);
        Some((pieces[0], pieces[1]))
  }

  /** Whitespace runs. */
  predicate Blank(s: string) {
    forall i :: 0 <= i < |s| ==> IsWhitespace(s[i])
  }

  lemma ShowIsPiece(n: int)
    ensures '=' !in Show(n) && ',' !in Show(n)
    ensures !IsWhitespace(Show(n)[0]) && !IsWhitespace(Show(n)[|Show(n)| - 1])
  {
    var s := Show(n);
    ShowChars(n);
    assert forall i :: 0 <= i < |s| ==> s[i] != '=' && s[i] != ',';
  }

  /** Every step frame of the robot protocol, `<kind><step>=<payload>`, reads
      back as that step and payload, also with blanks around the step number
      and with extra `=` before, between and after the two pieces
      (`S0==P` is step 0 with payload `P`). */
  lemma {:induction false} StepFrameOf(kind: char, i: nat, lead: string, step: int, trail: string,
                                       j: nat, payload: string, k: nat)
    requires InIntRange(step) && Blank(lead) && Blank(trail) && j >= 1
    requires payload != [] && '=' !in payload
    ensures StepFrame([kind] + Repeat('=', i) + lead + Show(step) + trail + Repeat('=', j) + payload + Repeat('=', k))
         == Some((step, payload))
  {
    var piece := lead + Show(step) + trail;
    var rest := Repeat('=', i) + piece + Repeat('=', j) + payload + Repeat('=', k);
    FrameRegrouped([kind], Repeat('=', i), lead, Show(step), trail, Repeat('=', j), payload, Repeat('=', k));
    StepPiece(lead, step, trail);
    SplitTwo(i, piece, j, payload, k, '=');
    StepFrameFromPieces([kind] + rest, piece, payload, step);
  }

  lemma FrameRegrouped(h: string, a: string, b: string, c: string, d: string, e: string, f: string, g: string)
    ensures h + a + b + c + d + e + f + g == h + (a + (b + c + d) + e + f + g)
  {
  }

  lemma StepPiece(lead: string, step: int, trail: string)
    requires InIntRange(step) && Blank(lead) && Blank(trail)
    ensures lead + Show(step) + trail != [] && '=' !in lead + Show(step) + trail
    ensures ParseInt(Trim(lead + Show(step) + trail, WhitespacesAndNewlines)) == Some(step)
  {
    var piece := lead + Show(step) + trail;
    ShowIsPiece(step);
    assert !IsWhitespace('=');
    assert forall c :: 0 <= c < |piece| ==> piece[c] != '=';
    TrimOf(lead, Show(step), trail, WhitespacesAndNewlines);
    ParseShow(step);
  }

  lemma StepFrameFromPieces(input: string, a: string, b: string, step: int)
    requires Split(DropFirst(input), '=') == [a, b]
    requires ParseInt(Trim(a, WhitespacesAndNewlines)) == Some(step)
    ensures StepFrame(input) == Some((step, b))
  {
  }

  /** The plain form `<kind><step>=<payload>`. */
  lemma StepFrameRendered(kind: char, step: int, payload: string)
    requires InIntRange(step) && payload != [] && '=' !in payload
    ensures StepFrame([kind] + Show(step) + "=" + payload) == Some((step, payload))
  {
    var input := [kind] + Show(step) + "=" + payload;
    assert Repeat('=', 0) == [] && Repeat('=', 1) == ['='];
    NoPads(kind, Show(step), payload);
    StepFrameOf(kind, 0, [], step, [], 1, payload, 0);
  }

  /** A frame without a step number, `<kind>=<payload>`, has one piece and is rejected. */
  lemma StepFrameWithoutStep(kind: char, payload: string)
    requires payload != [] && '=' !in payload
    ensures StepFrame([kind] + "=" + payload) == None
  {
    var input := [kind] + "=" + payload;
    assert DropFirst(input) == Repeat('=', 1) + payload;
    SplitSkipsLeading(1, payload, '=');
    SplitTakesPiece(payload, [], '=');
    assert payload + [] == payload;
  }

  /** The `;` that ends a step frame is stripped, and nothing else. */
  lemma CleanTerminated(p: string)
    requires p != [] && !IsWhitespace(p[0]) && !IsWhitespace(p[|p| - 1])
    requires p[0] != ';' && p[|p| - 1] != ';'
    ensures CleanPayload(p + ";") == p
  {
    var semi := CharactersIn({';'});
    TrimmedOf(p + ";", WhitespacesAndNewlines);
    assert TrimLeft(p + ";", semi) == p + ";";
    assert (p + ";")[..|p|] == p;
    assert TrimRight(p, semi) == p;
    assert TrimRight(p + ";", semi) == p;
  }

  lemma FormatIsPiece(x: real)
    ensures '=' !in Format2(x) + ";"
    ensures !IsWhitespace(Format2(x)[0]) && !IsWhitespace(Format2(x)[|Format2(x)| - 1])
    ensures Format2(x)[0] != ';' && Format2(x)[|Format2(x)| - 1] != ';'
  {
    var f := Format2(x) + ";";
    Format2Chars(x);
    assert forall i :: 0 <= i < |f| ==> f[i] != '=';
  }

  /** A frame `<kind><step>=<amount>;` with the amount printed by `%.2f`
      splits into that step and the amount, and the cleaned amount reads
      back as the amount rounded to hundredths. */
  lemma WeightFrameRendered(kind: char, step: int, x: real)
    requires InIntRange(step)
    ensures StepFrame([kind] + Show(step) + "=" + Format2(x) + ";") == Some((step, Format2(x) + ";"))
    ensures ParseDecimal(CleanPayload(Format2(x) + ";")) == Some(Round2(x))
  {
    WeightFrameSplits(kind, step, x);
    WeightPayloadReads(x);
  }

  lemma WeightFrameSplits(kind: char, step: int, x: real)
    requires InIntRange(step)
    ensures StepFrame([kind] + Show(step) + "=" + Format2(x) + ";") == Some((step, Format2(x) + ";"))
  {
    var f := Format2(x);
    FormatIsPiece(x);
    assert [kind] + Show(step) + "=" + f + ";" == [kind] + Show(step) + "=" + (f + ";");
    StepFrameRendered(kind, step, f + ";");
  }

  lemma WeightPayloadReads(x: real)
    ensures ParseDecimal(CleanPayload(Format2(x) + ";")) == Some(Round2(x))
  {
    FormatIsPiece(x);
    CleanTerminated(Format2(x));
    Format2Parses(x);
  }

  /** Every system frame `$<type>=<value>` splits into its type text and its
      value, the value kept verbatim (later `=` included), also with extra
      `=` right after the `$`. */
  lemma StatusSplitOf(n: nat, t: string, v: string)
    requires t != [] && '=' !in t && v != []
    ensures StatusSplit("$" + Repeat('=', n) + t + "=" + v) == Some((t, v))
  {
    var input := "$" + Repeat('=', n) + t + "=" + v;
    var rest := Repeat('=', n) + t + ['='] + v;
    assert input == ['$'] + rest;
    assert StartsWith(input, '$');
    assert input[1..] == rest;
    SplitOnceOf(n, t, v, '=');
    assert SplitOnce(input[1..], '=') == [t, v];
  }

  /** `$<type>=` with an empty value, and `$=<type>` with no value at all,
      are rejected. */
  lemma StatusSplitOnePiece(n: nat, t: string, m: nat)
    requires t != [] && '=' !in t && m <= 1
    ensures StatusSplit("$" + Repeat('=', n) + t + Repeat('=', m)) == None
  {
    var input := "$" + Repeat('=', n) + t + Repeat('=', m);
    AfterFirst('$', Repeat('=', n), t, Repeat('=', m));
    SplitOnceSingle(n, t, m, '=');
  }

  /** What follows the first character of a three-part string. */
  lemma AfterFirst(c: char, a: string, b: string, d: string)
    ensures ([c] + a + b + d)[1..] == a + b + d
    ensures StartsWith([c] + a + b + d, c)
  {
  }

  /** A string given by its first character and the four parts of the rest. */
  lemma Prefixed(s: string, c: char, a: string, b: string, d: string, e: string)
    requires s != [] && s[0] == c && s[1..] == a + b + d + e
    ensures s == [c] + a + b + d + e
  {
    assert s == [s[0]] + s[1..];
  }

  /** `<kind><step>=<payload>` with no blanks and no extra `=`. */
  lemma NoPads(c: char, a: string, p: string)
    ensures [c] + a + "=" + p == [c] + [] + [] + a + [] + ['='] + p + []
  {
  }
}
