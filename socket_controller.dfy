/** The earlier, socket-based controller (Backup/Server.cs). The headset
    application connects over a socket and sends `<verb>,<argument>`
    messages; the buttons answer with one-word messages. Before every send
    the connection list is cleaned of closed connections by swap-back
    removal (the source cleans it before every receive as well, in the
    event pump of ListenForNetworkData, which this model leaves out). */
module SocketController {
  import opened Text

  // ---------------------------------------------------------------- connections

  /** A NetworkConnection; only whether it IsCreated matters here. */
  datatype Connection = Connection(id: nat, isCreated: bool)

  /** `RemoveAtSwapBack(i)`: the last element moves into slot `i` and the
      list loses its last slot. */
  function RemoveAtSwapBack(c: seq<Connection>, i: nat): (r: seq<Connection>)
    requires i < |c|
    ensures |r| == |c| - 1
    ensures r[..i] == c[..i]
    ensures i < |r| ==> r[i] == c[|c| - 1] && r[i + 1..] == c[i + 1..|c| - 1]
  {
    c[i := c[|c| - 1]][..|c| - 1]
  }

  /** The cleanup loop of SetNetworkForData from index `i` on: a closed
      connection is swapped out, and `--i` makes the loop look at slot `i`
      again, now holding what was the last connection. */
  function CleanUpFrom(c: seq<Connection>, i: nat): seq<Connection>
    requires i <= |c|
    decreases |c| - i
  {
    if i == |c| then c
    else if !c[i].isCreated then CleanUpFrom(RemoveAtSwapBack(c, i), i)
    else CleanUpFrom(c, i + 1)
  }

  function CleanUp(c: seq<Connection>): seq<Connection> {
    CleanUpFrom(c, 0)
  }

  /** The reference: the created connections in their original order. */
  function Created(c: seq<Connection>): seq<Connection> {
    if |c| == 0 then [] else (if c[0].isCreated then [c[0]] else []) + Created(c[1..])
  }

  predicate AllCreated(c: seq<Connection>) {
    forall j :: 0 <= j < |c| ==> c[j].isCreated
  }

  lemma {:induction false} CreatedAppend(a: seq<Connection>, b: seq<Connection>)
    ensures Created(a + b) == Created(a) + Created(b)
    decreases |a|
  {
    if |a| == 0 {
      assert a + b == b;
    } else {
      var head := if a[0].isCreated then [a[0]] else [];
      assert (a + b)[0] == a[0] && (a + b)[1..] == a[1..] + b;
      assert Created(a + b) == head + Created(a[1..] + b);
      CreatedAppend(a[1..], b);
      assert Created(a) + Created(b) == head + (Created(a[1..]) + Created(b));
    }
  }

  lemma {:induction false} CreatedOfCreated(c: seq<Connection>)
    requires AllCreated(c)
    ensures Created(c) == c
    decreases |c|
  {
    if |c| > 0 {
      CreatedOfCreated(c[1..]);
      assert [c[0]] + c[1..] == c;
    }
  }

  /** Swapping a closed connection out of slot `i` leaves the created
      connections from `i` on the same, up to order. */
  lemma SwapOutClosed(c: seq<Connection>, i: nat)
    requires i < |c| && !c[i].isCreated
    ensures multiset(Created(RemoveAtSwapBack(c, i)[i..])) == multiset(Created(c[i..]))
  {
    var r := RemoveAtSwapBack(c, i);
    if i < |r| {
      var mid := c[i + 1..|c| - 1];
      var last := c[|c| - 1];
      assert c[i..] == [c[i]] + mid + [last];
      assert r[i..] == [last] + mid;
      CreatedAppend([c[i]] + mid, [last]);
      CreatedAppend([c[i]], mid);
      CreatedAppend([last], mid);
      assert Created([c[i]]) == [];
    } else {
      assert c[i..] == [c[i]];
      assert Created([c[i]]) == [];
      assert r[i..] == [];
    }
  }

  /** Passing over a created connection moves it from the rest to the
      examined prefix. */
  lemma PassCreated(c: seq<Connection>, i: nat)
    requires i < |c| && c[i].isCreated
    ensures multiset(c[..i + 1]) + multiset(Created(c[i + 1..])) == multiset(c[..i]) + multiset(Created(c[i..]))
  {
    assert c[..i + 1] == c[..i] + [c[i]];
    assert c[i..] == [c[i]] + c[i + 1..];
    CreatedAppend([c[i]], c[i + 1..]);
  }

  /** What the loop keeps: the examined prefix is all created, and the
      multiset of the list is that prefix plus the created connections of
      the rest. */
  lemma {:induction false} CleanUpFromSpec(c: seq<Connection>, i: nat)
    requires i <= |c| && AllCreated(c[..i])
    ensures AllCreated(CleanUpFrom(c, i))
    ensures multiset(CleanUpFrom(c, i)) == multiset(c[..i]) + multiset(Created(c[i..]))
    decreases |c| - i
  {
    if i == |c| {
      assert c[..i] == c;
      assert c[i..] == [];
    } else if !c[i].isCreated {
      CleanUpFromSpec(RemoveAtSwapBack(c, i), i);
      SwapOutClosed(c, i);
    } else {
      assert c[..i + 1] == c[..i] + [c[i]];
      CleanUpFromSpec(c, i + 1);
      PassCreated(c, i);
    }
  }

  /** After the cleanup loop no closed connection is left, and the created
      ones are all still there, each as often as before. */
  lemma CleanUpKeepsCreated(c: seq<Connection>)
    ensures AllCreated(CleanUp(c))
    ensures multiset(CleanUp(c)) == multiset(Created(c))
  {
    CleanUpFromSpec(c, 0);
    assert c[..0] == [] && c[0..] == c;
  }

  lemma {:induction false} CleanUpFromCreated(c: seq<Connection>, i: nat)
    requires i <= |c| && AllCreated(c)
    ensures CleanUpFrom(c, i) == c
    decreases |c| - i
  {
    if i < |c| {
      CleanUpFromCreated(c, i + 1);
    }
  }

  /** A list of created connections is left as it is; so a second cleanup
      changes nothing. */
  lemma CleanUpIdempotent(c: seq<Connection>)
    ensures AllCreated(c) ==> CleanUp(c) == c
    ensures CleanUp(CleanUp(c)) == CleanUp(c)
  {
    CleanUpKeepsCreated(c);
    CleanUpFromCreated(CleanUp(c), 0);
    if AllCreated(c) {
      CleanUpFromCreated(c, 0);
    }
  }

  /** Swap-back removal does not keep the order: the first connection
      closed, the last takes its place. */
  lemma CleanUpReorders()
    ensures var c := [Connection(0, false), Connection(1, true), Connection(2, true)];
      CleanUp(c) == [Connection(2, true), Connection(1, true)] && Created(c) == [Connection(1, true), Connection(2, true)]
  {
    var c := [Connection(0, false), Connection(1, true), Connection(2, true)];
    var r := RemoveAtSwapBack(c, 0);
    assert r == [Connection(2, true), Connection(1, true)];
    assert CleanUpFrom(r, 2) == r;
    assert CleanUpFrom(r, 1) == r;
    assert CleanUpFrom(r, 0) == r;
    assert Created(c[1..]) == [Connection(1, true)] + Created(c[2..]);
  }

  // ---------------------------------------------------------------- messages

  /** What ProcessNetworkMessage does with a message from the client. */
  datatype ClientMessage =
    | ArgumentMissing             // the verb reads elements[1] and there is none: IndexOutOfRangeException
    | ScenarioNumber(text: string)
    | VoiceOverStatus(text: string)
    | StepNumber(text: string)
    | LarsLine(text: string)
    | ReactionPanel(show: bool)   // show the reactions panel, or hide it
    | NewScenario                 // `end,new`: clear scenario, step and Lars texts
    | EndOfSession                // any other `end`: the end-of-session text
    | Alive                       // the client's keep-alive
    | Unknown                     // any other verb: nothing happens

  /** The verbs whose case reads the argument. */
  const ArgumentVerbs: set<string> := {"scenario", "voiceover", "step", "lars", "reaction", "end"}

  /** The switch on the first comma field. */
  function Dispatch(e: seq<string>): ClientMessage
    requires |e| >= 1
  {
    var verb := e[0];
    if verb in ArgumentVerbs && |e| < 2 then ArgumentMissing
    else if verb == "scenario" then ScenarioNumber(e[1])
    else if verb == "voiceover" then VoiceOverStatus(e[1])
    else if verb == "step" then StepNumber(e[1])
    else if verb == "lars" then LarsLine(e[1])
    else if verb == "reaction" then ReactionPanel(e[1] == "true")
    else if verb == "end" then (if e[1] == "new" then NewScenario else EndOfSession)
    else if verb == "alive" then Alive
    else Unknown
  }

  function Decode(msg: string): ClientMessage {
    Dispatch(Split(msg, ','))
  }

  /** The fields of the canonical message for each reaction. */
  function EncodedFields(m: ClientMessage): seq<string> {
    match m
    case ArgumentMissing => ["end"]
    case ScenarioNumber(t) => ["scenario", t]
    case VoiceOverStatus(t) => ["voiceover", t]
    case StepNumber(t) => ["step", t]
    case LarsLine(t) => ["lars", t]
    case ReactionPanel(show) => ["reaction", if show then "true" else "false"]
    case NewScenario => ["end", "new"]
    case EndOfSession => ["end", "end"]
    case Alive => ["alive"]
    case Unknown => ["intro"]
  }

  function Encode(m: ClientMessage): string {
    Join(EncodedFields(m), ',')
  }

  predicate CommaFree(m: ClientMessage) {
    match m
    case ScenarioNumber(t) => ',' !in t
    case VoiceOverStatus(t) => ',' !in t
    case StepNumber(t) => ',' !in t
    case LarsLine(t) => ',' !in t
    case _ => true
  }

  lemma KeywordsCommaFree()
    ensures ',' !in "scenario" && ',' !in "voiceover" && ',' !in "step" && ',' !in "lars"
    ensures ',' !in "reaction" && ',' !in "true" && ',' !in "false" && ',' !in "end"
    ensures ',' !in "new" && ',' !in "alive" && ',' !in "intro"
  {
  }

  lemma DispatchEncoded(m: ClientMessage)
    ensures Dispatch(EncodedFields(m)) == m
  {
  }

  /** Every reaction is reached by its canonical message: decoding inverts
      encoding whenever the carried text holds no comma. */
  lemma DecodeEncode(m: ClientMessage)
    requires CommaFree(m)
    ensures Decode(Encode(m)) == m
  {
    KeywordsCommaFree();
    SplitJoin(EncodedFields(m), ',');
    DispatchEncoded(m);
  }

  /** `<verb>,<argument>` with a comma-free verb splits into the verb
      followed by the pieces of the argument. */
  lemma DecodeVerb(verb: string, arg: string, msg: string)
    requires ',' !in verb && msg == verb + [','] + arg
    ensures Decode(msg) == Dispatch([verb] + Split(arg, ','))
  {
    SplitAfter(verb, ',', arg);
  }

  /** A verb that reads its argument throws when the message has no comma
      at all, and `alive` and unknown verbs read nothing. */
  lemma VerbAlone(verb: string)
    requires ',' !in verb
    ensures Decode(verb) == if verb in ArgumentVerbs then ArgumentMissing
                            else if verb == "alive" then Alive else Unknown
  {
    SplitFree(verb, ',');
  }

  // ---------------------------------------------------------------- state

  /** The on-screen objects the controller shows, hides or writes. */
  datatype Screen = Screen(
    startButton: bool,
    quitButton: bool,
    infoPanel: bool,
    reactionsPanel: bool,
    networkTextShown: bool,
    networkText: string,
    scenarioText: string,
    stepText: string,
    voiceOverText: string,
    larsText: string)

  /** The controller's state; `sent` is every message SendNetworkData
      handed to the open connections, `log` the lines of the decision log. */
  datatype Console = Console(
    connections: seq<Connection>,
    lastAliveReceived: int,
    checkClientConnection: bool,
    ppn: int,
    ppnFile: Option<string>,
    port: int,
    scenario: string,
    stap: string,
    decision: string,
    logOpen: bool,
    log: seq<string>,
    sent: seq<string>,
    screen: Screen,
    quit: bool)

  /** The field initialisers; the strings start out null, which
      concatenation reads as empty. */
  function Initial(screen: Screen): (s: Console)
    ensures s.connections == [] && s.ppn == 0 && s.port == 9000
    ensures s.log == [] && s.sent == [] && !s.logOpen && !s.quit
  {
    Console([], 0, false, 0, None, 9000, "", "", "", false, [], [], screen, false)
  }

  // ---------------------------------------------------------------- receiving

  /** ProcessNetworkMessage for a decoded message. */
  function Receive(s: Console, m: ClientMessage, now: int): Console {
    match m
    case ArgumentMissing => s
    case ScenarioNumber(t) => s.(screen := s.screen.(scenarioText := "Scenario: " + t), scenario := t)
    case VoiceOverStatus(t) => s.(screen := s.screen.(voiceOverText := "VoiceOver: " + t))
    case StepNumber(t) => s.(screen := s.screen.(stepText := "Stap: " + t), stap := t)
    case LarsLine(t) => s.(screen := s.screen.(larsText := t))
    case ReactionPanel(show) => s.(screen := s.screen.(reactionsPanel := show))
    case NewScenario => s.(screen := s.screen.(scenarioText := NoScenario, stepText := NoStep, larsText := ""))
    case EndOfSession =>
      s.(screen := s.screen.(infoPanel := false, networkText := SessionEnded, networkTextShown := true))
    case Alive => s.(lastAliveReceived := now)
    case Unknown => s
  }

  /** Receiving a message never sends, logs, touches the connections or
      the settings, or changes the decision. */
  lemma ReceiveFrame(s: Console, m: ClientMessage, now: int)
    ensures var t := Receive(s, m, now);
      t.connections == s.connections && t.sent == s.sent && t.log == s.log && t.logOpen == s.logOpen
      && t.ppn == s.ppn && t.ppnFile == s.ppnFile && t.port == s.port && t.decision == s.decision
      && t.quit == s.quit && t.checkClientConnection == s.checkClientConnection
  {
    match m
    case Alive =>
    case _ => assert Receive(s, m, now).(screen := s.screen, scenario := s.scenario, stap := s.stap) == s;
  }

  /** Only `scenario` and `step` change what the log records as scenario
      and step, and only `alive` refreshes the keep-alive time. */
  lemma ReceiveStores(s: Console, m: ClientMessage, now: int)
    ensures Receive(s, m, now).scenario == if m.ScenarioNumber? then m.text else s.scenario
    ensures Receive(s, m, now).stap == if m.StepNumber? then m.text else s.stap
    ensures Receive(s, m, now).lastAliveReceived == if m.Alive? then now else s.lastAliveReceived
  {
  }

  /** `scenario,<n>` stores the argument (up to a further comma) and shows
      it; the step is kept. */
  lemma ScenarioStored(s: Console, arg: string, now: int)
    ensures var t := Receive(s, Decode("scenario," + arg), now);
      t.scenario == Split(arg, ',')[0] && t.screen.scenarioText == "Scenario: " + t.scenario && t.stap == s.stap
  {
    var pieces := Split(arg, ',');
    DecodeVerb("scenario", arg, "scenario," + arg);
    var e := ["scenario"] + pieces;
    assert e[0] == "scenario" && e[1] == pieces[0];
  }

  /** `step,<n>` stores the argument (up to a further comma) and shows it;
      the scenario is kept. */
  lemma StepStored(s: Console, arg: string, now: int)
    ensures var t := Receive(s, Decode("step," + arg), now);
      t.stap == Split(arg, ',')[0] && t.screen.stepText == "Stap: " + t.stap && t.scenario == s.scenario
  {
    var pieces := Split(arg, ',');
    DecodeVerb("step", arg, "step," + arg);
    var e := ["step"] + pieces;
    assert e[0] == "step" && e[1] == pieces[0];
  }

  /** `reaction,<x>` shows the reactions panel exactly when `x` is `true`,
      and changes nothing else. */
  lemma ReactionToggles(s: Console, arg: string, now: int)
    requires ',' !in arg
    ensures var t := Receive(s, Decode("reaction," + arg), now);
      (t.screen.reactionsPanel <==> arg == "true") && t == s.(screen := s.screen.(reactionsPanel := arg == "true"))
  {
    DecodeVerb("reaction", arg, "reaction," + arg);
    SplitFree(arg, ',');
    assert ["reaction"] + [arg] == ["reaction", arg];
  }

  /** `end,new` clears the scenario, step and Lars texts; any other `end`
      hides the info panel and shows the end of the session. */
  lemma EndMessage(s: Console, arg: string, now: int)
    requires ',' !in arg
    ensures var t := Receive(s, Decode("end," + arg), now);
      (arg == "new" ==> t == s.(screen := s.screen.(scenarioText := NoScenario, stepText := NoStep, larsText := "")))
      && (arg != "new" ==>
            t == s.(screen := s.screen.(infoPanel := false, networkText := SessionEnded, networkTextShown := true)))
  {
    DecodeVerb("end", arg, "end," + arg);
    SplitFree(arg, ',');
    assert ["end"] + [arg] == ["end", arg];
  }

  /** `alive` only refreshes the keep-alive time, whatever follows it; a
      verb outside the switch changes nothing. */
  lemma AliveAndUnknown(s: Console, msg: string, now: int)
    ensures Split(msg, ',')[0] == "alive" ==> Receive(s, Decode(msg), now) == s.(lastAliveReceived := now)
    ensures Split(msg, ',')[0] !in ArgumentVerbs && Split(msg, ',')[0] != "alive" ==>
      Receive(s, Decode(msg), now) == s
  {
  }

  // ---------------------------------------------------------------- sending and buttons

  /** SendNetworkData: the connection list is cleaned, then the message
      goes to every open connection. */
  function Send(s: Console, message: string): Console {
    s.(connections := CleanUp(s.connections), sent := s.sent + [message])
  }

  /** WriteLogLine; without a log file (GetSettings threw in Awake) the
      write throws and nothing is written. */
  function WriteLog(s: Console, now: nat): Console {
    if s.logOpen then s.(log := s.log + [LogLine(now, s.ppn, s.scenario, s.stap, s.decision)]) else s
  }

  const IntroPlaying: string := "VoiceOver: Introtekst speelt."

  /** The message and the decision of a reaction button; None for every
      other name. */
  function ReactionOf(name: string): Option<(string, string)> {
    if name == "btnPositive" then Some(("positive", "wel"))
    else if name == "btnNegative" then Some(("negative", "niet"))
    else if name == "btnGeneric1" then Some(("generic1", "Alg1"))
    else if name == "btnGeneric2" then Some(("generic2", "Alg2"))
    else if name == "btnGeneric3" then Some(("generic3", "Alg3"))
    else if name == "btnGeneric4" then Some(("generic4", "Alg4"))
    else if name == "btnGeneric5" then Some(("generic5", "Alg5"))
    else if name == "btnGeneric6" then Some(("generic6", "Alg6"))
    else None
  }

  /** ProcessButtons for the button called `name`. */
  function Press(s: Console, name: string, now: nat): Console {
    if name == "btnStart" then
      var t := Send(s, "start");
      t.(screen := t.screen.(startButton := false, networkTextShown := false, infoPanel := true,
                             voiceOverText := IntroPlaying),
         checkClientConnection := true, lastAliveReceived := now)
    else if name == "btnQuit" then s.(quit := true)
    else WriteLog(Reacted(s, name), now)
  }

  /** A reaction button sends its message, hides the reactions panel and
      records its decision; any other name does nothing before the log. */
  function Reacted(s: Console, name: string): Console {
    var r := ReactionOf(name);
    if r.None? then s
    else Send(s, r.value.0).(screen := s.screen.(reactionsPanel := false), decision := r.value.1)
  }

  /** A reaction button's logged decision names the button, and holds no
      comma, so the log line keeps it whole. */
  lemma ReactionNamesButton(name: string)
    requires ReactionOf(name).Some?
    ensures DecisionButton(ReactionOf(name).value.1) == name && ',' !in ReactionOf(name).value.1
  {
  }

  /** Different reaction buttons log different decisions. */
  lemma ReactionsDistinct(a: string, b: string)
    requires ReactionOf(a).Some? && ReactionOf(b).Some? && a != b
    ensures ReactionOf(a).value.1 != ReactionOf(b).value.1
  {
    ReactionNamesButton(a);
    ReactionNamesButton(b);
  }

  /** Every button but Start and Quit writes one log line, unrecognised
      names included; the earlier lines stay. */
  lemma PressLogs(s: Console, name: string, now: nat)
    requires s.logOpen
    ensures var t := Press(s, name, now);
      |t.log| == |s.log| + (if name == "btnStart" || name == "btnQuit" then 0 else 1)
      && t.log[..|s.log|] == s.log
  {
  }

  /** Start sends `start`, a reaction button its message, every other
      button nothing. */
  lemma PressSends(s: Console, name: string, now: nat)
    ensures Press(s, name, now).sent == s.sent
      + (if name == "btnStart" then ["start"]
         else if ReactionOf(name).Some? then [ReactionOf(name).value.0] else [])
  {
  }

  /** A reaction's log line records, field by field, the time, the
      participant, the current scenario and step, and the decision that
      names the button. */
  lemma ReactionLogged(s: Console, name: string, now: nat)
    requires ReactionOf(name).Some? && s.logOpen && ',' !in s.scenario && ',' !in s.stap
    ensures var t := Press(s, name, now);
      var f := Split(t.log[|t.log| - 1], ',');
      |t.log| == |s.log| + 1 && |f| == 5
      && f[0] == FormatClock(now) && f[1] == FormatInt(s.ppn) && f[2] == s.scenario && f[3] == s.stap
      && DecisionButton(f[4]) == name && !t.screen.reactionsPanel
  {
    var r := ReactionOf(name).value;
    ReactionNamesButton(name);
    LogLineFields(now, s.ppn, s.scenario, s.stap, r.1);
  }

  // ---------------------------------------------------------------- settings

  /** GetSettings: the participant number from the ppn file, plus one,
      written back; then the port from the port file, cast to `ushort`.
      The flag is whether an exception ended it. */
  function Settings(s: Console, ppnLines: seq<string>, portLines: seq<string>): (Console, bool) {
    var read := ReadInt32Line(ppnLines);
    if read.None? then (s, true)
    else
      var ppn := Wrap32(read.value + 1);
      var t := s.(ppn := ppn, ppnFile := Some(FormatInt(ppn)));
      var port := ReadInt32Line(portLines);
      if port.None? then (t, true) else (t.(port := ToUshort(port.value)), false)
  }

  /** The participant number goes up by exactly one, wrapping at the top
      of the Int32 range, and is written back; an unreadable ppn file
      changes nothing. GetSettings throws exactly when one of the two files
      does not hold an Int32. */
  lemma SettingsPpn(s: Console, ppnLines: seq<string>, portLines: seq<string>)
    ensures var (t, thrown) := Settings(s, ppnLines, portLines);
      var n := ReadInt32Line(ppnLines);
      (thrown <==> n.None? || ReadInt32Line(portLines).None?)
      && (n.None? ==> t == s)
      && (n.Some? ==>
            t.ppn == (if n.value == MaxInt32 then MinInt32 else n.value + 1)
            && t.ppnFile == Some(FormatInt(t.ppn)))
      && t.log == s.log && t.connections == s.connections && t.screen == s.screen
  {
    var n := ReadInt32Line(ppnLines);
    if n.Some? {
      Increment(n.value);
    }
  }

  /** The port is the file's number modulo 2^16, and equal to it when it
      fits; when the port file throws the port is left as it was. */
  lemma SettingsPort(s: Console, ppnLines: seq<string>, portLines: seq<string>)
    requires ReadInt32Line(ppnLines).Some?
    ensures var t := Settings(s, ppnLines, portLines).0;
      var p := ReadInt32Line(portLines);
      (p.Some? ==> 0 <= t.port < 0x1_0000 && (0 <= p.value < 0x1_0000 ==> t.port == p.value))
      && (p.None? ==> t.port == s.port)
  {
    var p := ReadInt32Line(portLines);
    if p.Some? {
      UshortKeeps(p.value, 0);
    }
  }

  /** The number written back is what the next run reads: consecutive
      runs get consecutive participant numbers. */
  lemma ConsecutiveRuns(s: Console, ppnLines: seq<string>, portLines: seq<string>,
                        s': Console, portLines': seq<string>)
    requires ReadInt32Line(ppnLines).Some?
    ensures var t := Settings(s, ppnLines, portLines).0;
      t.ppnFile.Some?
      && var t' := Settings(s', [t.ppnFile.value], portLines').0;
      t'.ppn == (if t.ppn == MaxInt32 then MinInt32 else t.ppn + 1)
  {
    SettingsPpn(s, ppnLines, portLines);
    var t := Settings(s, ppnLines, portLines).0;
    ParseFormat(t.ppn);
    assert ReadInt32Line([FormatInt(t.ppn)]) == Some(t.ppn);
    SettingsPpn(s', [t.ppnFile.value], portLines');
  }

  /** Awake: the settings, then the decision log, which an exception from
      the settings leaves unopened. */
  function Awaken(s: Console, ppnLines: seq<string>, portLines: seq<string>): Console {
    var (t, thrown) := Settings(s, ppnLines, portLines);
    if thrown then t else t.(logOpen := true)
  }

  /** Start: the Start and Quit buttons and both panels are hidden. */
  function Started(s: Console): Console {
    s.(screen := s.screen.(startButton := false, quitButton := false, infoPanel := false, reactionsPanel := false))
  }
}
