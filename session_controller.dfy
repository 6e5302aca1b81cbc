/** The poll-driven session controller (Assets/Scripts/Server.cs): the
    experimenter's desktop application that drives one headset session
    through the web relay. After each request it waits for the reply
    under a latch (`waitingForServer`, `serverReply`), polls the relay for
    client messages every two seconds while idle, reacts to the replies on
    screen, logs the operator's reaction buttons and reads its settings at
    start-up. The buttons send without looking at the latch, so a press
    during an outstanding poll puts a second request in flight, and the
    reply that comes back last can be dropped (EndLostAfterPress).

    The static holder `Common` contributes the participant number and the
    settings values (the `Config` record) and the abort flag and message.
    The on-screen objects are one `Ui` value. Requests are the commands
    handed to the relay, in order (`outbox`); the HTTP transfer itself is
    outside the model and its outcome comes back through `Receive`. Times
    are DateTime values in 100-nanosecond ticks. */
module SessionController {
  import opened Text
  import opened RelayReply
  import opened SessionSettings

  /** What the screen shows. */
  datatype Ui = Ui(
    errorPanel: bool, errorText: string,
    pausePanel: bool, startButton: bool, quitButton: bool,
    infoPanel: bool, reactionsPanel: bool,
    networkText: string, networkTextShown: bool,
    connected: bool,            // the connection dot is green
    scenarioText: string, stepText: string, voiceOverText: string, larsText: string)

  /** A snapshot of the controller and of `Common`. */
  datatype Session = Session(
    config: Config,
    pollingPauseStart: int,
    waitingForServer: bool,
    serverReply: string,
    die: bool,
    scenario: string, stap: string, decision: string,
    abort: bool, abortMsg: string,
    logOpen: bool,              // Start created the decision log
    log: seq<string>,
    outbox: seq<string>,
    ui: Ui,
    quit: bool)                 // Application.Quit was requested

  /** The state before Start: the field initialisers and `Common`'s
      defaults; the C# strings `scenario`, `stap` and `decision` start
      null, which concatenates as "". */
  function Initial(ui: Ui): (s: Session)
    ensures !s.waitingForServer && s.serverReply == "" && !s.abort && !s.die
    ensures s.outbox == [] && s.log == [] && !s.logOpen
  {
    Session(InitialConfig, 0, false, "", false, "", "", "", false, "", false, [], [], ui, false)
  }

  /** The controller's own `pollingInterval` of 2.0 seconds. The polling
      interval read from the settings goes to the relay with INIT and is
      not what Update compares against. */
  const PollingIntervalTicks: int := 2 * TicksPerSecond

  /** The outcome of one HTTP request. */
  datatype HttpResult = Delivered(text: string) | NetworkError

  /** The buttons ProcessButtons tells apart by name. */
  datatype Button =
    | StartButton
    | EndPause
    | Reaction(command: string, decision: string)   // sends `command`, logs `decision`
    | QuitButton                                    // btnQuit, btnStop, btnAbort
    | Other

  /** The case labels of ProcessButtons. */
  function ButtonOf(name: string): Button {
    if name == "btnStart" then StartButton
    else if name == "btnEndPause" then EndPause
    else if name == "btnPositive" then Reaction(",CMD,POS", "wel")
    else if name == "btnNegative" then Reaction(",CMD,NEG", "niet")
    else if name == "btnGeneric1" then Reaction(",CMD,GEN,1", "Alg1")
    else if name == "btnGeneric2" then Reaction(",CMD,GEN,2", "Alg2")
    else if name == "btnGeneric3" then Reaction(",CMD,GEN,3", "Alg3")
    else if name == "btnGeneric4" then Reaction(",CMD,GEN,4", "Alg4")
    else if name == "btnGeneric5" then Reaction(",CMD,GEN,5", "Alg5")
    else if name == "btnGeneric6" then Reaction(",CMD,GEN,6", "Alg6")
    else if name == "btnQuit" || name == "btnStop" || name == "btnAbort" then QuitButton
    else Other
  }

  // ------------------------------------------------------- specification

  /** PrepServerResponse: start waiting for a fresh reply. */
  function Prep(s: Session): Session {
    s.(waitingForServer := true, serverReply := "")
  }

  /** SendToServer: the request `<serverNumber><command>` goes out. */
  function Send(s: Session, command: string): Session {
    s.(outbox := s.outbox + [FormatInt(s.config.serverNumber) + command])
  }

  /** Hide the info panel, show `text` and the Quit button. */
  function EndScreen(s: Session, text: string): Session {
    s.(ui := s.ui.(infoPanel := false, networkText := text, networkTextShown := true, quitButton := true))
  }

  /** AbortApp: show the abort message on the error panel. */
  function ShowAbort(s: Session): Session {
    s.(ui := s.ui.(errorText := s.abortMsg, errorPanel := true))
  }

  /** The texts the controller shows. */
  const WebserverFailed: string := "Fout bij de webserver. Einde sessie."
  const QuestFailed: string := "Fout bij de applicatie in de Quest. Einde sessie."
  const UserConnected: string := "Gebruiker verbonden. Klik <Start> om te beginnen."
  const NetworkTimedOut: string := "Time out in netwerkverbinding. Einde sessie."

  /** What ProcessNetworkMessage does for a reply it can read. */
  function React(s: Session, r: Reply, now: int): Session
    requires r != Malformed
  {
    match r
    case WebserverError => EndScreen(s, WebserverFailed)
    case QuitApplication => s.(quit := true)
    case ResetTimer => s.(pollingPauseStart := now)
    case ClientAbort => EndScreen(s, QuestFailed)
    case ClientReady =>
      s.(ui := s.ui.(connected := true,
                     networkText := UserConnected,
                     startButton := true))
    case ClientPause => s.(ui := s.ui.(pausePanel := true))
    case ClientRespond => s.(ui := s.ui.(reactionsPanel := true))
    case ClientNew => s.(ui := s.ui.(scenarioText := NoScenario, stepText := NoStep, larsText := ""))
    case ClientEnd => Send(Prep(EndScreen(s, SessionEnded)), ",CMD,QUIT")
    case VoiceOver(t) => s.(ui := s.ui.(voiceOverText := "VoiceOver: " + t))
    case ScenarioText(t) => s.(ui := s.ui.(scenarioText := "Scenario: " + t), scenario := t)
    case StepText(t) => s.(ui := s.ui.(stepText := "Stap: " + t), stap := t)
    case LarsText(t) => s.(ui := s.ui.(larsText := t))
    case Ignored => s
  }

  /** The second half of Update: poll when idle and the pause is over. */
  function PollIfDue(s: Session, now: int): Session {
    if !s.waitingForServer && now - s.pollingPauseStart > PollingIntervalTicks
    then Send(Prep(s), ",CMD,POLL")
    else s
  }

  /** Update, one frame at time `now`. A reply the code cannot read throws
      out of ProcessNetworkMessage and ends the frame: the latch is already
      open, the reply stays in `serverReply` and no poll is sent. */
  function Tick(s: Session, now: int): Session {
    if s.abort then (if !s.die then ShowAbort(s.(die := true)) else s)
    else Step(s, now)
  }

  /** A frame of a session that has not aborted: handle the reply, if one
      has arrived, then poll if due. */
  function Step(s: Session, now: int): Session {
    if s.waitingForServer && s.serverReply != "" then
      var r := Decode(s.serverReply);
      var s2 := s.(waitingForServer := false);
      if r == Malformed then s2
      else PollIfDue(React(s2, r, now).(serverReply := ""), now)
    else PollIfDue(s, now)
  }

  /** WriteLogLine; without a log file (Start did not get that far) the
      write throws and nothing is written. */
  function WriteLog(s: Session, now: nat): Session {
    if s.logOpen then s.(log := s.log + [LogLine(now, s.config.ppn, s.scenario, s.stap, s.decision)]) else s
  }

  /** ProcessButtons: every press first starts waiting for a reply, even
      for a button that sends nothing. */
  function Press(s: Session, b: Button, now: nat): Session {
    var p := Prep(s);
    match b
    case StartButton =>
      Send(p, ",CMD,START").(ui := p.ui.(startButton := false, networkTextShown := false, infoPanel := true))
    case EndPause => Send(p.(ui := p.ui.(pausePanel := false)), ",CMD,ENDPAUSE")
    case Reaction(command, decision) =>
      WriteLog(Send(p, command).(ui := p.ui.(reactionsPanel := false), decision := decision), now)
    case QuitButton => p.(quit := true)
    case Other => p
  }

  /** The end of SendToServer's request: a reply becomes `serverReply`; a
      failure ends the session on screen. */
  function Receive(s: Session, result: HttpResult): Session {
    match result
    case Delivered(text) => s.(serverReply := text)
    case NetworkError => EndScreen(s, NetworkTimedOut)
  }

  /** The INIT request: settings for the relay and the headset. */
  function InitCommand(c: Config): string {
    ",CMD,INIT," + c.pollingIntervalText + "," + FormatInt(c.buttonTimeOut) + ","
      + c.questionTimeOutText + "," + c.scenarios
  }

  /** What GetSettings leaves in the controller and in `Common`. */
  function ApplySettings(s: Session, l: Loaded): Session
    requires l.Loaded? && l.failure.Some? ==> l.failure.value < 5
  {
    if l.Thrown? then s
    else if l.failure.Some? then
      s.(config := l.config, abort := true, abortMsg := SettingsError(l.failure.value))
    else s.(config := l.config)
  }

  function HidePanels(s: Session): Session {
    s.(ui := s.ui.(errorPanel := false, pausePanel := false, startButton := false,
                   quitButton := false, infoPanel := false, reactionsPanel := false))
  }

  /** Start after GetSettings left `l`: unless the settings abort, open
      the log and send INIT; then hide the panels. An exception from the
      ppn file skips everything after it. */
  function Started(s: Session, l: Loaded): Session
    requires l.Loaded? && l.failure.Some? ==> l.failure.value < 5
  {
    var t := ApplySettings(s, l);
    if l.Thrown? then t
    else if t.abort then HidePanels(t)
    else HidePanels(Send(Prep(t.(logOpen := true)), InitCommand(t.config)))
  }

  /** Start. */
  function Begin(s: Session, ppnLines: seq<string>, lines: seq<string>,
                 floats: FloatTable): Session
  {
    Started(s, LoadSettings(s.config, ppnLines, lines, floats))
  }

  // ------------------------------------------------------- properties

  /** While a request is outstanding and its reply has not arrived, a
      frame sends nothing and changes nothing but the abort display. */
  lemma LatchHoldsPolls(s: Session, now: int)
    requires s.waitingForServer && s.serverReply == ""
    ensures Tick(s, now).outbox == s.outbox
    ensures Tick(s, now).waitingForServer && Tick(s, now).serverReply == ""
    ensures !s.abort ==> Tick(s, now) == s
  {
  }

  /** With the latch open, a frame polls exactly when more than two
      seconds have passed since the pause started, and then closes the
      latch behind the single POLL request. */
  lemma PollWhenDue(s: Session, now: int)
    requires !s.abort && !s.waitingForServer
    ensures now - s.pollingPauseStart > PollingIntervalTicks ==>
      Tick(s, now) == s.(waitingForServer := true, serverReply := "",
                         outbox := s.outbox + [FormatInt(s.config.serverNumber) + ",CMD,POLL"])
    ensures now - s.pollingPauseStart <= PollingIntervalTicks ==> Tick(s, now) == s
  {
  }

  /** A reply is handled at most once: after any frame of a running
      session, the controller is never left waiting on a reply it
      already holds, so a second frame cannot handle the same reply. */
  lemma ReplyHandledOnce(s: Session, now: int)
    requires !s.abort
    ensures !(Tick(s, now).waitingForServer && Tick(s, now).serverReply != "")
  {
    if s.waitingForServer && s.serverReply != "" {
      var r := Decode(s.serverReply);
      if r != Malformed {
        var t := React(s.(waitingForServer := false), r, now).(serverReply := "");
        assert t.serverReply == "";
      }
    }
  }

  /** A reply the controller can read is consumed by the frame that
      handles it: the reaction happens and `serverReply` is cleared. */
  lemma ReplyConsumed(s: Session, now: int)
    requires !s.abort && s.waitingForServer && s.serverReply != "" && Decode(s.serverReply) != Malformed
    ensures var u := React(s.(waitingForServer := false), Decode(s.serverReply), now).(serverReply := "");
      Tick(s, now) == PollIfDue(u, now)
  {
  }

  /** The outbox effect of one reaction: only the end of the session sends
      something (QUIT, closing the latch); every reaction keeps the
      configuration. */
  lemma ReactOutbox(s: Session, r: Reply, now: int)
    requires r != Malformed
    ensures React(s, r, now).config == s.config
    ensures r == ClientEnd ==>
      React(s, r, now).outbox == s.outbox + [FormatInt(s.config.serverNumber) + ",CMD,QUIT"]
      && React(s, r, now).waitingForServer
    ensures r != ClientEnd ==>
      React(s, r, now).outbox == s.outbox && React(s, r, now).waitingForServer == s.waitingForServer
  {
    match r
    case ClientEnd => assert React(s, r, now) == Send(Prep(EndScreen(s, SessionEnded)), ",CMD,QUIT");
    case _ =>
  }

  /** Each frame sends at most one request: a POLL, or QUIT when the
      client reported the end of the session. */
  lemma OneRequestPerFrame(s: Session, now: int)
    ensures var t := Tick(s, now);
      t.outbox == s.outbox
      || t.outbox == s.outbox + [FormatInt(s.config.serverNumber) + ",CMD,POLL"]
      || t.outbox == s.outbox + [FormatInt(s.config.serverNumber) + ",CMD,QUIT"]
  {
    if !s.abort && s.waitingForServer && s.serverReply != "" {
      var r := Decode(s.serverReply);
      if r != Malformed {
        ReactOutbox(s.(waitingForServer := false), r, now);
      }
    }
  }

  /** After an abort the controller shows the abort message once and is
      frozen: no request goes out, no reply is handled, and further frames
      change nothing. */
  lemma AbortFreezes(s: Session, now: int, later: int)
    requires s.abort
    ensures var t := Tick(s, now);
      t.outbox == s.outbox && t.waitingForServer == s.waitingForServer && t.serverReply == s.serverReply
      && t.die && (s.die ==> t == s)
      && (!s.die ==> t.ui.errorPanel && t.ui.errorText == s.abortMsg)
      && Tick(t, later) == t
  {
  }

  /** An empty poll or an acknowledgement restarts the pause and nothing
      else: no poll goes out for the next two seconds. */
  lemma ResetTimerPausesPolling(s: Session, now: int, later: int)
    requires !s.abort && s.waitingForServer && Decode(s.serverReply) == ResetTimer
    requires now <= later <= now + PollingIntervalTicks
    ensures Tick(s, now) == s.(waitingForServer := false, serverReply := "", pollingPauseStart := now)
    ensures Tick(Tick(s, now), later).outbox == s.outbox
  {
    DecodeEmpty();
  }

  /** A poll that carries a client command or text does not restart the
      pause. */
  lemma PayloadKeepsTimer(s: Session, r: Reply, now: int)
    requires r != Malformed && r != ResetTimer
    ensures React(s, r, now).pollingPauseStart == s.pollingPauseStart
  {
    match r
    case ClientEnd => assert React(s, r, now) == Send(Prep(EndScreen(s, SessionEnded)), ",CMD,QUIT");
    case _ =>
  }

  /** The end of the session: the end screen and a QUIT request, after
      which no further frame sends anything. */
  lemma EndStopsPolling(s: Session, now: int, later: int)
    requires !s.abort && s.waitingForServer && Decode(s.serverReply) == ClientEnd
    ensures var t := Tick(s, now);
      t.outbox == s.outbox + [FormatInt(s.config.serverNumber) + ",CMD,QUIT"]
      && t.ui.quitButton && !t.ui.infoPanel && t.ui.networkText == SessionEnded
      && Tick(t, later) == t
  {
    DecodeEmpty();
  }

  /** Scenario and step texts are stored as well as shown; voice-over and
      Lars texts are only shown. */
  lemma TextsStored(s: Session, t: string, now: int)
    ensures React(s, ScenarioText(t), now).scenario == t && React(s, ScenarioText(t), now).stap == s.stap
    ensures React(s, StepText(t), now).stap == t && React(s, StepText(t), now).scenario == s.scenario
    ensures React(s, VoiceOver(t), now) == s.(ui := React(s, VoiceOver(t), now).ui)
    ensures React(s, LarsText(t), now) == s.(ui := React(s, LarsText(t), now).ui)
    ensures React(s, LarsText(t), now).ui.larsText == t
    ensures React(s, VoiceOver(t), now).ui.voiceOverText == "VoiceOver: " + t
  {
  }

  /** A reaction button sends its command, hides the reactions and logs
      exactly one line holding its decision; the line splits back into
      time, participant, scenario, step and decision. */
  lemma ReactionLogged(s: Session, b: Button, now: nat)
    requires b.Reaction? && s.logOpen
    requires ',' !in s.scenario && ',' !in s.stap && ',' !in b.decision
    ensures var t := Press(s, b, now);
      t.outbox == s.outbox + [FormatInt(s.config.serverNumber) + b.command]
      && t.decision == b.decision && !t.ui.reactionsPanel
      && t.log == s.log + [LogLine(now, s.config.ppn, s.scenario, s.stap, b.decision)]
      && Split(t.log[|s.log|], ',') == [FormatClock(now), FormatInt(s.config.ppn), s.scenario, s.stap, b.decision]
  {
    LogLineFields(now, s.config.ppn, s.scenario, s.stap, b.decision);
  }

  /** Only reaction buttons write to the log; Start sends START and
      shows the information panel. */
  lemma OnlyReactionsLog(s: Session, b: Button, now: nat)
    requires !b.Reaction?
    ensures Press(s, b, now).log == s.log
    ensures b == StartButton ==>
      Press(s, b, now).outbox == s.outbox + [FormatInt(s.config.serverNumber) + ",CMD,START"]
      && Press(s, b, now).ui.infoPanel && !Press(s, b, now).ui.startButton
  {
  }

  /** The button table, read backwards: a reaction button's logged decision
      names the button, and its decisions hold no comma, so the log line
      keeps them whole. */
  lemma DecisionNamesButton(name: string)
    requires ButtonOf(name).Reaction?
    ensures DecisionButton(ButtonOf(name).decision) == name
    ensures ',' !in ButtonOf(name).decision
  {
  }

  /** Distinct reaction buttons log distinct decisions. */
  lemma ReactionsDistinct(a: string, b: string)
    requires ButtonOf(a).Reaction? && ButtonOf(b).Reaction? && a != b
    ensures ButtonOf(a).decision != ButtonOf(b).decision
  {
    DecisionNamesButton(a);
    DecisionNamesButton(b);
  }

  /** Every press closes the latch. A press that sends nothing (a Quit
      button or an unknown name) therefore leaves the controller waiting
      for a reply no request will bring: frames send nothing until a reply
      is delivered. */
  lemma PressClosesLatch(s: Session, b: Button, now: nat, later: int)
    ensures Press(s, b, now).waitingForServer && Press(s, b, now).serverReply == ""
    ensures b.QuitButton? || b.Other? ==>
      Press(s, b, now).outbox == s.outbox && Tick(Press(s, b, now), later).outbox == s.outbox
  {
  }

  /** Delivering a reply only fills `serverReply`; a failed request ends
      the session on screen and leaves the latch closed. */
  lemma DeliverOnlyFillsReply(s: Session, result: HttpResult)
    ensures result.Delivered? ==> Receive(s, result) == s.(serverReply := result.text)
    ensures result.NetworkError? ==>
      Receive(s, result).serverReply == s.serverReply && Receive(s, result).ui.quitButton
      && Receive(s, result).outbox == s.outbox && Receive(s, result).waitingForServer == s.waitingForServer
  {
  }

  /** Start on a readable ppn file: the session runs, with the log open and
      the INIT request as its only request, exactly when every settings
      line converts; otherwise it aborts with the message naming the first
      line that failed and sends nothing. */
  lemma StartAcceptsExactly(s: Session, ppnLines: seq<string>, lines: seq<string>,
                            floats: FloatTable, l: Loaded, t: Session)
    requires !s.abort && ReadInt32Line(ppnLines).Some?
    requires l == LoadSettings(s.config, ppnLines, lines, floats)
    requires t == Begin(s, ppnLines, lines, floats)
    ensures l.Loaded? && t.config == l.config
    ensures !t.abort <==> forall j :: 0 <= j < 5 ==> SettingValid(j, SettingValue(lines, j), floats)
    ensures !t.abort ==>
      t.logOpen && t.outbox == s.outbox + [FormatInt(l.config.serverNumber) + InitCommand(l.config)]
      && t.waitingForServer && t.serverReply == ""
    ensures t.abort ==>
      l.failure.Some? && t.outbox == s.outbox && t.abortMsg == SettingsError(l.failure.value)
      && !SettingValid(l.failure.value, SettingValue(lines, l.failure.value), floats)
      && forall j :: 0 <= j < l.failure.value ==> SettingValid(j, SettingValue(lines, j), floats)
  {
    LoadOutcome(s.config, ppnLines, lines, floats, l);
    StartedOutcome(s, l, t);
  }

  lemma StartedOutcome(s: Session, l: Loaded, t: Session)
    requires !s.abort && l.Loaded? && (l.failure.Some? ==> l.failure.value < 5) && t == Started(s, l)
    ensures t.config == l.config && (t.abort <==> l.failure.Some?)
    ensures !t.abort ==>
      t.logOpen && t.outbox == s.outbox + [FormatInt(l.config.serverNumber) + InitCommand(l.config)]
      && t.waitingForServer && t.serverReply == ""
    ensures t.abort ==> t.outbox == s.outbox && t.abortMsg == SettingsError(l.failure.value)
  {
    var u := ApplySettings(s, l);
    assert u.config == l.config && u.outbox == s.outbox && (u.abort <==> l.failure.Some?);
    if l.failure.Some? {
      assert u.abortMsg == SettingsError(l.failure.value);
      assert t == HidePanels(u);
    } else {
      var v := Prep(u.(logOpen := true));
      assert t == HidePanels(Send(v, InitCommand(u.config)));
    }
  }

  /** A ppn file that is not a number stops Start before anything
      happens. */
  lemma BadPpnStopsStart(s: Session, ppnLines: seq<string>, lines: seq<string>,
                         floats: FloatTable)
    requires ReadInt32Line(ppnLines).None?
    ensures Begin(s, ppnLines, lines, floats) == s
  {
  }

  // ------------------------------------------------------- requests in flight

  /** A button pressed while a POLL is outstanding sends a second request.
      When the button's acknowledgement comes back first, the frame that
      handles it opens the latch. The poll's reply, here the client's END,
      then arrives with the latch open: Update does not look at it, and the
      next poll's PrepServerResponse clears it. The end screen is never
      shown and QUIT is never sent. */
  lemma EndLostAfterPress(s: Session, t0: int, t1: nat, t2: int, t3: int,
                          s1: Session, s2: Session, s3: Session, s4: Session)
    requires !s.abort && !s.waitingForServer
    requires t0 - s.pollingPauseStart > PollingIntervalTicks && t3 - t2 > PollingIntervalTicks
    requires s1 == Tick(s, t0) && s2 == Press(s1, ButtonOf("btnPositive"), t1)
    requires s3 == Tick(Receive(s2, Delivered(Acknowledgement("POS", true))), t2)
    requires s4 == Tick(Receive(s3, Delivered(Encode(ClientEnd))), t3)
    ensures var room := FormatInt(s.config.serverNumber);
      && s2.outbox == s.outbox + [room + ",CMD,POLL", room + ",CMD,POS"]
      && s3.outbox == s2.outbox && !s3.waitingForServer
      && s4.outbox == s3.outbox + [room + ",CMD,POLL"]
      && s4.waitingForServer && s4.serverReply == "" && s4.ui == s3.ui
  {
    PressDuringPoll(s, t0, t1, s1, s2);
    AcknowledgementErrorIgnored("POS");
    var delivered := Receive(s2, Delivered(Acknowledgement("POS", true)));
    ResetTimerPausesPolling(delivered, t2, t2);
    PollWhenDue(Receive(s3, Delivered(Encode(ClientEnd))), t3);
  }

  /** The first half of EndLostAfterPress: the due poll and the press both
      go out. */
  lemma PressDuringPoll(s: Session, t0: int, t1: nat, s1: Session, s2: Session)
    requires !s.abort && !s.waitingForServer && t0 - s.pollingPauseStart > PollingIntervalTicks
    requires s1 == Tick(s, t0) && s2 == Press(s1, ButtonOf("btnPositive"), t1)
    ensures var room := FormatInt(s.config.serverNumber);
      s2.outbox == s.outbox + [room + ",CMD,POLL", room + ",CMD,POS"]
      && s2.config == s.config && !s2.abort && s2.waitingForServer && s2.serverReply == ""
  {
    PollWhenDue(s, t0);
    assert ButtonOf("btnPositive") == Reaction(",CMD,POS", "wel");
  }

  /** What the controller sees happen: a frame, a button press, or the end
      of one of its requests in flight. */
  datatype Event = Frame(now: int) | Pressed(button: Button, at: nat) | Completed(result: HttpResult)

  /** The controller with the number of its requests in flight. */
  datatype Run = Run(s: Session, inFlight: int)

  /** ProcessButtons as the latch means it: while the controller waits for
      a reply, only the Quit buttons are taken. A press then sends nothing
      and leaves a delivered reply for the next frame. */
  function PressWhenIdle(s: Session, b: Button, now: nat): (t: Session)
    ensures s.waitingForServer && !b.QuitButton? ==> t.outbox == s.outbox && t.serverReply == s.serverReply
    ensures |t.outbox| <= |s.outbox| + 1 && t.waitingForServer
  {
    if s.waitingForServer && !b.QuitButton? then s
    else PressSendsOnce(s, b, now); Press(s, b, now)
  }

  /** A press sends at most one request and then waits for its reply. */
  lemma PressSendsOnce(s: Session, b: Button, now: nat)
    ensures var t := Press(s, b, now);
      |s.outbox| <= |t.outbox| <= |s.outbox| + 1 && t.outbox[..|s.outbox|] == s.outbox
      && t.waitingForServer && t.serverReply == ""
  {
    match b
    case Reaction(command, decision) =>
      var p := Send(Prep(s), command);
      assert Press(s, b, now).outbox == p.outbox;
    case _ =>
  }

  /** One event; `guarded` selects PressWhenIdle over the code's Press. */
  function Next(r: Run, e: Event, guarded: bool): Run {
    match e
    case Frame(now) => Sending(r, Tick(r.s, now))
    case Pressed(b, at) => Sending(r, if guarded then PressWhenIdle(r.s, b, at) else Press(r.s, b, at))
    case Completed(result) => Run(Receive(r.s, result), r.inFlight - 1)
  }

  function Sending(r: Run, t: Session): Run {
    Run(t, r.inFlight + |t.outbox| - |r.s.outbox|)
  }

  /** At most one request is in flight, and while one is, the controller
      waits for its reply and holds no other. */
  predicate OneInFlight(r: Run) {
    0 <= r.inFlight <= 1 && (r.inFlight == 1 ==> r.s.waitingForServer && r.s.serverReply == "")
  }

  /** Start leaves at most its INIT request in flight. */
  lemma StartInFlight(ui: Ui, ppnLines: seq<string>, lines: seq<string>, floats: FloatTable)
    ensures var t := Begin(Initial(ui), ppnLines, lines, floats);
      OneInFlight(Run(t, |t.outbox|))
  {
    var s := Initial(ui);
    if ReadInt32Line(ppnLines).Some? {
      var l := LoadSettings(s.config, ppnLines, lines, floats);
      StartAcceptsExactly(s, ppnLines, lines, floats, l, Begin(s, ppnLines, lines, floats));
    }
  }

  /** As written: with nothing in flight, a due frame and then a reaction
      button put two requests in flight. */
  lemma TwoInFlight(s: Session, now: int, at: nat)
    requires !s.abort && !s.waitingForServer && now - s.pollingPauseStart > PollingIntervalTicks
    ensures OneInFlight(Run(s, 0))
    ensures var r := Next(Next(Run(s, 0), Frame(now), false), Pressed(ButtonOf("btnPositive"), at), false);
      r.inFlight == 2 && !OneInFlight(r)
  {
    var r1 := Next(Run(s, 0), Frame(now), false);
    assert r1.inFlight == 1;
  }

  /** A frame that sends a request leaves the controller waiting for its
      reply. */
  lemma FrameSendWaits(s: Session, now: int)
    ensures |Tick(s, now).outbox| != |s.outbox| ==>
      Tick(s, now).waitingForServer && Tick(s, now).serverReply == ""
  {
    if !s.abort && s.waitingForServer && s.serverReply != "" {
      var r := Decode(s.serverReply);
      if r != Malformed {
        ReactOutbox(s.(waitingForServer := false), r, now);
      }
    }
  }

  /** With the corrected presses, every event keeps at most one request in
      flight, given that only a request in flight can complete. */
  lemma OneInFlightKept(r: Run, e: Event)
    requires OneInFlight(r) && (e.Completed? ==> r.inFlight > 0)
    ensures OneInFlight(Next(r, e, true))
  {
    match e
    case Frame(now) => FrameKeepsOneInFlight(r, now, Tick(r.s, now));
    case Pressed(b, at) => PressKeepsOneInFlight(r, b, at, PressWhenIdle(r.s, b, at));
    case Completed(result) =>
  }

  lemma FrameKeepsOneInFlight(r: Run, now: int, t: Session)
    requires OneInFlight(r) && t == Tick(r.s, now)
    ensures OneInFlight(Sending(r, t))
  {
    OneRequestPerFrame(r.s, now);
    if r.inFlight == 1 {
      LatchHoldsPolls(r.s, now);
    } else {
      FrameSendWaits(r.s, now);
    }
  }

  lemma PressKeepsOneInFlight(r: Run, b: Button, at: nat, t: Session)
    requires OneInFlight(r) && t == PressWhenIdle(r.s, b, at)
    ensures OneInFlight(Sending(r, t))
  {
    if !r.s.waitingForServer || b.QuitButton? {
      PressSendsOnce(r.s, b, at);
    }
  }
}
