/** The controller object of Assets/Scripts/Server.cs: its fields, and the
    methods Unity calls (Start, Update, ProcessButtons) with the ones they
    call, each proved to make the step the session functions of
    SessionController specify. The coroutine that carries a request is
    split in two: SendToServer hands the request over, CompleteRequest is
    its continuation when the transfer ends. */
module SessionServer {
  import opened Text
  import opened RelayReply
  import opened SessionSettings
  import opened SessionController

  class Server {
    var config: Config
    var pollingPauseStart: int
    var waitingForServer: bool
    var serverReply: string
    var die: bool
    var scenario: string
    var stap: string
    var decision: string
    var abort: bool
    var abortMsg: string
    var logOpen: bool
    var log: seq<string>
    var outbox: seq<string>
    var ui: Ui
    var quit: bool

    /** The object's state as a session value. */
    ghost function Model(): Session
      reads this
    {
      Session(config, pollingPauseStart, waitingForServer, serverReply, die, scenario, stap, decision,
              abort, abortMsg, logOpen, log, outbox, ui, quit)
    }

    constructor (ui0: Ui)
      ensures Model() == Initial(ui0)
    {
      config := InitialConfig;
      pollingPauseStart := 0;
      waitingForServer := false;
      serverReply := "";
      die := false;
      scenario, stap, decision := "", "", "";
      abort, abortMsg := false, "";
      logOpen := false;
      log, outbox := [], [];
      ui := ui0;
      quit := false;
    }

    method PrepServerResponse()
      modifies this
      ensures Model() == Prep(old(Model()))
    {
      waitingForServer := true;
      serverReply := "";
    }

    /** Hands `theCommand` to the relay. */
    method SendToServer(theCommand: string)
      modifies this
      ensures Model() == old(Model()).(outbox := old(outbox) + [theCommand])
    {
      outbox := outbox + [theCommand];
    }

    /** The rest of SendToServer once the transfer ends. */
    method CompleteRequest(result: HttpResult)
      modifies this
      ensures Model() == Receive(old(Model()), result)
    {
      match result
      case Delivered(text) =>
        serverReply := text;
      case NetworkError =>
        ui := ui.(infoPanel := false, networkText := NetworkTimedOut,
                  networkTextShown := true, quitButton := true);
    }

    method AbortApp()
      modifies this
      ensures Model() == ShowAbort(old(Model()))
    {
      ui := ui.(errorText := abortMsg, errorPanel := true);
    }

    /** Application.Quit. */
    method AbortProgram()
      modifies this
      ensures Model() == old(Model()).(quit := true)
    {
      quit := true;
    }

    method WriteLogLine(now: nat)
      modifies this
      ensures Model() == WriteLog(old(Model()), now)
    {
      if logOpen {
        log := log + [LogLine(now, config.ppn, scenario, stap, decision)];
      }
    }

    /** ProcessNetworkMessage: decode the reply, then act on it. `thrown`
        reports the IndexOutOfRangeException of a reply too short for the
        fields its verb reads; it leaves everything as it was. */
    method ProcessNetworkMessage(msg: string, now: int) returns (thrown: bool)
      modifies this
      ensures thrown <==> Decode(msg) == Malformed
      ensures thrown ==> Model() == old(Model())
      ensures !thrown ==> Model() == React(old(Model()), Decode(msg), now)
    {
      var r := Decode(msg);
      thrown := r == Malformed;
      if !thrown {
        Act(r, now);
      }
    }

    /** The case of ProcessNetworkMessage for a reply it can read: the
        relay's own answers, then the client commands and texts a poll
        carries. */
    method Act(r: Reply, now: int)
      requires r != Malformed
      modifies this
      ensures Model() == React(old(Model()), r, now)
    {
      if r.WebserverError? || r.QuitApplication? || r.ResetTimer? || r.Ignored? {
        ActRelay(r, now);
      } else if r.VoiceOver? || r.ScenarioText? || r.StepText? || r.LarsText? {
        ActText(r, now);
      } else if r.ClientAbort? || r.ClientEnd? {
        ActEnd(r, now);
      } else {
        ActPanel(r, now);
      }
    }

    /** `CMD,ERROR`, the acknowledgements, `POLL,ERROR`, `POLL,EMPTY` and
        the verbs no case names. */
    method ActRelay(r: Reply, now: int)
      requires r.WebserverError? || r.QuitApplication? || r.ResetTimer? || r.Ignored?
      modifies this
      ensures Model() == React(old(Model()), r, now)
    {
      if r.WebserverError? {
        ShowEnd(WebserverFailed);
      } else if r.QuitApplication? {
        AbortProgram();
      } else if r.ResetTimer? {
        pollingPauseStart := now;
      }
    }

    /** `POLL,TXT,<kind>,<text>`. */
    method ActText(r: Reply, now: int)
      requires r.VoiceOver? || r.ScenarioText? || r.StepText? || r.LarsText?
      modifies this
      ensures Model() == React(old(Model()), r, now)
    {
      if r.ScenarioText? || r.StepText? {
        StoreText(r, now);
      } else if r.VoiceOver? {
        ui := ui.(voiceOverText := "VoiceOver: " + r.text);
      } else {
        ui := ui.(larsText := r.text);
      }
    }

    /** `SC` and `STP`: shown, and kept for the log. */
    method StoreText(r: Reply, now: int)
      requires r.ScenarioText? || r.StepText?
      modifies this
      ensures Model() == React(old(Model()), r, now)
    {
      if r.ScenarioText? {
        ui := ui.(scenarioText := "Scenario: " + r.text);
        scenario := r.text;
      } else {
        ui := ui.(stepText := "Stap: " + r.text);
        stap := r.text;
      }
    }

    /** `POLL,CMD,ABORT` and `POLL,CMD,END`: the end of the session. */
    method ActEnd(r: Reply, now: int)
      requires r.ClientAbort? || r.ClientEnd?
      modifies this
      ensures Model() == React(old(Model()), r, now)
    {
      if r.ClientAbort? {
        ShowEnd(QuestFailed);
      } else {
        ShowEnd(SessionEnded);
        PrepServerResponse();
        SendToServer(FormatInt(config.serverNumber) + ",CMD,QUIT");
      }
    }

    /** `POLL,CMD,READY`, `PAUSE`, `RPS` and `NEW`: panels and texts. */
    method ActPanel(r: Reply, now: int)
      requires r.ClientReady? || r.ClientPause? || r.ClientRespond? || r.ClientNew?
      modifies this
      ensures Model() == React(old(Model()), r, now)
    {
      if r.ClientReady? {
        ui := ui.(connected := true, networkText := UserConnected,
                  startButton := true);
      } else if r.ClientPause? {
        ui := ui.(pausePanel := true);
      } else if r.ClientRespond? {
        ui := ui.(reactionsPanel := true);
      } else {
        ui := ui.(scenarioText := NoScenario, stepText := NoStep, larsText := "");
      }
    }

    /** Hide the info panel, show `text` and the Quit button. */
    method ShowEnd(text: string)
      modifies this
      ensures Model() == EndScreen(old(Model()), text)
    {
      ui := ui.(infoPanel := false, networkText := text, networkTextShown := true, quitButton := true);
    }

    /** One frame. */
    method Update(now: int)
      modifies this
      ensures Model() == Tick(old(Model()), now)
    {
      if abort && !die {
        die := true;
        AbortApp();
      }
      if !abort {
        Frame(now);
      }
    }

    /** The part of Update that runs while the session has not aborted. */
    method Frame(now: int)
      modifies this
      ensures Model() == Step(old(Model()), now)
    {
      if waitingForServer && serverReply != "" {
        var thrown := HandleReply(now);
        if thrown {
          return;
        }
      }
      Poll(now);
    }

    /** Open the latch and handle the reply that has arrived; a reply the
        code cannot read throws out of the frame. */
    method HandleReply(now: int) returns (thrown: bool)
      modifies this
      ensures thrown <==> Decode(old(serverReply)) == Malformed
      ensures thrown ==> Model() == old(Model()).(waitingForServer := false)
      ensures !thrown ==>
        Model() == React(old(Model()).(waitingForServer := false), Decode(old(serverReply)), now).(serverReply := "")
    {
      waitingForServer := false;
      ghost var s1, r := Model(), Decode(serverReply);
      thrown := ProcessNetworkMessage(serverReply, now);
      if !thrown {
        ghost var s2 := Model();
        assert s2 == React(s1, r, now);
        serverReply := "";
        assert Model() == s2.(serverReply := "");
      }
    }

    /** The second half of Update. */
    method Poll(now: int)
      modifies this
      ensures Model() == PollIfDue(old(Model()), now)
    {
      if !waitingForServer && now - pollingPauseStart > PollingIntervalTicks {
        PrepServerResponse();
        SendToServer(FormatInt(config.serverNumber) + ",CMD,POLL");
      }
    }

    /** The button called `name` was clicked. */
    method ProcessButtons(name: string, now: nat)
      modifies this
      ensures Model() == Press(old(Model()), ButtonOf(name), now)
    {
      PrepServerResponse();
      match ButtonOf(name)
      case StartButton =>
        SendToServer(FormatInt(config.serverNumber) + ",CMD,START");
        ui := ui.(startButton := false, networkTextShown := false, infoPanel := true);
      case EndPause =>
        ui := ui.(pausePanel := false);
        SendToServer(FormatInt(config.serverNumber) + ",CMD,ENDPAUSE");
      case Reaction(command, d) =>
        Respond(command, d, now);
      case QuitButton =>
        AbortProgram();
      case Other =>
    }

    /** The cases of the eight reaction buttons. */
    method Respond(command: string, d: string, now: nat)
      modifies this
      ensures Model() == WriteLog(Send(old(Model()), command).(ui := old(ui).(reactionsPanel := false), decision := d), now)
    {
      SendToServer(FormatInt(config.serverNumber) + command);
      ui := ui.(reactionsPanel := false);
      decision := d;
      WriteLogLine(now);
    }

    /** GetSettings. `thrown` reports an exception out of the ppn file,
        which leaves everything as it was. */
    method GetSettings(ppnLines: seq<string>, lines: seq<string>, floats: FloatTable)
      returns (thrown: bool)
      modifies this
      ensures var l := LoadSettings(old(config), ppnLines, lines, floats);
        thrown == l.Thrown? && Model() == ApplySettings(old(Model()), l)
    {
      var read := ReadInt32Line(ppnLines);
      if read.None? {
        return true;
      }
      thrown := false;
      var ppn := Wrap32(read.value + 1);
      config := config.(ppn := ppn, ppnFile := Some(FormatInt(ppn)));
      ghost var d, failure := ApplySettingsFile(lines, floats);
      LoadSettingsSteps(old(config), ppnLines, lines, floats, read.value, d, failure);
    }

    /** The settings-file half of GetSettings. */
    method ApplySettingsFile(lines: seq<string>, floats: FloatTable)
      returns (ghost d: Config, ghost failure: Option<nat>)
      modifies this
      ensures (d, failure) == ReadSettingsFrom(old(config), lines, 0, floats)
      ensures Model() == ApplySettings(old(Model()), Loaded(d, failure))
    {
      var c, f := ReadSettings(config, lines, floats);
      d, failure := c, f;
      config := c;
      if f.Some? {
        abortMsg := SettingsError(f.value);
        abort := true;
      }
    }

    /** The five settings try blocks, in file order, until one fails: the
        values they assign and the line that failed. */
    static method ReadSettings(c: Config, lines: seq<string>, floats: FloatTable)
      returns (d: Config, failure: Option<nat>)
      ensures (d, failure) == ReadSettingsFrom(c, lines, 0, floats)
    {
      d := c;
      var k := 0;
      while k < 5
        invariant 0 <= k <= 5
        invariant ReadSettingsFrom(d, lines, k, floats) == ReadSettingsFrom(c, lines, 0, floats)
      {
        var ok;
        d, ok := TrySetting(d, k, lines, floats);
        if !ok {
          return d, Some(k);
        }
        k := k + 1;
      }
      return d, None;
    }

    /** The try block for settings line `k`: its assignment, and whether
        it completes. */
    static method TrySetting(c: Config, k: nat, lines: seq<string>, floats: FloatTable)
      returns (d: Config, ok: bool)
      ensures ok == SettingValid(k, SettingValue(lines, k), floats)
      ensures d == Assign(c, k, SettingValue(lines, k), floats)
    {
      var value := SettingValue(lines, k);
      d := Assign(c, k, value, floats);
      if value.None? {
        ok := false;
      } else if k == 4 {
        if |value.value| == 0 {
          ok := false;
        } else {
          ok := ScenarioListCheck(value.value);
        }
      } else {
        ok := SettingValid(k, value, floats);
      }
    }

    method Start(ppnLines: seq<string>, lines: seq<string>, floats: FloatTable)
      modifies this
      ensures Model() == Begin(old(Model()), ppnLines, lines, floats)
    {
      ghost var s0, l := Model(), LoadSettings(config, ppnLines, lines, floats);
      var thrown := GetSettings(ppnLines, lines, floats);
      if thrown {
        return;
      }
      OpenSession();
      assert Model() == Started(s0, l);
    }

    /** The rest of Start once the settings are read: unless they abort,
        open the log and send INIT; then hide the panels. */
    method OpenSession()
      modifies this
      ensures old(abort) ==> Model() == HidePanels(old(Model()))
      ensures !old(abort) ==>
        Model() == HidePanels(Send(Prep(old(Model()).(logOpen := true)), InitCommand(old(config))))
    {
      if !abort {
        logOpen := true;
        PrepServerResponse();
        SendToServer(FormatInt(config.serverNumber) + InitCommand(config));
      }
      ui := ui.(errorPanel := false, pausePanel := false, startButton := false,
                quitButton := false, infoPanel := false, reactionsPanel := false);
    }
  }
}
