/** The controller object of Backup/Server.cs: its fields and the methods
    that change them, each proved to make the step SocketController's
    functions specify. */
module SocketServer {
  import opened Text
  import opened SocketController

  class Server {
    var connections: seq<Connection>
    var lastAliveReceived: int
    var checkClientConnection: bool
    var ppn: int
    var ppnFile: Option<string>
    var thePort: int
    var scenario: string
    var stap: string
    var decision: string
    var logOpen: bool
    var log: seq<string>
    var sent: seq<string>
    var screen: Screen
    var quit: bool

    /** The object's state as a controller value. */
    ghost function Model(): Console
      reads this
    {
      Console(connections, lastAliveReceived, checkClientConnection, ppn, ppnFile, thePort,
              scenario, stap, decision, logOpen, log, sent, screen, quit)
    }

    constructor (screen0: Screen)
      ensures Model() == Initial(screen0)
    {
      connections := [];
      lastAliveReceived := 0;
      checkClientConnection := false;
      ppn, ppnFile, thePort := 0, None, 9000;
      scenario, stap, decision := "", "", "";
      logOpen := false;
      log, sent := [], [];
      screen := screen0;
      quit := false;
    }

    method GetSettings(ppnLines: seq<string>, portLines: seq<string>) returns (thrown: bool)
      modifies this
      ensures (Model(), thrown) == Settings(old(Model()), ppnLines, portLines)
    {
      var line := ReadInt32Line(ppnLines);
      if line.None? {
        return true;
      }
      ppn := Wrap32(line.value + 1);
      ppnFile := Some(FormatInt(ppn));
      line := ReadInt32Line(portLines);
      if line.None? {
        return true;
      }
      thePort := ToUshort(line.value);
      thrown := false;
    }

    method Awake(ppnLines: seq<string>, portLines: seq<string>)
      modifies this
      ensures Model() == Awaken(old(Model()), ppnLines, portLines)
    {
      var thrown := GetSettings(ppnLines, portLines);
      if thrown {
        return;
      }
      logOpen := true;
    }

    method Start()
      modifies this
      ensures Model() == Started(old(Model()))
    {
      screen := screen.(startButton := false, quitButton := false, infoPanel := false, reactionsPanel := false);
    }

    /** The cleanup loop of SetNetworkForData. */
    method SetNetworkForData()
      modifies this
      ensures Model() == old(Model()).(connections := CleanUp(old(connections)))
    {
      var i: int := 0;
      while i < |connections|
        invariant 0 <= i <= |connections|
        invariant CleanUpFrom(connections, i) == CleanUp(old(connections))
        invariant Model() == old(Model()).(connections := connections)
        decreases |connections| - i
      {
        if !connections[i].isCreated {
          connections := RemoveAtSwapBack(connections, i);
          i := i - 1;
        }
        i := i + 1;
      }
    }

    method SendNetworkData(message: string)
      modifies this
      ensures Model() == Send(old(Model()), message)
    {
      SetNetworkForData();
      sent := sent + [message];
    }

    method WriteLogLine(now: nat)
      modifies this
      ensures Model() == WriteLog(old(Model()), now)
    {
      if logOpen {
        log := log + [LogLine(now, ppn, scenario, stap, decision)];
      }
    }

    method ProcessNetworkMessage(msg: string, now: int) returns (thrown: bool)
      modifies this
      ensures thrown <==> Decode(msg) == ArgumentMissing
      ensures Model() == Receive(old(Model()), Decode(msg), now)
    {
      var elements := Split(msg, ',');
      var verb := elements[0];
      thrown := verb in ArgumentVerbs && |elements| < 2;
      if thrown {
        return;
      }
      if verb == "alive" {
        lastAliveReceived := now;
      } else if verb == "scenario" || verb == "voiceover" || verb == "step" || verb == "lars" {
        ShowText(verb, elements[1]);
      } else if verb == "reaction" || verb == "end" {
        ShowPanel(verb, elements[1]);
      }
    }

    /** `scenario`, `voiceover`, `step` and `lars`. */
    method ShowText(verb: string, arg: string)
      requires verb == "scenario" || verb == "voiceover" || verb == "step" || verb == "lars"
      modifies this
      ensures Model() == Receive(old(Model()), Dispatch([verb, arg]), 0)
    {
      if verb == "scenario" {
        screen := screen.(scenarioText := "Scenario: " + arg);
        scenario := arg;
      } else if verb == "voiceover" {
        screen := screen.(voiceOverText := "VoiceOver: " + arg);
      } else if verb == "step" {
        screen := screen.(stepText := "Stap: " + arg);
        stap := arg;
      } else {
        screen := screen.(larsText := arg);
      }
    }

    /** `reaction` and `end`. */
    method ShowPanel(verb: string, arg: string)
      requires verb == "reaction" || verb == "end"
      modifies this
      ensures Model() == Receive(old(Model()), Dispatch([verb, arg]), 0)
    {
      if verb == "reaction" {
        screen := screen.(reactionsPanel := arg == "true");
      } else if arg == "new" {
        screen := screen.(scenarioText := NoScenario, stepText := NoStep, larsText := "");
      } else {
        screen := screen.(infoPanel := false, networkText := SessionEnded, networkTextShown := true);
      }
    }

    /** The button called `name` was clicked. */
    method ProcessButtons(name: string, now: nat)
      modifies this
      ensures Model() == Press(old(Model()), name, now)
    {
      var logThis := true;
      if name == "btnStart" {
        SendNetworkData("start");
        screen := screen.(startButton := false, networkTextShown := false, infoPanel := true,
                          voiceOverText := IntroPlaying);
        logThis := false;
        checkClientConnection := true;
        lastAliveReceived := now;
      } else if name == "btnQuit" {
        logThis := false;
        quit := true;
      } else {
        Respond(name);
      }
      if logThis {
        WriteLogLine(now);
      }
    }

    /** The reaction buttons' cases, and the default case, of ProcessButtons. */
    method Respond(name: string)
      modifies this
      ensures Model() == Reacted(old(Model()), name)
    {
      var r := ReactionOf(name);
      if r.Some? {
        SendNetworkData(r.value.0);
        screen := screen.(reactionsPanel := false);
        decision := r.value.1;
      }
    }
  }
}
