/** The replies of the web relay as the poll-driven controller reads them
    (Assets/Scripts/Server.cs, ProcessNetworkMessage).

    A reply is a comma-separated line `CMD,<verb>,...`. The controller
    splits it on every comma and dispatches on the second field, then on
    the third and fourth for a poll result. Decode names what the
    controller does with a reply; the controller class applies it. */
module RelayReply {
  import opened Text

  /** What one reply makes the controller do. */
  datatype Reply =
    | Malformed                 // a field the code reads is missing: IndexOutOfRangeException
    | WebserverError            // `CMD,ERROR`: end-of-session text and the Quit button
    | QuitApplication           // AbortProgram: the application quits
    | ResetTimer                // acknowledgement or empty poll: restart the poll pause
    | ClientAbort               // the headset application failed
    | ClientReady               // the participant is connected: offer Start
    | ClientPause               // show the pause panel
    | ClientRespond             // show the reaction buttons
    | ClientNew                 // a new scenario: clear scenario, step and Lars texts
    | ClientEnd                 // end of session: tell the relay to quit
    | VoiceOver(text: string)
    | ScenarioText(text: string)
    | StepText(text: string)
    | LarsText(text: string)
    | Ignored                   // an unknown verb or command: nothing happens

  /** The reaction to a client command `CMD,POLL,CMD,<command>`. */
  function ClientCommand(command: string): Reply {
    if command == "ABORT" then ClientAbort
    else if command == "READY" then ClientReady
    else if command == "PAUSE" then ClientPause
    else if command == "RPS" then ClientRespond
    else if command == "NEW" then ClientNew
    else if command == "END" then ClientEnd
    else Ignored
  }

  /** The reaction to a client text `CMD,POLL,TXT,<kind>,<text>`; the text
      is field four, so reading it needs five fields. */
  function ClientText(e: seq<string>): Reply
    requires |e| >= 4
  {
    var kind := e[3];
    if kind != "VO" && kind != "SC" && kind != "STP" && kind != "LARS" then Ignored
    else if |e| < 5 then Malformed
    else if kind == "VO" then VoiceOver(e[4])
    else if kind == "SC" then ScenarioText(e[4])
    else if kind == "STP" then StepText(e[4])
    else LarsText(e[4])
  }

  /** The reaction to a poll result `CMD,POLL,<result>,...`. */
  function PollResult(e: seq<string>): Reply
    requires |e| >= 2
  {
    if |e| < 3 then Malformed
    else if e[2] == "ERROR" then QuitApplication
    else if e[2] == "EMPTY" then ResetTimer
    else if e[2] == "CMD" then (if |e| < 4 then Malformed else ClientCommand(e[3]))
    else if e[2] == "TXT" then (if |e| < 4 then Malformed else ClientText(e))
    else Ignored
  }

  /** ProcessNetworkMessage's dispatch on the fields `elements` of a reply.
      The acknowledgement cases test `elements[1] == "ERROR"` inside the
      case where `elements[1]` is the verb itself, as the code does; that
      test never holds (see AcknowledgementErrorIgnored). */
  function Dispatch(e: seq<string>): Reply {
    if |e| < 2 then Malformed
    else
      var verb := e[1];
      if verb == "ERROR" then WebserverError
      else if verb == "POLL" then PollResult(e)
      else if verb == "INIT" || verb == "START" || verb == "POS" || verb == "NEG" then
        (if verb == "ERROR" then QuitApplication else ResetTimer)
      else if verb == "GEN" then
        (if verb == "ERROR" then QuitApplication else if |e| < 3 then Malformed else ResetTimer)
      else Ignored
  }

  /** ProcessNetworkMessage: `msg.Split(',')`, then the dispatch. */
  function Decode(msg: string): Reply {
    Dispatch(Split(msg, ','))
  }

  /** A line written from comma-free fields decodes as those fields. */
  lemma DecodeJoin(e: seq<string>)
    requires |e| >= 1 && forall i :: 0 <= i < |e| ==> ',' !in e[i]
    ensures Decode(Join(e, ',')) == Dispatch(e)
  {
    SplitJoin(e, ',');
  }

  /** An empty reply is a single empty field, which the dispatch cannot
      read. */
  lemma DecodeEmpty()
    ensures Decode("") == Malformed
  {
  }

  /** The fields of the canonical reply line for each reaction, in the
      relay's format: acknowledgements `CMD,<verb>,OK`, poll results
      `CMD,POLL,<result>`. */
  function EncodedFields(r: Reply): seq<string> {
    match r
    case Malformed => ["CMD"]
    case WebserverError => ["CMD", "ERROR"]
    case QuitApplication => ["CMD", "POLL", "ERROR"]
    case ResetTimer => ["CMD", "POLL", "EMPTY"]
    case ClientAbort => ["CMD", "POLL", "CMD", "ABORT"]
    case ClientReady => ["CMD", "POLL", "CMD", "READY"]
    case ClientPause => ["CMD", "POLL", "CMD", "PAUSE"]
    case ClientRespond => ["CMD", "POLL", "CMD", "RPS"]
    case ClientNew => ["CMD", "POLL", "CMD", "NEW"]
    case ClientEnd => ["CMD", "POLL", "CMD", "END"]
    case VoiceOver(t) => ["CMD", "POLL", "TXT", "VO", t]
    case ScenarioText(t) => ["CMD", "POLL", "TXT", "SC", t]
    case StepText(t) => ["CMD", "POLL", "TXT", "STP", t]
    case LarsText(t) => ["CMD", "POLL", "TXT", "LARS", t]
    case Ignored => ["CMD", "PING"]
  }

  /** The canonical reply line for a reaction. */
  function Encode(r: Reply): string {
    Join(EncodedFields(r), ',')
  }

  predicate CommaFree(r: Reply) {
    match r
    case VoiceOver(t) => ',' !in t
    case ScenarioText(t) => ',' !in t
    case StepText(t) => ',' !in t
    case LarsText(t) => ',' !in t
    case _ => true
  }

  /** Every reaction is reached by its encoded reply: decoding inverts
      encoding whenever the carried text holds no comma. */
  lemma DecodeEncode(r: Reply)
    requires CommaFree(r)
    ensures Decode(Encode(r)) == r
  {
    EncodedFieldsFree(r);
    DecodeJoin(EncodedFields(r));
  }

  /** The fields of an encoded reply are comma-free, and the dispatch
      maps them back to the reaction. */
  lemma EncodedFieldsFree(r: Reply)
    requires CommaFree(r)
    ensures |EncodedFields(r)| >= 1
    ensures forall i :: 0 <= i < |EncodedFields(r)| ==> ',' !in EncodedFields(r)[i]
    ensures Dispatch(EncodedFields(r)) == r
  {
    KeywordsCommaFree();
    DispatchEncoded(r);
  }

  lemma KeywordsCommaFree()
    ensures ',' !in "CMD" && ',' !in "ERROR" && ',' !in "POLL" && ',' !in "EMPTY" && ',' !in "TXT"
    ensures ',' !in "ABORT" && ',' !in "READY" && ',' !in "PAUSE" && ',' !in "RPS" && ',' !in "NEW"
    ensures ',' !in "END" && ',' !in "VO" && ',' !in "SC" && ',' !in "STP" && ',' !in "LARS"
    ensures ',' !in "PING"
  {
  }

  lemma DispatchEncoded(r: Reply)
    ensures Dispatch(EncodedFields(r)) == r
  {
  }

  /** The dispatch reads no field after the fifth. */
  lemma DispatchReadsFiveFields(e: seq<string>)
    requires |e| >= 5
    ensures Dispatch(e) == Dispatch(e[..5])
  {
  }

  /** The dispatch never reads the first field. */
  lemma DispatchIgnoresFirst(x: string, y: string, rest: seq<string>)
    ensures Dispatch([x] + rest) == Dispatch([y] + rest)
  {
    assert ([x] + rest)[1..] == rest == ([y] + rest)[1..];
  }

  /** Splitting comma-free fields joined with commas, followed by more
      text, gives the fields and then the pieces of that text. */
  lemma {:induction false} SplitJoinAppend(f: seq<string>, b: string)
    requires |f| >= 1 && forall i :: 0 <= i < |f| ==> ',' !in f[i]
    ensures Split(Join(f, ',') + [','] + b, ',') == f + Split(b, ',')
    decreases |f|
  {
    if |f| == 1 {
      SplitAfter(f[0], ',', b);
    } else {
      SplitJoinAppend(f[1..], b);
      assert Join(f, ',') + [','] + b == f[0] + [','] + (Join(f[1..], ',') + [','] + b);
      SplitAfter(f[0], ',', Join(f[1..], ',') + [','] + b);
      assert f == [f[0]] + f[1..];
    }
  }

  /** A client text that holds a comma loses everything from that comma
      on: only field four is read, so a scenario line `SC,<number>,<theme>`
      keeps only the number. */
  lemma TextKeepsFieldFour(r: Reply, more: string)
    requires r.VoiceOver? || r.ScenarioText? || r.StepText? || r.LarsText?
    requires CommaFree(r)
    ensures Decode(Encode(r) + "," + more) == r
  {
    var f := EncodedFields(r);
    EncodedFieldsFree(r);
    SplitJoinAppend(f, more);
    var e := f + Split(more, ',');
    DispatchReadsFiveFields(e);
    assert e[..5] == f;
  }

  /** The relay's acknowledgement of a command: `CMD,<verb>,OK` or
      `CMD,<verb>,ERROR`. */
  function Acknowledgement(verb: string, ok: bool): string {
    Join(["CMD", verb, if ok then "OK" else "ERROR"], ',')
  }

  /** The controller cannot tell the relay's failure acknowledgement of
      INIT, START, POS, NEG or GEN from its success: both restart the poll
      timer, and the application does not quit. */
  lemma AcknowledgementErrorIgnored(verb: string)
    requires verb in ["INIT", "START", "POS", "NEG", "GEN"]
    ensures Decode(Acknowledgement(verb, false)) == Decode(Acknowledgement(verb, true)) == ResetTimer
  {
    assert ',' !in verb;
    DecodeJoin(["CMD", verb, "ERROR"]);
    DecodeJoin(["CMD", verb, "OK"]);
  }

  /** Replies that differ only in their first field decode alike. */
  lemma FirstFieldIgnored(a: string, b: string, rest: string)
    requires ',' !in a && ',' !in b
    ensures Decode(a + [','] + rest) == Decode(b + [','] + rest)
  {
    SplitAfter(a, ',', rest);
    SplitAfter(b, ',', rest);
    DispatchIgnoresFirst(a, b, Split(rest, ','));
  }

  /** Exactly the replies the code cannot read raise an exception: fewer
      than two fields, a poll result without a third field, a client
      command or text without a fourth, a known text kind without its
      text, or a GEN acknowledgement without a third field. */
  lemma MalformedExactly(msg: string)
    ensures var e := Split(msg, ',');
      Decode(msg) == Malformed <==>
        |e| < 2
        || (e[1] == "POLL" && |e| < 3)
        || (e[1] == "POLL" && (e[2] == "CMD" || e[2] == "TXT") && |e| < 4)
        || (e[1] == "POLL" && e[2] == "TXT" && e[3] in ["VO", "SC", "STP", "LARS"] && |e| < 5)
        || (e[1] == "GEN" && |e| < 3)
  {
  }
}
