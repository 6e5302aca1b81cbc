/** GetSettings of the poll-driven session controller
    (Assets/Scripts/Server.cs): the participant number is read from the
    ppn file, incremented and written back; then five `name:value` lines
    of the settings file are converted in order, each in its own try
    block, and the first that fails aborts the session with a message
    naming it. The files are given as their lines. */
module SessionSettings {
  import opened Text

  /** The values GetSettings sets: the controller's `serverNumber` and
      `scenarios`, and `Common`'s participant number and timing values.
      The two float settings are kept as the text `float.ToString` gives
      them, which is all the controller does with them. */
  datatype Config = Config(
    serverNumber: int,
    ppn: int,
    ppnFile: Option<string>,    // what was written back to the ppn file
    pollingIntervalText: string,
    buttonTimeOut: int,
    questionTimeOutText: string,
    scenarios: string)

  /** The field initialisers and `Common`'s defaults. */
  const InitialConfig: Config := Config(1, 0, None, "2", 60, "3", "")

  /** The value of a `name:value` settings line: the second piece of
      `line.Split(':')`; None where that throws (no line, no colon). */
  function SettingValue(lines: seq<string>, k: nat): Option<string> {
    var line := ReadLine(lines, k);
    if line.None? then None else Field(line.value, ':', 1)
  }

  /** Every `-`-separated piece of the scenario list is an Int32. */
  predicate ScenarioListValid(scenarios: string) {
    var tokens := Split(scenarios, '-');
    forall i :: 0 <= i < |tokens| ==> ParseInt32(tokens[i]).Some?
  }

  /** The scenario check: `scenarios.Split('-')`, then `int.TryParse` on
      each piece until one fails. */
  method ScenarioListCheck(scenarios: string) returns (ok: bool)
    ensures ok <==> ScenarioListValid(scenarios)
  {
    var tokens := Split(scenarios, '-');
    ok := true;
    var i := 0;
    while i < |tokens|
      invariant 0 <= i <= |tokens|
      invariant forall j :: 0 <= j < i ==> ParseInt32(tokens[j]).Some?
    {
      if ParseInt32(tokens[i]).None? {
        ok := false;
        break;
      }
      i := i + 1;
    }
  }

  /** The abort messages of the settings lines, in file order; each names
      its line. */
  const SettingsErrors: seq<string> := [
    "Fout bij het lezen van de settings. Probleem met <servernummer>. Corrigeer en herstart.",
    "Fout bij het lezen van de settings. Probleem met <polling interval>. Corrigeer en herstart.",
    "Fout bij het lezen van de settings. Probleem met <button timeout>. Corrigeer en herstart.",
    "Fout bij het lezen van de settings. Probleem met <vraagteken timeout>. Corrigeer en herstart.",
    "Fout bij het lezen van de settings. Probleem met <scenarios>. Corrigeer en herstart."]

  /** The abort message for settings line `k`. */
  function SettingsError(k: nat): string
    requires k < 5
  {
    SettingsErrors[k]
  }

  /** The float settings: `(float)Convert.ToDouble(text)` rendered back as
      text by `float.ToString`, for each text the conversion accepts. */
  type FloatTable = map<string, string>

  /** The float conversion of `text`: None where it throws. */
  function ToFloatText(floats: FloatTable, text: string): (r: Option<string>)
    ensures r.Some? <==> text in floats
  {
    if text in floats then Some(floats[text]) else None
  }

  /** Whether the try block for settings line `k` completes. */
  predicate SettingValid(k: nat, value: Option<string>, floats: FloatTable) {
    value.Some? &&
    if k == 0 || k == 2 then ParseInt32(value.value).Some?
    else if k == 1 || k == 3 then ToFloatText(floats, value.value).Some?
    else |value.value| > 0 && ScenarioListValid(value.value)
  }

  /** The assignment the try block for settings line `k` makes. The
      scenario list is stored before it is checked, so it is kept even
      when it fails. */
  function Assign(c: Config, k: nat, value: Option<string>, floats: FloatTable): Config {
    if value.None? then c
    else
      var v := value.value;
      if k == 0 then (if ParseInt32(v).Some? then c.(serverNumber := ParseInt32(v).value) else c)
      else if k == 1 then (if ToFloatText(floats, v).Some? then c.(pollingIntervalText := ToFloatText(floats, v).value) else c)
      else if k == 2 then (if ParseInt32(v).Some? then c.(buttonTimeOut := ParseInt32(v).value) else c)
      else if k == 3 then (if ToFloatText(floats, v).Some? then c.(questionTimeOutText := ToFloatText(floats, v).value) else c)
      else c.(scenarios := v)
  }

  /** The assignments keep the participant number. */
  lemma AssignKeepsPpn(c: Config, k: nat, value: Option<string>, floats: FloatTable)
    ensures Assign(c, k, value, floats).ppn == c.ppn
    ensures Assign(c, k, value, floats).ppnFile == c.ppnFile
  {
  }

  /** The settings try blocks from line `k` on: the configuration they
      leave, and the first line that failed, which stops the reading. */
  function ReadSettingsFrom(c: Config, lines: seq<string>, k: nat, floats: FloatTable)
    : (r: (Config, Option<nat>))
    requires k <= 5
    ensures r.1.Some? ==> k <= r.1.value < 5
    decreases 5 - k
  {
    if k == 5 then (c, None)
    else
      var value := SettingValue(lines, k);
      var d := Assign(c, k, value, floats);
      if SettingValid(k, value, floats) then ReadSettingsFrom(d, lines, k + 1, floats)
      else (d, Some(k))
  }

  /** What GetSettings leaves: an exception from the ppn file, or the new
      configuration and the settings line that failed, if any. */
  datatype Loaded = Thrown | Loaded(config: Config, failure: Option<nat>)

  function LoadSettings(c: Config, ppnLines: seq<string>, lines: seq<string>,
                        floats: FloatTable): (l: Loaded)
    ensures l.Loaded? && l.failure.Some? ==> l.failure.value < 5
  {
    var read := ReadInt32Line(ppnLines);
    if read.None? then Thrown
    else
      var ppn := Wrap32(read.value + 1);
      var (d, failure) := ReadSettingsFrom(c.(ppn := ppn, ppnFile := Some(FormatInt(ppn))), lines, 0, floats);
      Loaded(d, failure)
  }

  /** GetSettings as its steps: the ppn file read as `n`, then the
      settings read from the configuration with the new participant
      number. */
  lemma LoadSettingsSteps(c: Config, ppnLines: seq<string>, lines: seq<string>, floats: FloatTable,
                          n: int, d: Config, failure: Option<nat>)
    requires ReadInt32Line(ppnLines) == Some(n)
    requires (d, failure) == ReadSettingsFrom(c.(ppn := Wrap32(n + 1), ppnFile := Some(FormatInt(Wrap32(n + 1)))),
                                              lines, 0, floats)
    ensures LoadSettings(c, ppnLines, lines, floats) == Loaded(d, failure)
  {
  }

  /** The reading from line `k` on fails exactly when a remaining line is
      invalid, and then at the first such line; the participant number is
      untouched. */
  lemma {:induction false} ReadSettingsFailure(c: Config, lines: seq<string>, k: nat,
                                                floats: FloatTable)
    requires k <= 5
    ensures var (d, failure) := ReadSettingsFrom(c, lines, k, floats);
      d.ppn == c.ppn && d.ppnFile == c.ppnFile
      && (failure.None? <==> forall j :: k <= j < 5 ==> SettingValid(j, SettingValue(lines, j), floats))
      && (failure.Some? ==>
            k <= failure.value < 5
            && !SettingValid(failure.value, SettingValue(lines, failure.value), floats)
            && forall j :: k <= j < failure.value ==> SettingValid(j, SettingValue(lines, j), floats))
    decreases 5 - k
  {
    if k < 5 {
      var value := SettingValue(lines, k);
      AssignKeepsPpn(c, k, value, floats);
      if SettingValid(k, value, floats) {
        ReadSettingsFailure(Assign(c, k, value, floats), lines, k + 1, floats);
      }
    }
  }

  /** The assignments of settings lines `k` up to `n`. */
  function AssignAll(c: Config, lines: seq<string>, k: nat, n: nat, floats: FloatTable): Config
    decreases n - k
  {
    if k >= n then c else AssignAll(Assign(c, k, SettingValue(lines, k), floats), lines, k + 1, n, floats)
  }

  /** Every line up to and including the first failing one has made its
      assignment, and no later line has. */
  lemma {:induction false} ReadSettingsAssigns(c: Config, lines: seq<string>, k: nat,
                                                floats: FloatTable)
    requires k <= 5
    ensures var (d, failure) := ReadSettingsFrom(c, lines, k, floats);
      d == AssignAll(c, lines, k, if failure.Some? then failure.value + 1 else 5, floats)
    decreases 5 - k
  {
    if k < 5 {
      var value := SettingValue(lines, k);
      if SettingValid(k, value, floats) {
        ReadSettingsAssigns(Assign(c, k, value, floats), lines, k + 1, floats);
        ReadSettingsFailure(Assign(c, k, value, floats), lines, k + 1, floats);
      }
    }
  }

  /** A valid settings file sets every value: the server number and button
      timeout are the Int32s of lines one and three, the float texts those
      of lines two and four, the scenario list line five. */
  lemma ValidSettingsApplied(c: Config, lines: seq<string>, floats: FloatTable)
    requires forall j :: 0 <= j < 5 ==> SettingValid(j, SettingValue(lines, j), floats)
    ensures var (d, failure) := ReadSettingsFrom(c, lines, 0, floats);
      failure.None?
      && d.serverNumber == ParseInt32(SettingValue(lines, 0).value).value
      && d.pollingIntervalText == ToFloatText(floats, SettingValue(lines, 1).value).value
      && d.buttonTimeOut == ParseInt32(SettingValue(lines, 2).value).value
      && d.questionTimeOutText == ToFloatText(floats, SettingValue(lines, 3).value).value
      && d.scenarios == SettingValue(lines, 4).value
      && d.ppn == c.ppn
  {
    ReadSettingsFailure(c, lines, 0, floats);
    ReadSettingsAssigns(c, lines, 0, floats);
    assert SettingValid(0, SettingValue(lines, 0), floats);
    assert SettingValid(1, SettingValue(lines, 1), floats);
    assert SettingValid(2, SettingValue(lines, 2), floats);
    assert SettingValid(3, SettingValue(lines, 3), floats);
  }

  /** The participant number goes up by one on every start-up that gets
      past the ppn file, wrapping after MaxInt32, and is written back. */
  lemma PpnIncremented(c: Config, ppnLines: seq<string>, lines: seq<string>,
                       floats: FloatTable)
    requires ReadInt32Line(ppnLines).Some?
    ensures var l := LoadSettings(c, ppnLines, lines, floats);
      l.Loaded?
      && l.config.ppn == (if ReadInt32Line(ppnLines).value == MaxInt32 then MinInt32 else ReadInt32Line(ppnLines).value + 1)
      && l.config.ppnFile == Some(FormatInt(l.config.ppn))
  {
    var n := ReadInt32Line(ppnLines).value;
    Increment(n);
    var ppn := Wrap32(n + 1);
    ReadSettingsFailure(c.(ppn := ppn, ppnFile := Some(FormatInt(ppn))), lines, 0, floats);
  }

  /** GetSettings on a readable ppn file: the participant number goes up
      by one, and the settings fail exactly when one of the five lines
      does, at the first such line. */
  lemma LoadOutcome(c: Config, ppnLines: seq<string>, lines: seq<string>,
                    floats: FloatTable, l: Loaded)
    requires ReadInt32Line(ppnLines).Some? && l == LoadSettings(c, ppnLines, lines, floats)
    ensures l.Loaded? && l.config.ppn == Wrap32(ReadInt32Line(ppnLines).value + 1)
    ensures l.failure.None? <==> forall j :: 0 <= j < 5 ==> SettingValid(j, SettingValue(lines, j), floats)
    ensures l.failure.Some? ==>
      l.failure.value < 5
      && !SettingValid(l.failure.value, SettingValue(lines, l.failure.value), floats)
      && forall j :: 0 <= j < l.failure.value ==> SettingValid(j, SettingValue(lines, j), floats)
  {
    var ppn := Wrap32(ReadInt32Line(ppnLines).value + 1);
    ReadSettingsFailure(c.(ppn := ppn, ppnFile := Some(FormatInt(ppn))), lines, 0, floats);
  }

  /** The participant number written by one start-up is read by the next,
      which continues the count. */
  lemma ConsecutiveParticipants(c: Config, ppnLines: seq<string>, lines: seq<string>,
                                floats: FloatTable,
                                c': Config, lines': seq<string>, floats': FloatTable)
    requires LoadSettings(c, ppnLines, lines, floats).Loaded?
    ensures var d := LoadSettings(c, ppnLines, lines, floats).config;
      d.ppnFile.Some?
      && var l := LoadSettings(c', [d.ppnFile.value], lines', floats');
      l.Loaded? && l.config.ppn == (if d.ppn == MaxInt32 then MinInt32 else d.ppn + 1)
  {
    PpnIncremented(c, ppnLines, lines, floats);
    var d := LoadSettings(c, ppnLines, lines, floats).config;
    ParseFormat(d.ppn);
    assert ReadInt32Line([FormatInt(d.ppn)]) == Some(d.ppn);
    PpnIncremented(c', [d.ppnFile.value], lines', floats');
  }
}
