/** The .NET string and number operations both controllers rely on:
    `String.Split` on one character, Int32 parsing (`Convert.ToInt32`,
    `int.TryParse` with the default integer style) and formatting, the
    unchecked `++` on an `int`, the unchecked `(ushort)` cast, reading a
    number from the first line of a file, the `"HH:mm:ss"` clock format,
    and the decision-log line with the decisions it records; also the
    texts both controllers show. */
module Text {
  datatype Option<T> = None | Some(value: T)

  const MinInt32: int := -0x8000_0000
  const MaxInt32: int := 0x7FFF_FFFF

  // ---------------------------------------------------------------- Split

  /** `s.Split(sep)`: the pieces between the occurrences of `sep`, so one
      more piece than there are separators. */
  function Split(s: string, sep: char): (parts: seq<string>)
    ensures |parts| >= 1
    decreases |s|
  {
    if |s| == 0 then [""]
    else
      var rest := Split(s[1..], sep);
      if s[0] == sep then [""] + rest else [[s[0]] + rest[0]] + rest[1..]
  }

  /** The pieces written back with `sep` between them (`String.Join`). */
  function Join(parts: seq<string>, sep: char): string
    requires |parts| >= 1
  {
    if |parts| == 1 then parts[0] else parts[0] + [sep] + Join(parts[1..], sep)
  }

  /** Element `k` of `s.Split(sep)`, or None where C# would throw
      IndexOutOfRangeException. */
  function Field(s: string, sep: char, k: nat): (r: Option<string>)
    ensures r.Some? <==> k < |Split(s, sep)|
    ensures r.Some? ==> r.value == Split(s, sep)[k]
  {
    var parts := Split(s, sep);
    if k < |parts| then Some(parts[k]) else None
  }

  /** There is one piece more than there are separators. */
  lemma {:induction false} SplitCount(s: string, sep: char)
    ensures |Split(s, sep)| == multiset(s)[sep] + 1
    decreases |s|
  {
    if |s| > 0 {
      SplitCount(s[1..], sep);
      assert s == [s[0]] + s[1..];
    }
  }

  /** Joining the pieces of a split gives back the string. */
  lemma {:induction false} JoinSplit(s: string, sep: char)
    ensures Join(Split(s, sep), sep) == s
    decreases |s|
  {
    if |s| > 0 {
      JoinSplit(s[1..], sep);
      var rest := Split(s[1..], sep);
      if s[0] != sep && |rest| > 1 {
        assert rest == [rest[0]] + rest[1..];
        assert Join(rest, sep) == rest[0] + [sep] + Join(rest[1..], sep);
      }
    }
  }

  /** No piece of a split holds the separator. */
  lemma {:induction false} SplitPiecesFree(s: string, sep: char)
    ensures forall i :: 0 <= i < |Split(s, sep)| ==> sep !in Split(s, sep)[i]
    decreases |s|
  {
    if |s| > 0 {
      SplitPiecesFree(s[1..], sep);
    }
  }

  /** A string without the separator splits into itself. */
  lemma {:induction false} SplitFree(a: string, sep: char)
    requires sep !in a
    ensures Split(a, sep) == [a]
    decreases |a|
  {
    if |a| > 0 {
      SplitFree(a[1..], sep);
      assert [a[0]] + a[1..] == a;
    }
  }

  /** A separator-free prefix followed by the separator is split off as the
      first piece. */
  lemma {:induction false} SplitAfter(a: string, sep: char, b: string)
    requires sep !in a
    ensures Split(a + [sep] + b, sep) == [a] + Split(b, sep)
    decreases |a|
  {
    if |a| == 0 {
      assert a + [sep] + b == [sep] + b;
      assert ([sep] + b)[1..] == b;
    } else {
      var s := a + [sep] + b;
      assert s[1..] == a[1..] + [sep] + b;
      SplitAfter(a[1..], sep, b);
      assert [a[0]] + a[1..] == a;
    }
  }

  /** Splitting separator-free pieces joined with the separator gives the
      pieces back. */
  lemma {:induction false} SplitJoin(parts: seq<string>, sep: char)
    requires |parts| >= 1
    requires forall i :: 0 <= i < |parts| ==> sep !in parts[i]
    ensures Split(Join(parts, sep), sep) == parts
    decreases |parts|
  {
    if |parts| == 1 {
      SplitFree(parts[0], sep);
    } else {
      SplitJoin(parts[1..], sep);
      SplitAfter(parts[0], sep, Join(parts[1..], sep));
      assert parts == [parts[0]] + parts[1..];
    }
  }

  // ---------------------------------------------------------------- Int32

  /** The white space that the default integer style allows around a
      number: U+0009 to U+000D and U+0020. */
  predicate IsWhite(c: char) {
    c == ' ' || '\t' <= c <= '\r'
  }

  predicate IsDigit(c: char) {
    '0' <= c <= '9'
  }

  predicate AllDigits(s: string) {
    forall i :: 0 <= i < |s| ==> IsDigit(s[i])
  }

  function TrimStart(s: string): string {
    if |s| > 0 && IsWhite(s[0]) then TrimStart(s[1..]) else s
  }

  function TrimEnd(s: string): string {
    if |s| > 0 && IsWhite(s[|s| - 1]) then TrimEnd(s[..|s| - 1]) else s
  }

  /** TrimStart drops a prefix and leaves no white space in front. */
  lemma {:induction false} TrimStartShape(s: string)
    ensures var r := TrimStart(s); (|r| == 0 || !IsWhite(r[0])) && |r| <= |s| && r == s[|s| - |r|..]
    decreases |s|
  {
    if |s| > 0 && IsWhite(s[0]) {
      TrimStartShape(s[1..]);
    }
  }

  /** TrimEnd drops a suffix and leaves no white space at the end. */
  lemma {:induction false} TrimEndShape(s: string)
    ensures var r := TrimEnd(s); (|r| == 0 || !IsWhite(r[|r| - 1])) && |r| <= |s| && r == s[..|r|]
    decreases |s|
  {
    if |s| > 0 && IsWhite(s[|s| - 1]) {
      TrimEndShape(s[..|s| - 1]);
    }
  }

  /** The value of a string of decimal digits, most significant first. */
  function DigitsValue(d: string): nat
    requires AllDigits(d)
  {
    if |d| == 0 then 0
    else
      assert IsDigit(d[|d| - 1]);
      DigitsValue(d[..|d| - 1]) * 10 + (d[|d| - 1] as int - '0' as int)
  }

  /** `int.TryParse(s, out v)` / `Convert.ToInt32(s)` with the default
      integer style: optional white space, an optional `+` or `-`, at least
      one decimal digit, optional white space, and a value that fits in 32
      bits. None is the failure (TryParse returns false, Convert throws). */
  function ParseInt32(s: string): Option<int> {
    var t := TrimEnd(TrimStart(s));
    var negative := |t| > 0 && t[0] == '-';
    var digits := if |t| > 0 && (t[0] == '-' || t[0] == '+') then t[1..] else t;
    if |digits| == 0 || !AllDigits(digits) then None
    else
      var magnitude: int := DigitsValue(digits);
      var v := if negative then -magnitude else magnitude;
      if MinInt32 <= v <= MaxInt32 then Some(v) else None
  }

  function Digit(n: int): char
    requires 0 <= n < 10
  {
    ('0' as int + n) as char
  }

  /** The decimal digits of `n`, without leading zeros. */
  function FormatNat(n: nat): string
    decreases n
  {
    if n < 10 then [Digit(n)] else FormatNat(n / 10) + [Digit(n % 10)]
  }

  /** `n.ToString()`: a `-` for negative numbers, then the digits. */
  function FormatInt(n: int): string {
    if n < 0 then "-" + FormatNat(-n) else FormatNat(n)
  }

  /** FormatNat writes at least one digit, only digits, and their value
      is `n`. */
  lemma {:induction false} FormatNatValue(n: nat)
    ensures |FormatNat(n)| >= 1 && AllDigits(FormatNat(n))
    ensures DigitsValue(FormatNat(n)) == n
    decreases n
  {
    if n >= 10 {
      FormatNatValue(n / 10);
      var d := FormatNat(n);
      assert d[..|d| - 1] == FormatNat(n / 10);
    }
  }

  /** A string that neither starts nor ends with white space is not
      changed by trimming. */
  lemma TrimNothing(s: string)
    requires |s| > 0 && !IsWhite(s[0]) && !IsWhite(s[|s| - 1])
    ensures TrimEnd(TrimStart(s)) == s
  {
  }

  /** Every Int32 written with ToString reads back as itself: the ppn file
      written by one session is parsed by the next. */
  lemma ParseFormat(n: int)
    requires MinInt32 <= n <= MaxInt32
    ensures ParseInt32(FormatInt(n)) == Some(n)
  {
    var m := if n < 0 then -n else n;
    FormatNatValue(m);
    var d := FormatNat(m);
    var s := FormatInt(n);
    if n < 0 {
      assert s == "-" + d;
      assert s[1..] == d;
    } else {
      assert s == d;
      assert IsDigit(s[0]);
    }
    assert IsDigit(s[|s| - 1]);
    TrimNothing(s);
  }

  /** A character that is neither white space, a digit nor a sign makes
      the parse fail. */
  lemma ParseRejectsNonDigits(s: string, i: int)
    requires 0 <= i < |s| && !IsWhite(s[i]) && !IsDigit(s[i]) && s[i] != '-' && s[i] != '+'
    ensures ParseInt32(s) == None
  {
    var t1 := TrimStart(s);
    var t := TrimEnd(t1);
    TrimStartShape(s);
    TrimEndShape(t1);
    var k1 := |s| - |t1|;
    assert k1 <= i by {
      if i < k1 {
        TrimStartSkipsWhite(s, i);
      }
    }
    assert t1[i - k1] == s[i];
    assert i - k1 < |t| by {
      if i - k1 >= |t| {
        TrimEndSkipsWhite(t1, i - k1);
      }
    }
    assert t[i - k1] == s[i];
    var digits := if |t| > 0 && (t[0] == '-' || t[0] == '+') then t[1..] else t;
    if |t| > 0 && (t[0] == '-' || t[0] == '+') {
      assert 0 < i - k1;
      assert digits[i - k1 - 1] == s[i];
    } else {
      assert digits[i - k1] == s[i];
    }
    assert !AllDigits(digits);
  }

  /** The characters TrimStart drops are white space. */
  lemma {:induction false} TrimStartSkipsWhite(s: string, i: int)
    requires 0 <= i < |s| - |TrimStart(s)|
    ensures IsWhite(s[i])
    decreases |s|
  {
    if i > 0 {
      TrimStartSkipsWhite(s[1..], i - 1);
    }
  }

  /** The characters TrimEnd drops are white space. */
  lemma {:induction false} TrimEndSkipsWhite(s: string, i: int)
    requires |TrimEnd(s)| <= i < |s|
    ensures IsWhite(s[i])
    decreases |s|
  {
    if i < |s| - 1 {
      TrimEndSkipsWhite(s[..|s| - 1], i);
    }
  }

  // ---------------------------------------------------------------- files

  /** Line `k` of a file as ReadLine returns it: None (null) past the end. */
  function ReadLine(lines: seq<string>, k: nat): (r: Option<string>)
    ensures r.Some? <==> k < |lines|
  {
    if k < |lines| then Some(lines[k]) else None
  }

  /** `Convert.ToInt32(ReadLine())` on the first line of a file: a missing
      line (null) converts to 0; text that is not an Int32 throws (None). */
  function ReadInt32Line(lines: seq<string>): (r: Option<int>)
    ensures r.Some? ==> MinInt32 <= r.value <= MaxInt32
  {
    var line := ReadLine(lines, 0);
    if line.None? then Some(0) else ParseInt32(line.value)
  }

  // ---------------------------------------------------------------- screen

  /** Texts both controllers put on screen. */
  const SessionEnded: string := "Einde sessie"
  const NoScenario: string := "Scenario: -"
  const NoStep: string := "Stap: -"

  // ---------------------------------------------------------------- widths

  /** An `int` result of unchecked 32-bit arithmetic: the value modulo 2^32,
      read as two's complement. */
  function Wrap32(x: int): int {
    (x - MinInt32) % 0x1_0000_0000 + MinInt32
  }

  /** `n++` on an Int32 adds one, except that MaxInt32 wraps to MinInt32. */
  lemma Increment(n: int)
    requires MinInt32 <= n <= MaxInt32
    ensures Wrap32(n + 1) == if n == MaxInt32 then MinInt32 else n + 1
    ensures MinInt32 <= Wrap32(n + 1) <= MaxInt32
  {
  }

  /** The unchecked `(ushort)` cast: the low 16 bits. */
  function ToUshort(x: int): (r: int)
    ensures 0 <= r < 0x1_0000
    ensures (x - r) % 0x1_0000 == 0
  {
    x % 0x1_0000
  }

  /** A value that already fits in 16 bits is unchanged by the cast, and the
      cast only sees `x` modulo 2^16. */
  lemma UshortKeeps(x: int, k: int)
    ensures 0 <= x < 0x1_0000 ==> ToUshort(x) == x
    ensures ToUshort(x + k * 0x1_0000) == ToUshort(x)
  {
    assert (x + k * 0x1_0000) % 0x1_0000 == x % 0x1_0000;
  }

  // ---------------------------------------------------------------- clock

  const TicksPerSecond: int := 10_000_000

  /** The time of day of a DateTime given in 100-nanosecond ticks. */
  function Hour(ticks: nat): int { (ticks / (3600 * TicksPerSecond)) % 24 }
  function Minute(ticks: nat): int { (ticks / (60 * TicksPerSecond)) % 60 }
  function Second(ticks: nat): int { (ticks / TicksPerSecond) % 60 }

  /** Two digits with a leading zero. */
  function Pad2(n: int): string
    requires 0 <= n < 100
  {
    [Digit(n / 10), Digit(n % 10)]
  }

  /** `DateTime.ToString("HH:mm:ss")`. */
  function FormatClock(ticks: nat): string {
    Pad2(Hour(ticks)) + ":" + Pad2(Minute(ticks)) + ":" + Pad2(Second(ticks))
  }

  /** The clock text is eight characters; its three fields read back as the
      hour, minute and second, which together give the second of the day. */
  lemma ClockReadBack(ticks: nat)
    ensures |FormatClock(ticks)| == 8 && FormatClock(ticks)[2] == ':' && FormatClock(ticks)[5] == ':'
    ensures AllDigits(FormatClock(ticks)[0..2]) && DigitsValue(FormatClock(ticks)[0..2]) == Hour(ticks)
    ensures AllDigits(FormatClock(ticks)[3..5]) && DigitsValue(FormatClock(ticks)[3..5]) == Minute(ticks)
    ensures AllDigits(FormatClock(ticks)[6..8]) && DigitsValue(FormatClock(ticks)[6..8]) == Second(ticks)
    ensures Hour(ticks) * 3600 + Minute(ticks) * 60 + Second(ticks) == (ticks / TicksPerSecond) % 86400
  {
    ClockFields(Hour(ticks), Minute(ticks), Second(ticks));
    TimeOfDay(ticks);
  }

  lemma ClockFields(h: int, m: int, sec: int)
    requires 0 <= h < 24 && 0 <= m < 60 && 0 <= sec < 60
    ensures var c := Pad2(h) + ":" + Pad2(m) + ":" + Pad2(sec);
      |c| == 8 && c[2] == ':' && c[5] == ':'
      && c[0..2] == Pad2(h) && c[3..5] == Pad2(m) && c[6..8] == Pad2(sec)
      && AllDigits(Pad2(h)) && DigitsValue(Pad2(h)) == h
      && AllDigits(Pad2(m)) && DigitsValue(Pad2(m)) == m
      && AllDigits(Pad2(sec)) && DigitsValue(Pad2(sec)) == sec
  {
    Pad2Value(h);
    Pad2Value(m);
    Pad2Value(sec);
  }

  /** Hour, minute and second of a time make up its second of the day. */
  lemma TimeOfDay(ticks: nat)
    ensures Hour(ticks) * 3600 + Minute(ticks) * 60 + Second(ticks) == (ticks / TicksPerSecond) % 86400
  {
    TicksDiv60(ticks);
    TicksDiv3600(ticks);
    SecondOfDay(ticks / TicksPerSecond);
  }

  lemma TicksDiv60(ticks: nat)
    ensures ticks / (60 * TicksPerSecond) == (ticks / TicksPerSecond) / 60
  {
    var sec, r1 := ticks / TicksPerSecond, ticks % TicksPerSecond;
    var m, r := sec / 60, sec % 60;
    assert ticks == 600_000_000 * m + (10_000_000 * r + r1);
  }

  lemma TicksDiv3600(ticks: nat)
    ensures ticks / (3600 * TicksPerSecond) == (ticks / TicksPerSecond) / 3600
  {
    var sec, r1 := ticks / TicksPerSecond, ticks % TicksPerSecond;
    var h, r := sec / 3600, sec % 3600;
    assert ticks == 36_000_000_000 * h + (10_000_000 * r + r1);
  }

  lemma Pad2Value(n: int)
    requires 0 <= n < 100
    ensures AllDigits(Pad2(n)) && DigitsValue(Pad2(n)) == n
  {
    var p := Pad2(n);
    assert p[..1] == [Digit(n / 10)];
    assert p[..1][..0] == [];
    assert DigitsValue(p[..1]) == n / 10;
    assert DigitsValue(p) == n / 10 * 10 + n % 10;
  }

  /** Hours, minutes and seconds of a count of seconds make up its second
      of the day. */
  lemma SecondOfDay(sec: nat)
    ensures (sec / 3600) % 24 * 3600 + (sec / 60) % 60 * 60 + sec % 60 == sec % 86400
  {
    var d, r := sec / 86400, sec % 86400;
    assert sec == d * 86400 + r;
    assert sec / 3600 == d * 24 + r / 3600;
    assert sec / 60 == d * 1440 + r / 60;
    assert (sec / 3600) % 24 == r / 3600;
    assert (sec / 60) % 60 == (r / 60) % 60;
    assert sec % 60 == r % 60;
  }

  // ---------------------------------------------------------------- decisions

  /** The reaction button a logged decision comes from; both controllers
      log `wel`, `niet` and `Alg1`..`Alg6` for the same buttons. */
  function DecisionButton(decision: string): string {
    if decision == "wel" then "btnPositive"
    else if decision == "niet" then "btnNegative"
    else if |decision| >= 3 then "btnGeneric" + decision[3..]
    else ""
  }

  // ---------------------------------------------------------------- log

  /** The line WriteLogLine writes:
      `<HH:mm:ss>,<ppn>,<scenario>,<step>,<decision>`. */
  function LogLine(ticks: nat, ppn: int, scenario: string, stap: string, decision: string): string {
    FormatClock(ticks) + "," + FormatInt(ppn) + "," + scenario + "," + stap + "," + decision
  }

  /** The clock and the formatted ppn hold no comma. */
  lemma LogPrefixCommaFree(ticks: nat, ppn: int)
    ensures ',' !in FormatClock(ticks) && ',' !in FormatInt(ppn)
  {
    ClockReadBack(ticks);
    var c := FormatClock(ticks);
    assert c == Pad2(Hour(ticks)) + ":" + Pad2(Minute(ticks)) + ":" + Pad2(Second(ticks));
    assert forall i :: 0 <= i < 8 ==> c[i] != ',';
    var m := if ppn < 0 then -ppn else ppn;
    FormatNatValue(m);
    var f := FormatInt(ppn);
    if ppn < 0 {
      assert f == "-" + FormatNat(m);
    }
    assert forall i :: 0 <= i < |f| ==> f[i] != ',';
  }

  lemma JoinFive(a: string, b: string, c: string, d: string, e: string, sep: char)
    ensures Join([a, b, c, d, e], sep) == a + [sep] + b + [sep] + c + [sep] + d + [sep] + e
  {
    var f := [a, b, c, d, e];
    assert f[1..] == [b, c, d, e];
    assert f[1..][1..] == [c, d, e];
    assert f[1..][1..][1..] == [d, e];
    assert f[1..][1..][1..][1..] == [e];
    assert Join([d, e], sep) == d + [sep] + e;
    assert Join([c, d, e], sep) == c + [sep] + d + [sep] + e;
    assert Join([b, c, d, e], sep) == b + [sep] + c + [sep] + d + [sep] + e;
  }

  /** When scenario, step and decision hold no comma, the log line splits
      back into its five fields. */
  lemma LogLineFields(ticks: nat, ppn: int, scenario: string, stap: string, decision: string)
    requires ',' !in scenario && ',' !in stap && ',' !in decision
    ensures Split(LogLine(ticks, ppn, scenario, stap, decision), ',')
         == [FormatClock(ticks), FormatInt(ppn), scenario, stap, decision]
  {
    var fields := [FormatClock(ticks), FormatInt(ppn), scenario, stap, decision];
    LogPrefixCommaFree(ticks, ppn);
    JoinFive(FormatClock(ticks), FormatInt(ppn), scenario, stap, decision, ',');
    SplitJoin(fields, ',');
  }
}
