/**
 * Seawolf_loadConfig: the client library's own "option = value" reader. It
 * differs from Config_readFile in three ways: a line stops at 511 stored
 * characters and the rest is read as the next line, a line without '=' is
 * reported and skipped, and each recognised option calls a setter of the
 * Comm or Logging component. Reports on standard error are kept as a list.
 */
module SeawolfConfig {
  import opened Wrappers
  import opened LibC
  import opened Util
  import Config
  import Logging

  /** MAX_LINE - 1: the most characters one line read stores. */
  const LineLimit: nat := 511

  /** strlower over a NUL-terminated buffer, in place. */
  method StrLower(s: array<char>)
    requires '\0' in s[..]
    modifies s
    ensures '\0' in s[..] && CLen(s[..]) == CLen(old(s[..]))
    ensures CStr(s[..]) == LowerCase(CStr(old(s[..])))
    ensures s[CLen(s[..])..] == old(s[CLen(s[..])..])
  {
    ghost var orig := s[..];
    ghost var n := CLen(orig);
    var i := 0;
    while s[i] != '\0'
      invariant 0 <= i <= n
      invariant forall j :: 0 <= j < i ==> s[j] == ToLower(orig[j])
      invariant forall j :: i <= j < s.Length ==> s[j] == orig[j]
      decreases n - i
    {
      if IsUpper(s[i]) {
        s[i] := ToLower(s[i]);
      }
      i := i + 1;
    }
    assert i == n;
    assert s[..n] == LowerCase(orig[..n]);
    assert s[n..] == orig[n..];
    CLenOfLowered(orig, s[..]);
  }

  /** Lower-casing the characters before the first NUL keeps that NUL where it was. */
  lemma CLenOfLowered(orig: seq<char>, now: seq<char>)
    requires '\0' in orig && |now| == |orig|
    requires now[..CLen(orig)] == LowerCase(orig[..CLen(orig)])
    requires now[CLen(orig)..] == orig[CLen(orig)..]
    ensures '\0' in now && CLen(now) == CLen(orig)
    ensures CStr(now) == LowerCase(CStr(orig))
  {
    var n := CLen(orig);
    assert now[n] == '\0';
    forall j | 0 <= j < n
      ensures now[j] != '\0'
    {
      assert now[j] == ToLower(orig[j]);
    }
    CLenAt(now, n);
  }

  /** The first NUL is at n when buf[n] is NUL and none comes before it. */
  lemma {:induction false} CLenAt(buf: seq<char>, n: nat)
    requires n < |buf| && buf[n] == '\0'
    requires forall j :: 0 <= j < n ==> buf[j] != '\0'
    ensures CLen(buf) == n
    decreases n
  {
    if n > 0 {
      assert buf[1..][n - 1] == '\0';
      CLenAt(buf[1..], n - 1);
    }
  }

  /** trueValue's answer: the lower-cased value is "true", "t", "1", "yes" or "y". */
  predicate TrueValue(v: string) {
    LowerCase(v) in {"true", "t", "1", "yes", "y"}
  }

  /** The truth test ignores case. */
  lemma TrueValueIgnoresCase(v: string)
    ensures TrueValue(UpperCase(v)) == TrueValue(v)
  {
    assert LowerCase(UpperCase(v)) == LowerCase(v) by {
      forall i | 0 <= i < |v|
        ensures LowerCase(UpperCase(v))[i] == LowerCase(v)[i]
      {
        assert ToLower(ToUpper(v[i])) == ToLower(v[i]);
      }
    }
  }

  /** A copy of a C string lower-cased by strlower, as trueValue and the threshold option do it. */
  method LowerCopy(v: string) returns (r: string)
    requires '\0' !in v
    ensures r == LowerCase(v)
  {
    var buf := new char[|v| + 1](i requires 0 <= i <= |v| => if i < |v| then v[i] else '\0');
    assert buf[..] == v + ['\0'];
    CLenAt(buf[..], |v|);
    assert CStr(buf[..]) == v;
    StrLower(buf);
    r := CStr(buf[..]);
  }

  /** trueValue: strlower a copy, then compare with the five true words. */
  method TrueValueOf(v: string) returns (r: bool)
    requires '\0' !in v
    ensures r == TrueValue(v)
  {
    var copy := LowerCopy(v);
    r := copy == "true" || copy == "t" || copy == "1" || copy == "yes" || copy == "y";
  }

  /** The lower-case threshold names in level order. */
  const ThresholdNames: seq<string> := ["debug", "info", "normal", "warning", "error", "critical"]

  /** The level the Logging_threshold option names: its lower-cased value's position, -1 when none. */
  function ThresholdLevel(v: string): (r: int)
    ensures -1 <= r < 6
    ensures r == -1 <==> LowerCase(v) !in ThresholdNames
    ensures r != -1 ==> ThresholdNames[r] == LowerCase(v)
  {
    var l := LowerCase(v);
    if l == "debug" then Logging.Debug
    else if l == "info" then Logging.Info
    else if l == "normal" then Logging.Normal
    else if l == "warning" then Logging.Warning
    else if l == "error" then Logging.Error
    else if l == "critical" then Logging.Critical
    else -1
  }

  /**
   * The threshold option names the same level as Logging_getLevelFromName
   * finds for the value, and is rejected exactly when that finds none.
   */
  lemma ThresholdMatchesLogging(v: string)
    ensures ThresholdLevel(v) == Logging.LevelFromName(v)
  {
    ThresholdNamesLowerForm();
    Logging.LevelNamesDistinct();
    forall l | 0 <= l < 6
      ensures LowerCase(v) == ThresholdNames[l] <==> UpperCase(v) == Logging.LevelNames[l]
    {
      CaseMatch(v, Logging.LevelNames[l], ThresholdNames[l]);
    }
  }

  /** w is u with every letter, all of them capitals, lower-cased. */
  predicate LowerForm(u: string, w: string) {
    |u| == |w| && forall i :: 0 <= i < |u| ==> IsUpper(u[i]) && w[i] as int == u[i] as int + 32
  }

  /** Each threshold name is the lower-case form of the level's name. */
  lemma ThresholdNamesLowerForm()
    ensures forall l :: 0 <= l < 6 ==> LowerForm(Logging.LevelNames[l], ThresholdNames[l])
  {
    assert LowerForm("DEBUG", "debug") && LowerForm("INFO", "info") && LowerForm("NORMAL", "normal");
    assert LowerForm("WARNING", "warning") && LowerForm("ERROR", "error") && LowerForm("CRITICAL", "critical");
  }

  /**
   * For an upper-case word u whose lower-case form is w, a string
   * lower-cases to w exactly when it upper-cases to u.
   */
  lemma CaseMatch(v: string, u: string, w: string)
    requires LowerForm(u, w)
    ensures LowerCase(v) == w <==> UpperCase(v) == u
  {
    if |v| == |u| {
      forall i | 0 <= i < |v|
        ensures LowerCase(v)[i] == w[i] <==> UpperCase(v)[i] == u[i]
      {
        CharCaseMatch(v[i], u[i], w[i]);
      }
      if LowerCase(v) != w {
        var i :| 0 <= i < |v| && LowerCase(v)[i] != w[i];
        assert UpperCase(v)[i] != u[i];
      }
    }
  }

  /** The same for one character: c lowers to the letter wc exactly when it uppers to its capital uc. */
  lemma CharCaseMatch(c: char, uc: char, wc: char)
    requires IsUpper(uc) && wc as int == uc as int + 32
    ensures ToLower(c) == wc <==> ToUpper(c) == uc
  {
  }

  /** The settings the loader can change: Comm's password, server and port, Logging's replication and threshold. */
  datatype Settings = Settings(password: string, server: string, port: int, replicateStdio: bool, threshold: int)

  /** What the loader prints on standard error. */
  datatype Report =
    | OpenFailed(filename: string)
    | ParseFailed(line: string)
    | InvalidThreshold(value: string)
    | UnknownOption(option: string)

  /** The five option names, matched case-sensitively. */
  const KnownOptions: set<string> :=
    {"Comm_password", "Comm_server", "Comm_port", "Logging_replicateStdio", "Logging_threshold"}

  /**
   * The setter an option triggers: each known name sets its one setting
   * (the port through atoi and the uint16_t parameter, the threshold only
   * when the value names a level); every other name changes nothing.
   */
  function Apply(s: Settings, option: string, value: string): (r: Settings)
    ensures option !in KnownOptions ==> r == s
    ensures option == "Comm_password" ==> r == s.(password := value)
    ensures option == "Comm_server" ==> r == s.(server := value)
    ensures option == "Comm_port" ==> r == s.(port := Atoi(value) % 0x1_0000)
    ensures option == "Logging_replicateStdio" ==> r == s.(replicateStdio := TrueValue(value))
    ensures option == "Logging_threshold" && ThresholdLevel(value) != -1 ==> r == s.(threshold := ThresholdLevel(value))
    ensures option == "Logging_threshold" && ThresholdLevel(value) == -1 ==> r == s
    ensures r.password != s.password ==> option == "Comm_password" && r.password == value
    ensures r.server != s.server ==> option == "Comm_server" && r.server == value
    ensures r.port != s.port ==> option == "Comm_port" && 0 <= r.port < 0x1_0000
    ensures r.replicateStdio != s.replicateStdio ==> option == "Logging_replicateStdio"
    ensures r.threshold != s.threshold ==> option == "Logging_threshold" && Logging.IsLevel(r.threshold)
  {
    if option == "Comm_password" then s.(password := value)
    else if option == "Comm_server" then s.(server := value)
    else if option == "Comm_port" then s.(port := Atoi(value) % 0x1_0000)
    else if option == "Logging_replicateStdio" then s.(replicateStdio := TrueValue(value))
    else if option == "Logging_threshold" then
      var level := ThresholdLevel(value);
      if level == -1 then s else s.(threshold := level)
    else s
  }

  /** What an option line prints: the lower-cased value of a bad threshold, or the unknown name. */
  function Complaints(option: string, value: string): (r: seq<Report>)
    ensures r != [] <==> option !in KnownOptions || (option == "Logging_threshold" && ThresholdLevel(value) == -1)
  {
    if option !in KnownOptions then [UnknownOption(option)]
    else if option == "Logging_threshold" && ThresholdLevel(value) == -1 then [InvalidThreshold(LowerCase(value))]
    else []
  }

  /** The threshold option with a level name in any case sets that level. */
  lemma ThresholdOptionSetsLevel(s: Settings, value: string)
    requires Logging.LevelFromName(value) != -1
    ensures Apply(s, "Logging_threshold", value) == s.(threshold := Logging.LevelFromName(value))
    ensures Complaints("Logging_threshold", value) == []
  {
    ThresholdMatchesLogging(value);
  }

  /** Option names are case-sensitive: a name differing only in case is unknown and ignored. */
  lemma OptionNamesCaseSensitive(s: Settings, value: string)
    ensures Apply(s, "comm_port", value) == s
    ensures Complaints("comm_port", value) == [UnknownOption("comm_port")]
  {
    assert "comm_port" != "Comm_port" by {
      assert "comm_port"[0] != "Comm_port"[0];
    }
  }

  /** What one line read leaves: the stored characters, where reading resumes, and whether it ended at EOF. */
  datatype LineRead = LineRead(stored: string, next: nat, eof: bool)

  /**
   * The character loop from pos on: stop, without reading on, once 511
   * characters are stored; stop at the end of input or a newline
   * (consumed); from a '#' on nothing more is stored.
   */
  function ReadLine(input: string, pos: nat, stored: string, comment: bool): (r: LineRead)
    requires pos <= |input| && |stored| <= LineLimit
    ensures pos <= r.next <= |input| && |r.stored| <= LineLimit
    ensures r.next == pos ==> r.stored == stored
    ensures !r.eof && |stored| < LineLimit ==> pos < r.next
    decreases |input| - pos
  {
    if |stored| == LineLimit then LineRead(stored, pos, false)
    else if pos == |input| then LineRead(stored, pos, true)
    else if input[pos] == '\n' then LineRead(stored, pos + 1, false)
    else
      var comment' := comment || input[pos] == '#';
      var stored' := if comment' then stored else stored + [input[pos]];
      ReadLine(input, pos + 1, stored', comment')
  }

  /**
   * One line read from pos, in terms of the line's uncommented text: when
   * that is shorter than 511 characters it is all stored and reading resumes
   * after the newline; otherwise its first 511 characters are stored and
   * reading resumes right after them, so the rest becomes the next line.
   */
  lemma ReadLineSpec(input: string, pos: nat)
    requires pos <= |input|
    ensures var r := ReadLine(input, pos, [], false);
      var e := Config.LineEnd(input, pos);
      var text := Config.Uncommented(input[pos..e]);
      (|text| < LineLimit ==> r.stored == text && r.eof == (e == |input|) && r.next == Config.NextLine(input, pos)) &&
      (|text| >= LineLimit ==> r.stored == text[..LineLimit] && !r.eof && r.next == pos + LineLimit)
  {
    assert input[pos..pos] == [];
    ReadLineFrom(input, pos, pos, Config.LineEnd(input, pos));
  }

  /** The induction behind ReadLineSpec, from position p inside the line. */
  lemma {:induction false} ReadLineFrom(input: string, pos: nat, p: nat, e: nat)
    requires pos <= |input|
    requires pos <= p <= e && e == Config.LineEnd(input, pos)
    requires |Config.Uncommented(input[pos..p])| < LineLimit
    ensures var r := ReadLine(input, p, Config.Uncommented(input[pos..p]), '#' in input[pos..p]);
      var text := Config.Uncommented(input[pos..e]);
      (|text| < LineLimit ==> r.stored == text && r.eof == (e == |input|) && r.next == Config.NextLine(input, pos)) &&
      (|text| >= LineLimit ==> r.stored == text[..LineLimit] && !r.eof && r.next == pos + LineLimit)
    decreases e - p
  {
    var line := input[pos..e];
    if p == e {
      assert input[pos..p] == line;
      if e < |input| {
        assert input[p] == '\n';
      }
    } else {
      ReadLineStep(input, pos, p, e);
      var seen' := input[pos..p + 1];
      Config.UncommentedPrefix(line, p + 1 - pos);
      assert line[..p + 1 - pos] == seen';
      if |Config.Uncommented(seen')| < LineLimit {
        ReadLineFrom(input, pos, p + 1, e);
      } else {
        CutAt(input, pos, p, e);
      }
    }
  }

  /** One character of the line read, as in the Config reader but without the length failure. */
  lemma ReadLineStep(input: string, pos: nat, p: nat, e: nat)
    requires pos <= |input|
    requires pos <= p < e && e == Config.LineEnd(input, pos)
    requires |Config.Uncommented(input[pos..p])| < LineLimit
    ensures var seen' := input[pos..p + 1];
      |Config.Uncommented(seen')| <= LineLimit &&
      ReadLine(input, p, Config.Uncommented(input[pos..p]), '#' in input[pos..p]) ==
        ReadLine(input, p + 1, Config.Uncommented(seen'), '#' in seen')
  {
    var seen := input[pos..p];
    assert input[p] == input[pos..e][p - pos] && input[p] != '\n';
    assert input[pos..p + 1] == seen + [input[p]];
    Config.UncommentedSnoc(seen, input[p]);
  }

  /**
   * When the 511th character is stored at p, the line so far has no '#'
   * and is exactly the first 511 characters of the uncommented text.
   */
  lemma CutAt(input: string, pos: nat, p: nat, e: nat)
    requires pos <= |input|
    requires pos <= p < e && e == Config.LineEnd(input, pos)
    requires |Config.Uncommented(input[pos..p])| < LineLimit
    requires |Config.Uncommented(input[pos..p + 1])| >= LineLimit
    ensures var seen' := input[pos..p + 1];
      var text := Config.Uncommented(input[pos..e]);
      p + 1 == pos + LineLimit && |text| >= LineLimit && text[..LineLimit] == seen' &&
      ReadLine(input, p + 1, Config.Uncommented(seen'), '#' in seen') == LineRead(seen', p + 1, false)
  {
    var seen' := input[pos..p + 1];
    var line := input[pos..e];
    CutAtSeen(input, pos, p);
    assert line[..p + 1 - pos] == seen';
    assert line == seen' + line[p + 1 - pos..];
    Config.IndexOfAppend(seen', line[p + 1 - pos..], '#');
  }

  /** The character that fills the line is no '#', so the whole line so far is stored. */
  lemma CutAtSeen(input: string, pos: nat, p: nat)
    requires pos <= p < |input|
    requires |Config.Uncommented(input[pos..p])| < LineLimit
    requires |Config.Uncommented(input[pos..p + 1])| >= LineLimit
    ensures var seen' := input[pos..p + 1];
      '#' !in seen' && Config.Uncommented(seen') == seen' && |seen'| == LineLimit
  {
    var seen := input[pos..p];
    var seen' := input[pos..p + 1];
    assert seen' == seen + [input[p]];
    Config.UncommentedSnoc(seen, input[p]);
    assert IndexOf(seen', '#') == |seen'|;
  }

  /** What the loader sees of the line starting at pos: its uncommented text, cut at 511, stripped. */
  function LineText(input: string, pos: nat): string
    requires pos <= |input|
  {
    var text := Config.Uncommented(input[pos..Config.LineEnd(input, pos)]);
    Stripped(if |text| < LineLimit then text else text[..LineLimit])
  }

  /** Where the read after the line starting at pos resumes. */
  function NextStart(input: string, pos: nat): (n: nat)
    requires pos <= |input|
    ensures pos <= n <= |input|
  {
    var text := Config.Uncommented(input[pos..Config.LineEnd(input, pos)]);
    if |text| < LineLimit then Config.NextLine(input, pos)
    else
      Config.UncommentedPrefix(input[pos..Config.LineEnd(input, pos)], Config.LineEnd(input, pos) - pos);
      pos + LineLimit
  }

  /**
   * The line loop from pos on, with the settings so far and the reports
   * printed so far: a blank line ending at EOF ends it; another blank line
   * is skipped; a line without '=' is reported and skipped; any other line
   * applies its stripped option and value.
   */
  function Load(input: string, pos: nat, s: Settings, reports: seq<Report>): (r: (Settings, seq<Report>))
    requires pos <= |input|
    ensures reports <= r.1
    decreases |input| - pos
  {
    var l := ReadLine(input, pos, [], false);
    var line := Stripped(CStr(l.stored + ['\0']));
    if line == [] && l.eof then (s, reports)
    else if line == [] then Load(input, l.next, s, reports)
    else if '=' !in line then Load(input, l.next, s, reports + [ParseFailed(line)])
    else
      var (option, value) := Config.SplitOption(line);
      Load(input, l.next, Apply(s, option, value), reports + Complaints(option, value))
  }

  /** Seawolf_loadConfig on a file that is None when it cannot be opened. */
  function LoadFile(filename: string, file: Option<string>, s: Settings, reports: seq<Report>): (r: (Settings, seq<Report>))
    ensures file.None? ==> r == (s, reports + [OpenFailed(filename)])
  {
    match file
    case None => (s, reports + [OpenFailed(filename)])
    case Some(input) => Load(input, 0, s, reports)
  }

  /**
   * One pass of the line loop on the line starting at pos, in terms of its
   * text: a blank line with nothing after it ends the load; a blank line
   * is skipped; a line without '=' is reported and skipped; any other line
   * applies its option. In every case but the first, reading goes on at
   * NextStart, which is right after the 511th character of a longer line.
   */
  lemma LoadLine(input: string, pos: nat, s: Settings, reports: seq<Report>)
    requires pos <= |input| && '\0' !in input
    ensures var text := LineText(input, pos);
      var last := Config.LineEnd(input, pos) == |input| &&
        |Config.Uncommented(input[pos..Config.LineEnd(input, pos)])| < LineLimit;
      var r := Load(input, pos, s, reports);
      (text == [] && last ==> r == (s, reports)) &&
      (text == [] && !last ==> r == Load(input, NextStart(input, pos), s, reports)) &&
      (text != [] && '=' !in text ==> r == Load(input, NextStart(input, pos), s, reports + [ParseFailed(text)])) &&
      (text != [] && '=' in text ==>
        var (option, value) := Config.SplitOption(text);
        r == Load(input, NextStart(input, pos), Apply(s, option, value), reports + Complaints(option, value)))
  {
    var l := ReadLine(input, pos, [], false);
    ReadLineSpec(input, pos);
    var e := Config.LineEnd(input, pos);
    var text := Config.Uncommented(input[pos..e]);
    assert '\0' !in l.stored by {
      assert text == input[pos..e][..IndexOf(input[pos..e], '#')];
    }
    Config.CStrOfLine(l.stored);
  }

  /**
   * A line that reaches 511 characters is cut: its first 511 characters are
   * processed as one line and the load goes on right after them.
   */
  lemma LongLineIsCut(input: string, pos: nat, s: Settings, reports: seq<Report>)
    requires pos <= |input| && '\0' !in input
    requires |Config.Uncommented(input[pos..Config.LineEnd(input, pos)])| >= LineLimit
    ensures NextStart(input, pos) == pos + LineLimit
    ensures LineText(input, pos) == Stripped(input[pos..pos + LineLimit])
  {
    var e := Config.LineEnd(input, pos);
    var line := input[pos..e];
    var text := Config.Uncommented(line);
    assert text == line[..IndexOf(line, '#')];
    assert text[..LineLimit] == input[pos..pos + LineLimit];
  }

  /**
   * The client library's settings as Seawolf_loadConfig leaves them: Comm's
   * auth_password, comm_server and comm_port here, Logging's threshold and
   * replication in the logger, and what was printed on standard error.
   */
  class Client {
    var password: string
    var server: string
    var port: int
    const logger: Logging.Logger
    var reports: seq<Report>

    constructor(logger: Logging.Logger, password: string, server: string, port: int)
      ensures this.logger == logger && this.password == password && this.server == server
      ensures this.port == port && reports == []
    {
      this.logger := logger;
      this.password := password;
      this.server := server;
      this.port := port;
      reports := [];
    }

    function State(): Settings
      reads this, logger
    {
      Settings(password, server, port, logger.logStdio, logger.minLevel)
    }

    /**
     * Seawolf_loadConfig: the settings and reports end up as the line loop
     * describes; the logger's other state is untouched.
     */
    method LoadConfig(filename: string, file: Option<string>)
      modifies this, logger
      ensures (State(), reports) == LoadFile(filename, file, old(State()), old(reports))
      ensures logger.initialized == old(logger.initialized)
      ensures logger.sent == old(logger.sent) && logger.stdout == old(logger.stdout)
    {
      if file.None? {
        reports := reports + [OpenFailed(filename)];
        return;
      }
      var input := file.value;
      var pos := 0;
      while true
        invariant pos <= |input|
        invariant Load(input, pos, State(), reports) == LoadFile(filename, file, old(State()), old(reports))
        invariant logger.initialized == old(logger.initialized)
        invariant logger.sent == old(logger.sent) && logger.stdout == old(logger.stdout)
        decreases |input| - pos
      {
        var done, next := LoadOneLine(input, pos);
        if done {
          return;
        }
        pos := next;
      }
    }

    /**
     * One pass of the line loop on the line starting at pos: either the
     * load is over, or it goes on from next with what this line did.
     */
    method LoadOneLine(input: string, pos: nat) returns (done: bool, next: nat)
      requires pos <= |input|
      modifies this, logger
      ensures done ==> (State(), reports) == old(Load(input, pos, State(), reports))
      ensures !done ==> pos < next <= |input| && Load(input, next, State(), reports) == old(Load(input, pos, State(), reports))
      ensures logger.initialized == old(logger.initialized)
      ensures logger.sent == old(logger.sent) && logger.stdout == old(logger.stdout)
    {
      var l := ScanLine(input, pos);
      var line := Stripped(CStr(l.stored + ['\0']));
      next := l.next;
      if line == [] && l.eof {
        return true, next;
      }
      done := false;
      if line != [] {
        var found, option, value := Util.Split(line + ['\0'], '=');
        CStrOfLineIn(line);
        if found == 1 {
          reports := reports + [ParseFailed(line)];
        } else {
          SplitIsFirst(line, option, value);
          Dispatch(Stripped(option), Stripped(value));
        }
      }
    }

    /** The chain of option-name tests and the setter each one calls. */
    method Dispatch(option: string, value: string)
      requires '\0' !in value
      modifies this, logger
      ensures State() == Apply(old(State()), option, value)
      ensures reports == old(reports) + Complaints(option, value)
      ensures logger.initialized == old(logger.initialized)
      ensures logger.sent == old(logger.sent) && logger.stdout == old(logger.stdout)
    {
      if option == "Comm_password" {
        password := value;
      } else if option == "Comm_server" {
        server := value;
      } else if option == "Comm_port" {
        port := Atoi(value) % 0x1_0000;
      } else if option == "Logging_replicateStdio" {
        var t := TrueValueOf(value);
        logger.ReplicateStdio(t);
      } else if option == "Logging_threshold" {
        var lowered := LowerCopy(value);
        if lowered == "debug" {
          logger.SetThreshold(Logging.Debug);
        } else if lowered == "info" {
          logger.SetThreshold(Logging.Info);
        } else if lowered == "normal" {
          logger.SetThreshold(Logging.Normal);
        } else if lowered == "warning" {
          logger.SetThreshold(Logging.Warning);
        } else if lowered == "error" {
          logger.SetThreshold(Logging.Error);
        } else if lowered == "critical" {
          logger.SetThreshold(Logging.Critical);
        } else {
          reports := reports + [InvalidThreshold(lowered)];
        }
      } else {
        reports := reports + [UnknownOption(option)];
      }
    }
  }

  /** A stripped line held in a buffer is its own C string. */
  lemma CStrOfLineIn(line: string)
    requires '\0' !in line
    ensures CStr(line + ['\0']) == line
  {
    Config.CStrOfLine(line);
  }

  /** Util_split's two parts are the text before the first '=' and the text after it. */
  lemma SplitIsFirst(s: string, p1: string, p2: string)
    requires '=' !in p1 && p1 + ['='] + p2 == s
    ensures '=' in s && Config.SplitOption(s) == (Stripped(p1), Stripped(p2))
  {
    assert s[|p1|] == '=';
    assert IndexOf(s, '=') == |p1| by {
      Config.IndexOfAppend(p1, ['='] + p2, '=');
      assert IndexOf(['='] + p2, '=') == 0;
    }
    assert s[..|p1|] == p1;
    assert s[|p1| + 1..] == p2;
  }

  /** The fgetc loop of Seawolf_loadConfig for one line. */
  method ScanLine(input: string, pos: nat) returns (r: LineRead)
    requires pos <= |input|
    ensures r == ReadLine(input, pos, [], false)
  {
    var line: string := [];
    var comment := false;
    var p := pos;
    while |line| < LineLimit
      invariant pos <= p <= |input| && |line| <= LineLimit
      invariant ReadLine(input, p, line, comment) == ReadLine(input, pos, [], false)
      decreases |input| - p
    {
      if p == |input| {
        return LineRead(line, p, true);
      }
      var c := input[p];
      p := p + 1;
      if c == '\n' {
        return LineRead(line, p, false);
      }
      if c == '#' {
        comment := true;
      }
      if !comment {
        line := line + [c];
      }
    }
    return LineRead(line, p, false);
  }
}
