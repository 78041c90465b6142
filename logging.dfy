/**
 * Client-side logging: the level names and their case-insensitive lookup,
 * and Logging_log's decision to drop a message, send it to the hub as a LOG
 * message, and/or print it.
 */
module Logging {
  import opened LibC
  import opened Util
  import opened Comm

  const Debug: int := 0
  const Info: int := 1
  const Normal: int := 2
  const Warning: int := 3
  const Error: int := 4
  const Critical: int := 5

  /** level_names, indexed by level. */
  const LevelNames: seq<string> := ["DEBUG", "INFO", "NORMAL", "WARNING", "ERROR", "CRITICAL"]

  predicate IsLevel(level: int) {
    Debug <= level <= Critical
  }

  /** Every character is a capital letter. */
  predicate Capitals(s: string) {
    forall i :: 0 <= i < |s| ==> IsUpper(s[i])
  }

  /** A string of capital letters only is its own upper-cased form. */
  lemma CapitalsOnly(s: string)
    requires Capitals(s)
    ensures UpperCase(s) == s
  {
  }

  /** Every level name is non-empty and written in capitals. */
  lemma LevelNameCapitals(level: int)
    requires IsLevel(level)
    ensures LevelNames[level] != [] && UpperCase(LevelNames[level]) == LevelNames[level]
  {
    assert Capitals(LevelNames[level]) by {
      assert Capitals("DEBUG") && Capitals("INFO") && Capitals("NORMAL");
      assert Capitals("WARNING") && Capitals("ERROR") && Capitals("CRITICAL");
    }
    CapitalsOnly(LevelNames[level]);
  }

  /** No two levels share a name. */
  lemma LevelNamesDistinct()
    ensures forall l, m :: IsLevel(l) && IsLevel(m) && l != m ==> LevelNames[l] != LevelNames[m]
  {
  }

  /** Logging_getLevelName: the table entry for a level. */
  function GetLevelName(level: int): (name: string)
    requires IsLevel(level)
    ensures name != [] && UpperCase(name) == name
    ensures forall l :: IsLevel(l) && l != level ==> LevelNames[l] != name
  {
    LevelNameCapitals(level);
    LevelNamesDistinct();
    LevelNames[level]
  }

  /**
   * The first level from lo up whose name equals u, -1 when there is none.
   */
  function ScanLevels(u: string, lo: nat): (r: int)
    requires lo <= 6
    ensures r == -1 <==> forall l :: lo <= l < 6 ==> LevelNames[l] != u
    ensures r != -1 ==> lo <= r < 6 && LevelNames[r] == u
    decreases 6 - lo
  {
    if lo == 6 then -1 else if LevelNames[lo] == u then lo else ScanLevels(u, lo + 1)
  }

  /**
   * Logging_getLevelFromName's answer: the level whose name is the
   * upper-cased argument, -1 when no level has that name.
   */
  function LevelFromName(name: string): (r: int)
    ensures r == -1 <==> forall l :: IsLevel(l) ==> LevelNames[l] != UpperCase(name)
    ensures r != -1 ==> IsLevel(r) && LevelNames[r] == UpperCase(name)
  {
    ScanLevels(UpperCase(name), 0)
  }

  /** Logging_getLevelFromName: upper-case a copy, then scan DEBUG..CRITICAL. */
  method GetLevelFromName(name: string) returns (r: int)
    ensures r == LevelFromName(name)
  {
    var copy := name;
    var i := 0;
    while i < |copy|
      invariant 0 <= i <= |copy| == |name|
      invariant copy[..i] == UpperCase(name)[..i]
      invariant copy[i..] == name[i..]
    {
      copy := copy[i := ToUpper(copy[i])];
      i := i + 1;
    }
    assert copy == UpperCase(name);
    var level := Debug;
    while level <= Critical
      invariant Debug <= level <= Critical + 1
      invariant ScanLevels(copy, 0) == ScanLevels(copy, level)
    {
      if LevelNames[level] == copy {
        return level;
      }
      level := level + 1;
    }
    return -1;
  }

  /** Every level is found again from its own name. */
  lemma LevelFromLevelName(level: int)
    requires IsLevel(level)
    ensures LevelFromName(GetLevelName(level)) == level
  {
    var r := LevelFromName(GetLevelName(level));
    assert r != -1 by {
      assert LevelNames[level] == UpperCase(GetLevelName(level));
    }
  }

  /** The lookup ignores case: a lower-cased name finds the same level. */
  lemma LevelFromNameIgnoresCase(name: string)
    ensures LevelFromName(LowerCase(name)) == LevelFromName(name)
  {
    assert UpperCase(LowerCase(name)) == UpperCase(name) by {
      forall i | 0 <= i < |name|
        ensures UpperCase(LowerCase(name))[i] == UpperCase(name)[i]
      {
        var c := name[i];
        assert ToUpper(ToLower(c)) == ToUpper(c);
      }
    }
  }

  /** snprintf(buf, 4, "%d", level): at most three characters of the decimal form. */
  function LevelField(level: int): (s: string)
    ensures |s| <= 3 && s <= Decimal(level)
    ensures |Decimal(level)| <= 3 ==> s == Decimal(level)
  {
    var d := Decimal(level);
    d[..Min(3, |d|)]
  }

  /** The LOG message Logging_log sends: namespace, application name, level, text. */
  function LogMessage(appName: string, level: int, msg: string): (m: Message)
    ensures m.requestId == 0 && |m.components| == 4
    ensures m.components[0] == "LOG" && m.components[1] == appName && m.components[3] == msg
    ensures m.components[2] == LevelField(level)
  {
    Message(0, ["LOG", appName, LevelField(level), msg])
  }

  /** The hub reads the level of a LOG message back with atoi(). */
  lemma LogMessageLevelReadsBack(appName: string, level: int, msg: string)
    requires IsLevel(level)
    ensures Atoi(LogMessage(appName, level, msg).components[2]) == level
  {
    AtoiOfDecimal(level);
  }

  /** The line printed to standard output: "[app][LEVEL] msg" and a newline. */
  function StdoutLine(appName: string, level: int, msg: string): (line: string)
    requires IsLevel(level)
    ensures |line| > 0 && line[0] == '[' && line[|line| - 1] == '\n'
  {
    "[" + appName + "][" + GetLevelName(level) + "] " + msg + "\n"
  }

  /** The logging component's static state, plus what it has sent and printed. */
  class Logger {
    var initialized: bool
    var minLevel: int
    var logStdio: bool
    /** Seawolf_getName(). */
    const appName: string
    /** Messages handed to Comm_sendMessage. */
    var sent: seq<Message>
    /** Lines printed to standard output. */
    var stdout: seq<string>

    /** The static initialisers: not initialised, threshold NORMAL, replication on. */
    constructor(appName: string)
      ensures !initialized && minLevel == Normal && logStdio
      ensures this.appName == appName && sent == [] && stdout == []
    {
      initialized := false;
      minLevel := Normal;
      logStdio := true;
      this.appName := appName;
      sent := [];
      stdout := [];
    }

    /** Logging_init. */
    method Init()
      modifies this
      ensures initialized
      ensures minLevel == old(minLevel) && logStdio == old(logStdio)
      ensures sent == old(sent) && stdout == old(stdout)
    {
      initialized := true;
    }

    /** Logging_close. */
    method Close()
      modifies this
      ensures !initialized
      ensures minLevel == old(minLevel) && logStdio == old(logStdio)
      ensures sent == old(sent) && stdout == old(stdout)
    {
      initialized := false;
    }

    /** Logging_setThreshold. */
    method SetThreshold(level: int)
      modifies this
      ensures minLevel == level
      ensures initialized == old(initialized) && logStdio == old(logStdio)
      ensures sent == old(sent) && stdout == old(stdout)
    {
      minLevel := level;
    }

    /** Logging_replicateStdio. */
    method ReplicateStdio(doReplicate: bool)
      modifies this
      ensures logStdio == doReplicate
      ensures initialized == old(initialized) && minLevel == old(minLevel)
      ensures sent == old(sent) && stdout == old(stdout)
    {
      logStdio := doReplicate;
    }

    /**
     * Logging_log: below the threshold nothing happens; otherwise the message
     * goes to the hub when initialised and to standard output when
     * replication is on or the component is not initialised. Printing looks
     * the level up in level_names, so a printed level must be one of the six.
     */
    method Log(level: int, msg: string)
      requires level >= minLevel && (logStdio || !initialized) ==> IsLevel(level)
      modifies this
      ensures initialized == old(initialized) && minLevel == old(minLevel) && logStdio == old(logStdio)
      ensures level < old(minLevel) ==> sent == old(sent) && stdout == old(stdout)
      ensures level >= old(minLevel) ==>
        sent == old(sent) + (if initialized then [LogMessage(appName, level, msg)] else [])
      ensures level >= old(minLevel) && (logStdio || !initialized) ==>
        stdout == old(stdout) + [StdoutLine(appName, level, msg)]
      ensures level >= old(minLevel) && !(logStdio || !initialized) ==> stdout == old(stdout)
    {
      if level >= minLevel {
        if initialized {
          sent := sent + [LogMessage(appName, level, msg)];
        }
        if logStdio || !initialized {
          stdout := stdout + [StdoutLine(appName, level, msg)];
        }
      }
    }
  }
}
