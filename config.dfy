/**
 * The generic configuration-file reader: "option = value" lines, '#'
 * comments to the end of the line, white space ignored around option and
 * value. The file is given as its character sequence (None when it cannot
 * be opened); the result is the option map, or None with an error code.
 */
module Config {
  import opened Wrappers
  import opened LibC
  import opened Util

  /** MAX_LINE: a line may store at most 511 characters. */
  const MaxLine: nat := 512

  const Success: int := 0
  const ELineTooLong: int := -1
  const EFileAccess: int := -2
  const EParse: int := -3

  /**
   * What the character loop of Config_readFile leaves after one line: the
   * characters stored, where reading stopped, whether it hit the end of the
   * input, and whether the line ran out of room.
   */
  datatype LineRead = LineRead(stored: string, next: nat, eof: bool, tooLong: bool)

  /**
   * The character loop from pos on, with stored characters kept so far and
   * the comment flag: stop at the end of input or a newline (consumed);
   * from a '#' on nothing more is stored; storing the 512th character fails.
   */
  function ReadLine(input: string, pos: nat, stored: string, comment: bool): (r: LineRead)
    requires pos <= |input| && |stored| < MaxLine
    ensures pos <= r.next <= |input|
    ensures r.tooLong ==> |r.stored| == MaxLine
    ensures !r.tooLong ==> |r.stored| < MaxLine
    ensures !r.eof ==> pos < r.next
    ensures r.next == pos ==> r.stored == stored
    decreases |input| - pos
  {
    if pos == |input| then LineRead(stored, pos, true, false)
    else if input[pos] == '\n' then LineRead(stored, pos + 1, false, false)
    else
      var comment' := comment || input[pos] == '#';
      var stored' := if comment' then stored else stored + [input[pos]];
      if |stored'| >= MaxLine then LineRead(stored', pos + 1, false, true)
      else ReadLine(input, pos + 1, stored', comment')
  }

  /** Where the line starting at pos ends: the next newline, or the end of input. */
  function LineEnd(input: string, pos: nat): (e: nat)
    requires pos <= |input|
    ensures pos <= e <= |input|
    ensures '\n' !in input[pos..e]
    ensures e < |input| ==> input[e] == '\n'
  {
    pos + IndexOf(input[pos..], '\n')
  }

  /** A line without its comment: everything before the first '#'. */
  function Uncommented(line: string): (r: string)
    ensures r == line[..IndexOf(line, '#')]
  {
    line[..IndexOf(line, '#')]
  }

  /**
   * One line read from pos: unless it is too long, the stored characters
   * are the line up to its first '#', reading resumes after the newline,
   * and the end of input was hit exactly when the line has no newline. It
   * is too long exactly when that uncommented text has 512 or more
   * characters.
   */
  lemma ReadLineSpec(input: string, pos: nat)
    requires pos <= |input|
    ensures var r := ReadLine(input, pos, [], false);
      var e := LineEnd(input, pos);
      var text := Uncommented(input[pos..e]);
      (r.tooLong <==> |text| >= MaxLine) &&
      (!r.tooLong ==> r.stored == text && r.eof == (e == |input|) &&
                      r.next == (if e == |input| then e else e + 1))
  {
    var e := LineEnd(input, pos);
    ReadLineFrom(input, pos, pos, e);
  }

  /** The induction behind ReadLineSpec, from position p inside the line. */
  lemma {:induction false} ReadLineFrom(input: string, pos: nat, p: nat, e: nat)
    requires pos <= |input|
    requires pos <= p <= e && e == LineEnd(input, pos)
    requires |Uncommented(input[pos..p])| < MaxLine
    ensures var r := ReadLine(input, p, Uncommented(input[pos..p]), '#' in input[pos..p]);
      var text := Uncommented(input[pos..e]);
      (r.tooLong <==> |text| >= MaxLine) &&
      (!r.tooLong ==> r.stored == text && r.eof == (e == |input|) &&
                      r.next == (if e == |input| then e else e + 1))
    decreases e - p
  {
    if p == e {
      ReadLineAtEnd(input, pos, e);
    } else {
      var line := input[pos..e];
      ReadLineStep(input, pos, p, e);
      UncommentedPrefix(line, p + 1 - pos);
      assert line[..p + 1 - pos] == input[pos..p + 1];
      if |Uncommented(input[pos..p + 1])| < MaxLine {
        ReadLineFrom(input, pos, p + 1, e);
      }
    }
  }

  /** At the end of the line, reading stops: after its newline, or at the end of input. */
  lemma ReadLineAtEnd(input: string, pos: nat, e: nat)
    requires pos <= |input| && pos <= e == LineEnd(input, pos)
    requires |Uncommented(input[pos..e])| < MaxLine
    ensures ReadLine(input, e, Uncommented(input[pos..e]), '#' in input[pos..e]) ==
      LineRead(Uncommented(input[pos..e]), if e == |input| then e else e + 1, e == |input|, false)
  {
  }

  /** One character of the line read: what is stored and the comment flag follow the text seen so far. */
  lemma ReadLineStep(input: string, pos: nat, p: nat, e: nat)
    requires pos <= |input|
    requires pos <= p < e && e == LineEnd(input, pos)
    requires |Uncommented(input[pos..p])| < MaxLine
    ensures var seen' := input[pos..p + 1];
      ReadLine(input, p, Uncommented(input[pos..p]), '#' in input[pos..p]) ==
        if |Uncommented(seen')| >= MaxLine then LineRead(Uncommented(seen'), p + 1, false, true)
        else ReadLine(input, p + 1, Uncommented(seen'), '#' in seen')
  {
    var seen := input[pos..p];
    assert input[p] == input[pos..e][p - pos] && input[p] != '\n';
    assert input[pos..p + 1] == seen + [input[p]];
    UncommentedSnoc(seen, input[p]);
  }

  /** Adding a character to a line adds it to the uncommented text unless a '#' has appeared. */
  lemma UncommentedSnoc(s: string, c: char)
    ensures '#' in s + [c] <==> '#' in s || c == '#'
    ensures Uncommented(s + [c]) == if '#' in s || c == '#' then Uncommented(s) else Uncommented(s) + [c]
  {
    var t := s + [c];
    assert t[..|s|] == s;
    if '#' !in s {
      assert IndexOf(s, '#') == |s|;
      assert Uncommented(s) == s;
    }
    if '#' in s {
      var k := IndexOf(s, '#');
      assert IndexOf(t, '#') == k by {
        IndexOfAppend(s, [c], '#');
      }
    } else {
      IndexOfAppend(s, [c], '#');
    }
  }

  /** The first c of a + b is the first c of a, or comes after all of a. */
  lemma {:induction false} IndexOfAppend(a: string, b: string, c: char)
    ensures IndexOf(a + b, c) == if c in a then IndexOf(a, c) else |a| + IndexOf(b, c)
  {
    if a != [] {
      assert (a + b)[1..] == a[1..] + b;
      assert (a + b)[0] == a[0];
      assert c in a <==> a[0] == c || c in a[1..];
      IndexOfAppend(a[1..], b, c);
    } else {
      assert a + b == b;
    }
  }

  /** A line's uncommented text is at least as long as any prefix's. */
  lemma UncommentedPrefix(line: string, k: nat)
    requires k <= |line|
    ensures |Uncommented(line[..k])| <= |Uncommented(line)|
  {
    IndexOfAppend(line[..k], line[k..], '#');
    assert line[..k] + line[k..] == line;
  }

  /** The outcome of Config_readFile: the map or None, config_errno and config_lineno. */
  datatype Outcome = Outcome(config: Option<map<string, string>>, errno: int, lineno: int)

  /** The option and value of a stripped line with an '=': both sides of the first '=', stripped. */
  function SplitOption(line: string): (r: (string, string))
    requires '=' in line
    ensures var k := IndexOf(line, '=');
      r.0 == Stripped(line[..k]) && r.1 == Stripped(line[k + 1..]) && '=' !in line[..k]
  {
    var k := IndexOf(line, '=');
    (Stripped(line[..k]), Stripped(line[k + 1..]))
  }

  /**
   * The parse from the line starting at pos, with lineno lines counted and
   * the options so far in config: a too-long line fails before it is
   * counted; a blank line is skipped, or ends the parse at the end of
   * input; a line without '=' fails; any other line sets its option.
   */
  function Parse(input: string, pos: nat, lineno: int, config: map<string, string>): (r: Outcome)
    requires pos <= |input|
    ensures r.config.Some? <==> r.errno == Success
    ensures r.errno in {Success, ELineTooLong, EParse}
    ensures r.config.Some? ==> config.Keys <= r.config.value.Keys
    decreases |input| - pos
  {
    var l := ReadLine(input, pos, [], false);
    if l.tooLong then Outcome(None, ELineTooLong, lineno)
    else
      var line := Stripped(CStr(l.stored + ['\0']));
      if line == [] && l.eof then Outcome(Some(config), Success, lineno + 1)
      else if line == [] then Parse(input, l.next, lineno + 1, config)
      else if '=' !in line then Outcome(None, EParse, lineno + 1)
      else
        var (option, value) := SplitOption(line);
        Parse(input, l.next, lineno + 1, config[option := value])
  }

  /** Config_readFile's whole outcome for a file, None when it cannot be opened. */
  function ReadConfig(file: Option<string>): (r: Outcome)
    ensures file.None? ==> r == Outcome(None, EFileAccess, 0)
  {
    match file
    case None => Outcome(None, EFileAccess, 0)
    case Some(input) => Parse(input, 0, 0, map[])
  }

  /** The number of newlines in s. */
  function Newlines(s: string): (n: nat)
    ensures n <= |s|
  {
    if s == [] then 0 else Newlines(s[..|s| - 1]) + (if s[|s| - 1] == '\n' then 1 else 0)
  }

  /** The text of the line starting at q as the parser sees it: uncommented, stripped. */
  function LineText(input: string, q: nat): string
    requires q <= |input|
  {
    Stripped(Uncommented(input[q..LineEnd(input, q)]))
  }

  /** A NUL-free line is its own C string. */
  lemma CStrOfLine(s: string)
    requires '\0' !in s
    ensures CStr(s + ['\0']) == s
  {
    assert CLen(s + ['\0']) == |s| by {
      var t := s + ['\0'];
      assert t[|s|] == '\0';
      assert forall j :: 0 <= j < |s| ==> t[j] != '\0';
    }
    assert (s + ['\0'])[..|s|] == s;
  }

  /** Where the line after the one starting at q starts (the end of input when there is none). */
  function NextLine(input: string, q: nat): (n: nat)
    requires q <= |input|
    ensures q <= n <= |input|
  {
    var e := LineEnd(input, q);
    if e == |input| then e else e + 1
  }

  /**
   * One step of Config_readFile on the line starting at pos, in terms of the
   * line's text: a line whose uncommented part has 512 or more characters
   * fails uncounted; a blank last line ends the parse; another blank line
   * is skipped; a line without '=' fails; any other line stores its option
   * and value and parsing goes on with the next line.
   */
  lemma ParseLine(input: string, pos: nat, lineno: int, config: map<string, string>)
    requires pos <= |input| && '\0' !in input
    ensures var e := LineEnd(input, pos);
      var text := LineText(input, pos);
      var r := Parse(input, pos, lineno, config);
      (|Uncommented(input[pos..e])| >= MaxLine ==> r == Outcome(None, ELineTooLong, lineno)) &&
      (|Uncommented(input[pos..e])| < MaxLine ==>
        (text == [] && e == |input| ==> r == Outcome(Some(config), Success, lineno + 1)) &&
        (text == [] && e < |input| ==> r == Parse(input, e + 1, lineno + 1, config)) &&
        (text != [] && '=' !in text ==> r == Outcome(None, EParse, lineno + 1)) &&
        (text != [] && '=' in text ==>
          r == Parse(input, NextLine(input, pos), lineno + 1, config[SplitOption(text).0 := SplitOption(text).1])))
  {
    var l := ReadLine(input, pos, [], false);
    ReadLineSpec(input, pos);
    var e := LineEnd(input, pos);
    if !l.tooLong {
      assert '\0' !in l.stored by {
        assert l.stored == input[pos..e][..IndexOf(input[pos..e], '#')];
      }
      CStrOfLine(l.stored);
    }
  }

  /**
   * config_lineno names the failing line: when the parse from the line
   * start pos stops with CONFIG_EPARSE, it returns the line start q at or after
   * pos whose text is non-blank without '=', and the line number is the
   * count so far plus one for each line from pos to q, that one included.
   */
  lemma {:induction false} ParseErrorLine(input: string, pos: nat, lineno: int, config: map<string, string>, r: Outcome)
      returns (q: nat)
    requires pos <= |input| && '\0' !in input
    requires r == Parse(input, pos, lineno, config) && r.errno == EParse
    ensures ErrorAt(input, pos, q, r.lineno - lineno)
    decreases |input| - pos, 1
  {
    var failsHere, config' := ParseFailStep(input, pos, lineno, config);
    if failsHere {
      q := pos;
    } else {
      q := ParseErrorLater(input, pos, lineno, config', r);
    }
  }

  /** ParseErrorLine when the parse goes on past the first line with the options config' and ends in r. */
  lemma {:induction false} ParseErrorLater(input: string, pos: nat, lineno: int, config': map<string, string>, r: Outcome)
      returns (q: nat)
    requires pos <= |input| && '\0' !in input && LineEnd(input, pos) < |input|
    requires r == Parse(input, LineEnd(input, pos) + 1, lineno + 1, config') && r.errno == EParse
    ensures ErrorAt(input, pos, q, r.lineno - lineno)
    decreases |input| - pos, 0
  {
    var next := LineEnd(input, pos) + 1;
    assert |input| - next < |input| - pos;
    q := ParseErrorLine(input, next, lineno + 1, config', r);
    ErrorAtShift(input, pos, q, r.lineno - (lineno + 1));
  }

  /** A failing line k lines after the next line start is k + 1 lines after this one. */
  lemma ErrorAtShift(input: string, pos: nat, q: nat, k: int)
    requires pos <= |input| && LineEnd(input, pos) < |input|
    requires ErrorAt(input, LineEnd(input, pos) + 1, q, k)
    ensures ErrorAt(input, pos, q, k + 1)
  {
    NewlinesSplit(input, pos, LineEnd(input, pos), q);
  }

  /**
   * A parse that fails with CONFIG_EPARSE either fails on its first line,
   * which is then non-blank without '=' and counted, or goes on from the
   * next line, which exists, with one more line counted and some options.
   */
  lemma ParseFailStep(input: string, pos: nat, lineno: int, config: map<string, string>)
      returns (failsHere: bool, config': map<string, string>)
    requires pos <= |input| && '\0' !in input
    requires Parse(input, pos, lineno, config).errno == EParse
    ensures failsHere ==> ErrorAt(input, pos, pos, Parse(input, pos, lineno, config).lineno - lineno)
    ensures !failsHere ==> LineEnd(input, pos) < |input|
    ensures !failsHere ==>
      Parse(input, pos, lineno, config) == Parse(input, LineEnd(input, pos) + 1, lineno + 1, config')
  {
    ParseLine(input, pos, lineno, config);
    var text := LineText(input, pos);
    failsHere := text != [] && '=' !in text;
    if failsHere {
      assert Newlines(input[pos..pos]) == 0;
      config' := config;
    } else if text == [] {
      config' := config;
    } else {
      config' := config[SplitOption(text).0 := SplitOption(text).1];
    }
  }

  /**
   * q is a line start at or after pos whose text is non-blank without '=',
   * and it is the k-th line counted from pos.
   */
  predicate ErrorAt(input: string, pos: nat, q: nat, k: int)
    requires pos <= |input|
  {
    pos <= q <= |input| && LineText(input, q) != [] && '=' !in LineText(input, q) &&
    k == 1 + Newlines(input[pos..q])
  }

  /** Counting the newlines from pos to q through the newline at e that ends the first line. */
  lemma NewlinesSplit(input: string, pos: nat, e: nat, q: nat)
    requires pos <= e < q <= |input| && input[e] == '\n' && '\n' !in input[pos..e]
    ensures Newlines(input[pos..q]) == 1 + Newlines(input[e + 1..q])
  {
    NewlinesAppend(input[pos..e + 1], input[e + 1..q]);
    assert input[pos..q] == input[pos..e + 1] + input[e + 1..q];
    NewlinesNone(input[pos..e]);
    assert input[pos..e + 1][..e - pos] == input[pos..e];
  }

  lemma {:induction false} NewlinesNone(s: string)
    requires '\n' !in s
    ensures Newlines(s) == 0
  {
    if s != [] {
      NewlinesNone(s[..|s| - 1]);
    }
  }

  lemma {:induction false} NewlinesAppend(a: string, b: string)
    ensures Newlines(a + b) == Newlines(a) + Newlines(b)
    decreases |b|
  {
    if b == [] {
      assert a + b == a;
    } else {
      var b' := b[..|b| - 1];
      NewlinesAppend(a, b');
      assert (a + b)[..|a + b| - 1] == a + b';
    }
  }

  /** Config_truth's answer: the lower-cased value is "1", "true", "yes" or "on". */
  predicate Truth(value: string) {
    LowerCase(value) in {"1", "true", "yes", "on"}
  }

  /** The truth test ignores case. */
  lemma TruthIgnoresCase(value: string)
    ensures Truth(UpperCase(value)) == Truth(value)
  {
    assert LowerCase(UpperCase(value)) == LowerCase(value) by {
      forall i | 0 <= i < |value|
        ensures LowerCase(UpperCase(value))[i] == LowerCase(value)[i]
      {
        var c := value[i];
        assert ToLower(ToUpper(c)) == ToLower(c);
      }
    }
  }

  /** Config_truth: lower-case a copy in a loop, then compare with the four true words. */
  method ConfigTruth(value: string) returns (r: bool)
    ensures r == Truth(value)
  {
    var copy := value;
    var i := 0;
    while i < |copy|
      invariant 0 <= i <= |copy| == |value|
      invariant copy[..i] == LowerCase(value)[..i]
      invariant copy[i..] == value[i..]
    {
      copy := copy[i := ToLower(copy[i])];
      i := i + 1;
    }
    assert copy == LowerCase(value);
    r := copy == "1" || copy == "true" || copy == "yes" || copy == "on";
  }

  /** The reader's static state: config_errno and config_lineno. */
  class Reader {
    var errno: int
    var lineno: int

    constructor()
      ensures errno == Success && lineno == 0
    {
      errno := Success;
      lineno := 0;
    }

    /**
     * Config_readFile over the file's characters: config_errno and
     * config_lineno end up as the parse describes, and the result is the
     * option map or None.
     */
    method ReadFile(file: Option<string>) returns (r: Option<map<string, string>>)
      modifies this
      ensures Outcome(r, errno, lineno) == ReadConfig(file)
    {
      errno := Success;
      lineno := 0;
      if file.None? {
        errno := EFileAccess;
        return None;
      }
      var out := ReadLines(file.value);
      errno, lineno := out.errno, out.lineno;
      r := out.config;
    }
  }

  /**
   * The outer loop of Config_readFile over the characters of an opened
   * file: one line per pass until the parse is over.
   */
  method ReadLines(input: string) returns (out: Outcome)
    ensures out == Parse(input, 0, 0, map[])
  {
    var config: map<string, string> := map[];
    var pos := 0;
    var lineno := 0;
    while true
      invariant pos <= |input|
      invariant Parse(input, pos, lineno, config) == Parse(input, 0, 0, map[])
      decreases |input| - pos
    {
      var done, next, config';
      done, out, next, config' := ReadOneLine(input, pos, lineno, config);
      if done {
        return;
      }
      pos, lineno, config := next, lineno + 1, config';
    }
  }

  /**
   * One pass of Config_readFile's outer loop body on the line starting at
   * pos, with lineno lines counted: either the parse is over with outcome
   * out, or it goes on from next with one more line counted and the
   * options config'.
   */
  method ReadOneLine(input: string, pos: nat, lineno: int, config: map<string, string>)
      returns (done: bool, out: Outcome, next: nat, config': map<string, string>)
    requires pos <= |input|
    ensures done ==> out == Parse(input, pos, lineno, config)
    ensures !done ==> pos < next <= |input| && Parse(input, next, lineno + 1, config') == Parse(input, pos, lineno, config)
  {
    var l := ScanLine(input, pos);
    out, next, config' := Outcome(None, Success, lineno), l.next, config;
    if l.tooLong {
      return true, Outcome(None, ELineTooLong, lineno), next, config';
    }
    var line := Stripped(CStr(l.stored + ['\0']));
    if line == [] && l.eof {
      return true, Outcome(Some(config), Success, lineno + 1), next, config';
    }
    if line == [] {
      return false, out, next, config';
    }
    var k := FindEquals(line);
    if k == |line| {
      return true, Outcome(None, EParse, lineno + 1), next, config';
    }
    assert SplitOption(line) == (Stripped(line[..k]), Stripped(line[k + 1..]));
    config' := config[Stripped(line[..k]) := Stripped(line[k + 1..])];
    done := false;
  }

  /** The fgetc loop of Config_readFile for one line. */
  method ScanLine(input: string, pos: nat) returns (r: LineRead)
    requires pos <= |input|
    ensures r == ReadLine(input, pos, [], false)
  {
    var line: string := [];
    var comment := false;
    var p := pos;
    while true
      invariant pos <= p <= |input| && |line| < MaxLine
      invariant ReadLine(input, p, line, comment) == ReadLine(input, pos, [], false)
      decreases |input| - p
    {
      if p == |input| {
        return LineRead(line, p, true, false);
      }
      var c := input[p];
      p := p + 1;
      if c == '\n' {
        return LineRead(line, p, false, false);
      }
      if c == '#' {
        comment := true;
      }
      if !comment {
        line := line + [c];
      }
      if |line| >= MaxLine {
        return LineRead(line, p, false, true);
      }
    }
  }

  /** The split loop of Config_readFile: the index of the first '=', |line| without one. */
  method FindEquals(line: string) returns (k: nat)
    ensures k == IndexOf(line, '=')
  {
    k := 0;
    while k < |line| && line[k] != '='
      invariant k <= |line| && IndexOf(line[k..], '=') + k == IndexOf(line, '=')
    {
      assert line[k..][1..] == line[k + 1..];
      k := k + 1;
    }
  }
}
