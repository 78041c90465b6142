/**
 * The hub's configuration: a table seeded with the eight valid options and
 * their defaults, overridden by the valid options of a configuration file
 * read with Config_readFile. The file system is given as a map from paths
 * that exist to their contents (None when the file cannot be opened).
 */
module HubConfig {
  import opened Wrappers
  import opened LibC
  import Config
  import Logging

  /** valid_options: each option with its default value, in table order. */
  const ValidOptions: seq<(string, string)> := [
    ("bind_address", "127.0.0.1"),
    ("bind_port", "31427"),
    ("password", ""),
    ("var_db", "seawolf_var.db"),
    ("var_defs", "seawolf_var.defs"),
    ("log_file", ""),
    ("log_replicate_stdout", "1"),
    ("log_level", "NORMAL")
  ]

  const ValidNames: set<string> :=
    {"bind_address", "bind_port", "password", "var_db", "var_defs", "log_file", "log_replicate_stdout", "log_level"}

  const HomeFile: string := "/.swhubrc"
  const SystemFile: string := "/etc/seawolf_hub.conf"

  /** A line logged through Hub_Logging_log, or through the client library's Logging_log. */
  datatype LogLine = HubLog(level: int, text: string) | ClientLog(level: int, text: string)

  const NotFound: string := "Could not find configuration file! Continuing with default configuration!"

  /** The table the seeding loop builds from the first n entries of valid_options. */
  function Seeded(n: nat): (m: map<string, string>)
    requires n <= |ValidOptions|
  {
    if n == 0 then map[] else Seeded(n - 1)[ValidOptions[n - 1].0 := ValidOptions[n - 1].1]
  }

  /** The default table. */
  function Defaults(): map<string, string> {
    map["bind_address" := "127.0.0.1", "bind_port" := "31427", "password" := "",
        "var_db" := "seawolf_var.db", "var_defs" := "seawolf_var.defs", "log_file" := "",
        "log_replicate_stdout" := "1", "log_level" := "NORMAL"]
  }

  /**
   * Seeding every entry of valid_options gives the default table: the
   * eight valid options, each with its default value.
   */
  lemma SeededIsDefaults()
    ensures Seeded(|ValidOptions|) == Defaults()
    ensures Defaults().Keys == ValidNames
    ensures forall i :: 0 <= i < |ValidOptions| ==> Defaults()[ValidOptions[i].0] == ValidOptions[i].1
  {
    assert Seeded(1) == map["bind_address" := "127.0.0.1"];
    assert Seeded(2) == Seeded(1)["bind_port" := "31427"];
    assert Seeded(3) == Seeded(2)["password" := ""];
    assert Seeded(4) == Seeded(3)["var_db" := "seawolf_var.db"];
    assert Seeded(5) == Seeded(4)["var_defs" := "seawolf_var.defs"];
    assert Seeded(6) == Seeded(5)["log_file" := ""];
    assert Seeded(7) == Seeded(6)["log_replicate_stdout" := "1"];
    assert Seeded(8) == Seeded(7)["log_level" := "NORMAL"];
  }

  /**
   * Hub_Config_chooseConfigFile: a file already chosen is kept without a
   * look at the file system; otherwise $HOME/.swhubrc when HOME is set and
   * the file exists, else /etc/seawolf_hub.conf when it exists, else none.
   */
  function ChosenFile(current: Option<string>, home: Option<string>, fs: map<string, Option<string>>): (r: Option<string>)
    ensures current.Some? ==> r == current
    ensures current.None? && r.Some? ==> r.value in fs
  {
    if current.Some? then current
    else
      var homePath := if home.Some? then Some(home.value + HomeFile) else None;
      var path := if homePath.None? || homePath.value !in fs then SystemFile else homePath.value;
      if path !in fs then None else Some(path)
  }

  /** The probing order: the home file wins over the system file, which is used only when it exists. */
  lemma ChoiceOrder(home: Option<string>, fs: map<string, Option<string>>)
    ensures home.Some? && home.value + HomeFile in fs ==> ChosenFile(None, home, fs) == Some(home.value + HomeFile)
    ensures !(home.Some? && home.value + HomeFile in fs) ==>
      ChosenFile(None, home, fs) == (if SystemFile in fs then Some(SystemFile) else None)
  {
  }

  /** What fopen gives for a path: its contents, None when it is missing or cannot be opened. */
  function Open(fs: map<string, Option<string>>, path: string): Option<string> {
    if path in fs then fs[path] else None
  }

  /** The merged table: a valid option takes the file's value when the file has one. */
  function Merge(defaults: map<string, string>, file: map<string, string>): (m: map<string, string>)
    ensures m.Keys == defaults.Keys
  {
    map k | k in defaults :: if k in file then file[k] else defaults[k]
  }

  /**
   * The table after the merge loop has looked at the options in done, in
   * order: a valid one (a key of the table) takes the file's value.
   */
  function MergeSome(defaults: map<string, string>, file: map<string, string>, done: seq<string>): (m: map<string, string>)
    requires forall i :: 0 <= i < |done| ==> done[i] in file
    ensures m.Keys == defaults.Keys
  {
    if done == [] then defaults
    else
      var k := done[|done| - 1];
      var m := MergeSome(defaults, file, done[..|done| - 1]);
      if k in m then m[k := file[k]] else m
  }

  /** One more option looked at: a valid one takes the file's value, any other adds a warning. */
  lemma MergeStep(defaults: map<string, string>, file: map<string, string>, done: seq<string>, option: string)
    requires forall i :: 0 <= i < |done| ==> done[i] in file
    requires option in file
    ensures MergeSome(defaults, file, done + [option]) ==
      if option in defaults then MergeSome(defaults, file, done)[option := file[option]] else MergeSome(defaults, file, done)
    ensures UnknownWarnings(defaults.Keys, done + [option]) ==
      UnknownWarnings(defaults.Keys, done) + if option !in defaults then [ClientLog(Logging.Warning, UnknownText(option))] else []
  {
    assert (done + [option])[..|done|] == done;
  }

  /**
   * After the options in done, each key of the table holds the file's
   * value when done lists it, and its default otherwise.
   */
  lemma {:induction false} MergeSomeValues(defaults: map<string, string>, file: map<string, string>, done: seq<string>)
    requires forall i :: 0 <= i < |done| ==> done[i] in file
    ensures forall k :: k in defaults ==> MergeSome(defaults, file, done)[k] == if k in done then file[k] else defaults[k]
  {
    if done != [] {
      var init := done[..|done| - 1];
      MergeSomeValues(defaults, file, init);
      assert done == init + [done[|done| - 1]];
      forall k | k in defaults
        ensures k in done <==> k in init || k == done[|done| - 1]
      {
      }
    }
  }

  /** Looking at every key of the file gives the whole merge. */
  lemma MergeAllKeys(defaults: map<string, string>, file: map<string, string>, keys: seq<string>)
    requires Enumerates(keys, file)
    ensures MergeSome(defaults, file, keys) == Merge(defaults, file)
  {
    MergeSomeValues(defaults, file, keys);
  }

  /** Options the file gives that are not valid change nothing. */
  lemma UnknownOptionsIgnored(file: map<string, string>)
    ensures Merge(Defaults(), file) == Merge(Defaults(), map k | k in file && k in ValidNames :: file[k])
  {
  }

  /** After the merge the table holds exactly the eight options: the file's value where it has one, else the default. */
  lemma MergedTable(file: map<string, string>)
    ensures Merge(Defaults(), file).Keys == ValidNames
    ensures forall k :: k in ValidNames && k in file ==> Merge(Defaults(), file)[k] == file[k]
    ensures forall k :: k in ValidNames && k !in file ==> Merge(Defaults(), file)[k] == Defaults()[k]
  {
  }

  /** The warning for an option the hub does not know. */
  function UnknownText(option: string): string {
    "Unknown configuration option '" + option + "'"
  }

  /** The warnings the merge loop logs for the options in ks, in order, when the valid options are valid. */
  function UnknownWarnings(valid: set<string>, ks: seq<string>): (r: seq<LogLine>)
    ensures |r| <= |ks|
  {
    if ks == [] then []
    else
      var k := ks[|ks| - 1];
      UnknownWarnings(valid, ks[..|ks| - 1]) + if k !in valid then [ClientLog(Logging.Warning, UnknownText(k))] else []
  }

  /** The warnings name exactly the listed options that are not valid. */
  lemma {:induction false} UnknownWarningsExactly(valid: set<string>, ks: seq<string>, option: string)
    ensures ClientLog(Logging.Warning, UnknownText(option)) in UnknownWarnings(valid, ks) <==> option in ks && option !in valid
  {
    if ks != [] {
      var init := ks[..|ks| - 1];
      UnknownWarningsExactly(valid, init, option);
      assert option in ks <==> option in init || option == ks[|ks| - 1] by {
        assert ks == init + [ks[|ks| - 1]];
      }
      var k := ks[|ks| - 1];
      if k !in valid && UnknownText(k) == UnknownText(option) {
        assert k == option by {
          var prefix := "Unknown configuration option '";
          assert UnknownText(k)[|prefix|..|prefix| + |k|] == k;
          assert UnknownText(option)[|prefix|..|prefix| + |option|] == option;
          assert |k| == |option|;
        }
      }
    }
  }

  /** keys lists the keys of m, each once. */
  ghost predicate Enumerates(keys: seq<string>, m: map<string, string>) {
    (forall k :: k in m <==> k in keys) &&
    (forall i, j :: 0 <= i < j < |keys| ==> keys[i] != keys[j])
  }

  /** The line logged for a failed Config_readFile, by config_errno. */
  function ReadErrorLine(errno: int, lineno: int, reason: string): LogLine {
    if errno == Config.EFileAccess then HubLog(Logging.Warning, "Failed to open configuration file: " + reason)
    else if errno == Config.ELineTooLong then HubLog(Logging.Critical, "Line exceeded maximum allowable length at line " + Decimal(lineno))
    else if errno == Config.EParse then HubLog(Logging.Critical, "Parse error occured on line " + Decimal(lineno))
    else HubLog(Logging.Critical, "Unknown error occured while reading configuration file")
  }

  /** Dictionary_getKeys on the file's table: its keys, each once, in some order. */
  method KeysOf(m: map<string, string>) returns (keys: seq<string>)
    ensures Enumerates(keys, m)
  {
    keys := [];
    var rest := m.Keys;
    while rest != {}
      invariant forall k :: k in m <==> k in keys || k in rest
      invariant forall k :: k in rest ==> k !in keys
      invariant forall i, j :: 0 <= i < j < |keys| ==> keys[i] != keys[j]
      decreases |rest|
    {
      var k :| k in rest;
      keys := keys + [k];
      rest := rest - {k};
    }
  }

  /** The hub configuration component's static state. */
  class HubConfig {
    /** hub_config_file. */
    var configFile: Option<string>
    /** The config dictionary; meaningful once processed. */
    var table: map<string, string>
    var processed: bool
    /** What was logged, in order. */
    var log: seq<LogLine>

    constructor()
      ensures configFile == None && !processed && log == []
    {
      configFile := None;
      table := map[];
      processed := false;
      log := [];
    }

    /** Hub_Config_loadConfig: use this file. */
    method LoadConfig(filename: string)
      modifies this
      ensures configFile == Some(filename)
      ensures table == old(table) && processed == old(processed) && log == old(log)
    {
      configFile := Some(filename);
    }

    /** Hub_Config_getOption: the stored value, None (NULL) for an unknown key. */
    function GetOption(key: string): (r: Option<string>)
      requires processed
      reads this
      ensures r.Some? <==> key in table
      ensures r.Some? ==> r.value == table[key]
    {
      if key in table then Some(table[key]) else None
    }

    /**
     * Hub_Config_processConfig with the environment's HOME, the file system
     * and strerror's text for a failed open. Without a file the defaults
     * stay; a file that fails to read logs why and ends in Hub_exitError
     * (exitError); otherwise the valid options of the file override the
     * defaults, and each other option is warned about once, in the order
     * keys of the file's table lists them.
     */
    method ProcessConfig(home: Option<string>, fs: map<string, Option<string>>, reason: string)
        returns (exitError: bool, keys: seq<string>)
      modifies this
      ensures processed
      ensures configFile == (if ChosenFile(old(configFile), home, fs).Some? then ChosenFile(old(configFile), home, fs) else old(configFile))
      ensures ChosenFile(old(configFile), home, fs).None? ==>
        !exitError && table == Defaults() && log == old(log) + [HubLog(Logging.Warning, NotFound)]
      ensures ChosenFile(old(configFile), home, fs).Some? ==>
        var o := Config.ReadConfig(Open(fs, ChosenFile(old(configFile), home, fs).value));
        (exitError <==> o.config.None?) &&
        (exitError ==> log == old(log) + [ReadErrorLine(o.errno, o.lineno, reason)]) &&
        (!exitError ==> Enumerates(keys, o.config.value) && table == Merge(Defaults(), o.config.value) &&
                        log == old(log) + UnknownWarnings(ValidNames, keys))
    {
      processed := true;
      keys := [];
      table := SeedDefaults();
      var found := ChooseConfigFile(home, fs);
      if !found {
        log := log + [HubLog(Logging.Warning, NotFound)];
        return false, keys;
      }
      var reader := new Config.Reader();
      var file := reader.ReadFile(Open(fs, configFile.value));
      if file.None? {
        log := log + [ReadErrorLine(reader.errno, reader.lineno, reason)];
        return true, keys;
      }
      keys := KeysOf(file.value);
      ghost var seeded := table;
      SeededIsDefaults();
      assert seeded.Keys == ValidNames;
      MergeOptions(file.value, keys);
      MergeAllKeys(seeded, file.value, keys);
      exitError := false;
    }

    /** The seeding for loop over valid_options. */
    method SeedDefaults() returns (m: map<string, string>)
      ensures m == Defaults()
    {
      m := map[];
      var i := 0;
      while i < |ValidOptions|
        invariant 0 <= i <= |ValidOptions|
        invariant m == Seeded(i)
      {
        m := m[ValidOptions[i].0 := ValidOptions[i].1];
        i := i + 1;
      }
      SeededIsDefaults();
    }

    /** Hub_Config_chooseConfigFile: true when a file is chosen, which is then hub_config_file. */
    method ChooseConfigFile(home: Option<string>, fs: map<string, Option<string>>) returns (found: bool)
      modifies this
      ensures found <==> ChosenFile(old(configFile), home, fs).Some?
      ensures configFile == (if found then ChosenFile(old(configFile), home, fs) else old(configFile))
      ensures table == old(table) && processed == old(processed) && log == old(log)
    {
      if configFile.None? {
        var path: Option<string> := None;
        if home.Some? {
          path := Some(home.value + HomeFile);
        }
        if path.None? || path.value !in fs {
          path := Some(SystemFile);
        }
        if path.value !in fs {
          return false;
        }
        LoadConfig(path.value);
      }
      return true;
    }

    /** The loop draining the key list: valid options are stored, others warned about. */
    method MergeOptions(file: map<string, string>, keys: seq<string>)
      requires forall i :: 0 <= i < |keys| ==> keys[i] in file
      modifies this
      ensures table == MergeSome(old(table), file, keys)
      ensures log == old(log) + UnknownWarnings(old(table).Keys, keys)
      ensures configFile == old(configFile) && processed == old(processed)
    {
      ghost var defaults := table;
      var i := 0;
      while i < |keys|
        invariant 0 <= i <= |keys|
        invariant table == MergeSome(defaults, file, keys[..i])
        invariant log == old(log) + UnknownWarnings(defaults.Keys, keys[..i])
        invariant configFile == old(configFile) && processed == old(processed)
      {
        var option := keys[i];
        assert keys[..i + 1] == keys[..i] + [option];
        MergeStep(defaults, file, keys[..i], option);
        MergeOne(option, file[option]);
        i := i + 1;
      }
      assert keys[..|keys|] == keys;
    }

    /** One pass of that loop: store a valid option's value, warn about another. */
    method MergeOne(option: string, value: string)
      modifies this
      ensures table == if option in old(table) then old(table)[option := value] else old(table)
      ensures log == old(log) + if option !in old(table) then [ClientLog(Logging.Warning, UnknownText(option))] else []
      ensures configFile == old(configFile) && processed == old(processed)
    {
      if option in table {
        table := table[option := value];
      } else {
        log := log + [ClientLog(Logging.Warning, UnknownText(option))];
      }
    }
  }
}
