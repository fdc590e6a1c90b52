/** Configuration loading (config.py): `Config.from_env` over an environment given as a map,
    and the combined uplink pattern of `get_uplink_pattern`. */
module Configuration {
  import opened Wrappers
  import opened Text
  import Numerals

  type Env = map<string, string>

  datatype Config = Config(
    netboxUrl: string,
    netboxToken: string,
    netboxVerifySsl: bool,
    switchesRole: Option<string>,
    ipmiInterfaceNames: seq<string>,
    snmpCommunity: string,
    snmpVersion: string,
    snmpTimeout: int,
    snmpRetries: int,
    uplinkPorts: seq<string>,
    uplinkPatterns: seq<string>,
    stabilityRuns: int,
    stateDbPath: string,
    pollInterval: int,
    dryRun: bool,
    cableStatus: string,
    mlagGroups: seq<(string, string)>)

  /** `from_env` raises when an integer setting is not a number: the variable and its text. */
  datatype ConfigError = NotAnInteger(variable: string, text: string)

  const DefaultIpmiInterfaceNames: seq<string> := ["IPMI", "BMC", "MGMT", "iLO", "iDRAC", "CIMC"]

  const DefaultUplinkPatterns: seq<string> :=
    ["uplink", "to[-_]?spine", "trunk", "peer", "mlag", "lag", "^po\\d+", "port[-_]?channel"]

  /** The dataclass defaults, i.e. `Config()` before `from_env` overwrites it. */
  const DefaultConfig: Config := Config(
    "", "", false, None, DefaultIpmiInterfaceNames, "public", "2c", 5, 2,
    [], DefaultUplinkPatterns, 2, "state.db", 300, false, "planned", [])

  /** `os.getenv(name, default)`: a variable that is set, even to `""`, wins over the default. */
  function Getenv(env: Env, name: string, default: string): string {
    if name in env then env[name] else default
  }

  /** The walrus tests `if x := os.getenv(name)`: the variable is set and not empty. */
  predicate IsSetNonEmpty(env: Env, name: string) {
    name in env && env[name] != ""
  }

  /** `value.lower() == "true"`. */
  predicate IsTrue(value: string) {
    Lower(value) == "true"
  }

  /** `[p.strip() for p in value.split(",")]`. */
  function ParseCommaList(value: string): (r: seq<string>)
    ensures |r| == |Split(value, ',')| && |r| >= 1
    ensures forall i :: 0 <= i < |r| ==> r[i] == Strip(Split(value, ',')[i])
    ensures forall i :: 0 <= i < |r| ==> Strip(r[i]) == r[i] && ',' !in r[i]
  {
    var items := Split(value, ',');
    seq(|items|, i requires 0 <= i < |items| => StripKeeps(items[i], ','); Strip(items[i]))
  }

  /** Stripping never adds a character. */
  lemma StripKeeps(s: string, c: char)
    requires c !in s
    ensures c !in Strip(s)
  {
    var a := TrimStart(s);
    assert forall i :: 0 <= i < |a| ==> a[i] == s[|s| - |a| + i];
    var b := TrimEnd(a);
    assert forall i :: 0 <= i < |b| ==> b[i] == a[i];
  }

  /** One `MLAG_GROUPS` item: strip it, split at `:`, keep it only with exactly two parts. */
  function ParseMlagItem(item: string): (r: Option<(string, string)>)
    ensures r.Some? <==> |Split(Strip(item), ':')| == 2
    ensures r.Some? ==> var parts := Split(Strip(item), ':'); r.value == (Strip(parts[0]), Strip(parts[1]))
    ensures r.Some? ==> IsStrippedPair(r.value)
  {
    var parts := Split(Strip(item), ':');
    if |parts| == 2 then
      StripKeeps(parts[0], ':');
      StripKeeps(parts[1], ':');
      Some((Strip(parts[0]), Strip(parts[1])))
    else None
  }

  /** A name as `MLAG_GROUPS` parsing yields it: no `:` and no surrounding whitespace. */
  predicate IsStrippedName(name: string) {
    ':' !in name && Strip(name) == name
  }

  predicate IsStrippedPair(g: (string, string)) {
    IsStrippedName(g.0) && IsStrippedName(g.1)
  }

  /** The `MLAG_GROUPS` loop over `value.split(",")`, in input order. */
  function ParseMlagItems(items: seq<string>): (r: seq<(string, string)>)
    ensures |r| <= |items|
    ensures r == Somes(ParsedItems(items))
  {
    if |items| == 0 then []
    else
      assert ParsedItems(items)[1..] == ParsedItems(items[1..]);
      match ParseMlagItem(items[0])
      case Some(g) => [g] + ParseMlagItems(items[1..])
      case None => ParseMlagItems(items[1..])
  }

  /** Each item's pair, or none when it is dropped. */
  function ParsedItems(items: seq<string>): (r: seq<Option<(string, string)>>)
    ensures |r| == |items| && forall i :: 0 <= i < |items| ==> r[i] == ParseMlagItem(items[i])
  {
    seq(|items|, i requires 0 <= i < |items| => ParseMlagItem(items[i]))
  }

  /** A pair is parsed exactly when some item yields it. */
  lemma MlagItemsKept(items: seq<string>, g: (string, string))
    ensures g in ParseMlagItems(items) <==> exists i :: 0 <= i < |items| && ParseMlagItem(items[i]) == Some(g)
  {
    var xs := ParsedItems(items);
    if Some(g) in xs {
      var i :| 0 <= i < |xs| && xs[i] == Some(g);
    }
  }

  /** Every parsed pair is two stripped names without `:`. */
  lemma {:induction false} MlagPairsStripped(items: seq<string>)
    ensures forall i :: 0 <= i < |ParseMlagItems(items)| ==> IsStrippedPair(ParseMlagItems(items)[i])
  {
    if |items| > 0 {
      MlagPairsStripped(items[1..]);
      var rest := ParseMlagItems(items[1..]);
      match ParseMlagItem(items[0])
      case Some(g) =>
        var r := [g] + rest;
        assert ParseMlagItems(items) == r;
        forall i | 0 <= i < |r| ensures IsStrippedPair(r[i]) {
          if i > 0 { assert r[i] == rest[i - 1]; }
        }
      case None =>
    }
  }

  function ParseMlagGroups(value: string): seq<(string, string)> {
    ParseMlagItems(Split(value, ','))
  }

  /** The `MLAG_GROUPS` text of a list of pairs: `"a:b,c:d"`. */
  function FormatMlagGroups(groups: seq<(string, string)>): string {
    Join(seq(|groups|, i requires 0 <= i < |groups| => groups[i].0 + ":" + groups[i].1), ",")
  }

  /** A switch name that `MLAG_GROUPS` can carry unchanged: no `:` or `,`, no surrounding whitespace. */
  predicate IsPlainName(name: string) {
    IsStrippedName(name) && ',' !in name
  }

  /** Parsing the text of a list of plain pairs gives the pairs back, in order. */
  lemma {:induction false} MlagGroupsRoundTrip(groups: seq<(string, string)>)
    requires |groups| >= 1
    requires forall i :: 0 <= i < |groups| ==> IsPlainName(groups[i].0) && IsPlainName(groups[i].1)
    ensures ParseMlagGroups(FormatMlagGroups(groups)) == groups
  {
    var items := seq(|groups|, i requires 0 <= i < |groups| => groups[i].0 + ":" + groups[i].1);
    forall i | 0 <= i < |items|
      ensures ',' !in items[i]
    {
      assert items[i] == groups[i].0 + ":" + groups[i].1;
    }
    SplitOfJoin(items, ',');
    forall i | 0 <= i < |items| ensures ParseMlagItem(items[i]) == Some(groups[i]) {
      MlagItemRoundTrip(groups[i].0, groups[i].1);
    }
    MlagItemsRoundTrip(groups, items);
  }

  lemma {:induction false} MlagItemsRoundTrip(groups: seq<(string, string)>, items: seq<string>)
    requires |items| == |groups|
    requires forall i :: 0 <= i < |groups| ==> ParseMlagItem(items[i]) == Some(groups[i])
    ensures ParseMlagItems(items) == groups
  {
    if |groups| > 0 {
      var rest := groups[1..];
      forall i | 0 <= i < |rest| ensures ParseMlagItem(items[1..][i]) == Some(rest[i]) {
        assert rest[i] == groups[i + 1] && items[1..][i] == items[i + 1];
      }
      MlagItemsRoundTrip(rest, items[1..]);
      MlagItemsCons(items, groups[0], rest);
      assert groups == [groups[0]] + rest;
    }
  }

  /** One step of the `MLAG_GROUPS` loop: a kept first item followed by the rest. */
  lemma MlagItemsCons(items: seq<string>, g: (string, string), rest: seq<(string, string)>)
    requires |items| > 0 && ParseMlagItem(items[0]) == Some(g) && ParseMlagItems(items[1..]) == rest
    ensures ParseMlagItems(items) == [g] + rest
  {
  }

  lemma MlagItemRoundTrip(a: string, b: string)
    requires IsPlainName(a) && IsPlainName(b)
    ensures ParseMlagItem(a + ":" + b) == Some((a, b))
  {
    var item := a + ":" + b;
    assert item == Join([a, b], [':']);
    SplitOfJoin([a, b], ':');
    assert !IsSpace(':');
    assert item[0] == (if |a| > 0 then a[0] else ':');
    assert item[|item| - 1] == (if |b| > 0 then b[|b| - 1] else ':');
    assert Strip(item) == item;
  }

  /** Parsing a comma-joined list of plain names gives the names back, in order. */
  lemma CommaListRoundTrip(names: seq<string>)
    requires |names| >= 1
    requires forall i :: 0 <= i < |names| ==> IsPlainName(names[i])
    ensures ParseCommaList(Join(names, ",")) == names
  {
    SplitOfJoin(names, ',');
  }

  /** An integer setting: `int(os.getenv(name, default))`. */
  function IntSetting(env: Env, name: string, default: string): (r: Result<int, ConfigError>)
    ensures r.Failure? ==> r.error.variable == name
  {
    var text := Getenv(env, name, default);
    match Numerals.ParseInt(text)
    case Some(v) => Success(v)
    case None => Failure(NotAnInteger(name, text))
  }

  /** A list setting read with the walrus test: parsed when set and not empty, else the default. */
  function ListSetting(env: Env, name: string, default: seq<string>): (r: seq<string>)
    ensures !IsSetNonEmpty(env, name) ==> r == default
    ensures IsSetNonEmpty(env, name) ==>
      && |r| == |Split(env[name], ',')|
      && forall i :: 0 <= i < |r| ==> r[i] == Strip(Split(env[name], ',')[i])
    ensures |default| >= 1 ==> |r| >= 1
  {
    if IsSetNonEmpty(env, name) then ParseCommaList(env[name]) else default
  }

  /** `Config.from_env`: the four integer settings are parsed in this order and the first that is
      not a number is the error. */
  function FromEnv(env: Env): (r: Result<Config, ConfigError>)
    ensures r.Success? <==>
      && IntSetting(env, "SNMP_TIMEOUT", "5").Success?
      && IntSetting(env, "SNMP_RETRIES", "2").Success?
      && IntSetting(env, "STABILITY_RUNS", "2").Success?
      && IntSetting(env, "POLL_INTERVAL", "0").Success?
    ensures !r.Success? ==> r.error.variable in {"SNMP_TIMEOUT", "SNMP_RETRIES", "STABILITY_RUNS", "POLL_INTERVAL"}
    ensures IntSetting(env, "SNMP_TIMEOUT", "5").Failure? ==> r == Failure(IntSetting(env, "SNMP_TIMEOUT", "5").error)
    ensures IntSetting(env, "SNMP_TIMEOUT", "5").Success? && IntSetting(env, "SNMP_RETRIES", "2").Failure? ==>
      r == Failure(IntSetting(env, "SNMP_RETRIES", "2").error)
    ensures IntSetting(env, "SNMP_TIMEOUT", "5").Success? && IntSetting(env, "SNMP_RETRIES", "2").Success?
            && IntSetting(env, "STABILITY_RUNS", "2").Failure? ==>
      r == Failure(IntSetting(env, "STABILITY_RUNS", "2").error)
    ensures IntSetting(env, "SNMP_TIMEOUT", "5").Success? && IntSetting(env, "SNMP_RETRIES", "2").Success?
            && IntSetting(env, "STABILITY_RUNS", "2").Success? && IntSetting(env, "POLL_INTERVAL", "0").Failure? ==>
      r == Failure(IntSetting(env, "POLL_INTERVAL", "0").error)
    ensures r.Success? ==> Loaded(env, r.value)
    ensures r.Success? ==>
      && r.value.snmpTimeout == IntSetting(env, "SNMP_TIMEOUT", "5").value
      && r.value.snmpRetries == IntSetting(env, "SNMP_RETRIES", "2").value
      && r.value.stabilityRuns == IntSetting(env, "STABILITY_RUNS", "2").value
      && r.value.pollInterval == IntSetting(env, "POLL_INTERVAL", "0").value
  {
    var timeout := IntSetting(env, "SNMP_TIMEOUT", "5");
    var retries := IntSetting(env, "SNMP_RETRIES", "2");
    var runs := IntSetting(env, "STABILITY_RUNS", "2");
    var poll := IntSetting(env, "POLL_INTERVAL", "0");
    if timeout.Failure? then Failure(timeout.error)
    else if retries.Failure? then Failure(retries.error)
    else if runs.Failure? then Failure(runs.error)
    else if poll.Failure? then Failure(poll.error)
    else Success(Build(env, timeout.value, retries.value, runs.value, poll.value))
  }

  /** What a configuration loaded from `env` satisfies, whatever else the variables say. */
  ghost predicate Loaded(env: Env, c: Config) {
    && (c.netboxVerifySsl <==> "NETBOX_VERIFY_SSL" in env && IsTrue(env["NETBOX_VERIFY_SSL"]))
    && (c.dryRun <==> "DRY_RUN" in env && IsTrue(env["DRY_RUN"]))
    && c.ipmiInterfaceNames == ListSetting(env, "IPMI_INTERFACE_NAMES", DefaultIpmiInterfaceNames)
    && c.uplinkPorts == ListSetting(env, "UPLINK_PORTS", [])
    && c.uplinkPatterns == ListSetting(env, "UPLINK_PATTERNS", DefaultUplinkPatterns)
    && (!IsSetNonEmpty(env, "MLAG_GROUPS") ==> c.mlagGroups == [])
    && (IsSetNonEmpty(env, "MLAG_GROUPS") ==> c.mlagGroups == ParseMlagGroups(env["MLAG_GROUPS"]))
    && |c.uplinkPatterns| >= 1
    && c.netboxUrl == Getenv(env, "NETBOX_URL", "") && c.netboxToken == Getenv(env, "NETBOX_TOKEN", "")
    && c.snmpCommunity == Getenv(env, "SNMP_COMMUNITY", "public")
    && c.snmpVersion == Getenv(env, "SNMP_VERSION", "2c")
    && c.stateDbPath == Getenv(env, "STATE_DB_PATH", "state.db")
    && c.cableStatus == Getenv(env, "CABLE_STATUS", "connected")
    && (c.switchesRole.Some? <==> "SWITCHES_ROLE" in env)
    && ("SWITCHES_ROLE" in env ==> c.switchesRole.value == env["SWITCHES_ROLE"])
  }

  function Build(env: Env, timeout: int, retries: int, runs: int, poll: int): (c: Config)
    ensures Loaded(env, c)
    ensures c.snmpTimeout == timeout && c.snmpRetries == retries
    ensures c.stabilityRuns == runs && c.pollInterval == poll
  {
    assert Lower("false") == "false";
    Config(
      netboxUrl := Getenv(env, "NETBOX_URL", ""),
      netboxToken := Getenv(env, "NETBOX_TOKEN", ""),
      netboxVerifySsl := IsTrue(Getenv(env, "NETBOX_VERIFY_SSL", "false")),
      switchesRole := if "SWITCHES_ROLE" in env then Some(env["SWITCHES_ROLE"]) else None,
      ipmiInterfaceNames := ListSetting(env, "IPMI_INTERFACE_NAMES", DefaultIpmiInterfaceNames),
      snmpCommunity := Getenv(env, "SNMP_COMMUNITY", "public"),
      snmpVersion := Getenv(env, "SNMP_VERSION", "2c"),
      snmpTimeout := timeout,
      snmpRetries := retries,
      uplinkPorts := ListSetting(env, "UPLINK_PORTS", []),
      uplinkPatterns := ListSetting(env, "UPLINK_PATTERNS", DefaultUplinkPatterns),
      stabilityRuns := runs,
      stateDbPath := Getenv(env, "STATE_DB_PATH", "state.db"),
      pollInterval := poll,
      dryRun := IsTrue(Getenv(env, "DRY_RUN", "false")),
      cableStatus := Getenv(env, "CABLE_STATUS", "connected"),
      mlagGroups := if IsSetNonEmpty(env, "MLAG_GROUPS") then ParseMlagGroups(env["MLAG_GROUPS"]) else [])
  }

  /** Unset integer settings take their defaults (given the others parse). */
  lemma UnsetIntegers(env: Env)
    requires FromEnv(env).Success?
    ensures "STABILITY_RUNS" !in env ==> FromEnv(env).value.stabilityRuns == 2
    ensures "POLL_INTERVAL" !in env ==> FromEnv(env).value.pollInterval == 0
    ensures "SNMP_TIMEOUT" !in env ==> FromEnv(env).value.snmpTimeout == 5
  {
    DefaultsParse(env);
  }

  /** The default texts of the four integer settings are the numbers 5, 2, 2 and 0. */
  lemma DefaultsParse(env: Env)
    ensures "SNMP_TIMEOUT" !in env ==> IntSetting(env, "SNMP_TIMEOUT", "5") == Success(5)
    ensures "SNMP_RETRIES" !in env ==> IntSetting(env, "SNMP_RETRIES", "2") == Success(2)
    ensures "STABILITY_RUNS" !in env ==> IntSetting(env, "STABILITY_RUNS", "2") == Success(2)
    ensures "POLL_INTERVAL" !in env ==> IntSetting(env, "POLL_INTERVAL", "0") == Success(0)
  {
    IntSettingDefault(env, "SNMP_TIMEOUT", "5");
    IntSettingDefault(env, "SNMP_RETRIES", "2");
    IntSettingDefault(env, "STABILITY_RUNS", "2");
    IntSettingDefault(env, "POLL_INTERVAL", "0");
  }

  lemma IntSettingDefault(env: Env, name: string, d: string)
    requires |d| == 1 && Numerals.IsDigit(d[0])
    ensures name !in env ==> IntSetting(env, name, d) == Success(Numerals.DigitValue(d[0]) as int)
  {
    assert Numerals.AllDigits(d);
    assert d[..0] == [];
    assert Numerals.DecimalValue(d) == Numerals.DigitValue(d[0]);
    Numerals.ParseIntOfDigits(d);
  }

  /** With nothing set, `from_env` succeeds with its own defaults, which differ from the
      dataclass defaults in the poll interval (0, not 300) and cable status ("connected", not "planned"). */
  lemma EmptyEnvironment()
    ensures FromEnv(map[]).Success?
    ensures var c := FromEnv(map[]).value;
      && c.stabilityRuns == 2 && c.pollInterval == 0 && c.cableStatus == "connected"
      && c.snmpCommunity == "public" && c.snmpTimeout == 5 && c.snmpRetries == 2
      && !c.dryRun && !c.netboxVerifySsl
      && c.pollInterval != DefaultConfig.pollInterval && c.cableStatus != DefaultConfig.cableStatus
  {
    IntegersUnset(map[]);
    assert Loaded(map[], FromEnv(map[]).value);
    assert "connected"[0] != "planned"[0];
  }

  /** With none of the four integer variables set, loading succeeds with their defaults. */
  lemma IntegersUnset(env: Env)
    requires "SNMP_TIMEOUT" !in env && "SNMP_RETRIES" !in env
    requires "STABILITY_RUNS" !in env && "POLL_INTERVAL" !in env
    ensures FromEnv(env).Success?
    ensures var c := FromEnv(env).value;
      c.snmpTimeout == 5 && c.snmpRetries == 2 && c.stabilityRuns == 2 && c.pollInterval == 0
  {
    DefaultsParse(env);
  }

  /** `get_uplink_pattern().search(text)` when at least one pattern is configured:
      `search(p, text)` stands for Python's case-insensitive `re.search` of one pattern. */
  function AnyPatternMatches(patterns: seq<string>, search: (string, string) -> bool, text: string): bool {
    |patterns| > 0 && (search(patterns[0], text) || AnyPatternMatches(patterns[1..], search, text))
  }

  /** `get_uplink_pattern().search(text)`: the patterns become the alternatives `(p1)|(p2)|…`.
      With no pattern at all the combined pattern is the empty regex, which matches every text. */
  function UplinkPatternMatches(patterns: seq<string>, search: (string, string) -> bool, text: string): bool {
    |patterns| == 0 || AnyPatternMatches(patterns, search, text)
  }

  /** The combined pattern matches exactly when some configured pattern does. */
  lemma {:induction false} AnyPatternMatchesIff(patterns: seq<string>, search: (string, string) -> bool, text: string)
    ensures AnyPatternMatches(patterns, search, text) <==>
      exists i :: 0 <= i < |patterns| && search(patterns[i], text)
  {
    if |patterns| > 0 {
      AnyPatternMatchesIff(patterns[1..], search, text);
      if exists i :: 1 <= i < |patterns| && search(patterns[i], text) {
        var i :| 1 <= i < |patterns| && search(patterns[i], text);
        assert search(patterns[1..][i - 1], text);
      }
    }
  }

  /** For a loaded configuration the "empty regex" case cannot arise: the combined uplink
      pattern matches a text iff one of the configured patterns matches it. */
  lemma LoadedUplinkPattern(env: Env, search: (string, string) -> bool, text: string)
    requires FromEnv(env).Success?
    ensures var ps := FromEnv(env).value.uplinkPatterns;
      UplinkPatternMatches(ps, search, text) <==> exists i :: 0 <= i < |ps| && search(ps[i], text)
  {
    AnyPatternMatchesIff(FromEnv(env).value.uplinkPatterns, search, text);
  }

  /** A comma-free pattern followed by a trailing comma reads as that pattern and the empty one. */
  lemma TrailingCommaGivesEmptyItem(p: string)
    requires ',' !in p
    ensures |ParseCommaList(p + ",")| == 2
    ensures ParseCommaList(p + ",")[0] == Strip(p) && ParseCommaList(p + ",")[1] == ""
  {
    var parts := Split(p + ",", ',');
    SplitTrailingSeparator(p, ',');
    assert parts == [p, ""];
    assert Strip(parts[1]) == "";
  }

  /** So `UPLINK_PATTERNS="uplink,"` loads an empty pattern (the loaded list is this setting), and
      the combined alternation then matches wherever the empty pattern does: everywhere, for
      Python's `re`. */
  lemma TrailingCommaLoadsEmptyPattern(env: Env, p: string)
    requires "UPLINK_PATTERNS" in env && env["UPLINK_PATTERNS"] == p + "," && ',' !in p
    ensures "" in ListSetting(env, "UPLINK_PATTERNS", DefaultUplinkPatterns)
  {
    TrailingCommaGivesEmptyItem(p);
    var r := ListSetting(env, "UPLINK_PATTERNS", DefaultUplinkPatterns);
    assert r[1] == Strip(Split(p + ",", ',')[1]);
  }
}
