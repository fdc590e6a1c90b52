# ipmi_autocabling, modelled in Dafny

`ipmi_autocabling` finds where each server's out-of-band management port (an IPMI, BMC, iLO, iDRAC
or CIMC interface known to NetBox) is plugged in. It does this without LLDP. It walks the switches'
forwarding databases (FDB, the MAC address tables) over SNMP. It then matches the management
interface's MAC against the collected entries and filters out uplink, trunk and LAG ports. It waits
until the MAC has been seen on the same switch port for a configured number of consecutive runs,
and only then creates the cable in NetBox. A small SQLite store remembers each MAC's last port,
its stability count, its last status and whether a cable was created, plus one history row per run.

This project is a functional model of that core, one Dafny module per source file:

| module | source | what it holds |
|---|---|---|
| `MacUtils` | `mac_utils.py` | MAC normalization; MAC to SNMP OID suffix and back |
| `Configuration` | `config.py` | `Config`, its loading from the environment, MLAG groups, the combined uplink regex |
| `PortClassifier` | `port_classifier.py` | the access/uplink/LAG decision for a switch port |
| `StateDb` | `state_db.py` | the observation store as an immutable value; the stability counter |
| `FdbCollector` | `fdb_collector.py` | decoding of the Huawei, Q-BRIDGE and BRIDGE MIB walks into FDB entries |
| `Correlator` | `correlator.py` | MLAG peer map, ambiguity resolution, mismatch detection, the per-interface decision |
| `Service` | `service.py` | result processing, counters, cable creation, one complete run |

`Wrappers` (`Option`, `Result`), `Text` (split, join, strip, lower) and `Numerals` (Python's
`int()`, `str()`, `int(x, 16)` and `f"{n:02x}"` on the inputs the core uses) are support modules.

Modelling choices:

- Python exceptions are `Result` failures.
  - `normalize_mac` raising `ValueError` aborts `correlate`, and through it `run_once`.
  - `int()` on a bad environment variable aborts `Config.from_env`.
- The SQLite store is a value `Db` threaded through the calls. Each store write commits at once in
  the source, so a correlation that raises half-way still returns the store as the earlier
  interfaces left it.
- Some things are inputs:
  - SNMP walks are given as data: the items `nextCmd` yields, or an exception.
  - The regex engine is a `search(pattern, text)` function.
  - NetBox's switch interfaces are a map from (switch id, interface name).
  - The NetBox cable POST is a function from (server interface, switch interface, vlan) to an outcome.
  - The iteration order of the two-element endpoint set in `_resolve_ambiguity` is an oracle. Python
    randomises string hashing, so that order is not fixed.
- The stability counter's meaning is stated over a sequence of store operations (`StateDb.Op`). The
  stored count is the number of consecutive trailing sightings on the last-seen port.

Behaviours the proofs bring out:

- **The loaded defaults differ from the class defaults.**
  - With an empty environment `from_env` gives `poll_interval` 0 and `cable_status` `"connected"`.
  - The `Config` dataclass itself defaults to 300 and `"planned"`.
  - The model follows the code (`Configuration.EmptyEnvironment`).
- **Overlapping MLAG groups make the peer relation one-sided.**
  - Each later pair overwrites the map entries of both its switches.
  - So with `A:B,B:C`, `A` maps to `B` but `B` maps to `C` (`Correlator.OverlappingGroupsAsymmetric`).
  - Whether a MAC seen on `A` and `B` is resolved then depends on the set's iteration order.
  - With disjoint groups the relation is symmetric (`Correlator.DisjointGroupsArePeers`).
- **An OID sub-identifier above 255 aborts the whole correlation.**
  - `oid_suffix_to_mac` does not range-check its components, so it yields a MAC with a three-digit
    group.
  - `normalize_mac` later rejects that MAC in `correlate`, and the exception aborts every interface
    of the run (`MacUtils.OidSuffixAbove255`, `Correlator.OversizedOctetAbortsCorrelation`).
- **An empty uplink-pattern list compiles to the empty regex, which matches every port name.**
  - So no port would be access (`PortClassifier.EmptyPatternListBlocksAll`).
  - `from_env` cannot produce an empty list, because splitting a non-empty variable always yields
    at least one item (`Configuration.LoadedUplinkPattern`).
  - It can produce an empty pattern, though: `UPLINK_PATTERNS="uplink,"` or `" "` loads the item
    `""` (`Configuration.TrailingCommaLoadsEmptyPattern`). Python's `re` compiles the combined
    `(uplink)|()` to a regex that matches every name, with the same effect. Regex semantics are the
    `search` parameter here, so that last step is not proved.

## Model

| member | source | states |
|---|---|---|
| `MacUtils.NormalizeMac` | src/ipmi_autocabling/mac_utils.py:6-30 | Succeeds exactly when the input is empty or, after strip, lower-casing and removing `:` `-` `.`, it is exactly 12 lower hex digits. An empty input gives the empty string. Any other input is rejected with the input in the error. A success is a 17-character canonical `aa:bb:cc:dd:ee:ff` whose digits are exactly the cleaned text. |
| `MacUtils.NormalizeIgnoresPadding` | src/ipmi_autocabling/mac_utils.py:22 | White space around a non-empty MAC changes neither whether it normalizes nor the result. |
| `MacUtils.SpellingsAgree` | src/ipmi_autocabling/mac_utils.py:10-17 | The four documented spellings of the same 12 hex digits, in any letter case, normalize to the same lower-case colon form: colon, dash, Cisco dotted and bare. |
| `MacUtils.CanonicalIsNormal` | src/ipmi_autocabling/mac_utils.py:17-30 | A MAC already in the canonical form is returned unchanged. |
| `MacUtils.NormalizeIdempotent` | src/ipmi_autocabling/mac_utils.py:6-30 | Normalizing a normalized MAC changes nothing. |
| `MacUtils.MacToOidSuffix` | src/ipmi_autocabling/mac_utils.py:33-41 | Succeeds exactly when the MAC is non-empty and normalizes. An empty MAC normalizes to `""`, on which `int(…, 16)` raises. A success has six dot-separated decimal components, each below 256. |
| `MacUtils.OidSuffixToMac` | src/ipmi_autocabling/mac_utils.py:44-55 | A suffix that does not split into exactly six parts is rejected with the suffix in the error. A success has six colon-separated groups. |
| `MacUtils.MacOidSuffixRoundTrip` | src/ipmi_autocabling/mac_utils.py:33-55 | Converting a MAC to its OID suffix and back gives the normalized MAC. |
| `MacUtils.OctetsOidSuffixRoundTrip` | src/ipmi_autocabling/mac_utils.py:33-55 | For six bytes, the MAC printed from them converts to the dotted decimal suffix of those same bytes. |
| `MacUtils.OidSuffixOfComponents` | src/ipmi_autocabling/mac_utils.py:50-55 | Six integer components joined by `.` convert to their two-digit hex renderings joined by `:`. |
| `MacUtils.JoinHexOctetsOfBytes` | src/ipmi_autocabling/mac_utils.py:54-55 | Six components that are all bytes give a canonical MAC. |
| `MacUtils.HexOctetsInjective` | src/ipmi_autocabling/mac_utils.py:54 | Different byte sequences are printed as different hex groups, so two FDB rows share a MAC only when their OIDs share the octets. |
| `MacUtils.OidSuffixAbove255` | src/ipmi_autocabling/mac_utils.py:50-55 | A component above 255 is still converted, because no range check exists. The result is not a canonical MAC, and normalizing it fails. |
| `MacUtils.ParseIntAllOfDecimals` | src/ipmi_autocabling/mac_utils.py:54 | `int()` reads back every component that `str()` printed, so an OID suffix's components survive the text round trip. |
| `Configuration.ParseCommaList` | src/ipmi_autocabling/config.py:81-85 | One item per comma-separated field (at least one). Item `i` is field `i` stripped, so it has no surrounding white space and no comma. |
| `Configuration.CommaListRoundTrip` | src/ipmi_autocabling/config.py:81-85 | A list of plain names joined with `,` is read back as that list. |
| `Configuration.ListSetting` | src/ipmi_autocabling/config.py:73-85 | An unset or empty variable keeps the default list. A non-empty one replaces it: one item per comma-separated field of the variable, each field stripped. |
| `Configuration.IntSettingDefault` | src/ipmi_autocabling/config.py:78-89 | An unset integer variable takes the value of its one-digit default text. |
| `Configuration.DefaultsParse` | src/ipmi_autocabling/config.py:78-89 | Each unset integer variable parses to its default: timeout 5, retries 2, stability runs 2, poll interval 0. |
| `Configuration.ParseMlagItem` | src/ipmi_autocabling/config.py:96-99 | An item gives a pair exactly when, stripped, it splits on `:` into two parts. The pair is those two parts, each stripped. |
| `Configuration.ParseMlagItems` | src/ipmi_autocabling/config.py:93-99 | The pairs of the items that parse, in item order; items that do not parse are dropped. |
| `Configuration.MlagItemsKept` | src/ipmi_autocabling/config.py:93-99 | A pair is loaded exactly when some item parses to it. |
| `Configuration.MlagPairsStripped` | src/ipmi_autocabling/config.py:93-99 | Every loaded MLAG pair has stripped switch names. |
| `Configuration.MlagGroupsRoundTrip` | src/ipmi_autocabling/config.py:93-99 | Pairs of plain names written as `a:b,c:d` are loaded back as the same pairs, in order. |
| `Configuration.FromEnv` | src/ipmi_autocabling/config.py:62-101 | Loading succeeds exactly when the four integer variables parse. A failure reports the first of `SNMP_TIMEOUT`, `SNMP_RETRIES`, `STABILITY_RUNS`, `POLL_INTERVAL` that does not parse. On success every field comes from its variable or from `from_env`'s own default; a non-empty list or MLAG variable replaces the default with its parsed items, and each string setting is the variable's text when set. |
| `Configuration.IntegersUnset` | src/ipmi_autocabling/config.py:78-89 | With the four integer variables unset, loading succeeds with timeout 5, retries 2, stability runs 2 and poll interval 0. |
| `Configuration.UnsetIntegers` | src/ipmi_autocabling/config.py:78-89 | In any successful load, an unset `STABILITY_RUNS`, `POLL_INTERVAL` or `SNMP_TIMEOUT` gives 2, 0 or 5. |
| `Configuration.EmptyEnvironment` | src/ipmi_autocabling/config.py:55-101 | The empty environment loads. It gives stability 2, poll 0, status `connected`, community `public`, timeout 5, retries 2 and both flags false. Poll interval and cable status differ from the dataclass defaults. |
| `Configuration.AnyPatternMatchesIff` | src/ipmi_autocabling/config.py:103-106 | The alternation of the configured patterns matches a text exactly when one of the patterns does. |
| `Configuration.LoadedUplinkPattern` | src/ipmi_autocabling/config.py:84-106 | For a loaded configuration, the combined uplink regex matches exactly when some configured pattern matches. |
| `Configuration.TrailingCommaGivesEmptyItem` | src/ipmi_autocabling/config.py:83-84 | A comma-free text followed by a comma reads as two items: that text stripped, and the empty string. |
| `Configuration.TrailingCommaLoadsEmptyPattern` | src/ipmi_autocabling/config.py:83-84 | An `UPLINK_PATTERNS` value ending in a comma loads the empty pattern among the uplink patterns. |
| `PortClassifier.Classify` | src/ipmi_autocabling/port_classifier.py:41-107 | The checks fire in priority order: uplink list, non-empty description matching, name matching, LAG member, LLDP switch neighbour. Each reason holds exactly when its check fires and no earlier one did. The port is an uplink exactly for the list, pattern and LLDP reasons, and a LAG member exactly for the LAG reason. It is allowed iff it is `Access`, iff no indicator fired. The port name is kept. |
| `PortClassifier.IsAccessPort` | src/ipmi_autocabling/port_classifier.py:109-120 | True exactly when none of the five uplink indicators holds. It agrees with `Classify`'s allowed flag, and it is true exactly when `Classify` gives the reason "no indicators". |
| `PortClassifier.NameOnlyClassification` | src/ipmi_autocabling/correlator.py:152-156 | The correlator classifies by name alone. A port is then allowed exactly when it is not in the uplink list and no configured pattern matches its name. |
| `PortClassifier.EmptyPatternListBlocksAll` | src/ipmi_autocabling/config.py:103-106 | With no uplink pattern configured the combined regex is empty and matches everything, so no port is access. |
| `StateDb.UpdateObservation` | src/ipmi_autocabling/state_db.py:125-162 | A first sighting counts 1. A sighting on the stored switch and port adds one; any other restarts at 1. Stable iff the count reaches the threshold. The row records the new port and VLAN and keeps status and cable fields. Other rows and the history are untouched. |
| `StateDb.UpdateStatus` | src/ipmi_autocabling/state_db.py:164-186 | Without a row nothing changes. Otherwise only the status is set, plus the cable flag and id for `CREATED`, and every other field and row is kept. |
| `StateDb.MarkNotFound` | src/ipmi_autocabling/state_db.py:188-205 | Resets the count to 0 and sets the not-found status. The row is created empty if missing, and the port and cable fields of an existing row are kept. Nothing else changes. |
| `StateDb.RecordRun` | src/ipmi_autocabling/state_db.py:207-224 | Appends exactly the given record to the history and leaves the MAC rows alone. |
| `StateDb.GetAllWithCables` | src/ipmi_autocabling/state_db.py:226-245 | Exactly the stored rows whose cable flag is set. |
| `StateDb.StabilityCountIsTrailingRun` | src/ipmi_autocabling/state_db.py:142-205 | Starting from no row, a MAC has a row iff some operation touched it. The stored count is the number of consecutive trailing sightings on its last-seen port, reset by a not-found mark. The stored port is the last one seen. |
| `StateDb.StableIffRunReachesThreshold` | src/ipmi_autocabling/state_db.py:148-162 | A sighting is stable exactly when the trailing run of sightings on that port, this one included, reaches the threshold. |
| `StateDb.CablesAreKept` | src/ipmi_autocabling/state_db.py:164-205 | Once a cable is recorded for a MAC no later operation clears the flag. Without a later `CREATED` status the cable id is unchanged too. |
| `StateDb.AlwaysWellKeyed` | src/ipmi_autocabling/state_db.py:70-83 | Every row stays stored under its own MAC, which is the table's primary key. |
| `FdbCollector.OidTextParts` | src/ipmi_autocabling/fdb_collector.py:185-191 | Splitting a printed OID on `.` gives one part per sub-identifier, and `int()` reads them all back. |
| `FdbCollector.GatheredStopsAtError` | src/ipmi_autocabling/fdb_collector.py:176-182 | An error indication or error status ends the walk. Bindings after it are never read. |
| `FdbCollector.GatheredFromResponses` | src/ipmi_autocabling/fdb_collector.py:164-186 | Every binding read comes from a response item of the walk. |
| `FdbCollector.InterfaceNames` | src/ipmi_autocabling/fdb_collector.py:121-144 | Fails exactly when some OID is empty, since `int()` then raises. Otherwise the keys are exactly the last sub-identifiers of the OIDs. Each index names what its last binding says, so the last binding of the walk always wins. |
| `FdbCollector.PortName` | src/ipmi_autocabling/fdb_collector.py:202 | The ifName of the port index when known. Otherwise `port` followed by the index in decimal, which reads back as the index. |
| `FdbCollector.HuaweiEntry` | src/ipmi_autocabling/fdb_collector.py:184-211 | A binding gives an entry exactly when its OID has at least 8 sub-identifiers past the base. The MAC comes from the first six, the VLAN from the seventh, the port from the value. |
| `FdbCollector.HuaweiEntries` | src/ipmi_autocabling/fdb_collector.py:162-218 | The entries are exactly the decoded bindings: an entry occurs iff some binding of the walk decodes to it, and there are at most as many entries as bindings. Each carries the switch's name and address and a VLAN. |
| `FdbCollector.HuaweiRoundTrip` | src/ipmi_autocabling/fdb_collector.py:188-211 | An OID built from six bytes and a VLAN decodes to an entry with that VLAN and port. Its MAC is canonical and converts back to those bytes' OID suffix. |
| `FdbCollector.HuaweiExample` | src/ipmi_autocabling/fdb_collector.py:188-189 | The documented example OID decodes to MAC `00:e0:ed:db:8f:52` on VLAN 10. |
| `FdbCollector.QBridgeEntry` | src/ipmi_autocabling/fdb_collector.py:258-285 | A binding gives an entry exactly when its OID has at least 7 sub-identifiers past the base. The VLAN comes first and the MAC from the next six. |
| `FdbCollector.QBridgeEntries` | src/ipmi_autocabling/fdb_collector.py:236-287 | The entries are exactly the decoded bindings: an entry occurs iff some binding of the walk decodes to it, and there are at most as many entries as bindings. Each carries the switch's name and address and a VLAN. |
| `FdbCollector.BridgeMac` | src/ipmi_autocabling/fdb_collector.py:326-335 | An OID gives a MAC exactly when it has at least 6 sub-identifiers past the base, namely the first six. |
| `FdbCollector.Assign` | src/ipmi_autocabling/fdb_collector.py:336 | Dictionary assignment: keys stay distinct, the key is added, its value replaced, and every other item keeps its place. |
| `FdbCollector.BridgeTable` | src/ipmi_autocabling/fdb_collector.py:305-338 | The MAC-to-port table has distinct keys, exactly the MACs seen, each with the last port reported for it. |
| `FdbCollector.BridgeEntries` | src/ipmi_autocabling/fdb_collector.py:289-351 | Exactly one entry per MAC that some binding decodes to, and no others: MACs are distinct and every decodable MAC has an entry. Each entry's port is the value of that MAC's last binding, its port name that port's ifName (or `port<n>`), with no VLAN and the switch's name and address. |
| `FdbCollector.CollectFdb` | src/ipmi_autocabling/fdb_collector.py:68-105 | No entries without pysnmp, without an address, or when the ifName or Huawei walk raised. Otherwise the Huawei entries when there are any. Else nothing if the Q-BRIDGE walk raised, its entries if there are any, else nothing if the BRIDGE walk raised, else the BRIDGE entries. Every entry carries the switch's name and address. |
| `FdbCollector.HuaweiFirst` | src/ipmi_autocabling/fdb_collector.py:89-94 | When the Huawei table yields entries, the Q-BRIDGE and BRIDGE walks do not affect the result. |
| `FdbCollector.QBridgeBeforeBridge` | src/ipmi_autocabling/fdb_collector.py:92-98 | When the Q-BRIDGE table yields entries, the BRIDGE walk does not affect the result. |
| `FdbCollector.OneTable` | src/ipmi_autocabling/fdb_collector.py:86-101 | A switch's entries come from one table. Either every entry has a VLAN, or none does and their MACs are distinct. |
| `Correlator.NewCorrelator` | src/ipmi_autocabling/correlator.py:48-63 | The correlator uses the configured stability threshold. Its peer map knows exactly the switches some MLAG pair names. |
| `Correlator.PeerMap` | src/ipmi_autocabling/correlator.py:60-63 | The map holds exactly the switches the pairs name. Each switch maps to its partner in the last pair that names it. |
| `Correlator.PeersAreConfigured` | src/ipmi_autocabling/correlator.py:60-63 | Two switches are peers only if some configured pair holds them, in either order. |
| `Correlator.DisjointGroupsArePeers` | src/ipmi_autocabling/correlator.py:60-63 | When no switch is in two pairs, both switches of each pair are peers of each other. |
| `Correlator.OverlappingGroupsAsymmetric` | src/ipmi_autocabling/correlator.py:60-63 | With `A:B,B:C`, `A` is a peer of `B` but `B` is not a peer of `A`. |
| `Correlator.NormalizeAll` | src/ipmi_autocabling/correlator.py:78-90 | Fails exactly when some FDB MAC does not normalize. Otherwise gives each MAC's normal form in order. |
| `Correlator.GroupByMac` | src/ipmi_autocabling/correlator.py:78-83 | The keys are exactly the normalized MACs seen. Each group is non-empty and holds that MAC's entries in FDB order. |
| `Correlator.EntriesWithMacSound` | src/ipmi_autocabling/correlator.py:78-83 | An entry is in a MAC's group exactly when some FDB row is that entry with that normalized MAC. |
| `Correlator.PortToMac` | src/ipmi_autocabling/correlator.py:85-90 | Every endpoint seen is a key. Its MAC is that of the last entry on it. |
| `Correlator.SwitchMap` | src/ipmi_autocabling/correlator.py:76 | Switches by name: exactly the listed names. Each name maps to the last listed switch of that name, as a dict comprehension keeps it. |
| `Correlator.DistinctEndpoints` | src/ipmi_autocabling/correlator.py:253-257 | The set of endpoints: no repeats, exactly those of the entries, the first entry's endpoint first. |
| `Correlator.FirstOnSwitch` | src/ipmi_autocabling/correlator.py:266 | The first entry on the given switch. |
| `Correlator.ResolveAmbiguity` | src/ipmi_autocabling/correlator.py:244-268 | One endpoint gives the first entry, and three or more give none. Two endpoints give an entry only if they share the port and the switches are MLAG peers in some order, and then the first entry on one of them. Peers both ways guarantee an entry. |
| `Correlator.CheckMismatch` | src/ipmi_autocabling/correlator.py:274-313 | A mismatch is reported exactly when the cable's peer switch and port are both known and set in the table, and the MAC seen there differs. The result carries the expected and actual MACs and that switch and port. |
| `Correlator.Located` | src/ipmi_autocabling/correlator.py:152-242 | A disallowed port is marked skipped. An allowed one records the observation, then gives an error if NetBox lacks the interface, a skip if it is cabled, else pending. The stability count and flag come from the store, and only this MAC's row changes. |
| `Correlator.Uncabled` | src/ipmi_autocabling/correlator.py:121-242 | Not found exactly when the MAC has no FDB entries, resetting its stability. Ambiguous exactly when resolution fails. The reason is "switch not in NetBox" exactly when the resolved switch is unknown to NetBox, and that result is an error that leaves the store alone. The observation is recorded exactly when the resolved switch is known and its port is allowed by name, and ready means stable. |
| `Correlator.CorrelateOne` | src/ipmi_autocabling/correlator.py:99-242 | Succeeds exactly when the interface's MAC normalizes. A cabled interface gives `MISMATCH` exactly when the mismatch check fires, else `EXISTS`, and leaves the store alone. An uncabled one is decided by the FDB groups: not found, ambiguous, unknown switch and observed each exactly under their condition. The result is never `CREATED`, and only this MAC's row may change. |
| `Correlator.CorrelateAll` | src/ipmi_autocabling/correlator.py:92-97 | Succeeds exactly when every interface's MAC normalizes, with one result per interface in order, each decided from the FDB groups, switch map and port map as `_correlate_one` decides it. The run history is untouched. |
| `Correlator.Correlate` | src/ipmi_autocabling/correlator.py:65-97 | A bad FDB MAC fails before the store is touched. Success exactly when all FDB and interface MACs normalize. Each result is then decided from the groups, switch map and port map built from this FDB. |
| `Correlator.NotFoundIffUnseen` | src/ipmi_autocabling/correlator.py:121-130 | After a successful correlation, an interface is `NOT_FOUND` exactly when it has no cable and no FDB row normalizes to its MAC. |
| `Correlator.MismatchIffPeerPortShowsOther` | src/ipmi_autocabling/correlator.py:109-113 | After a successful correlation, an interface is `MISMATCH` exactly when it has a cable with a known peer switch and port, and the last FDB row on that port carries another MAC. |
| `Correlator.NothingCreated` | src/ipmi_autocabling/correlator.py:213-242 | Correlation never reports `CREATED`. A result is "ready for cable creation" exactly when it is `PENDING` and stable. |
| `Correlator.CountMovesOnlyWhenObserved` | src/ipmi_autocabling/correlator.py:121-176 | Whether a MAC has a stored row, and its stability count, change only on the observation path or by a not-found reset. Other fields, such as the status the disallowed-port path writes, are not covered. |
| `Correlator.OversizedOctetAbortsCorrelation` | src/ipmi_autocabling/correlator.py:78-90 | An FDB MAC decoded from an OID component above 255 makes the whole correlation fail, with the store unchanged. |
| `Service.SummaryParts` | src/ipmi_autocabling/service.py:33-46 | Eight `name=value` fields, plus `MISMATCH=` only when mismatches occurred. No field contains a comma. |
| `Service.SummaryFields` | src/ipmi_autocabling/service.py:33-46 | Splitting the printed summary on commas gives back its fields: 8, or 9 with mismatches, starting with the total. |
| `Service.ProcessResult` | src/ipmi_autocabling/service.py:127-204 | Each result other than `CREATED` bumps exactly one counter and never the total; a `CREATED` result changes nothing. An `ERROR` result bumps the error counter. A ready result is counted created and stored `CREATED` with the cable id, or, without a cable, counted and stored as an error. Nothing but a pending result writes the store. A cable is only counted when not in a dry run. |
| `Service.ExactlyOneCounter` | src/ipmi_autocabling/service.py:144-192 | Each of the five plain statuses bumps its own counter and no other. |
| `Service.DryRunCountsReadyAsErrors` | src/ipmi_autocabling/service.py:173-186 | In a dry run a ready result counts as an error and is stored as `ERROR`. |
| `Service.CountsOfPlainStatuses` | src/ipmi_autocabling/service.py:107-171 | After processing all results, each of mismatch, exists, not found, ambiguous and skipped has grown by the number of results with that status. |
| `Service.CountsOfPendingAndErrors` | src/ipmi_autocabling/service.py:107-192 | Created, pending and errors together grow by the pending and error results. Created grows by at most the ready ones. |
| `Service.CountersAddUp` | src/ipmi_autocabling/service.py:107-108 | The outcome counters grow by the number of results processed. |
| `Service.CollectAll` | src/ipmi_autocabling/service.py:91-97 | Every collected entry comes from one of the polled switches. Without pysnmp nothing is collected. |
| `Service.CollectAllConcatenates` | src/ipmi_autocabling/service.py:91-97 | The collected FDB is every switch's `collect_fdb` result, at its primary address or `""`, concatenated in switch order. |
| `Service.FinishRun` | src/ipmi_autocabling/service.py:107-118 | The counters sum to the number of results and the total is kept. Each plain counter is the number of results with its status, created, pending and errors share the pending and error results, and created is at most the ready ones. Exactly one history row, this run's, is appended. A dry run creates no cable. |
| `Service.RunOnce` | src/ipmi_autocabling/service.py:65-125 | No interfaces or no switches ends the run with only the total and no store change. Otherwise the run succeeds exactly when every collected FDB MAC and every interface MAC normalizes. A successful run's counters tally the statuses of `correlate`'s results over the collected FDB, count every interface exactly once, and record one history row. A failed run records none. A dry run creates no cable. |
| `Service.CorrelateAndConclude` | src/ipmi_autocabling/service.py:91-125 | The run past its early returns: success exactly when all collected FDB MACs and interface MACs normalize. A success counts every interface once, with counters tallying the statuses of `correlate`'s results, and appends this run's history row. A failure appends nothing. |
| `Service.CorrelateRun` | src/ipmi_autocabling/service.py:91-105 | The correlation is exactly `correlate` over the FDB collected from every switch. It succeeds exactly when all FDB and interface MACs normalize, leaves the history alone, and gives one result per interface, none `CREATED`. |
| `Service.Conclude` | src/ipmi_autocabling/service.py:101-125 | A failed correlation keeps the store as it was left and records no run. A successful one keeps the total, counts every result once with each counter tallying its statuses, appends exactly this run's history row, and creates no cable in a dry run. |

## Left out

- The NetBox REST client (`netbox_client.py`) beyond the dry-run rule of `create_cable`. The OOB interfaces, switches, switch interfaces and the POST's answer are inputs; paging, HTTP and site filtering are not modelled.
- The `sites` filter passed to `get_switches` in `run_once`: the switches are an input, already filtered.
- SNMP transport, community, timeouts and retries: a walk is given as the items `nextCmd` yields, or as an exception.
- SQLite, timestamps (`seen_at`, `last_action_at`, `run_at`) and `close`: the store is a value and times are not kept.
- Python's regex engine: a pattern match is the `search` parameter; `re.IGNORECASE` is inside it.
- Logging, the human-readable `reason` sentences (modelled as the data they mention), `run_daemon`, the command-line entry point and `time.sleep`.
- `MockFDBCollector` and `load_fdb_snapshot`: test fixtures, not part of the running service.
- `FDBCollector.__init__`: whether pysnmp imports is the `pysnmpAvailable` input.
- `Text.Strip` and `Text.Lower`: strip covers every character Python treats as white space. Lower covers ASCII letters only; other Unicode case mappings are not modelled.
- `Numerals.ParseInt`: `int()` is modelled on optional sign and ASCII digits. Underscores and non-ASCII digits are not modelled.
- `Numerals.ParseHex`: `int(x, 16)` is modelled on hex digits only. The `0x` prefix, sign and white space it also accepts cannot occur after normalization.
- `FdbCollector.InterfaceNames`: `int()` on the OID's last component is modelled as raising only for an empty OID. An OID is a sequence of numbers here, so no other text can occur.
- `Service.ProcessResult`: the truth test `if cable:` is modelled as the `Cable` outcome. A NetBox answer that is an empty dict would count as no cable, which the model does not distinguish.
- `FdbCollector.BridgeTable`: the contract does not state the first-insertion order of the dictionary, only its keys and values. The body does keep that order.
- `FdbCollector.HuaweiEntries` and `FdbCollector.QBridgeEntries`: the contracts state which entries occur, exactly the decoded bindings, but not their walk order or how often a repeated entry occurs. The body keeps both.
- The settings `snmp_version`, `state_db_path` and `switches_role` are loaded but not used by the modelled core.
