/** MAC-to-endpoint correlation (correlator.py): for every OOB (IPMI/BMC) interface, decide from
    the collected FDB entries where its MAC is plugged in, and what to do about it. The store is
    threaded through as a value; NetBox's interface lookup is a map given as input. */
module Correlator {
  import opened Wrappers
  import opened Text
  import MacUtils
  import Configuration
  import PortClassifier
  import StateDb
  import FdbCollector

  type FdbEntry = FdbCollector.FdbEntry
  type MacStatus = StateDb.MacStatus

  /** A (switch name, port name) pair. */
  type Endpoint = (string, string)

  /** `IPMIInterface` (netbox_client.py): an OOB interface and, when cabled, its peer. */
  datatype IpmiInterface = IpmiInterface(
    deviceId: int, deviceName: string, interfaceId: int, interfaceName: string, macAddress: string,
    hasCable: bool, site: Option<string>, rack: Option<string>,
    cablePeerSwitch: Option<string>, cablePeerPort: Option<string>)

  /** `SwitchInfo` (netbox_client.py). */
  datatype SwitchInfo = SwitchInfo(id: int, name: string, primaryIp: Option<string>, site: Option<string>)

  /** `SwitchInterface` (netbox_client.py). */
  datatype SwitchInterface = SwitchInterface(
    id: int, name: string, deviceId: int, deviceName: string, description: Option<string>,
    hasCable: bool, mgmtOnly: bool)

  /** The source writes these as sentences; the data they mention is kept. */
  datatype Reason =
    | CableExists
    | MacMismatch(expected: string, actual: string)
    | NotInFdb
    | MultipleEndpoints(locations: seq<Endpoint>)
    | SwitchNotInNetBox(switch: string)
    | PortNotAllowed(why: PortClassifier.Reason)
    | InterfaceNotFound(port: string, switch: string)
    | SwitchPortCabled(port: string)
    | WaitingForStability(count: int, runs: int)
    | ReadyForCable

  datatype CorrelationResult = CorrelationResult(
    mac: string,
    ipmi: IpmiInterface,
    status: MacStatus,
    reason: Reason,
    switchName: Option<string>,
    switchId: Option<int>,
    portName: Option<string>,
    portId: Option<int>,
    vlan: Option<int>,
    classification: Option<PortClassifier.PortClassification>,
    stabilityCount: int,
    isStable: bool,
    expectedMac: Option<string>,
    actualMac: Option<string>)

  /** A result with only the required fields set. */
  function Bare(mac: string, ipmi: IpmiInterface, status: MacStatus, reason: Reason): CorrelationResult {
    CorrelationResult(mac, ipmi, status, reason, None, None, None, None, None, None, 0, false, None, None)
  }

  /** Whether a two-element Python set of endpoints iterates `a` before `b`. String hashing is
      randomised per process, so the model leaves it open. */
  type SetOrder = (Endpoint, Endpoint) -> bool

  /** A correlator: the stability threshold, the MLAG peer map, the port classifier, NetBox's
      switch interfaces by (switch id, interface name), and the set iteration order. */
  datatype Correlator = Correlator(
    stabilityRuns: int,
    peers: map<string, string>,
    classifier: PortClassifier.Classifier,
    interfaces: map<(int, string), SwitchInterface>,
    setOrder: SetOrder)

  /** `Correlator.__init__`. */
  function NewCorrelator(config: Configuration.Config, classifier: PortClassifier.Classifier,
                         interfaces: map<(int, string), SwitchInterface>, setOrder: SetOrder): (c: Correlator)
    ensures c.stabilityRuns == config.stabilityRuns
    ensures forall x :: x in c.peers <==> exists i :: 0 <= i < |config.mlagGroups| && Mentions(config.mlagGroups[i], x)
  {
    Correlator(config.stabilityRuns, PeerMap(config.mlagGroups), classifier, interfaces, setOrder)
  }

  // ---------------------------------------------------------------------------------------------
  // MLAG peers

  predicate Mentions(g: (string, string), x: string) {
    g.0 == x || g.1 == x
  }

  /** The other switch of a group that mentions `x` (for `(x, x)`, `x` itself). */
  function PartnerIn(g: (string, string), x: string): string {
    if x == g.1 then g.0 else g.1
  }

  /** The peer map: for each configured pair `(a, b)`, `m[a] = b` and then `m[b] = a`; a switch
      named by several pairs keeps its partner from the last of them. */
  function PeerMap(groups: seq<(string, string)>): (m: map<string, string>)
    ensures Covers(groups, m) && LastPartners(groups, m)
  {
    if |groups| == 0 then map[]
    else
      var front := groups[..|groups| - 1];
      var m0 := PeerMap(front);
      CoversStep(groups, m0);
      LastPartnersStep(groups, m0);
      var (a, b) := groups[|groups| - 1];
      m0[a := b][b := a]
  }

  /** The switches in the map are exactly those some pair names. */
  ghost predicate Covers(groups: seq<(string, string)>, m: map<string, string>) {
    forall x :: x in m <==> exists i :: 0 <= i < |groups| && Mentions(groups[i], x)
  }

  /** Each switch is mapped to its partner in the last pair that names it. */
  ghost predicate LastPartners(groups: seq<(string, string)>, m: map<string, string>) {
    forall x :: x in m ==> exists i :: LastMention(groups, x, i) && m[x] == PartnerIn(groups[i], x)
  }

  lemma CoversStep(groups: seq<(string, string)>, m0: map<string, string>)
    requires |groups| > 0 && Covers(groups[..|groups| - 1], m0)
    ensures var g := groups[|groups| - 1]; Covers(groups, m0[g.0 := g.1][g.1 := g.0])
  {
    var front := groups[..|groups| - 1];
    var g := groups[|groups| - 1];
    var m := m0[g.0 := g.1][g.1 := g.0];
    forall x ensures x in m <==> exists i :: 0 <= i < |groups| && Mentions(groups[i], x) {
      if x in m0 {
        var i :| 0 <= i < |front| && Mentions(front[i], x);
        assert groups[i] == front[i];
      }
      if exists i :: 0 <= i < |groups| && Mentions(groups[i], x) {
        var i :| 0 <= i < |groups| && Mentions(groups[i], x);
        if i < |front| {
          assert front[i] == groups[i];
        }
      }
    }
  }

  lemma LastPartnersStep(groups: seq<(string, string)>, m0: map<string, string>)
    requires |groups| > 0 && LastPartners(groups[..|groups| - 1], m0)
    ensures var g := groups[|groups| - 1]; LastPartners(groups, m0[g.0 := g.1][g.1 := g.0])
  {
    var front := groups[..|groups| - 1];
    var g := groups[|groups| - 1];
    var m := m0[g.0 := g.1][g.1 := g.0];
    forall x | x in m ensures exists i :: LastMention(groups, x, i) && m[x] == PartnerIn(groups[i], x) {
      if x == g.0 || x == g.1 {
        assert LastMention(groups, x, |groups| - 1);
      } else {
        var i :| LastMention(front, x, i) && m0[x] == PartnerIn(front[i], x);
        LastMentionExtends(groups, x, i);
      }
    }
  }

  /** A switch the newest pair does not name keeps its last mention among the older pairs. */
  lemma LastMentionExtends(groups: seq<(string, string)>, x: string, i: int)
    requires |groups| > 0 && LastMention(groups[..|groups| - 1], x, i) && !Mentions(groups[|groups| - 1], x)
    ensures LastMention(groups, x, i) && groups[i] == groups[..|groups| - 1][i]
  {
    var front := groups[..|groups| - 1];
    forall j | i < j < |groups| ensures !Mentions(groups[j], x) {
      if j < |front| { assert groups[j] == front[j]; }
    }
  }

  /** Group `i` mentions `x` and no later group does. */
  predicate LastMention(groups: seq<(string, string)>, x: string, i: int) {
    0 <= i < |groups| && Mentions(groups[i], x) && forall j :: i < j < |groups| ==> !Mentions(groups[j], x)
  }

  /** `_are_mlag_peers(a, b)`: the peer map sends `a` to `b`. */
  predicate ArePeers(peers: map<string, string>, a: string, b: string) {
    a in peers && peers[a] == b
  }

  /** Two switches are only ever peers through a configured pair, in one order or the other. */
  lemma PeersAreConfigured(groups: seq<(string, string)>, a: string, b: string)
    requires ArePeers(PeerMap(groups), a, b)
    ensures exists i :: 0 <= i < |groups| && (groups[i] == (a, b) || groups[i] == (b, a))
  {
    var i :| 0 <= i < |groups| && LastMention(groups, a, i) && PeerMap(groups)[a] == PartnerIn(groups[i], a);
    assert groups[i] == (a, b) || groups[i] == (b, a);
  }

  /** No switch is named by two different pairs. */
  predicate DisjointGroups(groups: seq<(string, string)>) {
    forall i, j :: 0 <= i < j < |groups| ==> !Mentions(groups[j], groups[i].0) && !Mentions(groups[j], groups[i].1)
  }

  /** With disjoint pairs the relation is exactly "configured together", so symmetric. */
  lemma DisjointGroupsArePeers(groups: seq<(string, string)>, k: nat)
    requires DisjointGroups(groups) && k < |groups|
    ensures ArePeers(PeerMap(groups), groups[k].0, groups[k].1)
    ensures ArePeers(PeerMap(groups), groups[k].1, groups[k].0)
  {
    DisjointLastMention(groups, k);
    LastMentionPartner(groups, groups[k].0, k);
    LastMentionPartner(groups, groups[k].1, k);
  }

  /** A switch's partner in the peer map is its partner in the pair that mentions it last. */
  lemma LastMentionPartner(groups: seq<(string, string)>, x: string, k: int)
    requires LastMention(groups, x, k)
    ensures ArePeers(PeerMap(groups), x, PartnerIn(groups[k], x))
  {
    var m := PeerMap(groups);
    var i :| LastMention(groups, x, i) && m[x] == PartnerIn(groups[i], x);
    LastMentionUnique(groups, x, i, k);
  }

  /** With disjoint pairs, each pair is the last (and only) mention of both its switches. */
  lemma DisjointLastMention(groups: seq<(string, string)>, k: nat)
    requires DisjointGroups(groups) && k < |groups|
    ensures LastMention(groups, groups[k].0, k) && LastMention(groups, groups[k].1, k)
  {
  }

  /** A switch has at most one last mention. */
  lemma LastMentionUnique(groups: seq<(string, string)>, x: string, i: int, j: int)
    requires LastMention(groups, x, i) && LastMention(groups, x, j)
    ensures i == j
  {
  }

  /** With overlapping pairs the map is not symmetric: from `A:B,B:C`, `A` maps to `B` but `B`
      maps to `C`, so whether the tie-break succeeds depends on which switch comes first. */
  lemma OverlappingGroupsAsymmetric()
    ensures ArePeers(PeerMap([("A", "B"), ("B", "C")]), "A", "B")
    ensures !ArePeers(PeerMap([("A", "B"), ("B", "C")]), "B", "A")
  {
    var groups := [("A", "B"), ("B", "C")];
    assert groups[..1] == [("A", "B")];
    assert groups[..1][..0] == [];
  }

  // ---------------------------------------------------------------------------------------------
  // Tables built from the FDB

  function EndpointOf(e: FdbEntry): Endpoint {
    (e.switchName, e.portName)
  }

  /** `normalize_mac` of every FDB entry, in order; the first failure is raised. */
  function NormalizeAll(macs: seq<string>): (r: Result<seq<string>, MacUtils.MacError>)
    ensures r.Success? <==> forall i :: 0 <= i < |macs| ==> MacUtils.NormalizeMac(macs[i]).Success?
    ensures r.Success? ==>
      && |r.value| == |macs|
      && forall i :: 0 <= i < |macs| ==> MacUtils.NormalizeMac(macs[i]) == Success(r.value[i])
  {
    if |macs| == 0 then Success([])
    else
      match MacUtils.NormalizeMac(macs[0])
      case Failure(e) => Failure(e)
      case Success(m) =>
        match NormalizeAll(macs[1..])
        case Failure(e) =>
          Failure(e)
        case Success(ms) =>
          Success([m] + ms)
  }

  /** The entries whose normalized MAC is `mac`, in FDB order: the reference for grouping. */
  function EntriesWithMac(entries: seq<FdbEntry>, macs: seq<string>, mac: string): seq<FdbEntry>
    requires |macs| == |entries|
  {
    if |entries| == 0 then []
    else
      var rest := EntriesWithMac(entries[..|entries| - 1], macs[..|macs| - 1], mac);
      if macs[|macs| - 1] == mac then rest + [entries[|entries| - 1]] else rest
  }

  /** `mac_to_fdb`: FDB entries grouped by normalized MAC (`macs[i]` is that of `entries[i]`). */
  function GroupByMac(entries: seq<FdbEntry>, macs: seq<string>): (groups: map<string, seq<FdbEntry>>)
    requires |macs| == |entries|
    ensures forall mac :: mac in groups <==> mac in macs
    ensures forall mac :: mac in groups ==> groups[mac] == EntriesWithMac(entries, macs, mac) && |groups[mac]| > 0
  {
    if |entries| == 0 then map[]
    else
      var front, fmacs := entries[..|entries| - 1], macs[..|macs| - 1];
      var g := GroupByMac(front, fmacs);
      var mac := macs[|macs| - 1];
      assert macs == fmacs + [mac];
      var before := EntriesWithMac(front, fmacs, mac);
      assert mac !in g ==> before == [] by {
        if mac !in g && |before| > 0 {
          EntriesWithMacSound(front, fmacs, mac, before[0]);
        }
      }
      var r := g[mac := (if mac in g then g[mac] else []) + [entries[|entries| - 1]]];
      assert forall m :: m in r ==> r[m] == EntriesWithMac(entries, macs, m) by {
        forall m | m in r ensures r[m] == EntriesWithMac(entries, macs, m) {
          if m != mac {
            assert m in g;
          } else {
            assert r[m] == (if mac in g then g[mac] else []) + [entries[|entries| - 1]];
          }
        }
      }
      r
  }

  /** Every grouped entry carries its group's MAC, and entries keep their FDB order. */
  lemma {:induction false} EntriesWithMacSound(entries: seq<FdbEntry>, macs: seq<string>, mac: string, x: FdbEntry)
    requires |macs| == |entries|
    ensures x in EntriesWithMac(entries, macs, mac) <==> exists i :: 0 <= i < |entries| && entries[i] == x && macs[i] == mac
  {
    if |entries| > 0 {
      var n := |entries| - 1;
      var front, fmacs := entries[..n], macs[..n];
      EntriesWithMacSound(front, fmacs, mac, x);
      if exists i :: 0 <= i < |entries| && entries[i] == x && macs[i] == mac {
        var i :| 0 <= i < |entries| && entries[i] == x && macs[i] == mac;
        if i < n {
          assert front[i] == x && fmacs[i] == mac;
        }
      }
      if x in EntriesWithMac(front, fmacs, mac) {
        var i :| 0 <= i < |front| && front[i] == x && fmacs[i] == mac;
        assert entries[i] == x && macs[i] == mac;
      }
    }
  }

  /** `port_to_mac`: the normalized MAC of the last entry seen on each endpoint. */
  function PortToMac(entries: seq<FdbEntry>, macs: seq<string>): (r: map<Endpoint, string>)
    requires |macs| == |entries|
    ensures HasEveryEndpoint(entries, r) && KeepsLastMac(entries, macs, r)
  {
    if |entries| == 0 then map[]
    else
      var n := |entries| - 1;
      var m0 := PortToMac(entries[..n], macs[..n]);
      EveryEndpointStep(entries, m0, macs[n]);
      LastMacStep(entries, macs, m0);
      m0[EndpointOf(entries[n]) := macs[n]]
  }

  ghost predicate HasEveryEndpoint(entries: seq<FdbEntry>, m: map<Endpoint, string>) {
    forall i :: 0 <= i < |entries| ==> EndpointOf(entries[i]) in m
  }

  ghost predicate KeepsLastMac(entries: seq<FdbEntry>, macs: seq<string>, m: map<Endpoint, string>)
    requires |macs| == |entries|
  {
    forall k :: k in m ==> exists i :: LastOn(entries, k, i) && m[k] == macs[i]
  }

  lemma EveryEndpointStep(entries: seq<FdbEntry>, m0: map<Endpoint, string>, mac: string)
    requires |entries| > 0 && HasEveryEndpoint(entries[..|entries| - 1], m0)
    ensures HasEveryEndpoint(entries, m0[EndpointOf(entries[|entries| - 1]) := mac])
  {
    var front := entries[..|entries| - 1];
    forall i | 0 <= i < |front| ensures EndpointOf(entries[i]) in m0 {
      assert entries[i] == front[i];
    }
  }

  lemma LastMacStep(entries: seq<FdbEntry>, macs: seq<string>, m0: map<Endpoint, string>)
    requires |macs| == |entries| > 0
    requires KeepsLastMac(entries[..|entries| - 1], macs[..|macs| - 1], m0)
    ensures KeepsLastMac(entries, macs, m0[EndpointOf(entries[|entries| - 1]) := macs[|macs| - 1]])
  {
    var n := |entries| - 1;
    var front, fmacs := entries[..n], macs[..n];
    var e := EndpointOf(entries[n]);
    var r := m0[e := macs[n]];
    forall k | k in r ensures exists i :: LastOn(entries, k, i) && r[k] == macs[i] {
      if k == e {
        assert LastOn(entries, k, n);
      } else {
        var i :| LastOn(front, k, i) && m0[k] == fmacs[i];
        assert forall j :: i < j < n ==> front[j] == entries[j];
        assert LastOn(entries, k, i) && macs[i] == fmacs[i];
      }
    }
  }

  /** Entry `i` is on endpoint `k` and no later entry is. */
  predicate LastOn(entries: seq<FdbEntry>, k: Endpoint, i: int) {
    0 <= i < |entries| && EndpointOf(entries[i]) == k
    && forall j :: i < j < |entries| ==> EndpointOf(entries[j]) != k
  }

  /** `switch_map`: switches by name, the last of a name winning. */
  function SwitchMap(switches: seq<SwitchInfo>): (r: map<string, SwitchInfo>)
    ensures forall name :: name in r <==> exists i :: 0 <= i < |switches| && switches[i].name == name
    ensures forall name :: name in r ==> r[name].name == name && r[name] in switches
    ensures KeepsLastSwitch(switches, r)
  {
    if |switches| == 0 then map[]
    else
      var front := switches[..|switches| - 1];
      var m0 := SwitchMap(front);
      var s := switches[|switches| - 1];
      var r := m0[s.name := s];
      forall name | (exists i :: 0 <= i < |switches| && switches[i].name == name) ensures name in r {
        var i :| 0 <= i < |switches| && switches[i].name == name;
        if i < |front| { assert front[i] == switches[i]; }
      }
      forall name | name in m0 ensures exists i :: 0 <= i < |switches| && switches[i].name == name {
        var i :| 0 <= i < |front| && front[i].name == name;
        assert switches[i] == front[i];
      }
      LastSwitchStep(switches, m0);
      r
  }

  /** Each name maps to the last switch of that name. */
  ghost predicate KeepsLastSwitch(switches: seq<SwitchInfo>, m: map<string, SwitchInfo>) {
    forall name :: name in m ==> exists i :: LastNamedSwitch(switches, name, i) && m[name] == switches[i]
  }

  /** Switch `i` is named `name` and no later switch is. */
  predicate LastNamedSwitch(switches: seq<SwitchInfo>, name: string, i: int) {
    0 <= i < |switches| && switches[i].name == name
    && forall j :: i < j < |switches| ==> switches[j].name != name
  }

  lemma LastSwitchStep(switches: seq<SwitchInfo>, m0: map<string, SwitchInfo>)
    requires |switches| > 0 && KeepsLastSwitch(switches[..|switches| - 1], m0)
    ensures var s := switches[|switches| - 1]; KeepsLastSwitch(switches, m0[s.name := s])
  {
    var n := |switches| - 1;
    var front := switches[..n];
    var s := switches[n];
    var m := m0[s.name := s];
    forall name | name in m ensures exists i :: LastNamedSwitch(switches, name, i) && m[name] == switches[i] {
      if name == s.name {
        assert LastNamedSwitch(switches, name, n);
      } else {
        var i :| LastNamedSwitch(front, name, i) && m0[name] == front[i];
        assert forall j :: i < j < n ==> front[j] == switches[j];
        assert LastNamedSwitch(switches, name, i);
      }
    }
  }

  // ---------------------------------------------------------------------------------------------
  // Ambiguity

  /** The distinct endpoints of the entries, in order of first appearance: the contents of
      `unique_endpoints`. */
  function DistinctEndpoints(entries: seq<FdbEntry>): (r: seq<Endpoint>)
    ensures forall i, j :: 0 <= i < j < |r| ==> r[i] != r[j]
    ensures forall p :: p in r <==> exists i :: 0 <= i < |entries| && EndpointOf(entries[i]) == p
    ensures |entries| > 0 ==> |r| > 0 && r[0] == EndpointOf(entries[0])
  {
    if |entries| == 0 then []
    else
      var front := entries[..|entries| - 1];
      var r0 := DistinctEndpoints(front);
      var p := EndpointOf(entries[|entries| - 1]);
      var r := if p in r0 then r0 else r0 + [p];
      forall q | q in r ensures exists i :: 0 <= i < |entries| && EndpointOf(entries[i]) == q {
        if q != p {
          var i :| 0 <= i < |front| && EndpointOf(front[i]) == q;
          assert entries[i] == front[i];
        }
      }
      forall i | 0 <= i < |entries| ensures EndpointOf(entries[i]) in r {
        if i < |front| { assert entries[i] == front[i]; }
      }
      assert |front| > 0 ==> entries[0] == front[0];
      r
  }

  /** The first entry on switch `sw` (`next(e for e in entries if e.switch_name == sw)`). */
  function FirstOnSwitch(entries: seq<FdbEntry>, sw: string): (k: nat)
    requires exists i :: 0 <= i < |entries| && entries[i].switchName == sw
    ensures k < |entries| && entries[k].switchName == sw
    ensures forall j :: 0 <= j < k ==> entries[j].switchName != sw
  {
    if entries[0].switchName == sw then 0
    else
      var i :| 0 <= i < |entries| && entries[i].switchName == sw;
      assert entries[1..][i - 1] == entries[i];
      1 + FirstOnSwitch(entries[1..], sw)
  }

  /** `_resolve_ambiguity`: the entry to act on, or none when the MAC is on several endpoints that
      are not one MLAG port. */
  function ResolveAmbiguity(c: Correlator, entries: seq<FdbEntry>): (r: Option<FdbEntry>)
    ensures r.Some? ==> r.value in entries
    ensures |entries| == 0 ==> r.None?
    ensures |DistinctEndpoints(entries)| == 1 ==> r == Some(entries[0])
    ensures |DistinctEndpoints(entries)| >= 3 ==> r.None?
    ensures var eps := DistinctEndpoints(entries);
      |eps| == 2 ==>
        (r.Some? ==>
          && eps[0].1 == eps[1].1
          && (ArePeers(c.peers, eps[0].0, eps[1].0) || ArePeers(c.peers, eps[1].0, eps[0].0))
          && (r.value.switchName == eps[0].0 || r.value.switchName == eps[1].0)
          && r.value == entries[FirstOnSwitch(entries, r.value.switchName)])
        && (eps[0].1 == eps[1].1 && ArePeers(c.peers, eps[0].0, eps[1].0) && ArePeers(c.peers, eps[1].0, eps[0].0)
            ==> r.Some?)
  {
    var eps := DistinctEndpoints(entries);
    if |entries| == 1 then
      assert forall p :: p in eps ==> p == EndpointOf(entries[0]);
      assert |eps| == 1 by {
        if |eps| > 1 { assert false; }
      }
      Some(entries[0])
    else if |eps| == 1 then Some(entries[0])
    else if |eps| == 2 then
      var (first, second) := if c.setOrder(eps[0], eps[1]) then (eps[0], eps[1]) else (eps[1], eps[0]);
      if first.1 == second.1 && ArePeers(c.peers, first.0, second.0) then
        assert first in eps;
        var i :| 0 <= i < |entries| && EndpointOf(entries[i]) == first;
        Some(entries[FirstOnSwitch(entries, first.0)])
      else None
    else None
  }

  // ---------------------------------------------------------------------------------------------
  // Cabled interfaces

  /** The interface's cable has a known peer switch and port (both set and not empty). */
  predicate HasPeerPort(ipmi: IpmiInterface) {
    ipmi.cablePeerSwitch.Some? && ipmi.cablePeerSwitch.value != ""
    && ipmi.cablePeerPort.Some? && ipmi.cablePeerPort.value != ""
  }

  /** `_check_mismatch`: the cable's switch port shows a MAC other than the interface's. */
  function CheckMismatch(ipmi: IpmiInterface, mac: string, portToMac: map<Endpoint, string>): (r: Option<CorrelationResult>)
    ensures r.Some? <==>
      HasPeerPort(ipmi)
      && (ipmi.cablePeerSwitch.value, ipmi.cablePeerPort.value) in portToMac
      && portToMac[(ipmi.cablePeerSwitch.value, ipmi.cablePeerPort.value)] != mac
    ensures r.Some? ==>
      var seen := portToMac[(ipmi.cablePeerSwitch.value, ipmi.cablePeerPort.value)];
      && r.value.status == StateDb.Mismatch && r.value.mac == mac && r.value.ipmi == ipmi
      && r.value.expectedMac == Some(mac) && r.value.actualMac == Some(seen)
      && r.value.switchName == ipmi.cablePeerSwitch && r.value.portName == ipmi.cablePeerPort
      && r.value.classification.None?
  {
    if !HasPeerPort(ipmi) then None
    else
      var key := (ipmi.cablePeerSwitch.value, ipmi.cablePeerPort.value);
      if key !in portToMac then None
      else
        var actual := portToMac[key];
        if actual != mac then
          Some(Bare(mac, ipmi, StateDb.Mismatch, MacMismatch(mac, actual)).(
            switchName := ipmi.cablePeerSwitch, portName := ipmi.cablePeerPort,
            expectedMac := Some(mac), actualMac := Some(actual)))
        else None
  }

  // ---------------------------------------------------------------------------------------------
  // One interface

  /** A result and the store after it. */
  datatype Step = Step(result: CorrelationResult, db: StateDb.Db)

  /** The result came from the path that calls `update_observation`: the port was classified
      and allowed. */
  predicate Observed(r: CorrelationResult) {
    r.classification.Some? && r.classification.value.isAllowed
  }

  /** Only the row of `mac` may differ between the two stores, and the history not at all. */
  ghost predicate OnlyRowOf(db: StateDb.Db, db': StateDb.Db, mac: string) {
    && db'.history == db.history
    && (forall m :: m != mac ==> (m in db'.macs <==> m in db.macs))
    && (forall m :: m != mac && m in db.macs ==> db'.macs[m] == db.macs[m])
  }

  /** The tail of `_correlate_one` once the entry is chosen and its switch is known: classify the
      port, record the observation, look the interface up in NetBox, and decide. */
  function Located(c: Correlator, db: StateDb.Db, ipmi: IpmiInterface, mac: string, best: FdbEntry,
                   sw: SwitchInfo): (s: Step)
    ensures var r := s.result;
      && r.mac == mac && r.ipmi == ipmi && r.switchName == Some(best.switchName) && r.switchId == Some(sw.id)
      && r.portName == Some(best.portName) && r.vlan == best.vlan
      && r.classification == Some(PortClassifier.Classify(c.classifier, best.portName, None, false, false))
      && r.status in {StateDb.SkipNonAccess, StateDb.Error, StateDb.Pending}
      && OnlyRowOf(db, s.db, mac)
    ensures !Observed(s.result) ==> s.result.status == StateDb.SkipNonAccess && s.db == StateDb.UpdateStatus(db, mac, StateDb.SkipNonAccess, None)
    ensures Observed(s.result) ==>
      var obs := StateDb.UpdateObservation(db, mac, best.switchName, best.portName, best.vlan, c.stabilityRuns);
      s.db == obs.db && s.result.stabilityCount == obs.count && s.result.isStable == obs.isStable
    ensures Observed(s.result) ==>
      var key := (sw.id, best.portName);
      && (s.result.status == StateDb.Error <==> key !in c.interfaces)
      && (key in c.interfaces ==> s.result.portId == Some(c.interfaces[key].id))
      && (s.result.status == StateDb.Pending <==> key in c.interfaces && !c.interfaces[key].hasCable)
    ensures s.result.status == StateDb.Pending ==>
      && Observed(s.result) && s.result.portId.Some?
      && (s.result.isStable <==> s.result.stabilityCount >= c.stabilityRuns)
      && (s.result.isStable <==> s.result.reason == ReadyForCable)
    ensures s.result.reason == ReadyForCable ==> s.result.status == StateDb.Pending
  {
    var cls := PortClassifier.Classify(c.classifier, best.portName, None, false, false);
    var base := Bare(mac, ipmi, StateDb.SkipNonAccess, PortNotAllowed(cls.reason)).(
      switchName := Some(best.switchName), switchId := Some(sw.id), portName := Some(best.portName),
      vlan := best.vlan, classification := Some(cls));
    if !cls.isAllowed then
      Step(base, StateDb.UpdateStatus(db, mac, StateDb.SkipNonAccess, None))
    else
      var obs := StateDb.UpdateObservation(db, mac, best.switchName, best.portName, best.vlan, c.stabilityRuns);
      var observed := base.(stabilityCount := obs.count, isStable := obs.isStable);
      var key := (sw.id, best.portName);
      if key !in c.interfaces then
        Step(observed.(status := StateDb.Error, reason := InterfaceNotFound(best.portName, best.switchName)), obs.db)
      else
        var iface := c.interfaces[key];
        var placed := observed.(portId := Some(iface.id));
        if iface.hasCable then
          Step(placed.(status := StateDb.SkipNonAccess, reason := SwitchPortCabled(best.portName)), obs.db)
        else if !obs.isStable then
          Step(placed.(status := StateDb.Pending, reason := WaitingForStability(obs.count, c.stabilityRuns)), obs.db)
        else
          Step(placed.(status := StateDb.Pending, reason := ReadyForCable), obs.db)
  }

  /** `_correlate_one` for an interface without a cable, given its normalized MAC. */
  function Uncabled(c: Correlator, db: StateDb.Db, ipmi: IpmiInterface, mac: string,
                    groups: map<string, seq<FdbEntry>>, switchMap: map<string, SwitchInfo>): (s: Step)
    ensures s.result.mac == mac && s.result.ipmi == ipmi && OnlyRowOf(db, s.db, mac)
    ensures s.result.status !in {StateDb.Created, StateDb.Exists, StateDb.Mismatch}
    ensures s.result.status == StateDb.NotFound <==> mac !in groups || |groups[mac]| == 0
    ensures s.result.status == StateDb.NotFound ==> s.db == StateDb.MarkNotFound(db, mac)
    ensures s.result.status == StateDb.Ambiguous <==>
      mac in groups && |groups[mac]| > 0 && ResolveAmbiguity(c, groups[mac]).None?
    ensures s.result.status == StateDb.Ambiguous ==> s.db == db
    ensures s.result.reason.SwitchNotInNetBox? <==>
      && mac in groups && ResolveAmbiguity(c, groups[mac]).Some?
      && ResolveAmbiguity(c, groups[mac]).value.switchName !in switchMap
    ensures s.result.reason.SwitchNotInNetBox? ==> s.result.status == StateDb.Error && s.db == db
    ensures Observed(s.result) <==>
      && mac in groups && ResolveAmbiguity(c, groups[mac]).Some?
      && ResolveAmbiguity(c, groups[mac]).value.switchName in switchMap
      && PortClassifier.Classify(c.classifier, ResolveAmbiguity(c, groups[mac]).value.portName, None, false, false).isAllowed
    ensures Observed(s.result) ==>
      && mac in groups && ResolveAmbiguity(c, groups[mac]).Some?
      && s.result.switchName == Some(ResolveAmbiguity(c, groups[mac]).value.switchName)
      && s.result.portName == Some(ResolveAmbiguity(c, groups[mac]).value.portName)
      && s.result.switchName.value in switchMap
      && s.db == StateDb.UpdateObservation(db, mac, s.result.switchName.value, s.result.portName.value,
                                           s.result.vlan, c.stabilityRuns).db
    ensures !Observed(s.result) ==>
      (s.db == db || s.result.status == StateDb.NotFound
       || s.db == StateDb.UpdateStatus(db, mac, StateDb.SkipNonAccess, None))
    ensures s.result.status == StateDb.Pending ==>
      && Observed(s.result) && s.result.portId.Some?
      && (s.result.isStable <==> s.result.stabilityCount >= c.stabilityRuns)
      && (s.result.isStable <==> s.result.reason == ReadyForCable)
    ensures s.result.reason == ReadyForCable ==> s.result.status == StateDb.Pending
  {
    var entries := if mac in groups then groups[mac] else [];
    if |entries| == 0 then
      Step(Bare(mac, ipmi, StateDb.NotFound, NotInFdb), StateDb.MarkNotFound(db, mac))
    else
      match ResolveAmbiguity(c, entries)
      case None =>
        var locations := seq(|entries|, i requires 0 <= i < |entries| => EndpointOf(entries[i]));
        Step(Bare(mac, ipmi, StateDb.Ambiguous, MultipleEndpoints(locations)), db)
      case Some(best) =>
        if best.switchName !in switchMap then
          Step(Bare(mac, ipmi, StateDb.Error, SwitchNotInNetBox(best.switchName)), db)
        else
          Located(c, db, ipmi, mac, best, switchMap[best.switchName])
  }

  /** `_correlate_one`: normalizing the interface's MAC may raise; a cabled interface is only
      checked for a mismatch and never touches the store. */
  function CorrelateOne(c: Correlator, db: StateDb.Db, ipmi: IpmiInterface, groups: map<string, seq<FdbEntry>>,
                        switchMap: map<string, SwitchInfo>, portToMac: map<Endpoint, string>): (r: Result<Step, MacUtils.MacError>)
    ensures r.Success? <==> MacUtils.NormalizeMac(ipmi.macAddress).Success?
    ensures r.Success? ==>
      var (s, mac) := (r.value, MacUtils.NormalizeMac(ipmi.macAddress).value);
      && Describes(c, ipmi, s.result)
      && OnlyRowOf(db, s.db, mac)
      && (ipmi.hasCable <==> s.result.status in {StateDb.Exists, StateDb.Mismatch})
      && (ipmi.hasCable ==> s.db == db)
      && Decides(c, groups, switchMap, portToMac, ipmi, s.result)
      && (!ipmi.hasCable ==> s == Uncabled(c, db, ipmi, mac, groups, switchMap))
      && (s.result.status == StateDb.Pending ==> s.result.isStable == (s.result.stabilityCount >= c.stabilityRuns))
  {
    var mac :- MacUtils.NormalizeMac(ipmi.macAddress);
    if ipmi.hasCable then
      match CheckMismatch(ipmi, mac, portToMac)
      case Some(m) => Success(Step(m, db))
      case None => Success(Step(Bare(mac, ipmi, StateDb.Exists, CableExists), db))
    else
      Success(Uncabled(c, db, ipmi, mac, groups, switchMap))
  }

  /** How `_correlate_one` decides from the tables built from the FDB: a cabled interface by the
      MAC its peer port shows; an uncabled one as not found, ambiguous, on a switch NetBox does not
      know, or placed at a port whose classification decides whether it is observed. */
  predicate Decides(c: Correlator, groups: map<string, seq<FdbEntry>>, switchMap: map<string, SwitchInfo>,
                    portToMac: map<Endpoint, string>, ipmi: IpmiInterface, r: CorrelationResult) {
    var found := r.mac in groups && |groups[r.mac]| > 0;
    var best := if found then ResolveAmbiguity(c, groups[r.mac]) else None;
    && (r.status == StateDb.Exists <==> ipmi.hasCable && CheckMismatch(ipmi, r.mac, portToMac).None?)
    && (r.status == StateDb.Mismatch <==> ipmi.hasCable && CheckMismatch(ipmi, r.mac, portToMac).Some?)
    && (r.status == StateDb.NotFound <==> !ipmi.hasCable && !found)
    && (r.status == StateDb.Ambiguous <==> !ipmi.hasCable && found && best.None?)
    && (r.reason.SwitchNotInNetBox? <==> !ipmi.hasCable && best.Some? && best.value.switchName !in switchMap)
    && (Observed(r) <==>
          && !ipmi.hasCable && best.Some? && best.value.switchName in switchMap
          && PortClassifier.Classify(c.classifier, best.value.portName, None, false, false).isAllowed)
  }

  // ---------------------------------------------------------------------------------------------
  // All interfaces

  /** `r` is a result for `ipmi` as `correlate` returns it: for its normalized MAC, never a
      created cable, and ready only with a switch interface to cable to. */
  predicate Describes(c: Correlator, ipmi: IpmiInterface, r: CorrelationResult) {
    && MacUtils.NormalizeMac(ipmi.macAddress).Success?
    && r.ipmi == ipmi && r.mac == MacUtils.NormalizeMac(ipmi.macAddress).value
    && r.status != StateDb.Created
    && (r.status == StateDb.Pending && r.isStable ==> r.portId.Some? && r.reason == ReadyForCable)
    && (r.reason == ReadyForCable ==> r.status == StateDb.Pending && r.isStable)
  }

  /** The results so far and the store; an exception leaves the store as the earlier interfaces
      left it, with no results. */
  datatype Correlation = Correlation(db: StateDb.Db, results: Result<seq<CorrelationResult>, MacUtils.MacError>)

  /** The loop of `correlate` over the interfaces, in order. */
  function CorrelateAll(c: Correlator, db: StateDb.Db, ipmis: seq<IpmiInterface>, groups: map<string, seq<FdbEntry>>,
                        switchMap: map<string, SwitchInfo>, portToMac: map<Endpoint, string>): (r: Correlation)
    ensures r.results.Success? <==> MacsNormalize(ipmis)
    ensures r.db.history == db.history
    ensures r.results.Success? ==> AllDescribed(c, ipmis, r.results.value)
    ensures r.results.Success? ==> AllDecided(c, groups, switchMap, portToMac, ipmis, r.results.value)
    decreases |ipmis|
  {
    if |ipmis| == 0 then Correlation(db, Success([]))
    else
      var one := CorrelateOne(c, db, ipmis[0], groups, switchMap, portToMac);
      if one.Failure? then
        assert !MacsNormalize(ipmis) by { assert !MacUtils.NormalizeMac(ipmis[0].macAddress).Success?; }
        Correlation(db, Failure(one.error))
      else
        var step := one.value;
        var rest := CorrelateAll(c, step.db, ipmis[1..], groups, switchMap, portToMac);
        MacsNormalizeCons(ipmis);
        if rest.results.Failure? then
          Correlation(rest.db, Failure(rest.results.error))
        else
          var all := [step.result] + rest.results.value;
          DescribedCons(c, ipmis, step.result, rest.results.value);
          DecidedCons(c, groups, switchMap, portToMac, ipmis, step.result, rest.results.value);
          Correlation(rest.db, Success(all))
  }

  /** Every FDB entry's MAC normalizes. */
  predicate FdbMacsNormalize(fdb: seq<FdbEntry>) {
    forall k :: 0 <= k < |fdb| ==> MacUtils.NormalizeMac(fdb[k].mac).Success?
  }

  /** Every interface's MAC normalizes. */
  predicate MacsNormalize(ipmis: seq<IpmiInterface>) {
    forall i :: 0 <= i < |ipmis| ==> MacUtils.NormalizeMac(ipmis[i].macAddress).Success?
  }

  /** One result per interface, in order, each describing its interface. */
  predicate AllDescribed(c: Correlator, ipmis: seq<IpmiInterface>, rs: seq<CorrelationResult>) {
    |rs| == |ipmis| && forall i :: 0 <= i < |ipmis| ==> Describes(c, ipmis[i], rs[i])
  }

  /** One result per interface, in order, each decided from the tables as `_correlate_one` does. */
  predicate AllDecided(c: Correlator, groups: map<string, seq<FdbEntry>>, switchMap: map<string, SwitchInfo>,
                       portToMac: map<Endpoint, string>, ipmis: seq<IpmiInterface>, rs: seq<CorrelationResult>) {
    |rs| == |ipmis| && forall i :: 0 <= i < |ipmis| ==> Decides(c, groups, switchMap, portToMac, ipmis[i], rs[i])
  }

  /** `correlate` never reports a created cable; only `_process_result` creates them. A result
      is ready for cable creation exactly when it is still `PENDING` and stable. */
  lemma NothingCreated(c: Correlator, ipmis: seq<IpmiInterface>, rs: seq<CorrelationResult>)
    requires AllDescribed(c, ipmis, rs)
    ensures forall i :: 0 <= i < |rs| ==> rs[i].status != StateDb.Created
    ensures forall i :: 0 <= i < |rs| ==>
      (rs[i].reason == ReadyForCable <==> rs[i].status == StateDb.Pending && rs[i].isStable)
  {
    forall i | 0 <= i < |rs|
      ensures rs[i].status != StateDb.Created
      ensures rs[i].reason == ReadyForCable <==> rs[i].status == StateDb.Pending && rs[i].isStable
    {
      assert Describes(c, ipmis[i], rs[i]);
    }
  }

  lemma MacsNormalizeCons(ipmis: seq<IpmiInterface>)
    requires |ipmis| > 0
    ensures MacsNormalize(ipmis) <==> MacUtils.NormalizeMac(ipmis[0].macAddress).Success? && MacsNormalize(ipmis[1..])
  {
    var p := (x: IpmiInterface) => MacUtils.NormalizeMac(x.macAddress).Success?;
    EveryCons(p, ipmis);
  }

  lemma DescribedCons(c: Correlator, ipmis: seq<IpmiInterface>, r: CorrelationResult, rs: seq<CorrelationResult>)
    requires |ipmis| > 0 && Describes(c, ipmis[0], r) && AllDescribed(c, ipmis[1..], rs)
    ensures AllDescribed(c, ipmis, [r] + rs)
  {
    var p := (x: IpmiInterface, y: CorrelationResult) => Describes(c, x, y);
    PairwiseCons(p, ipmis, r, rs);
  }

  lemma DecidedCons(c: Correlator, groups: map<string, seq<FdbEntry>>, switchMap: map<string, SwitchInfo>,
                    portToMac: map<Endpoint, string>, ipmis: seq<IpmiInterface>, r: CorrelationResult,
                    rs: seq<CorrelationResult>)
    requires |ipmis| > 0 && Decides(c, groups, switchMap, portToMac, ipmis[0], r)
    requires AllDecided(c, groups, switchMap, portToMac, ipmis[1..], rs)
    ensures AllDecided(c, groups, switchMap, portToMac, ipmis, [r] + rs)
  {
    var p := (x: IpmiInterface, y: CorrelationResult) => Decides(c, groups, switchMap, portToMac, x, y);
    PairwiseCons(p, ipmis, r, rs);
  }

  /** A property holds of every element exactly when it holds of the head and of every element of the tail. */
  lemma EveryCons<T>(p: T -> bool, xs: seq<T>)
    requires |xs| > 0
    ensures (forall i :: 0 <= i < |xs| ==> p(xs[i])) <==> p(xs[0]) && forall i :: 0 <= i < |xs| - 1 ==> p(xs[1..][i])
  {
    if p(xs[0]) && forall i :: 0 <= i < |xs| - 1 ==> p(xs[1..][i]) {
      forall i | 0 <= i < |xs| ensures p(xs[i]) {
        if i > 0 { assert xs[i] == xs[1..][i - 1]; }
      }
    }
  }

  /** A relation holds pointwise between two sequences when it holds of the heads and pointwise of the tails. */
  lemma PairwiseCons<T, U>(p: (T, U) -> bool, xs: seq<T>, y: U, ys: seq<U>)
    requires |xs| == |ys| + 1 && p(xs[0], y)
    requires forall i :: 0 <= i < |ys| ==> p(xs[1..][i], ys[i])
    ensures forall i :: 0 <= i < |xs| ==> p(xs[i], ([y] + ys)[i])
  {
    forall i | 0 <= i < |xs| ensures p(xs[i], ([y] + ys)[i]) {
      if i > 0 { assert xs[i] == xs[1..][i - 1] && ([y] + ys)[i] == ys[i - 1]; }
    }
  }

  /** The MAC column of the FDB. */
  function MacsOf(fdb: seq<FdbEntry>): (r: seq<string>)
    ensures |r| == |fdb| && forall i :: 0 <= i < |fdb| ==> r[i] == fdb[i].mac
  {
    seq(|fdb|, i requires 0 <= i < |fdb| => fdb[i].mac)
  }

  /** `Correlator.correlate`: normalize every FDB MAC (any failure raises before the store is
      touched), build the tables, then correlate each interface in order. */
  function Correlate(c: Correlator, db: StateDb.Db, ipmis: seq<IpmiInterface>, fdb: seq<FdbEntry>,
                     switches: seq<SwitchInfo>): (r: Correlation)
    ensures (exists i :: 0 <= i < |fdb| && MacUtils.NormalizeMac(fdb[i].mac).Failure?) ==>
      r.db == db && r.results.Failure?
    ensures r.results.Success? <==>
      (forall i :: 0 <= i < |fdb| ==> MacUtils.NormalizeMac(fdb[i].mac).Success?) && MacsNormalize(ipmis)
    ensures r.db.history == db.history
    ensures r.results.Success? ==> AllDescribed(c, ipmis, r.results.value)
    ensures r.results.Success? ==>
      && NormalizeAll(MacsOf(fdb)).Success?
      && var macs := NormalizeAll(MacsOf(fdb)).value;
         AllDecided(c, GroupByMac(fdb, macs), SwitchMap(switches), PortToMac(fdb, macs), ipmis, r.results.value)
  {
    var fdbMacs := MacsOf(fdb);
    match NormalizeAll(fdbMacs)
    case Failure(e) =>
      assert exists i :: 0 <= i < |fdb| && MacUtils.NormalizeMac(fdbMacs[i]).Failure?;
      Correlation(db, Failure(e))
    case Success(macs) =>
      assert forall i :: 0 <= i < |fdb| ==> MacUtils.NormalizeMac(fdbMacs[i]).Success?;
      CorrelateAll(c, db, ipmis, GroupByMac(fdb, macs), SwitchMap(switches), PortToMac(fdb, macs))
  }

  /** Some FDB row's MAC normalizes to `mac`. */
  predicate SeenIn(fdb: seq<FdbEntry>, mac: string) {
    exists k :: 0 <= k < |fdb| && MacUtils.NormalizeMac(fdb[k].mac) == Success(mac)
  }

  /** An interface without a cable is reported not found exactly when no FDB row carries its MAC,
      in any spelling. */
  lemma NotFoundIffUnseen(c: Correlator, db: StateDb.Db, ipmis: seq<IpmiInterface>, fdb: seq<FdbEntry>,
                          switches: seq<SwitchInfo>, i: nat)
    requires Correlate(c, db, ipmis, fdb, switches).results.Success? && i < |ipmis|
    ensures var r := Correlate(c, db, ipmis, fdb, switches).results.value[i];
      r.status == StateDb.NotFound <==> !ipmis[i].hasCable && !SeenIn(fdb, r.mac)
  {
    var rs := Correlate(c, db, ipmis, fdb, switches).results.value;
    var macs := NormalizeAll(MacsOf(fdb)).value;
    var groups := GroupByMac(fdb, macs);
    assert Decides(c, groups, SwitchMap(switches), PortToMac(fdb, macs), ipmis[i], rs[i]);
    var mac := rs[i].mac;
    if mac in groups {
      var k :| 0 <= k < |macs| && macs[k] == mac;
      assert MacUtils.NormalizeMac(MacsOf(fdb)[k]) == Success(mac);
    }
    if SeenIn(fdb, mac) {
      var k :| 0 <= k < |fdb| && MacUtils.NormalizeMac(fdb[k].mac) == Success(mac);
      assert MacUtils.NormalizeMac(MacsOf(fdb)[k]) == Success(macs[k]);
    }
  }

  /** A cabled interface is reported as a mismatch exactly when its cable names a peer port, some
      FDB row is on that port, and the last such row's MAC normalizes to a different MAC. */
  lemma MismatchIffPeerPortShowsOther(c: Correlator, db: StateDb.Db, ipmis: seq<IpmiInterface>,
                                      fdb: seq<FdbEntry>, switches: seq<SwitchInfo>, i: nat)
    requires Correlate(c, db, ipmis, fdb, switches).results.Success? && i < |ipmis|
    ensures var (r, ipmi) := (Correlate(c, db, ipmis, fdb, switches).results.value[i], ipmis[i]);
      r.status == StateDb.Mismatch <==>
        && ipmi.hasCable && HasPeerPort(ipmi)
        && exists k :: LastOn(fdb, (ipmi.cablePeerSwitch.value, ipmi.cablePeerPort.value), k)
                       && MacUtils.NormalizeMac(fdb[k].mac) != Success(r.mac)
  {
    var rs := Correlate(c, db, ipmis, fdb, switches).results.value;
    var macs := NormalizeAll(MacsOf(fdb)).value;
    var portToMac := PortToMac(fdb, macs);
    var ipmi := ipmis[i];
    assert Decides(c, GroupByMac(fdb, macs), SwitchMap(switches), portToMac, ipmi, rs[i]);
    if HasPeerPort(ipmi) {
      var key := (ipmi.cablePeerSwitch.value, ipmi.cablePeerPort.value);
      if key in portToMac {
        var k :| LastOn(fdb, key, k) && portToMac[key] == macs[k];
        assert MacUtils.NormalizeMac(MacsOf(fdb)[k]) == Success(macs[k]);
        forall k' | LastOn(fdb, key, k') ensures k' == k {
          LastOnUnique(fdb, key, k, k');
        }
      } else {
        forall k | 0 <= k < |fdb| ensures !LastOn(fdb, key, k) {
          assert EndpointOf(fdb[k]) in portToMac;
        }
      }
    }
  }

  /** An endpoint has at most one last entry. */
  lemma LastOnUnique(entries: seq<FdbEntry>, k: Endpoint, i: int, j: int)
    requires LastOn(entries, k, i) && LastOn(entries, k, j)
    ensures i == j
  {
  }

  /** The stored stability count of an interface's MAC changes only on the observation path
      (a found, unambiguous MAC on a known switch at an allowed port) or by a not-found reset. */
  lemma CountMovesOnlyWhenObserved(c: Correlator, db: StateDb.Db, ipmi: IpmiInterface,
                                   groups: map<string, seq<FdbEntry>>, switchMap: map<string, SwitchInfo>,
                                   portToMac: map<Endpoint, string>)
    requires CorrelateOne(c, db, ipmi, groups, switchMap, portToMac).Success?
    ensures var s := CorrelateOne(c, db, ipmi, groups, switchMap, portToMac).value;
      var mac := s.result.mac;
      || ((mac in s.db.macs <==> mac in db.macs)
          && (mac in db.macs ==> s.db.macs[mac].stabilityCount == db.macs[mac].stabilityCount))
      || Observed(s.result)
      || s.result.status == StateDb.NotFound
  {
    var s := CorrelateOne(c, db, ipmi, groups, switchMap, portToMac).value;
    var mac := MacUtils.NormalizeMac(ipmi.macAddress).value;
    if !ipmi.hasCable {
      assert s == Uncabled(c, db, ipmi, mac, groups, switchMap);
    }
  }

  /** An FDB row whose MAC came from an OID sub-identifier above 255 is not a canonical MAC, so
      normalizing it raises and the whole correlation fails before any store write. */
  lemma OversizedOctetAbortsCorrelation(c: Correlator, db: StateDb.Db, ipmis: seq<IpmiInterface>,
                                        fdb: seq<FdbEntry>, switches: seq<SwitchInfo>, row: nat,
                                        vs: seq<int>, k: nat)
    requires |vs| == 6 && (forall i :: 0 <= i < 6 ==> vs[i] >= 0) && k < 6 && vs[k] > 255
    requires row < |fdb| && MacUtils.OidSuffixToMac(Join(MacUtils.Decimals(vs), ".")) == Success(fdb[row].mac)
    ensures Correlate(c, db, ipmis, fdb, switches).results.Failure?
    ensures Correlate(c, db, ipmis, fdb, switches).db == db
  {
    MacUtils.OidSuffixAbove255(vs, k);
  }
}

