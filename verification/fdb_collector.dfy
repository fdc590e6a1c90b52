/** FDB (forwarding database) collection over SNMP (fdb_collector.py). The SNMP walks are inputs:
    each is the sequence of responses `nextCmd` yields, or an exception. */
module FdbCollector {
  import opened Wrappers
  import opened Text
  import Numerals
  import MacUtils

  /** An object identifier as its sub-identifiers; `str(oid)` is their decimals joined by `.`. */
  type Oid = seq<nat>

  /** hwMacFwdPort (Huawei CE): index MAC(6 octets).VLAN.0, value ifIndex. */
  const HwMacFwdPort: Oid := [1, 3, 6, 1, 4, 1, 2011, 5, 25, 42, 2, 1, 3, 1, 4]
  /** dot1qTpFdbPort (Q-BRIDGE-MIB): index VLAN.MAC(6 octets), value bridge port. */
  const Dot1qTpFdbPort: Oid := [1, 3, 6, 1, 2, 1, 17, 7, 1, 2, 2, 1, 2]
  /** dot1dTpFdbPort (BRIDGE-MIB): index MAC(6 octets), value bridge port. */
  const Dot1dTpFdbPort: Oid := [1, 3, 6, 1, 2, 1, 17, 4, 3, 1, 2]
  /** ifName (IF-MIB): index ifIndex, value the interface name. */
  const IfName: Oid := [1, 3, 6, 1, 2, 1, 31, 1, 1, 1, 1]

  /** `FDBEntry` without its timestamp. */
  datatype FdbEntry = FdbEntry(
    mac: string, switchName: string, switchIp: string, portName: string, portIndex: int, vlan: Option<int>)

  /** One item `nextCmd` yields: variable bindings, or an error indication or error status. */
  datatype WalkStep<V> = Response(varBinds: seq<(Oid, V)>) | ErrorIndication | ErrorStatus

  /** A whole walk: the items it yields, or an exception raised while walking. */
  datatype Walk<V> = Completed(steps: seq<WalkStep<V>>) | Raised

  /** The walks a collection may run against one switch; the FDB tables hold integer ports. */
  datatype SwitchWalks = SwitchWalks(
    ifNames: Walk<string>, huawei: Walk<int>, qBridge: Walk<int>, bridge: Walk<int>)

  /** The printed form of an OID. */
  function OidText(oid: Oid): string {
    Join(MacUtils.Decimals(oid), ".")
  }

  /** `str(oid).split(".")` has one part per sub-identifier, and `int` of each part gives the
      sub-identifier back: the decoders below can work on the sub-identifiers directly. */
  lemma OidTextParts(oid: Oid)
    requires |oid| >= 1
    ensures var parts := Split(OidText(oid), '.');
      |parts| == |oid| && MacUtils.ParseIntAll(parts) == Success(oid)
  {
    MacUtils.SplitOfDecimals(oid);
    MacUtils.ParseIntAllOfDecimals(oid);
  }

  /** The bindings a walk loop processes: those of every response up to the first error,
      where the loop breaks. */
  function Gathered<V>(steps: seq<WalkStep<V>>): seq<(Oid, V)> {
    if |steps| == 0 then []
    else match steps[0]
      case Response(vbs) => vbs + Gathered(steps[1..])
      case ErrorIndication => []
      case ErrorStatus => []
  }

  predicate IsError<V>(step: WalkStep<V>) {
    !step.Response?
  }

  /** Nothing after the first error reaches the loop body. */
  lemma {:induction false} GatheredStopsAtError<V>(before: seq<WalkStep<V>>, error: WalkStep<V>, after: seq<WalkStep<V>>)
    requires IsError(error)
    ensures Gathered(before + [error] + after) == Gathered(before)
  {
    if |before| > 0 {
      assert (before + [error] + after)[1..] == before[1..] + [error] + after;
      GatheredStopsAtError(before[1..], error, after);
    } else {
      assert before + [error] + after == [error] + after;
    }
  }

  /** Every binding processed comes from a response. */
  lemma {:induction false} GatheredFromResponses<V>(steps: seq<WalkStep<V>>, b: (Oid, V))
    requires b in Gathered(steps)
    ensures exists i :: 0 <= i < |steps| && steps[i].Response? && b in steps[i].varBinds
  {
    match steps[0]
    case Response(vbs) =>
      if b !in vbs {
        GatheredFromResponses(steps[1..], b);
        var i :| 0 <= i < |steps[1..]| && steps[1..][i].Response? && b in steps[1..][i].varBinds;
        assert steps[i + 1] == steps[1..][i];
      }
    case ErrorIndication =>
    case ErrorStatus =>
  }

  /** `_get_interface_names`: ifName keyed by the last sub-identifier of each OID, later
      bindings winning. An empty OID prints as `""`, whose `int` raises: that is `None`. */
  function InterfaceNames(binds: seq<(Oid, string)>): (r: Option<map<int, string>>)
    ensures r.Some? <==> AllIndexed(binds)
    ensures r.Some? ==> IndexesOf(binds, r.value) && NamedByLast(binds, r.value)
    ensures r.Some? && |binds| > 0 ==>
      var (oid, name) := binds[|binds| - 1];
      EndsIn(oid, oid[|oid| - 1]) && oid[|oid| - 1] in r.value && r.value[oid[|oid| - 1]] == name
  {
    if |binds| == 0 then Some(map[])
    else
      var front := binds[..|binds| - 1];
      var (oid, name) := binds[|binds| - 1];
      match InterfaceNames(front)
      case None =>
        NoIndexStep(binds);
        None
      case Some(m) =>
        if |oid| == 0 then None
        else
          NoIndexStep(binds);
          IndexesStep(binds, m);
          LastNamedStep(binds, m);
          Some(m[oid[|oid| - 1] := name])
  }

  /** Every binding's OID has a last sub-identifier to read the index from. */
  predicate AllIndexed(binds: seq<(Oid, string)>) {
    forall i :: 0 <= i < |binds| ==> |binds[i].0| > 0
  }

  /** Every binding has an index exactly when the older ones and the newest one do. */
  lemma NoIndexStep(binds: seq<(Oid, string)>)
    requires |binds| > 0
    ensures AllIndexed(binds) <==> AllIndexed(binds[..|binds| - 1]) && |binds[|binds| - 1].0| > 0
  {
    var front := binds[..|binds| - 1];
    assert forall i :: 0 <= i < |front| ==> front[i] == binds[i];
  }

  /** The map's keys are exactly the indices some binding ends in. */
  ghost predicate IndexesOf(binds: seq<(Oid, string)>, m: map<int, string>) {
    forall k :: k in m <==> exists i :: 0 <= i < |binds| && EndsIn(binds[i].0, k)
  }

  lemma IndexesStep(binds: seq<(Oid, string)>, m0: map<int, string>)
    requires |binds| > 0 && |binds[|binds| - 1].0| > 0
    requires IndexesOf(binds[..|binds| - 1], m0)
    ensures var (oid, name) := binds[|binds| - 1]; IndexesOf(binds, m0[oid[|oid| - 1] := name])
  {
    var n := |binds| - 1;
    var front := binds[..n];
    var (oid, name) := binds[n];
    var m := m0[oid[|oid| - 1] := name];
    forall k ensures k in m <==> exists i :: 0 <= i < |binds| && EndsIn(binds[i].0, k) {
      if k in m0 {
        var i :| 0 <= i < |front| && EndsIn(front[i].0, k);
        assert binds[i] == front[i];
      }
      if exists i :: 0 <= i < |binds| && EndsIn(binds[i].0, k) {
        var i :| 0 <= i < |binds| && EndsIn(binds[i].0, k);
        if i < n { assert front[i] == binds[i]; }
      }
    }
  }

  /** The OID's last sub-identifier (the interface index of an ifName row) is `k`. */
  predicate EndsIn(oid: Oid, k: int) {
    |oid| > 0 && oid[|oid| - 1] == k
  }

  /** Binding `i` is the last one for interface index `k`. */
  predicate LastNamed(binds: seq<(Oid, string)>, k: int, i: int) {
    0 <= i < |binds| && EndsIn(binds[i].0, k) && forall j :: i < j < |binds| ==> !EndsIn(binds[j].0, k)
  }

  /** Every index in the map has the name of its last binding. */
  ghost predicate NamedByLast(binds: seq<(Oid, string)>, m: map<int, string>) {
    forall k :: k in m ==> exists i :: LastNamed(binds, k, i) && m[k] == binds[i].1
  }

  /** Assigning the newest binding keeps every index at the name of its last binding. */
  lemma LastNamedStep(binds: seq<(Oid, string)>, m0: map<int, string>)
    requires |binds| > 0 && |binds[|binds| - 1].0| > 0
    requires NamedByLast(binds[..|binds| - 1], m0)
    ensures var (oid, name) := binds[|binds| - 1]; NamedByLast(binds, m0[oid[|oid| - 1] := name])
  {
    var n := |binds| - 1;
    var front := binds[..n];
    var (oid, name) := binds[n];
    var m := m0[oid[|oid| - 1] := name];
    forall k | k in m ensures exists i :: LastNamed(binds, k, i) && m[k] == binds[i].1 {
      if k == oid[|oid| - 1] {
        assert LastNamed(binds, k, n);
      } else {
        var i :| LastNamed(front, k, i) && m0[k] == front[i].1;
        assert forall j :: i < j < n ==> front[j] == binds[j];
        assert LastNamed(binds, k, i);
      }
    }
  }


  /** `if_names.get(port_index, f"port{port_index}")`. */
  function PortName(names: map<int, string>, portIndex: int): (r: string)
    ensures portIndex in names ==> r == names[portIndex]
    ensures portIndex !in names ==>
      |r| > 4 && r[..4] == "port" && Numerals.ParseInt(r[4..]) == Some(portIndex)
  {
    if portIndex in names then names[portIndex]
    else
      var digits := Numerals.IntToDecimal(portIndex);
      Numerals.ParseIntOfIntToDecimal(portIndex);
      assert ("port" + digits)[4..] == digits;
      "port" + digits
  }

  // ---------------------------------------------------------------------------------------------
  // Huawei hwMacFwdPort

  /** One Huawei binding: at least 8 sub-identifiers after the base; the MAC is the next six
      printed as `02x` and joined by `:` (no range check), the VLAN the one after. */
  function HuaweiEntry(switchName: string, switchIp: string, names: map<int, string>, bind: (Oid, int)): (r: Option<FdbEntry>)
    ensures r.Some? <==> |bind.0| >= |HwMacFwdPort| + 8
    ensures r.Some? ==>
      var b := |HwMacFwdPort|;
      r.value == FdbEntry(MacUtils.JoinHexOctets(bind.0[b..b + 6]), switchName, switchIp,
                          PortName(names, bind.1), bind.1, Some(bind.0[b + 6] as int))
  {
    var (oid, portIndex) := bind;
    var b := |HwMacFwdPort|;
    if |oid| < b + 8 then None
    else Some(FdbEntry(MacUtils.JoinHexOctets(oid[b..b + 6]), switchName, switchIp,
                       PortName(names, portIndex), portIndex, Some(oid[b + 6] as int)))
  }

  function HuaweiEntries(switchName: string, switchIp: string, names: map<int, string>, binds: seq<(Oid, int)>): (r: seq<FdbEntry>)
    ensures forall i :: 0 <= i < |r| ==> r[i].switchName == switchName && r[i].switchIp == switchIp && r[i].vlan.Some?
    ensures forall e :: e in r <==> exists i :: 0 <= i < |binds| && HuaweiEntry(switchName, switchIp, names, binds[i]) == Some(e)
    ensures |r| <= |binds|
  {
    var xs := seq(|binds|, i requires 0 <= i < |binds| => HuaweiEntry(switchName, switchIp, names, binds[i]));
    var r := Somes(xs);
    forall e ensures e in r <==> exists i :: 0 <= i < |binds| && HuaweiEntry(switchName, switchIp, names, binds[i]) == Some(e) {
      if e in r {
        var i :| 0 <= i < |xs| && xs[i] == Some(e);
      }
      if exists i :: 0 <= i < |binds| && HuaweiEntry(switchName, switchIp, names, binds[i]) == Some(e) {
        var i :| 0 <= i < |binds| && HuaweiEntry(switchName, switchIp, names, binds[i]) == Some(e);
        assert xs[i] == Some(e);
      }
    }
    forall i | 0 <= i < |r|
      ensures r[i].switchName == switchName && r[i].switchIp == switchIp && r[i].vlan.Some?
    {
      assert Some(r[i]) in xs;
      var j :| 0 <= j < |xs| && xs[j] == Some(r[i]);
    }
    r
  }

  /** The row of a MAC (six octets) in VLAN `vlan`. */
  function HuaweiOid(octets: seq<nat>, vlan: nat): Oid {
    HwMacFwdPort + octets + [vlan, 0]
  }

  /** A Huawei row decodes to the MAC its index carries, in canonical form, whose OID suffix is
      the index's six octets again. */
  lemma HuaweiRoundTrip(switchName: string, switchIp: string, names: map<int, string>,
                        octets: seq<nat>, vlan: nat, portIndex: int)
    requires |octets| == 6 && forall i :: 0 <= i < 6 ==> MacUtils.IsByte(octets[i])
    ensures var r := HuaweiEntry(switchName, switchIp, names, (HuaweiOid(octets, vlan), portIndex));
      && r.Some? && r.value.vlan == Some(vlan) && r.value.portIndex == portIndex
      && MacUtils.IsCanonicalMac(r.value.mac)
      && MacUtils.NormalizeMac(r.value.mac) == Success(r.value.mac)
      && MacUtils.MacToOidSuffix(r.value.mac) == Success(Join(MacUtils.Decimals(octets), "."))
  {
    var oid := HuaweiOid(octets, vlan);
    var b := |HwMacFwdPort|;
    assert oid[b..b + 6] == octets;
    assert oid[b + 6] == vlan;
    MacUtils.JoinHexOctetsOfBytes(octets);
    MacUtils.CanonicalIsNormal(MacUtils.JoinHexOctets(octets));
    MacUtils.OctetsOidSuffixRoundTrip(octets);
  }

  /** The example row in the Huawei decoder's comment: 00:e0:ed:db:8f:52 in VLAN 10. */
  lemma HuaweiExample(names: map<int, string>, portIndex: int)
    ensures var oid := [1, 3, 6, 1, 4, 1, 2011, 5, 25, 42, 2, 1, 3, 1, 4, 0, 224, 237, 219, 143, 82, 10, 0];
      var r := HuaweiEntry("sw", "10.0.0.1", names, (oid, portIndex));
      r.Some? && r.value.mac == "00:e0:ed:db:8f:52" && r.value.vlan == Some(10)
  {
    var oid := [1, 3, 6, 1, 4, 1, 2011, 5, 25, 42, 2, 1, 3, 1, 4, 0, 224, 237, 219, 143, 82, 10, 0];
    assert oid[15..21] == [0, 224, 237, 219, 143, 82];
    assert oid[21] == 10;
    ExampleMac();
  }

  lemma ExampleMac()
    ensures MacUtils.JoinHexOctets([0, 224, 237, 219, 143, 82]) == "00:e0:ed:db:8f:52"
  {
    ExampleGroups();
    JoinSix("00", "e0", "ed", "db", "8f", "52");
    ExampleText();
  }

  /** The joined text, evaluated apart from the decoding so that each proof stays small. */
  lemma ExampleText()
    ensures "00" + ":" + "e0" + ":" + "ed" + ":" + "db" + ":" + "8f" + ":" + "52" == "00:e0:ed:db:8f:52"
  {
  }

  lemma ExampleGroups()
    ensures MacUtils.HexOctets([0, 224, 237, 219, 143, 82]) == ["00", "e0", "ed", "db", "8f", "52"]
  {
    var vs := [0, 224, 237, 219, 143, 82];
    var hs := MacUtils.HexOctets(vs);
    ExampleOctet(0, '0', '0');
    ExampleOctet(224, 'e', '0');
    ExampleOctet(237, 'e', 'd');
    ExampleOctet(219, 'd', 'b');
    ExampleOctet(143, '8', 'f');
    ExampleOctet(82, '5', '2');
    assert hs[0] == "00" && hs[1] == "e0" && hs[2] == "ed";
    assert hs[3] == "db" && hs[4] == "8f" && hs[5] == "52";
  }

  lemma JoinSix(a: string, b: string, c: string, d: string, e: string, f: string)
    ensures Join([a, b, c, d, e, f], ":") == a + ":" + b + ":" + c + ":" + d + ":" + e + ":" + f
  {
    assert [e, f][1..] == [f];
    assert Join([e, f], ":") == e + ":" + f;
    assert [d, e, f][1..] == [e, f];
    assert Join([d, e, f], ":") == d + ":" + (e + ":" + f);
    assert [c, d, e, f][1..] == [d, e, f];
    assert Join([c, d, e, f], ":") == c + ":" + (d + ":" + (e + ":" + f));
    assert [b, c, d, e, f][1..] == [c, d, e, f];
    assert Join([b, c, d, e, f], ":") == b + ":" + (c + ":" + (d + ":" + (e + ":" + f)));
    assert [a, b, c, d, e, f][1..] == [b, c, d, e, f];
    assert Join([a, b, c, d, e, f], ":") == a + ":" + (b + ":" + (c + ":" + (d + ":" + (e + ":" + f))));
  }

  lemma ExampleOctet(n: nat, hi: char, lo: char)
    requires n < 256
    requires hi == Numerals.HexDigitChar(n / 16) && lo == Numerals.HexDigitChar(n % 16)
    ensures Numerals.Format02x(n) == [hi, lo]
  {
    Numerals.Format02xOfByte(n);
  }

  // ---------------------------------------------------------------------------------------------
  // Q-BRIDGE-MIB dot1qTpFdbPort

  /** One Q-bridge binding: at least 7 sub-identifiers after the base; the VLAN first, then the
      six MAC octets passed through `oid_suffix_to_mac`, whose failure skips the binding. */
  function QBridgeEntry(switchName: string, switchIp: string, names: map<int, string>, bind: (Oid, int)): (r: Option<FdbEntry>)
    ensures r.Some? <==> |bind.0| >= |Dot1qTpFdbPort| + 7
    ensures r.Some? ==>
      var b := |Dot1qTpFdbPort|;
      r.value == FdbEntry(MacUtils.JoinHexOctets(bind.0[b + 1..b + 7]), switchName, switchIp,
                          PortName(names, bind.1), bind.1, Some(bind.0[b] as int))
  {
    var (oid, portIndex) := bind;
    var b := |Dot1qTpFdbPort|;
    if |oid| < b + 7 then None
    else
      var suffix := Join(MacUtils.Decimals(oid[b + 1..b + 7]), ".");
      MacUtils.OidSuffixOfComponents(oid[b + 1..b + 7]);
      match MacUtils.OidSuffixToMac(suffix)
      case Failure(_) => None
      case Success(mac) => Some(FdbEntry(mac, switchName, switchIp, PortName(names, portIndex), portIndex, Some(oid[b] as int)))
  }

  function QBridgeEntries(switchName: string, switchIp: string, names: map<int, string>, binds: seq<(Oid, int)>): (r: seq<FdbEntry>)
    ensures forall i :: 0 <= i < |r| ==> r[i].switchName == switchName && r[i].switchIp == switchIp && r[i].vlan.Some?
    ensures forall e :: e in r <==> exists i :: 0 <= i < |binds| && QBridgeEntry(switchName, switchIp, names, binds[i]) == Some(e)
    ensures |r| <= |binds|
  {
    var xs := seq(|binds|, i requires 0 <= i < |binds| => QBridgeEntry(switchName, switchIp, names, binds[i]));
    var r := Somes(xs);
    forall e ensures e in r <==> exists i :: 0 <= i < |binds| && QBridgeEntry(switchName, switchIp, names, binds[i]) == Some(e) {
      if e in r {
        var i :| 0 <= i < |xs| && xs[i] == Some(e);
      }
      if exists i :: 0 <= i < |binds| && QBridgeEntry(switchName, switchIp, names, binds[i]) == Some(e) {
        var i :| 0 <= i < |binds| && QBridgeEntry(switchName, switchIp, names, binds[i]) == Some(e);
        assert xs[i] == Some(e);
      }
    }
    forall i | 0 <= i < |r|
      ensures r[i].switchName == switchName && r[i].switchIp == switchIp && r[i].vlan.Some?
    {
      assert Some(r[i]) in xs;
      var j :| 0 <= j < |xs| && xs[j] == Some(r[i]);
    }
    r
  }

  // ---------------------------------------------------------------------------------------------
  // BRIDGE-MIB dot1dTpFdbPort

  /** The MAC of one bridge binding: at least 6 sub-identifiers after the base. */
  function BridgeMac(oid: Oid): (r: Option<string>)
    ensures r.Some? <==> |oid| >= |Dot1dTpFdbPort| + 6
    ensures r.Some? ==> var b := |Dot1dTpFdbPort|; r.value == MacUtils.JoinHexOctets(oid[b..b + 6])
  {
    var b := |Dot1dTpFdbPort|;
    if |oid| < b + 6 then None
    else
      var suffix := Join(MacUtils.Decimals(oid[b..b + 6]), ".");
      MacUtils.OidSuffixOfComponents(oid[b..b + 6]);
      match MacUtils.OidSuffixToMac(suffix)
      case Failure(_) => None
      case Success(mac) => Some(mac)
  }

  predicate DistinctKeys(t: seq<(string, int)>) {
    forall i, j :: 0 <= i < j < |t| ==> t[i].0 != t[j].0
  }

  function IndexOf(t: seq<(string, int)>, k: string): (r: Option<nat>)
    ensures r.Some? ==> r.value < |t| && t[r.value].0 == k
    ensures r.None? ==> forall i :: 0 <= i < |t| ==> t[i].0 != k
  {
    if |t| == 0 then None
    else if t[|t| - 1].0 == k then Some(|t| - 1)
    else IndexOf(t[..|t| - 1], k)
  }

  function Keys(t: seq<(string, int)>): set<string> {
    set i | 0 <= i < |t| :: t[i].0
  }

  /** `d[k] = v` on an insertion-ordered dict held as its item list. */
  function Assign(t: seq<(string, int)>, k: string, v: int): (r: seq<(string, int)>)
    requires DistinctKeys(t)
    ensures DistinctKeys(r)
    ensures Keys(r) == Keys(t) + {k}
    ensures forall i :: 0 <= i < |r| && r[i].0 == k ==> r[i].1 == v
    ensures forall i :: 0 <= i < |r| && r[i].0 != k ==> i < |t| && r[i] == t[i]
  {
    match IndexOf(t, k)
    case Some(i) =>
      var r := t[i := (k, v)];
      assert forall j :: 0 <= j < |r| ==> r[j].0 == t[j].0;
      r
    case None =>
      var r := t + [(k, v)];
      assert r[|t|].0 == k;
      assert forall j :: 0 <= j < |t| ==> r[j] == t[j];
      r
  }

  /** The value of the last pair with key `k`. */
  function LastValue(pairs: seq<(string, int)>, k: string): Option<int> {
    if |pairs| == 0 then None
    else if pairs[|pairs| - 1].0 == k then Some(pairs[|pairs| - 1].1)
    else LastValue(pairs[..|pairs| - 1], k)
  }

  /** `mac_to_port` after the loop: one item per MAC seen, holding the port of its last binding. */
  function BridgeTable(pairs: seq<(string, int)>): (t: seq<(string, int)>)
    ensures DistinctKeys(t)
    ensures forall i :: 0 <= i < |t| ==> LastValue(pairs, t[i].0) == Some(t[i].1)
    ensures forall k :: k in Keys(t) <==> LastValue(pairs, k).Some?
  {
    if |pairs| == 0 then []
    else
      var front := pairs[..|pairs| - 1];
      var (k, v) := pairs[|pairs| - 1];
      Assign(BridgeTable(front), k, v)
  }

  /** The MAC each binding decodes to, if any. */
  function DecodedMacs(binds: seq<(Oid, int)>): (ms: seq<Option<string>>)
    ensures |ms| == |binds| && forall k :: 0 <= k < |binds| ==> ms[k] == BridgeMac(binds[k].0)
  {
    seq(|binds|, k requires 0 <= k < |binds| => BridgeMac(binds[k].0))
  }

  /** The port of each binding. */
  function PortsOf(binds: seq<(Oid, int)>): (ps: seq<int>)
    ensures |ps| == |binds| && forall k :: 0 <= k < |binds| ==> ps[k] == binds[k].1
  {
    seq(|binds|, k requires 0 <= k < |binds| => binds[k].1)
  }

  /** The (MAC, port) pairs of the bindings that decode, in walk order. */
  function KeptPairs(ms: seq<Option<string>>, ports: seq<int>): (r: seq<(string, int)>)
    requires |ms| == |ports|
    ensures |r| <= |ms|
  {
    if |ms| == 0 then []
    else
      var n := |ms| - 1;
      KeptPairs(ms[..n], ports[..n]) + (if ms[n].Some? then [(ms[n].value, ports[n])] else [])
  }

  /** Position `k` holds `mac` and no later position does. */
  predicate LastAt(ms: seq<Option<string>>, mac: string, k: int) {
    0 <= k < |ms| && ms[k] == Some(mac) && forall j :: k < j < |ms| ==> ms[j] != Some(mac)
  }

  /** Appending a pair with another key leaves a key's last value alone. */
  lemma LastValueSnoc(pairs: seq<(string, int)>, tail: seq<(string, int)>, k: string)
    requires |tail| <= 1 && (|tail| == 1 ==> tail[0].0 != k)
    ensures LastValue(pairs + tail, k) == LastValue(pairs, k)
  {
    if |tail| == 1 {
      assert (pairs + tail)[..|pairs|] == pairs;
    } else {
      assert pairs + tail == pairs;
    }
  }

  /** A MAC has a port among the kept pairs exactly when some position holds it, and that port is
      the one at its last position. */
  lemma {:induction false} KeptPairsLast(ms: seq<Option<string>>, ports: seq<int>, mac: string)
    requires |ms| == |ports|
    ensures LastValue(KeptPairs(ms, ports), mac).Some? <==> Some(mac) in ms
    ensures LastValue(KeptPairs(ms, ports), mac).Some? ==>
      exists k :: LastAt(ms, mac, k) && ports[k] == LastValue(KeptPairs(ms, ports), mac).value
  {
    if |ms| > 0 {
      var n := |ms| - 1;
      var front, fports := ms[..n], ports[..n];
      KeptPairsLast(front, fports, mac);
      var before := KeptPairs(front, fports);
      var tail := if ms[n].Some? then [(ms[n].value, ports[n])] else [];
      assert ms == front + [ms[n]];
      if ms[n] == Some(mac) {
        assert (before + tail)[|before + tail| - 1] == (mac, ports[n]);
        assert LastAt(ms, mac, n);
      } else {
        LastValueSnoc(before, tail, mac);
        if LastValue(before, mac).Some? {
          var k :| LastAt(front, mac, k) && fports[k] == LastValue(before, mac).value;
          assert LastAt(ms, mac, k);
        }
      }
    }
  }

  /** Each MAC of the table built from the kept pairs sits at the port of its last position. */
  lemma TablePortsAreLast(ms: seq<Option<string>>, ports: seq<int>)
    requires |ms| == |ports|
    ensures forall i :: 0 <= i < |BridgeTable(KeptPairs(ms, ports))| ==>
      exists k :: LastAt(ms, BridgeTable(KeptPairs(ms, ports))[i].0, k) && ports[k] == BridgeTable(KeptPairs(ms, ports))[i].1
  {
    var t := BridgeTable(KeptPairs(ms, ports));
    forall i | 0 <= i < |t| ensures exists k :: LastAt(ms, t[i].0, k) && ports[k] == t[i].1 {
      KeptPairsLast(ms, ports, t[i].0);
    }
  }

  /** The table built from the kept pairs holds every MAC some position holds. */
  lemma TableCoversKept(ms: seq<Option<string>>, ports: seq<int>)
    requires |ms| == |ports|
    ensures forall mac :: Some(mac) in ms ==> mac in Keys(BridgeTable(KeptPairs(ms, ports)))
  {
    forall mac | Some(mac) in ms ensures mac in Keys(BridgeTable(KeptPairs(ms, ports))) {
      KeptPairsLast(ms, ports, mac);
    }
  }

  /** `_walk_bridge_fdb`: one entry per MAC that some binding decodes to, at the port of its last
      binding, in order of first appearance. */
  function BridgeEntries(switchName: string, switchIp: string, names: map<int, string>, binds: seq<(Oid, int)>): (r: seq<FdbEntry>)
    ensures forall i, j :: 0 <= i < j < |r| ==> r[i].mac != r[j].mac
    ensures forall i :: 0 <= i < |r| ==> r[i].switchName == switchName && r[i].switchIp == switchIp
    ensures forall i :: 0 <= i < |r| ==> r[i].vlan.None? && r[i].portName == PortName(names, r[i].portIndex)
    ensures forall i :: 0 <= i < |r| ==>
      exists k :: 0 <= k < |binds| && LastAt(DecodedMacs(binds), r[i].mac, k) && binds[k].1 == r[i].portIndex
    ensures forall mac :: Some(mac) in DecodedMacs(binds) ==> exists i :: 0 <= i < |r| && r[i].mac == mac
  {
    var ms := DecodedMacs(binds);
    RowsAtLastBinding(switchName, switchIp, names, ms, binds);
    RowsCoverBindings(switchName, switchIp, names, ms, binds);
    KeptRows(switchName, switchIp, names, ms, binds)
  }

  /** The rows of the MAC table of the bindings, read as decoding to `ms`. */
  function KeptRows(switchName: string, switchIp: string, names: map<int, string>, ms: seq<Option<string>>, binds: seq<(Oid, int)>): seq<FdbEntry>
    requires |ms| == |binds|
  {
    BridgeRows(switchName, switchIp, names, BridgeTable(KeptPairs(ms, PortsOf(binds))))
  }

  /** Each kept row carries the port of its MAC's last binding. */
  lemma RowsAtLastBinding(switchName: string, switchIp: string, names: map<int, string>, ms: seq<Option<string>>, binds: seq<(Oid, int)>)
    requires |ms| == |binds|
    ensures forall i :: 0 <= i < |KeptRows(switchName, switchIp, names, ms, binds)| ==>
      exists k :: 0 <= k < |binds| && LastAt(ms, KeptRows(switchName, switchIp, names, ms, binds)[i].mac, k)
        && binds[k].1 == KeptRows(switchName, switchIp, names, ms, binds)[i].portIndex
  {
    var ps := PortsOf(binds);
    var t := BridgeTable(KeptPairs(ms, ps));
    var r := KeptRows(switchName, switchIp, names, ms, binds);
    TablePortsAreLast(ms, ps);
    forall i | 0 <= i < |r|
      ensures exists k :: 0 <= k < |binds| && LastAt(ms, r[i].mac, k) && binds[k].1 == r[i].portIndex
    {
      var k :| LastAt(ms, t[i].0, k) && ps[k] == t[i].1;
      assert 0 <= k < |binds| && binds[k].1 == r[i].portIndex;
    }
  }

  /** Every MAC of `ms` has a kept row. */
  lemma RowsCoverBindings(switchName: string, switchIp: string, names: map<int, string>, ms: seq<Option<string>>, binds: seq<(Oid, int)>)
    requires |ms| == |binds|
    ensures forall mac :: Some(mac) in ms ==>
      exists i :: 0 <= i < |KeptRows(switchName, switchIp, names, ms, binds)| && KeptRows(switchName, switchIp, names, ms, binds)[i].mac == mac
  {
    var ps := PortsOf(binds);
    var t := BridgeTable(KeptPairs(ms, ps));
    var r := KeptRows(switchName, switchIp, names, ms, binds);
    TableCoversKept(ms, ps);
    forall mac | Some(mac) in ms ensures exists i :: 0 <= i < |r| && r[i].mac == mac {
      KeyHasRow(switchName, switchIp, names, t, mac);
    }
  }

  /** A key of the MAC table has a row. */
  lemma KeyHasRow(switchName: string, switchIp: string, names: map<int, string>, t: seq<(string, int)>, mac: string)
    requires mac in Keys(t)
    ensures exists i :: 0 <= i < |BridgeRows(switchName, switchIp, names, t)| && BridgeRows(switchName, switchIp, names, t)[i].mac == mac
  {
    var i :| 0 <= i < |t| && t[i].0 == mac;
    assert BridgeRows(switchName, switchIp, names, t)[i].mac == mac;
  }

  /** One untagged entry per item of the MAC table, in its order. */
  function BridgeRows(switchName: string, switchIp: string, names: map<int, string>, t: seq<(string, int)>): (r: seq<FdbEntry>)
    ensures |r| == |t|
    ensures forall i :: 0 <= i < |t| ==> r[i] == FdbEntry(t[i].0, switchName, switchIp, PortName(names, t[i].1), t[i].1, None)
  {
    seq(|t|, i requires 0 <= i < |t| => FdbEntry(t[i].0, switchName, switchIp, PortName(names, t[i].1), t[i].1, None))
  }

  // ---------------------------------------------------------------------------------------------
  // collect_fdb

  /** The interface names, when their walk completed and every binding carried an index. */
  function NamesOf(walks: SwitchWalks): Option<map<int, string>> {
    match walks.ifNames
    case Raised => None
    case Completed(steps) => InterfaceNames(Gathered(steps))
  }

  /** `FDBCollector.collect_fdb`: nothing without pysnmp or an address; otherwise the first of
      Huawei, Q-bridge, Bridge that yields entries, and nothing if any walk it runs raises. */
  function CollectFdb(pysnmpAvailable: bool, switchName: string, switchIp: string, walks: SwitchWalks): (r: seq<FdbEntry>)
    ensures !pysnmpAvailable || switchIp == "" || NamesOf(walks).None? || walks.huawei.Raised? ==> r == []
    ensures forall i :: 0 <= i < |r| ==> r[i].switchName == switchName && r[i].switchIp == switchIp
    // the fallback chain, once the interface names are in hand
    ensures pysnmpAvailable && switchIp != "" && NamesOf(walks).Some? && walks.huawei.Completed? ==>
      var names := NamesOf(walks).value;
      var h := HuaweiEntries(switchName, switchIp, names, Gathered(walks.huawei.steps));
      && (|h| > 0 ==> r == h)
      && (|h| == 0 && walks.qBridge.Raised? ==> r == [])
      && (|h| == 0 && walks.qBridge.Completed? ==>
            var q := QBridgeEntries(switchName, switchIp, names, Gathered(walks.qBridge.steps));
            && (|q| > 0 ==> r == q)
            && (|q| == 0 && walks.bridge.Raised? ==> r == [])
            && (|q| == 0 && walks.bridge.Completed? ==>
                  r == BridgeEntries(switchName, switchIp, names, Gathered(walks.bridge.steps))))
  {
    if !pysnmpAvailable || switchIp == "" then []
    else match NamesOf(walks)
      case None => []
      case Some(names) =>
        match walks.huawei
        case Raised => []
        case Completed(huaweiSteps) =>
          var h := HuaweiEntries(switchName, switchIp, names, Gathered(huaweiSteps));
          if |h| > 0 then h
          else match walks.qBridge
            case Raised => []
            case Completed(qSteps) =>
              var q := QBridgeEntries(switchName, switchIp, names, Gathered(qSteps));
              if |q| > 0 then q
              else match walks.bridge
                case Raised => []
                case Completed(bridgeSteps) => BridgeEntries(switchName, switchIp, names, Gathered(bridgeSteps))
  }

  /** Once the Huawei table yields entries, the other two tables are never consulted: their walks
      may return anything, or raise, without changing the result. */
  lemma HuaweiFirst(pysnmpAvailable: bool, switchName: string, switchIp: string, walks: SwitchWalks,
                    qBridge: Walk<int>, bridge: Walk<int>)
    requires walks.huawei.Completed? && NamesOf(walks).Some?
    requires |HuaweiEntries(switchName, switchIp, NamesOf(walks).value, Gathered(walks.huawei.steps))| > 0
    ensures CollectFdb(pysnmpAvailable, switchName, switchIp, walks)
         == CollectFdb(pysnmpAvailable, switchName, switchIp, walks.(qBridge := qBridge, bridge := bridge))
  {
  }

  /** Likewise the Bridge table is consulted only when the Q-bridge table yields nothing. */
  lemma QBridgeBeforeBridge(pysnmpAvailable: bool, switchName: string, switchIp: string, walks: SwitchWalks,
                            bridge: Walk<int>)
    requires walks.qBridge.Completed? && NamesOf(walks).Some?
    requires |QBridgeEntries(switchName, switchIp, NamesOf(walks).value, Gathered(walks.qBridge.steps))| > 0
    ensures CollectFdb(pysnmpAvailable, switchName, switchIp, walks)
         == CollectFdb(pysnmpAvailable, switchName, switchIp, walks.(bridge := bridge))
  {
  }

  /** The result comes from one table: all entries carry a VLAN (Huawei, Q-bridge) or none does
      (Bridge), and in the latter case no two entries share a MAC. */
  lemma OneTable(pysnmpAvailable: bool, switchName: string, switchIp: string, walks: SwitchWalks)
    ensures var r := CollectFdb(pysnmpAvailable, switchName, switchIp, walks);
      (forall i :: 0 <= i < |r| ==> r[i].vlan.Some?)
      || ((forall i :: 0 <= i < |r| ==> r[i].vlan.None?) && (forall i, j :: 0 <= i < j < |r| ==> r[i].mac != r[j].mac))
  {
  }
}
