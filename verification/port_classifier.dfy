/** Port classification (port_classifier.py): may a cable be created on a switch port? */
module PortClassifier {
  import opened Wrappers
  import Configuration

  datatype PortType = Access | Trunk | Uplink | LagMember | Unknown

  /** Why a port got its type; the source writes these as sentences, the matched text left out here. */
  datatype Reason =
    | InUplinkList
    | DescriptionMatchesPattern
    | NameMatchesPattern
    | IsLagMember
    | LldpNeighborIsSwitch
    | NoUplinkIndicators

  datatype PortClassification = PortClassification(
    portName: string, portType: PortType, reason: Reason, isAllowed: bool)

  /** A classifier: the configuration it was built from and the case-insensitive regex search
      `search(pattern, text)` its compiled uplink pattern uses. */
  datatype Classifier = Classifier(config: Configuration.Config, search: (string, string) -> bool)

  /** `self._uplink_pattern.search(text)` is truthy. */
  predicate PatternMatches(c: Classifier, text: string) {
    Configuration.UplinkPatternMatches(c.config.uplinkPatterns, c.search, text)
  }

  /** The description counts only when it is given and not empty. */
  predicate DescriptionMatches(c: Classifier, description: Option<string>) {
    description.Some? && description.value != "" && PatternMatches(c, description.value)
  }

  /** `PortClassifier.classify`: the checks in priority order, the first that fires decides. */
  function Classify(c: Classifier, portName: string, description: Option<string>,
                    isLagMember: bool, lldpNeighborIsSwitch: bool): (r: PortClassification)
    ensures r.portName == portName
    ensures r.isAllowed <==> r.portType == Access
    ensures r.portType != Trunk && r.portType != Unknown
    ensures r.isAllowed <==> r.reason == NoUplinkIndicators
    ensures r.portType == LagMember <==> r.reason == IsLagMember
    ensures r.portType == Uplink <==>
      r.reason in {InUplinkList, DescriptionMatchesPattern, NameMatchesPattern, LldpNeighborIsSwitch}
    ensures r.reason == InUplinkList <==> portName in c.config.uplinkPorts
    ensures r.reason == DescriptionMatchesPattern <==>
      portName !in c.config.uplinkPorts && DescriptionMatches(c, description)
    ensures r.reason == NameMatchesPattern <==>
      portName !in c.config.uplinkPorts && !DescriptionMatches(c, description) && PatternMatches(c, portName)
    ensures r.reason == IsLagMember <==>
      portName !in c.config.uplinkPorts && !DescriptionMatches(c, description) && !PatternMatches(c, portName)
      && isLagMember
    ensures r.reason == LldpNeighborIsSwitch <==>
      portName !in c.config.uplinkPorts && !DescriptionMatches(c, description) && !PatternMatches(c, portName)
      && !isLagMember && lldpNeighborIsSwitch
  {
    if portName in c.config.uplinkPorts then
      PortClassification(portName, Uplink, InUplinkList, false)
    else if DescriptionMatches(c, description) then
      PortClassification(portName, Uplink, DescriptionMatchesPattern, false)
    else if PatternMatches(c, portName) then
      PortClassification(portName, Uplink, NameMatchesPattern, false)
    else if isLagMember then
      PortClassification(portName, LagMember, IsLagMember, false)
    else if lldpNeighborIsSwitch then
      PortClassification(portName, Uplink, LldpNeighborIsSwitch, false)
    else
      PortClassification(portName, Access, NoUplinkIndicators, true)
  }

  /** `PortClassifier.is_access_port`: a port is an access port exactly when none of the five
      uplink indicators holds. */
  function IsAccessPort(c: Classifier, portName: string, description: Option<string>,
                        isLagMember: bool, lldpNeighborIsSwitch: bool): (r: bool)
    ensures r <==>
      && portName !in c.config.uplinkPorts
      && !DescriptionMatches(c, description)
      && !PatternMatches(c, portName)
      && !isLagMember
      && !lldpNeighborIsSwitch
    ensures r == Classify(c, portName, description, isLagMember, lldpNeighborIsSwitch).isAllowed
    ensures r <==> Classify(c, portName, description, isLagMember, lldpNeighborIsSwitch).reason == NoUplinkIndicators
  {
    Classify(c, portName, description, isLagMember, lldpNeighborIsSwitch).isAllowed
  }

  /** The correlator classifies by port name only; with a loaded configuration that reduces
      to "not listed and no configured pattern matches the name". */
  lemma NameOnlyClassification(env: Configuration.Env, search: (string, string) -> bool, portName: string)
    requires Configuration.FromEnv(env).Success?
    ensures var c := Classifier(Configuration.FromEnv(env).value, search);
      var ps := c.config.uplinkPatterns;
      Classify(c, portName, None, false, false).isAllowed <==>
        portName !in c.config.uplinkPorts && !(exists i :: 0 <= i < |ps| && search(ps[i], portName))
  {
    Configuration.LoadedUplinkPattern(env, search, portName);
  }

  /** With no uplink pattern configured (an empty list) every port name matches and no port is
      ever an access port. */
  lemma EmptyPatternListBlocksAll(c: Classifier, portName: string, description: Option<string>,
                                  isLagMember: bool, lldpNeighborIsSwitch: bool)
    requires c.config.uplinkPatterns == []
    ensures !IsAccessPort(c, portName, description, isLagMember, lldpNeighborIsSwitch)
  {
  }
}
