/** The MAC state store (state_db.py): one row per MAC and a run history, as a value that every
    operation maps to a new value. Timestamps (`seen_at`, `last_action_at`, `run_at`) are not modelled. */
module StateDb {
  import opened Wrappers

  datatype MacStatus = Created | Exists | SkipNonAccess | Ambiguous | NotFound | Error | Pending | Mismatch

  /** A row of `mac_observations`. */
  datatype MacState = MacState(
    mac: string,
    lastSwitch: Option<string>,
    lastPort: Option<string>,
    lastVlan: Option<int>,
    stabilityCount: int,
    lastStatus: Option<MacStatus>,
    cableCreated: bool,
    cableId: Option<int>)

  /** A row of `run_history`: total MACs and the six counters the store keeps. */
  datatype RunRecord = RunRecord(
    totalMacs: int, created: int, existing: int, skipped: int, ambiguous: int, notFound: int, errors: int)

  datatype Db = Db(macs: map<string, MacState>, history: seq<RunRecord>)

  const Empty: Db := Db(map[], [])

  /** Every row is stored under its own MAC. */
  ghost predicate WellKeyed(db: Db) {
    forall m :: m in db.macs ==> db.macs[m].mac == m
  }

  /** `StateDB.get_state`. */
  function GetState(db: Db, mac: string): (r: Option<MacState>)
    ensures r.Some? <==> mac in db.macs
    ensures r.Some? ==> r.value == db.macs[mac]
  {
    if mac in db.macs then Some(db.macs[mac]) else None
  }

  /** The answer of `update_observation`: the new store, the stability count and whether it is stable. */
  datatype Observation = Observation(db: Db, count: int, isStable: bool)

  /** `StateDB.update_observation`: a first sighting starts the count at 1; a sighting on the
      stored switch and port adds one; a sighting anywhere else restarts at 1. */
  function UpdateObservation(db: Db, mac: string, switch: string, port: string, vlan: Option<int>,
                             threshold: int): (r: Observation)
    ensures r.isStable <==> r.count >= threshold
    ensures mac !in db.macs ==> r.count == 1
    ensures mac in db.macs ==>
      r.count == (if db.macs[mac].lastSwitch == Some(switch) && db.macs[mac].lastPort == Some(port)
                  then db.macs[mac].stabilityCount + 1 else 1)
    ensures mac in r.db.macs && r.db.history == db.history
    ensures var row := r.db.macs[mac];
      && row.mac == (if mac in db.macs then db.macs[mac].mac else mac)
      && row.lastSwitch == Some(switch) && row.lastPort == Some(port)
      && row.lastVlan == vlan && row.stabilityCount == r.count
    ensures mac in db.macs ==>
      var (was, row) := (db.macs[mac], r.db.macs[mac]);
      row.lastStatus == was.lastStatus && row.cableCreated == was.cableCreated && row.cableId == was.cableId
    ensures mac !in db.macs ==>
      var row := r.db.macs[mac];
      row.lastStatus == None && !row.cableCreated && row.cableId == None
    ensures forall m :: m != mac ==> (m in r.db.macs <==> m in db.macs)
    ensures forall m :: m != mac && m in db.macs ==> r.db.macs[m] == db.macs[m]
  {
    match GetState(db, mac)
    case None =>
      var row := MacState(mac, Some(switch), Some(port), vlan, 1, None, false, None);
      Observation(db.(macs := db.macs[mac := row]), 1, 1 >= threshold)
    case Some(state) =>
      var count := if state.lastSwitch == Some(switch) && state.lastPort == Some(port)
                   then state.stabilityCount + 1 else 1;
      var row := state.(lastSwitch := Some(switch), lastPort := Some(port), lastVlan := vlan,
                        stabilityCount := count);
      Observation(db.(macs := db.macs[mac := row]), count, count >= threshold)
  }

  /** `StateDB.update_status`: records the outcome of processing a MAC; only CREATED records the
      cable (with the id given, possibly none). A MAC without a row is left alone. */
  function UpdateStatus(db: Db, mac: string, status: MacStatus, cableId: Option<int>): (r: Db)
    ensures mac !in db.macs ==> r == db
    ensures r.history == db.history && r.macs.Keys == db.macs.Keys
    ensures forall m :: m != mac && m in db.macs ==> r.macs[m] == db.macs[m]
    ensures mac in db.macs ==>
      var (was, row) := (db.macs[mac], r.macs[mac]);
      && row.lastStatus == Some(status)
      && row.mac == was.mac && row.lastSwitch == was.lastSwitch && row.lastPort == was.lastPort
      && row.lastVlan == was.lastVlan && row.stabilityCount == was.stabilityCount
      && (status == Created ==> row.cableCreated && row.cableId == cableId)
      && (status != Created ==> row.cableCreated == was.cableCreated && row.cableId == was.cableId)
  {
    if mac !in db.macs then db
    else
      var was := db.macs[mac];
      var row := if status == Created
                 then was.(lastStatus := Some(status), cableCreated := true, cableId := cableId)
                 else was.(lastStatus := Some(status));
      db.(macs := db.macs[mac := row])
  }

  /** `StateDB.mark_not_found`: the MAC was not seen, so its stability count drops to 0; a MAC
      without a row gets one holding no endpoint. */
  function MarkNotFound(db: Db, mac: string): (r: Db)
    ensures mac in r.macs && r.history == db.history
    ensures var row := r.macs[mac];
      row.mac == (if mac in db.macs then db.macs[mac].mac else mac)
      && row.stabilityCount == 0 && row.lastStatus == Some(NotFound)
    ensures mac in db.macs ==>
      var (was, row) := (db.macs[mac], r.macs[mac]);
      && row.lastSwitch == was.lastSwitch && row.lastPort == was.lastPort && row.lastVlan == was.lastVlan
      && row.cableCreated == was.cableCreated && row.cableId == was.cableId
    ensures mac !in db.macs ==>
      var row := r.macs[mac];
      row.lastSwitch == None && row.lastPort == None && row.lastVlan == None
      && !row.cableCreated && row.cableId == None
    ensures forall m :: m != mac ==> (m in r.macs <==> m in db.macs)
    ensures forall m :: m != mac && m in db.macs ==> r.macs[m] == db.macs[m]
  {
    match GetState(db, mac)
    case Some(state) =>
      db.(macs := db.macs[mac := state.(stabilityCount := 0, lastStatus := Some(NotFound))])
    case None =>
      db.(macs := db.macs[mac := MacState(mac, None, None, None, 0, Some(NotFound), false, None)])
  }

  /** `StateDB.record_run`: appends one history row and touches no MAC. */
  function RecordRun(db: Db, record: RunRecord): (r: Db)
    ensures r.macs == db.macs
    ensures |r.history| == |db.history| + 1 && r.history[..|db.history|] == db.history
    ensures r.history[|db.history|] == record
  {
    db.(history := db.history + [record])
  }

  /** `StateDB.get_all_with_cables`: the rows whose cable was created (the order of the query
      result is not specified, so it is a set). */
  function GetAllWithCables(db: Db): (r: set<MacState>)
    ensures forall s :: s in r <==> s in db.macs.Values && s.cableCreated
  {
    set m | m in db.macs && db.macs[m].cableCreated :: db.macs[m]
  }

  // ---------------------------------------------------------------------------------------------
  // Histories of operations

  /** One call into the store. */
  datatype Op =
    | Observe(mac: string, switch: string, port: string, vlan: Option<int>, threshold: int)
    | NotSeen(mac: string)
    | SetStatus(mac: string, status: MacStatus, cableId: Option<int>)
    | Record(record: RunRecord)

  function Apply(db: Db, op: Op): Db {
    match op
    case Observe(mac, sw, p, vlan, t) => UpdateObservation(db, mac, sw, p, vlan, t).db
    case NotSeen(mac) => MarkNotFound(db, mac)
    case SetStatus(mac, s, id) => UpdateStatus(db, mac, s, id)
    case Record(rec) => RecordRun(db, rec)
  }

  /** The store after the operations, oldest first. */
  function ApplyAll(db: Db, ops: seq<Op>): Db {
    if |ops| == 0 then db else Apply(ApplyAll(db, ops[..|ops| - 1]), ops[|ops| - 1])
  }

  /** The operation creates or resets the row of `m`. */
  predicate Touches(op: Op, m: string) {
    (op.Observe? || op.NotSeen?) && op.mac == m
  }

  predicate Touched(ops: seq<Op>, m: string) {
    exists i :: 0 <= i < |ops| && Touches(ops[i], m)
  }

  /** Switch and port of the latest observation of `m`. */
  function LastEndpoint(ops: seq<Op>, m: string): Option<(string, string)> {
    if |ops| == 0 then None
    else
      var op := ops[|ops| - 1];
      if op.Observe? && op.mac == m then Some((op.switch, op.port))
      else LastEndpoint(ops[..|ops| - 1], m)
  }

  /** How many observations of `m` on (`sw`, `p`) end the history, counting back until another
      endpoint or a "not seen" for `m`; operations on other MACs and status updates do not interrupt. */
  function RunOn(ops: seq<Op>, m: string, sw: string, p: string): nat {
    if |ops| == 0 then 0
    else
      var op := ops[|ops| - 1];
      if op.Observe? && op.mac == m && op.switch == sw && op.port == p then 1 + RunOn(ops[..|ops| - 1], m, sw, p)
      else if Touches(op, m) then 0
      else RunOn(ops[..|ops| - 1], m, sw, p)
  }

  /** The run of identical observations of `m` that ends the history (0 after a "not seen"). */
  function TrailingRun(ops: seq<Op>, m: string): nat {
    if |ops| == 0 then 0
    else
      var op := ops[|ops| - 1];
      if op.Observe? && op.mac == m then RunOn(ops, m, op.switch, op.port)
      else if op.NotSeen? && op.mac == m then 0
      else TrailingRun(ops[..|ops| - 1], m)
  }

  lemma {:induction false} RunOnLatest(ops: seq<Op>, m: string, sw: string, p: string)
    ensures LastEndpoint(ops, m) == Some((sw, p)) ==> RunOn(ops, m, sw, p) == TrailingRun(ops, m)
    ensures LastEndpoint(ops, m) != Some((sw, p)) ==> RunOn(ops, m, sw, p) == 0
  {
    if |ops| > 0 {
      var op := ops[|ops| - 1];
      if !Touches(op, m) {
        RunOnLatest(ops[..|ops| - 1], m, sw, p);
      } else if op.NotSeen? {
        RunOnLatest(ops[..|ops| - 1], m, sw, p);
      }
    }
  }

  lemma {:induction false} UntouchedRun(ops: seq<Op>, m: string, sw: string, p: string)
    requires !Touched(ops, m)
    ensures RunOn(ops, m, sw, p) == 0 && LastEndpoint(ops, m) == None
  {
    if |ops| > 0 {
      var front := ops[..|ops| - 1];
      assert !Touched(front, m) by {
        forall i | 0 <= i < |front| ensures !Touches(front[i], m) {
          assert front[i] == ops[i];
        }
      }
      UntouchedRun(ops[..|ops| - 1], m, sw, p);
    }
  }

  lemma TouchedExtend(ops: seq<Op>, m: string)
    requires |ops| > 0
    ensures Touched(ops, m) <==> Touched(ops[..|ops| - 1], m) || Touches(ops[|ops| - 1], m)
  {
    var front := ops[..|ops| - 1];
    if Touched(front, m) {
      var i :| 0 <= i < |front| && Touches(front[i], m);
      assert ops[i] == front[i];
    }
    if Touched(ops, m) && !Touches(ops[|ops| - 1], m) {
      var i :| 0 <= i < |ops| && Touches(ops[i], m);
      assert front[i] == ops[i];
    }
  }

  /** The stored row of a MAC tells its history: it exists iff the MAC was observed or reported
      missing; its stability count is the number of consecutive observations on the same switch
      and port since it was last reported missing or moved; its switch and port are those of the
      latest observation (none if it was only ever reported missing). */
  lemma {:induction false} StabilityCountIsTrailingRun(db: Db, ops: seq<Op>, m: string)
    requires m !in db.macs
    ensures m in ApplyAll(db, ops).macs <==> Touched(ops, m)
    ensures m in ApplyAll(db, ops).macs ==>
      var row := ApplyAll(db, ops).macs[m];
      && row.stabilityCount == TrailingRun(ops, m)
      && (LastEndpoint(ops, m) == None ==> row.lastSwitch == None && row.lastPort == None)
      && (LastEndpoint(ops, m).Some? ==>
            row.lastSwitch == Some(LastEndpoint(ops, m).value.0) && row.lastPort == Some(LastEndpoint(ops, m).value.1))
  {
    if |ops| > 0 {
      var front := ops[..|ops| - 1];
      var op := ops[|ops| - 1];
      StabilityCountIsTrailingRun(db, front, m);
      TouchedExtend(ops, m);
      var before := ApplyAll(db, front);
      match op
      case Observe(mac, sw, p, vlan, t) =>
        if mac == m {
          if m !in before.macs {
            UntouchedRun(front, m, sw, p);
          } else {
            RunOnLatest(front, m, sw, p);
          }
        }
      case NotSeen(mac) =>
        if mac == m && m !in before.macs {
          UntouchedRun(front, m, "", "");
        }
      case SetStatus(mac, s, id) =>
      case Record(rec) =>
    }
  }

  /** The new stability count, and so stability itself, follows from the history alone:
      an observation is stable iff the trailing run it completes reaches the threshold. */
  lemma StableIffRunReachesThreshold(db: Db, ops: seq<Op>, mac: string, sw: string, p: string,
                                     vlan: Option<int>, threshold: int)
    requires mac !in db.macs
    ensures UpdateObservation(ApplyAll(db, ops), mac, sw, p, vlan, threshold).isStable <==>
      TrailingRun(ops + [Observe(mac, sw, p, vlan, threshold)], mac) >= threshold
  {
    var all := ops + [Observe(mac, sw, p, vlan, threshold)];
    assert all[..|all| - 1] == ops;
    StabilityCountIsTrailingRun(db, all, mac);
  }

  /** The cables recorded: a row's cable flag is never cleared, and its cable id changes only
      through an update to CREATED for that MAC. */
  lemma {:induction false} CablesAreKept(db: Db, ops: seq<Op>, m: string)
    requires m in db.macs && db.macs[m].cableCreated
    ensures m in ApplyAll(db, ops).macs && ApplyAll(db, ops).macs[m].cableCreated
    ensures (forall i :: 0 <= i < |ops| ==> !(ops[i].SetStatus? && ops[i].mac == m && ops[i].status == Created))
      ==> ApplyAll(db, ops).macs[m].cableId == db.macs[m].cableId
  {
    if |ops| > 0 {
      var front := ops[..|ops| - 1];
      CablesAreKept(db, front, m);
      if forall i :: 0 <= i < |ops| ==> !(ops[i].SetStatus? && ops[i].mac == m && ops[i].status == Created) {
        forall i | 0 <= i < |front|
          ensures !(front[i].SetStatus? && front[i].mac == m && front[i].status == Created)
        {
          assert front[i] == ops[i];
        }
      }
    }
  }

  /** The store is always well keyed. */
  lemma {:induction false} AlwaysWellKeyed(db: Db, ops: seq<Op>)
    requires WellKeyed(db)
    ensures WellKeyed(ApplyAll(db, ops))
  {
    if |ops| > 0 {
      AlwaysWellKeyed(db, ops[..|ops| - 1]);
    }
  }
}
