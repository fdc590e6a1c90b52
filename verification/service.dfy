/** One pass of the auto-cabling service (service.py): collect the FDB of every switch, correlate,
    count each result into the run summary, create the cables that are ready, and record the run. */
module Service {
  import opened Wrappers
  import opened Text
  import Numerals
  import MacUtils
  import Configuration
  import StateDb
  import FdbCollector
  import Correlator

  type CorrelationResult = Correlator.CorrelationResult

  /** `RunSummary`: the number of OOB interfaces and one counter per kind of outcome. */
  datatype RunSummary = RunSummary(
    totalIpmi: int, created: int, existing: int, skipped: int, ambiguous: int,
    notFound: int, pending: int, errors: int, mismatch: int)

  const EmptySummary: RunSummary := RunSummary(0, 0, 0, 0, 0, 0, 0, 0, 0)

  /** The sum of the outcome counters (every field but the total). */
  function Counted(s: RunSummary): int {
    s.created + s.existing + s.skipped + s.ambiguous + s.notFound + s.pending + s.errors + s.mismatch
  }

  // ---------------------------------------------------------------------------------------------
  // Summary text

  /** The field names of `RunSummary.__str__`, in order. */
  const Labels: seq<string> := [
    "Run Summary: total=", "created=", "exists=", "skipped=", "ambiguous=",
    "not_found=", "pending=", "errors=", "MISMATCH="]

  /** The values printed after each field name. */
  function Values(s: RunSummary): seq<int> {
    [s.totalIpmi, s.created, s.existing, s.skipped, s.ambiguous, s.notFound, s.pending, s.errors, s.mismatch]
  }

  /** The fields of `RunSummary.__str__`, in order; the mismatch field only when there is one. */
  function SummaryParts(s: RunSummary): (parts: seq<string>)
    ensures |parts| == if s.mismatch > 0 then 9 else 8
    ensures forall i :: 0 <= i < |parts| ==> parts[i] == Labels[i] + Numerals.IntToDecimal(Values(s)[i])
    ensures forall i :: 0 <= i < |parts| ==> ',' !in parts[i]
  {
    var n := if s.mismatch > 0 then 9 else 8;
    var parts := seq(n, i requires 0 <= i < n => Labels[i] + Numerals.IntToDecimal(Values(s)[i]));
    forall i | 0 <= i < n ensures ',' !in parts[i] {
      LabelHasNoComma(i);
      NoCommaInField(Labels[i], Values(s)[i]);
    }
    parts
  }

  lemma LabelHasNoComma(i: nat)
    requires i < |Labels|
    ensures ',' !in Labels[i]
  {
  }

  /** A decimal numeral holds digits and perhaps a minus sign, never a comma. */
  lemma NoCommaInDecimal(i: int)
    ensures ',' !in Numerals.IntToDecimal(i)
  {
    var d := Numerals.NatToDecimal(if i < 0 then -i else i);
    assert forall k :: 0 <= k < |d| ==> Numerals.IsDigit(d[k]);
  }

  lemma NoCommaInField(name: string, i: int)
    requires ',' !in name
    ensures ',' !in name + Numerals.IntToDecimal(i)
  {
    NoCommaInDecimal(i);
  }

  /** `str(summary)`. */
  function SummaryText(s: RunSummary): string {
    Join(SummaryParts(s), ", ")
  }

  /** Fields joined with ", " split back at the commas into the fields, each after the first
      with its leading space. */
  lemma {:induction false} SplitCommaSpaceJoin(parts: seq<string>)
    requires |parts| >= 1 && forall i :: 0 <= i < |parts| ==> ',' !in parts[i]
    ensures var f := Split(Join(parts, ", "), ',');
      && |f| == |parts| && f[0] == parts[0]
      && forall i :: 1 <= i < |parts| ==> f[i] == " " + parts[i]
  {
    if |parts| == 1 {
      SplitWithoutSeparator(parts[0], ',');
    } else {
      var rest := parts[1..];
      assert forall i :: 0 <= i < |rest| ==> rest[i] == parts[i + 1];
      SplitCommaSpaceJoin(rest);
      var j := Join(rest, ", ");
      var u := Split(j, ',');
      SplitPrefix(" ", j, ',');
      var spaced := Split(" " + j, ',');
      assert spaced == [" " + u[0]] + u[1..];
      assert ", " + j == [','] + (" " + j);
      assert Split(", " + j, ',') == [""] + spaced;
      SplitPrefix(parts[0], ", " + j, ',');
      assert Join(parts, ", ") == parts[0] + (", " + j);
      var f := Split(Join(parts, ", "), ',');
      assert f == [parts[0] + ""] + spaced;
      forall i | 1 <= i < |parts| ensures f[i] == " " + parts[i] {
        if i == 1 {
          assert f[1] == " " + u[0];
        } else {
          assert f[i] == u[i - 1];
        }
      }
    }
  }

  /** The summary line reads back as eight comma-separated fields, or nine when there is a
      mismatch, the ninth being ` MISMATCH=<n>`. */
  lemma SummaryFields(s: RunSummary)
    ensures var f := Split(SummaryText(s), ',');
      && |f| == (if s.mismatch > 0 then 9 else 8)
      && f[0] == "Run Summary: total=" + Numerals.IntToDecimal(s.totalIpmi)
      && (s.mismatch > 0 ==> f[8] == " MISMATCH=" + Numerals.IntToDecimal(s.mismatch))
  {
    var parts := SummaryParts(s);
    SplitCommaSpaceJoin(parts);
    assert parts[0] == Labels[0] + Numerals.IntToDecimal(s.totalIpmi);
    if s.mismatch > 0 {
      assert parts[8] == Labels[8] + Numerals.IntToDecimal(s.mismatch);
    }
  }

  // ---------------------------------------------------------------------------------------------
  // Processing one result

  /** What `_create_cable` hands back: nothing (NetBox raised, or a dry run), or the created
      cable with its id if NetBox sent one. */
  datatype CableOutcome = NoCable | Cable(id: Option<int>)

  /** The outside world of one run: the configuration, whether pysnmp imported, the SNMP walks
      of a switch by (name, address), the correlator, and NetBox's answer to a cable POST for
      (server interface id, switch interface id, vlan). */
  datatype Environment = Environment(
    config: Configuration.Config,
    pysnmpAvailable: bool,
    walks: (string, string) -> FdbCollector.SwitchWalks,
    correlator: Correlator.Correlator,
    post: (int, int, Option<int>) -> CableOutcome)

  /** `_process_result` tries to create a cable: pending, stable, and a (non-zero) switch
      interface id. */
  predicate WillCreate(r: CorrelationResult) {
    r.status == StateDb.Pending && r.isStable && r.portId.Some? && r.portId.value != 0
  }

  /** `_create_cable`: a dry run creates nothing. */
  function CreateCable(env: Environment, r: CorrelationResult): (o: CableOutcome)
    requires r.portId.Some?
    ensures env.config.dryRun ==> o == NoCable
    ensures !env.config.dryRun ==> o == env.post(r.ipmi.interfaceId, r.portId.value, r.vlan)
  {
    if env.config.dryRun then NoCable else env.post(r.ipmi.interfaceId, r.portId.value, r.vlan)
  }

  /** `_process_result`: count the result and, when it is ready, create its cable and record
      the outcome in the store. */
  function ProcessResult(env: Environment, s: RunSummary, db: StateDb.Db, r: CorrelationResult): (out: (RunSummary, StateDb.Db))
    ensures out.0.totalIpmi == s.totalIpmi
    ensures r.status != StateDb.Created ==> Counted(out.0) == Counted(s) + 1
    ensures r.status == StateDb.Created ==> out == (s, db)
    ensures r.status == StateDb.Error ==> out == (s.(errors := s.errors + 1), db)
    ensures r.status != StateDb.Pending ==> out.1 == db
    ensures Grew(s, out.0)
    ensures !WillCreate(r) ==> out.1 == db
    ensures WillCreate(r) ==>
      match CreateCable(env, r)
      case Cable(id) => out.0 == s.(created := s.created + 1) && out.1 == StateDb.UpdateStatus(db, r.mac, StateDb.Created, id)
      case NoCable => out.0 == s.(errors := s.errors + 1) && out.1 == StateDb.UpdateStatus(db, r.mac, StateDb.Error, None)
    ensures r.status == StateDb.Pending && !WillCreate(r) ==> out.0 == s.(pending := s.pending + 1)
    ensures out.0.created > s.created ==> WillCreate(r) && !env.config.dryRun
  {
    match r.status
    case Mismatch => (s.(mismatch := s.mismatch + 1), db)
    case Exists => (s.(existing := s.existing + 1), db)
    case NotFound => (s.(notFound := s.notFound + 1), db)
    case Ambiguous => (s.(ambiguous := s.ambiguous + 1), db)
    case SkipNonAccess => (s.(skipped := s.skipped + 1), db)
    case Error => (s.(errors := s.errors + 1), db)
    case Pending =>
      if WillCreate(r) then
        match CreateCable(env, r)
        case Cable(id) => (s.(created := s.created + 1), StateDb.UpdateStatus(db, r.mac, StateDb.Created, id))
        case NoCable => (s.(errors := s.errors + 1), StateDb.UpdateStatus(db, r.mac, StateDb.Error, None))
      else (s.(pending := s.pending + 1), db)
    case Created => (s, db)
  }

  /** No counter went down. */
  predicate Grew(s: RunSummary, t: RunSummary) {
    && s.created <= t.created && s.existing <= t.existing && s.skipped <= t.skipped
    && s.ambiguous <= t.ambiguous && s.notFound <= t.notFound && s.pending <= t.pending
    && s.errors <= t.errors && s.mismatch <= t.mismatch
  }

  /** Each status other than CREATED lands in exactly one counter. */
  lemma ExactlyOneCounter(env: Environment, s: RunSummary, db: StateDb.Db, r: CorrelationResult)
    requires r.status != StateDb.Created
    ensures var t := ProcessResult(env, s, db, r).0;
      Grew(s, t) && Counted(t) == Counted(s) + 1
      && (r.status == StateDb.Mismatch <==> t.mismatch == s.mismatch + 1)
      && (r.status == StateDb.Exists <==> t.existing == s.existing + 1)
      && (r.status == StateDb.NotFound <==> t.notFound == s.notFound + 1)
      && (r.status == StateDb.Ambiguous <==> t.ambiguous == s.ambiguous + 1)
      && (r.status == StateDb.SkipNonAccess <==> t.skipped == s.skipped + 1)
  {
  }

  /** A dry run never counts a created cable: every ready result is counted as an error and
      stored with status ERROR. */
  lemma DryRunCountsReadyAsErrors(env: Environment, s: RunSummary, db: StateDb.Db, r: CorrelationResult)
    requires env.config.dryRun && WillCreate(r)
    ensures ProcessResult(env, s, db, r) == (s.(errors := s.errors + 1), StateDb.UpdateStatus(db, r.mac, StateDb.Error, None))
  {
  }

  /** The number of results with the given status: the reference count for the summary. */
  function CountStatus(rs: seq<CorrelationResult>, st: StateDb.MacStatus): nat {
    if |rs| == 0 then 0
    else CountStatus(rs[..|rs| - 1], st) + (if rs[|rs| - 1].status == st then 1 else 0)
  }

  /** The number of results `_process_result` tries to cable. */
  function CountReady(rs: seq<CorrelationResult>): nat {
    if |rs| == 0 then 0
    else CountReady(rs[..|rs| - 1]) + (if WillCreate(rs[|rs| - 1]) then 1 else 0)
  }

  /** The loop `for result in results: self._process_result(result, summary)`. */
  function ProcessAll(env: Environment, s: RunSummary, db: StateDb.Db, rs: seq<CorrelationResult>): (out: (RunSummary, StateDb.Db))
    ensures out.0.totalIpmi == s.totalIpmi
    ensures out.1.history == db.history
    ensures env.config.dryRun ==> out.0.created == s.created
  {
    if |rs| == 0 then (s, db)
    else
      var mid := ProcessAll(env, s, db, rs[..|rs| - 1]);
      ProcessResult(env, mid.0, mid.1, rs[|rs| - 1])
  }

  /** The counters of the statuses `_process_result` only counts grow by the number of results
      with that status. */
  lemma {:induction false} CountsOfPlainStatuses(env: Environment, s: RunSummary, db: StateDb.Db, rs: seq<CorrelationResult>)
    ensures var t := ProcessAll(env, s, db, rs).0;
      && t.mismatch == s.mismatch + CountStatus(rs, StateDb.Mismatch)
      && t.existing == s.existing + CountStatus(rs, StateDb.Exists)
      && t.notFound == s.notFound + CountStatus(rs, StateDb.NotFound)
      && t.ambiguous == s.ambiguous + CountStatus(rs, StateDb.Ambiguous)
      && t.skipped == s.skipped + CountStatus(rs, StateDb.SkipNonAccess)
  {
    if |rs| > 0 {
      var front, r := rs[..|rs| - 1], rs[|rs| - 1];
      CountsOfPlainStatuses(env, s, db, front);
      var mid := ProcessAll(env, s, db, front);
      PlainCountersStep(env, mid.0, mid.1, r);
      assert ProcessAll(env, s, db, rs) == ProcessResult(env, mid.0, mid.1, r);
    }
  }

  /** One result moves each plain counter by one exactly when it has that status. */
  lemma PlainCountersStep(env: Environment, s: RunSummary, db: StateDb.Db, r: CorrelationResult)
    ensures var t := ProcessResult(env, s, db, r).0;
      && t.mismatch == s.mismatch + (if r.status == StateDb.Mismatch then 1 else 0)
      && t.existing == s.existing + (if r.status == StateDb.Exists then 1 else 0)
      && t.notFound == s.notFound + (if r.status == StateDb.NotFound then 1 else 0)
      && t.ambiguous == s.ambiguous + (if r.status == StateDb.Ambiguous then 1 else 0)
      && t.skipped == s.skipped + (if r.status == StateDb.SkipNonAccess then 1 else 0)
  {
  }

  /** PENDING and ERROR results end up as created, pending or errors; at most one cable per
      ready result is counted as created. */
  lemma {:induction false} CountsOfPendingAndErrors(env: Environment, s: RunSummary, db: StateDb.Db, rs: seq<CorrelationResult>)
    ensures var t := ProcessAll(env, s, db, rs).0;
      && t.created + t.pending + t.errors ==
           s.created + s.pending + s.errors + CountStatus(rs, StateDb.Pending) + CountStatus(rs, StateDb.Error)
      && t.created <= s.created + CountReady(rs)
  {
    if |rs| > 0 {
      CountsOfPendingAndErrors(env, s, db, rs[..|rs| - 1]);
    }
  }

  /** With no CREATED among the results, the counters grow by exactly the number of results. */
  lemma {:induction false} CountersAddUp(env: Environment, s: RunSummary, db: StateDb.Db, rs: seq<CorrelationResult>)
    requires forall i :: 0 <= i < |rs| ==> rs[i].status != StateDb.Created
    ensures Counted(ProcessAll(env, s, db, rs).0) == Counted(s) + |rs|
  {
    if |rs| > 0 {
      CountersAddUp(env, s, db, rs[..|rs| - 1]);
    }
  }

  // ---------------------------------------------------------------------------------------------
  // One run

  /** `collect_fdb` for one switch, at `switch.primary_ip or ""`. */
  function SwitchFdb(env: Environment, sw: Correlator.SwitchInfo): (r: seq<FdbCollector.FdbEntry>)
    ensures forall k :: 0 <= k < |r| ==> r[k].switchName == sw.name
  {
    var ip := sw.primaryIp.GetOr("");
    FdbCollector.CollectFdb(env.pysnmpAvailable, sw.name, ip, env.walks(sw.name, ip))
  }

  /** The concatenation of a list of FDB lists, first list first. */
  function Concat(parts: seq<seq<FdbCollector.FdbEntry>>): seq<FdbCollector.FdbEntry> {
    if |parts| == 0 then [] else parts[0] + Concat(parts[1..])
  }

  lemma {:induction false} ConcatSnoc(parts: seq<seq<FdbCollector.FdbEntry>>, last: seq<FdbCollector.FdbEntry>)
    ensures Concat(parts + [last]) == Concat(parts) + last
  {
    if |parts| > 0 {
      assert (parts + [last])[1..] == parts[1..] + [last];
      ConcatSnoc(parts[1..], last);
    } else {
      assert Concat([last][1..]) == [];
    }
  }

  /** The FDB of each switch, in switch order. */
  function PerSwitch(env: Environment, switches: seq<Correlator.SwitchInfo>): (r: seq<seq<FdbCollector.FdbEntry>>)
    ensures |r| == |switches| && forall i :: 0 <= i < |switches| ==> r[i] == SwitchFdb(env, switches[i])
  {
    seq(|switches|, i requires 0 <= i < |switches| => SwitchFdb(env, switches[i]))
  }

  lemma PerSwitchSnoc(env: Environment, switches: seq<Correlator.SwitchInfo>)
    requires |switches| > 0
    ensures PerSwitch(env, switches)
         == PerSwitch(env, switches[..|switches| - 1]) + [SwitchFdb(env, switches[|switches| - 1])]
  {
    var n := |switches| - 1;
    var a, b := PerSwitch(env, switches), PerSwitch(env, switches[..n]) + [SwitchFdb(env, switches[n])];
    forall i | 0 <= i < |a| ensures a[i] == b[i] {
      if i < n {
        assert switches[..n][i] == switches[i];
      }
    }
  }

  /** `all_fdb_entries` is every switch's `collect_fdb` result extended in turn: the per-switch
      lists concatenated in switch order. */
  lemma {:induction false} CollectAllConcatenates(env: Environment, switches: seq<Correlator.SwitchInfo>)
    ensures CollectAll(env, switches) == Concat(PerSwitch(env, switches))
  {
    if |switches| > 0 {
      var n := |switches| - 1;
      CollectAllConcatenates(env, switches[..n]);
      PerSwitchSnoc(env, switches);
      ConcatSnoc(PerSwitch(env, switches[..n]), SwitchFdb(env, switches[n]));
    }
  }

  /** The FDB of every switch, in switch order (`switch.primary_ip or ""` as its address). */
  function CollectAll(env: Environment, switches: seq<Correlator.SwitchInfo>): (fdb: seq<FdbCollector.FdbEntry>)
    ensures forall k :: 0 <= k < |fdb| ==> exists i :: 0 <= i < |switches| && fdb[k].switchName == switches[i].name
    ensures !env.pysnmpAvailable ==> fdb == []
  {
    if |switches| == 0 then []
    else
      var front := switches[..|switches| - 1];
      var sw := switches[|switches| - 1];
      var before := CollectAll(env, front);
      var mine := SwitchFdb(env, sw);
      var fdb := before + mine;
      forall k | 0 <= k < |fdb| ensures exists i :: 0 <= i < |switches| && fdb[k].switchName == switches[i].name {
        if k < |before| {
          var i :| 0 <= i < |front| && before[k].switchName == front[i].name;
          assert switches[i] == front[i];
        } else {
          assert fdb[k] == mine[k - |before|];
          assert fdb[k].switchName == switches[|switches| - 1].name;
        }
      }
      fdb
  }

  /** The store after a run and the run's summary; a raised exception leaves the store as far
      as it got, with no summary and no run recorded. */
  datatype Run = Run(db: StateDb.Db, summary: Result<RunSummary, MacUtils.MacError>)

  /** The history row of a finished run. */
  function RecordOf(s: RunSummary): StateDb.RunRecord {
    StateDb.RunRecord(s.totalIpmi, s.created, s.existing, s.skipped, s.ambiguous, s.notFound, s.errors)
  }

  /** The counters of a run whose results were `rs`: each plain status has its own counter, the
      PENDING and ERROR results are shared out among created, pending and errors, and at most
      the ready ones became cables. */
  predicate Tallies(t: RunSummary, rs: seq<CorrelationResult>) {
    && t.mismatch == CountStatus(rs, StateDb.Mismatch)
    && t.existing == CountStatus(rs, StateDb.Exists)
    && t.notFound == CountStatus(rs, StateDb.NotFound)
    && t.ambiguous == CountStatus(rs, StateDb.Ambiguous)
    && t.skipped == CountStatus(rs, StateDb.SkipNonAccess)
    && t.created + t.pending + t.errors == CountStatus(rs, StateDb.Pending) + CountStatus(rs, StateDb.Error)
    && t.created <= CountReady(rs)
  }

  /** The tail of `run_once` after correlation: count every result, create the ready cables,
      and append the run to the history. */
  function FinishRun(env: Environment, db: StateDb.Db, total: int, rs: seq<CorrelationResult>): (r: (RunSummary, StateDb.Db))
    requires forall i :: 0 <= i < |rs| ==> rs[i].status != StateDb.Created
    ensures r.0.totalIpmi == total && Counted(r.0) == |rs|
    ensures r.1.history == db.history + [RecordOf(r.0)]
    ensures env.config.dryRun ==> r.0.created == 0
    ensures Tallies(r.0, rs)
  {
    var summary := EmptySummary.(totalIpmi := total);
    CountersAddUp(env, summary, db, rs);
    CountsOfPlainStatuses(env, summary, db, rs);
    CountsOfPendingAndErrors(env, summary, db, rs);
    var (s, db2) := ProcessAll(env, summary, db, rs);
    (s, StateDb.RecordRun(db2, RecordOf(s)))
  }

  /** The correlation step of `run_once` over every switch's FDB: one result per interface, none
      of them a created cable, and the history untouched. */
  method CorrelateRun(env: Environment, db: StateDb.Db, ipmis: seq<Correlator.IpmiInterface>,
                      switches: seq<Correlator.SwitchInfo>) returns (corr: Correlator.Correlation)
    ensures corr == Correlator.Correlate(env.correlator, db, ipmis, CollectAll(env, switches), switches)
    ensures corr.db.history == db.history
    ensures corr.results.Success? <==>
      Correlator.FdbMacsNormalize(CollectAll(env, switches)) && Correlator.MacsNormalize(ipmis)
    ensures corr.results.Success? ==>
      && |corr.results.value| == |ipmis|
      && forall i :: 0 <= i < |corr.results.value| ==> corr.results.value[i].status != StateDb.Created
  {
    var fdb := CollectAll(env, switches);
    corr := Correlator.Correlate(env.correlator, db, ipmis, fdb, switches);
    if corr.results.Success? {
      Correlator.NothingCreated(env.correlator, ipmis, corr.results.value);
    }
  }

  /** The end of `run_once` once correlation returned: a raised exception ends the run with the
      store as correlation left it; otherwise the results are processed and the run recorded. */
  function Conclude(env: Environment, total: int, corr: Correlator.Correlation): (r: Run)
    requires corr.results.Success? ==> forall i :: 0 <= i < |corr.results.value| ==> corr.results.value[i].status != StateDb.Created
    ensures corr.results.Failure? ==> r == Run(corr.db, Failure(corr.results.error))
    ensures corr.results.Success? ==>
      && r.summary.Success? && r.summary.value.totalIpmi == total
      && Counted(r.summary.value) == |corr.results.value|
      && r.db.history == corr.db.history + [RecordOf(r.summary.value)]
      && (env.config.dryRun ==> r.summary.value.created == 0)
      && Tallies(r.summary.value, corr.results.value)
  {
    if corr.results.Failure? then Run(corr.db, Failure(corr.results.error))
    else
      var done := FinishRun(env, corr.db, total, corr.results.value);
      Run(done.1, Success(done.0))
  }

  /** `run_once`, given the OOB interfaces and switches NetBox returned. */
  method RunOnce(env: Environment, db: StateDb.Db, ipmis: seq<Correlator.IpmiInterface>,
                 switches: seq<Correlator.SwitchInfo>) returns (r: Run)
    ensures |ipmis| == 0 || |switches| == 0 ==>
      r == Run(db, Success(EmptySummary.(totalIpmi := |ipmis|)))
    ensures r.summary.Success? ==> r.summary.value.totalIpmi == |ipmis|
    ensures r.summary.Success? && |switches| > 0 ==> Counted(r.summary.value) == |ipmis|
    ensures r.summary.Success? && |ipmis| > 0 && |switches| > 0 ==>
      r.db.history == db.history + [RecordOf(r.summary.value)]
    ensures r.summary.Failure? ==> r.db.history == db.history && |ipmis| > 0 && |switches| > 0
    ensures r.summary.Success? && env.config.dryRun ==> r.summary.value.created == 0
    // with interfaces and switches, the run succeeds exactly when correlating the collected FDB does
    ensures |ipmis| > 0 && |switches| > 0 ==>
      (r.summary.Success? <==> Correlator.FdbMacsNormalize(CollectAll(env, switches)) && Correlator.MacsNormalize(ipmis))
    // and then its counters tally the statuses of that correlation's results
    ensures |ipmis| > 0 && |switches| > 0 && r.summary.Success? ==>
      && Correlator.Correlate(env.correlator, db, ipmis, CollectAll(env, switches), switches).results.Success?
      && Tallies(r.summary.value, Correlator.Correlate(env.correlator, db, ipmis, CollectAll(env, switches), switches).results.value)
  {
    if |ipmis| == 0 || |switches| == 0 {
      return Run(db, Success(EmptySummary.(totalIpmi := |ipmis|)));
    }
    r := CorrelateAndConclude(env, db, ipmis, switches);
  }

  /** `run_once` past its two early returns: correlate the collected FDB, then process and
      record the results. */
  method CorrelateAndConclude(env: Environment, db: StateDb.Db, ipmis: seq<Correlator.IpmiInterface>,
                              switches: seq<Correlator.SwitchInfo>) returns (r: Run)
    ensures r.summary.Success? ==>
      && r.summary.value.totalIpmi == |ipmis| && Counted(r.summary.value) == |ipmis|
      && r.db.history == db.history + [RecordOf(r.summary.value)]
      && (env.config.dryRun ==> r.summary.value.created == 0)
    ensures r.summary.Failure? ==> r.db.history == db.history
    ensures r.summary.Success? <==>
      Correlator.FdbMacsNormalize(CollectAll(env, switches)) && Correlator.MacsNormalize(ipmis)
    ensures r.summary.Success? ==>
      && Correlator.Correlate(env.correlator, db, ipmis, CollectAll(env, switches), switches).results.Success?
      && Tallies(r.summary.value, Correlator.Correlate(env.correlator, db, ipmis, CollectAll(env, switches), switches).results.value)
  {
    var corr := CorrelateRun(env, db, ipmis, switches);
    r := Conclude(env, |ipmis|, corr);
  }
}
