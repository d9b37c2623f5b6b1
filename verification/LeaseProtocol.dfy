/**
 The server over its whole history: any number of lease requests and expiry sweeps
 in flight at once, interleaved section by section as the mutex allows, with
 failing device updates and saves, crashes between sections and restarts from the
 leases file, which is the text that was saved and is read back by its lines. The
 sections are those of `FileLeaseManager`. A save that fails after it opened the file,
 which truncates it, may leave any text.
 */
module LeaseProtocol {
  import opened Wrappers
  import opened Address
  import opened Keys
  import opened LeaseTable
  import opened LeaseFile
  import opened LeaseManager
  import opened WgDevice
  import Text

  // ---------- states ----------

  datatype Phase = MustUpdate | MustSave

  /** What an operation in flight still has to do. */
  datatype Op =
    | Boot
    | Sweep(phase: Phase)
    | Request(phase: Phase, user: string, record: WGRecord)

  datatype World = World(
    running: bool,
    now: int,
    records: Table,
    device: State,
    file: string,
    ops: map<nat, Op>,
    nextId: nat,
    // history, for stating the properties
    filed: Table,                   // the table of the last save that succeeded
    cut: bool,                      // a later one was cut short
    loadedFrom: int,                // when this run read the file
    loadedTo: int,
    saved: bool,                    // this run has saved
    deviceStale: bool,              // the last device update failed
    fileStale: bool,                // the last attempt to get to a save failed
    latest: map<string, nat>,       // each user's last request of this run
    sweptFrom: Option<int>,         // when the last sweep section of this run started
    written: set<string>)           // users written since

  datatype Action =
    | Start(from: int, to: int)
    | RequestSection(user: string, key: string, expiry: int)
    | SweepSection(from: int, to: int)
    | DeviceUpdated(id: nat)
    | DeviceFailed(id: nat)
    | Saved(id: nat)
    | SaveFailed(id: nat)
    | Crash
    | Tick(to: int)

  /** The text was written from this table, in some order of its users. */
  ghost predicate IsSavedFrom(text: string, t: Table) {
    Addressable(t) && IsSaved(text, t)
  }

  /** Unless a save was cut short, the file is the text of the last one that succeeded. */
  ghost predicate FileHolds(s: World) {
    Addressable(s.filed) && (s.cut || IsSavedFrom(s.file, s.filed))
  }

  ghost predicate Init(s: World) {
    && !s.running && s.records == map[] && s.ops == map[]
    && FileHolds(s)
    && s.device.Valid()
    && s.latest == map[] && s.sweptFrom == None
  }

  function Crashed(s: World): World {
    s.(running := false, records := map[], ops := map[], latest := map[], sweptFrom := None, written := {})
  }

  ghost predicate Step(p: Prefix, s: World, a: Action, s': World)
    requires p.Valid()
  {
    match a
    case Start(from, to) => StartStep(s, from, to, s')
    case RequestSection(user, key, expiry) => RequestStep(p, s, user, key, expiry, s')
    case SweepSection(from, to) => SweepStep(s, from, to, s')
    case DeviceUpdated(id) => UpdateStep(s, id, s')
    case DeviceFailed(id) => UpdateFailsStep(s, id, s')
    case Saved(id) => SaveStep(s, id, s')
    case SaveFailed(id) => SaveFailsStep(s, id, s')
    case Crash => s' == Crashed(s)
    case Tick(to) => s.now <= to && s' == s.(now := to)
  }

  /** `newFileLeaseManager` up to its device update: read the file, line by line. A file
      that is refused ends the process, so then there is no such step. */
  ghost predicate StartStep(s: World, from: int, to: int, s': World) {
    && !s.running && s.now <= from <= to
    && LoadsTo(s.file, from, to, s'.records)
    && s' == s.(running := true, now := to, records := s'.records, ops := map[s.nextId := Boot], nextId := s.nextId + 1,
                loadedFrom := from, loadedTo := to, saved := false, deviceStale := false, fileStale := false)
  }

  /** The locked section of `createOrUpdatePeer`, whatever name and key. */
  ghost predicate RequestStep(p: Prefix, s: World, user: string, key: string, expiry: int, s': World)
    requires p.Valid()
  {
    && s.running
    && match Upsert(p, s.records, user, key, expiry)
       case Err(_) => s' == s
       case Ok(o) =>
         s' == s.(records := o.table,
                  ops := s.ops[s.nextId := Request(if o.needsUpdate then MustUpdate else MustSave, user, o.record)],
                  nextId := s.nextId + 1,
                  latest := s.latest[user := s.nextId],
                  written := s.written + {user})
  }

  /** The locked section of `syncWgRecords`; only a sweep that removed something
      goes on to the mirrors. */
  ghost predicate SweepStep(s: World, from: int, to: int, s': World) {
    && s.running && s.now <= from <= to
    && Swept(s.records, s'.records, from, to)
    && s' == s.(now := to, records := s'.records,
                ops := if s'.records == s.records then s.ops else s.ops[s.nextId := Sweep(MustUpdate)],
                nextId := s.nextId + 1,
                sweptFrom := Some(from), written := {})
  }

  ghost predicate OwesUpdate(op: Op) {
    op.Boot? || op.phase == MustUpdate
  }

  /** `updateWgPeers`, under the contract of `FileLeaseManager.UpdateWgPeers`, the users
      being listed in this order. */
  ghost predicate UpdateInOrder(s: World, id: nat, names: seq<string>, s': World) {
    && s.running && id in s.ops && OwesUpdate(s.ops[id])
    && UpdateOutcome(s.device, HostsOf(s.records), names, s'.device)
    && s' == s.(device := s'.device, deviceStale := false,
                ops := if s.ops[id].Boot? then s.ops - {id} else s.ops[id := s.ops[id].(phase := MustSave)])
  }

  ghost predicate UpdateStep(s: World, id: nat, s': World) {
    exists names :: UpdateInOrder(s, id, names, s')
  }

  /** A failed update may leave the device in any state, and its operation gives up
      without saving. A failure at boot ends the process: that is a crash. */
  ghost predicate UpdateFailsStep(s: World, id: nat, s': World) {
    && s.running && id in s.ops && !s.ops[id].Boot? && s.ops[id].phase == MustUpdate
    && s'.device.Valid()
    && s' == s.(device := s'.device, deviceStale := true, fileStale := true, ops := s.ops - {id})
  }

  /** `saveWgRecords`, in any order of the map; a request is answered right after. */
  ghost predicate SaveStep(s: World, id: nat, s': World) {
    && s.running && id in s.ops && !s.ops[id].Boot? && s.ops[id].phase == MustSave
    && IsSavedFrom(s'.file, s.records)
    && s' == s.(file := s'.file, filed := s.records, cut := false, saved := true, fileStale := false,
                ops := s.ops - {id})
  }

  /** A save that could not open the file leaves it as it was, and one that could not write
      it to the end leaves any text. */
  ghost predicate SaveFailsStep(s: World, id: nat, s': World) {
    && s.running && id in s.ops && !s.ops[id].Boot? && s.ops[id].phase == MustSave
    && s' == s.(file := s'.file, cut := s'.cut, fileStale := true, ops := s.ops - {id})
    && (s'.cut || (s'.file == s.file && s'.cut == s.cut))
  }

  /** Any interleaving, any names and keys, any restarts; over an IPv4 pool. */
  ghost predicate Run(p: Prefix, ss: seq<World>, acts: seq<Action>)
    requires p.Valid()
  {
    && p.addr.family.V4?
    && |ss| == |acts| + 1 && Init(ss[0])
    && forall i: nat | i < |acts| :: StepAt(p, ss, acts, i)
  }

  ghost predicate StepAt(p: Prefix, ss: seq<World>, acts: seq<Action>, i: nat)
    requires p.Valid() && i < |acts| && |ss| == |acts| + 1
  {
    Step(p, ss[i], acts[i], ss[i + 1])
  }

  // ---------- the invariant ----------

  ghost predicate OwedUpdate(s: World) {
    exists id :: id in s.ops && OwesUpdate(s.ops[id])
  }

  ghost predicate OwedSave(s: World) {
    exists id :: id in s.ops && !s.ops[id].Boot?
  }

  /** The file stands for the table: its text is the table's once this run has saved, and
      until then the text that the table was read from. */
  ghost predicate FileAgrees(s: World) {
    if s.saved then s.filed == s.records && !s.cut else LoadsTo(s.file, s.loadedFrom, s.loadedTo, s.records)
  }

  ghost predicate FileReadable(s: World) {
    FileHolds(s) && Addressable(s.records)
  }

  /** The device has the users' keys for peers, and mirrors them if neither two keys nor
      two ranges are the same. */
  ghost predicate DeviceAgrees(d: State, m: Hosts) {
    d.peers.Keys == HostKeys(m) && (KeysDistinct(m) && RangesDistinct(m) ==> Mirrors(d, m))
  }

  /** A disagreement means that an operation in flight still owes the write, or
      that the last attempt at it failed. */
  ghost predicate MirrorsOwed(s: World) {
    s.running ==>
      && (DeviceAgrees(s.device, HostsOf(s.records)) || OwedUpdate(s) || s.deviceStale)
      && (FileAgrees(s) || OwedSave(s) || s.fileStale)
  }

  /** The record of a user's last request stays in the table while it is live. */
  ghost predicate LatestInTable(s: World) {
    && (forall id | id in s.ops :: id < s.nextId)
    && (forall u | u in s.latest :: s.latest[u] < s.nextId)
    && (forall id | id in s.ops && s.ops[id].Request? ::
          var op := s.ops[id];
          op.user in s.latest && s.latest[op.user] == id && op.record.expires > s.now ==>
            op.user in s.records && s.records[op.user] == op.record)
  }

  ghost predicate SweptOrWritten(s: World) {
    s.sweptFrom.Some? ==> forall u | u in s.records :: s.records[u].expires >= s.sweptFrom.value || u in s.written
  }

  ghost predicate Inv(s: World) {
    && FileReadable(s) && MirrorsOwed(s) && LatestInTable(s) && SweptOrWritten(s)
    && (!s.running ==> s.ops == map[] && s.sweptFrom == None)
  }

  lemma {:induction false} LoadedIsAddressable(lines: seq<string>, times: seq<int>)
    requires |lines| == |times| && LoadLines(lines, times).Ok?
    ensures Addressable(LoadLines(lines, times).value)
  {
    if lines != [] {
      var n := |lines| - 1;
      LoadedIsAddressable(lines[..n], times[..n]);
      LoadNext(lines, times, LoadLines(lines[..n], times[..n]).value);
      LoadLineAddressable(LoadLines(lines[..n], times[..n]).value, lines[n], times[n]);
    }
  }

  lemma LoadsToAddressable(text: string, from: int, to: int, t: Table)
    requires LoadsTo(text, from, to, t)
    ensures Addressable(t)
  {
    var times :| ReadAt(text, times, from, to) && LoadLines(Text.ScanLines(text), times) == Ok(t);
    LoadedIsAddressable(Text.ScanLines(text), times);
  }

  lemma UpsertAddressable(p: Prefix, t: Table, user: string, key: string, expiry: int)
    requires p.Valid() && p.addr.family.V4? && Addressable(t) && Upsert(p, t, user, key, expiry).Ok?
    ensures Addressable(Upsert(p, t, user, key, expiry).value.table)
  {
    if user !in t {
      AvailableIsPrintable(p, t, Upsert(p, t, user, key, expiry).value.record.ip.value);
    }
  }

  lemma RequestStaysReadable(p: Prefix, s: World, user: string, key: string, expiry: int, s': World)
    requires p.Valid() && p.addr.family.V4? && FileReadable(s) && RequestStep(p, s, user, key, expiry, s')
    ensures FileReadable(s')
  {
    if Upsert(p, s.records, user, key, expiry).Ok? {
      UpsertAddressable(p, s.records, user, key, expiry);
    }
  }

  lemma PartIsAddressable(t: Table, t': Table)
    requires Addressable(t) && forall u | u in t' :: u in t && t'[u] == t[u]
    ensures Addressable(t')
  {
  }

  lemma FileStaysReadable(p: Prefix, s: World, a: Action, s': World)
    requires p.Valid() && p.addr.family.V4? && FileReadable(s) && Step(p, s, a, s')
    ensures FileReadable(s')
  {
    match a
    case Start(from, to) => LoadsToAddressable(s.file, from, to, s'.records);
    case RequestSection(user, key, expiry) => RequestStaysReadable(p, s, user, key, expiry, s');
    case SweepSection(from, to) => PartIsAddressable(s.records, s'.records);
    case Saved(id) => assert s'.filed == s'.records == s.records;
    case Crash => assert s'.records == map[];
    case DeviceUpdated(_) => SameTablesReadable(s, s');
    case DeviceFailed(_) => SameTablesReadable(s, s');
    case SaveFailed(_) => assert s'.filed == s.filed && s'.records == s.records;
    case Tick(_) => SameTablesReadable(s, s');
  }

  lemma SameTablesReadable(s: World, s': World)
    requires FileReadable(s) && s'.file == s.file && s'.filed == s.filed && s'.cut == s.cut
    requires s'.records == s.records
    ensures FileReadable(s')
  {
  }

  lemma UpsertOwes(p: Prefix, t: Table, user: string, key: string, expiry: int)
    requires p.Valid() && Upsert(p, t, user, key, expiry).Ok?
    ensures var o := Upsert(p, t, user, key, expiry).value;
            !o.needsUpdate ==> HostsOf(o.table) == HostsOf(t)
  {
    var o := Upsert(p, t, user, key, expiry).value;
    if !o.needsUpdate {
      ExpiryChangeKeepsHosts(t, user, expiry);
    }
  }

  lemma OwedAfterAdd(s: World, s': World, id: nat)
    requires id !in s.ops && id in s'.ops && s'.ops - {id} == s.ops
    ensures OwedUpdate(s) || OwesUpdate(s'.ops[id]) ==> OwedUpdate(s')
    ensures OwedSave(s) || !s'.ops[id].Boot? ==> OwedSave(s')
  {
    assert forall i | i in s.ops :: i in s'.ops && s'.ops[i] == s.ops[i];
  }

  lemma MirrorsOwedAfterStart(s: World, from: int, to: int, s': World)
    requires StartStep(s, from, to, s')
    ensures MirrorsOwed(s')
  {
    assert OwesUpdate(s'.ops[s.nextId]);
  }

  lemma RequestOwes(p: Prefix, s: World, user: string, key: string, expiry: int, s': World)
    requires p.Valid() && s.nextId !in s.ops
    requires RequestStep(p, s, user, key, expiry, s') && Upsert(p, s.records, user, key, expiry).Ok?
    ensures OwedSave(s') && s'.running && s'.device == s.device && s'.deviceStale == s.deviceStale
    ensures OwedUpdate(s') || (!OwedUpdate(s) && HostsOf(s'.records) == HostsOf(s.records))
  {
    assert s'.ops - {s.nextId} == s.ops;
    OwedAfterAdd(s, s', s.nextId);
    UpsertOwes(p, s.records, user, key, expiry);
  }

  lemma MirrorsOwedAfterRequest(p: Prefix, s: World, user: string, key: string, expiry: int, s': World)
    requires p.Valid() && MirrorsOwed(s) && s.nextId !in s.ops
    requires RequestStep(p, s, user, key, expiry, s')
    ensures MirrorsOwed(s')
  {
    if Upsert(p, s.records, user, key, expiry).Ok? {
      RequestOwes(p, s, user, key, expiry, s');
    }
  }

  lemma MirrorsOwedAfterSweep(s: World, from: int, to: int, s': World)
    requires MirrorsOwed(s) && s.nextId !in s.ops && SweepStep(s, from, to, s')
    ensures MirrorsOwed(s')
  {
    if s'.records != s.records {
      assert s'.ops == s.ops[s.nextId := Sweep(MustUpdate)];
      assert OwesUpdate(s'.ops[s.nextId]) && !s'.ops[s.nextId].Boot?;
    } else {
      assert s'.ops == s.ops;
    }
  }

  lemma MirrorsStayOwed(p: Prefix, s: World, a: Action, s': World)
    requires p.Valid() && MirrorsOwed(s) && LatestInTable(s) && Step(p, s, a, s')
    ensures MirrorsOwed(s')
  {
    match a
    case Start(from, to) => MirrorsOwedAfterStart(s, from, to, s');
    case RequestSection(user, key, expiry) => MirrorsOwedAfterRequest(p, s, user, key, expiry, s');
    case SweepSection(from, to) => MirrorsOwedAfterSweep(s, from, to, s');
    case DeviceUpdated(id) => MirrorsOwedAfterUpdate(s, id, s');
    case DeviceFailed(id) => MirrorsOwedAfterFailure(s, id, s');
    case Saved(id) => MirrorsOwedAfterSave(s, id, s');
    case SaveFailed(id) => UpdateStillOwed(s, s', id);
    case Crash => assert !s'.running;
    case Tick(_) => assert s' == s.(now := s'.now);
  }

  lemma MirrorsOwedAfterUpdate(s: World, id: nat, s': World)
    requires MirrorsOwed(s) && UpdateStep(s, id, s')
    ensures MirrorsOwed(s')
  {
    UpdateAgrees(s, id, s');
    SaveStillOwed(s, s', id);
  }

  lemma UpdateAgrees(s: World, id: nat, s': World)
    requires UpdateStep(s, id, s')
    ensures DeviceAgrees(s'.device, HostsOf(s'.records))
  {
    var names :| UpdateInOrder(s, id, names, s');
    DistinctKeysMirror(s.device, HostsOf(s.records), names, s'.device);
  }

  lemma MirrorsOwedAfterFailure(s: World, id: nat, s': World)
    requires MirrorsOwed(s) && UpdateFailsStep(s, id, s')
    ensures MirrorsOwed(s')
  {
  }

  lemma MirrorsOwedAfterSave(s: World, id: nat, s': World)
    requires MirrorsOwed(s) && SaveStep(s, id, s')
    ensures MirrorsOwed(s')
  {
    UpdateStillOwed(s, s', id);
  }

  lemma UpdateStillOwed(s: World, s': World, id: nat)
    requires id in s.ops && !OwesUpdate(s.ops[id]) && s'.ops == s.ops - {id}
    ensures OwedUpdate(s) ==> OwedUpdate(s')
  {
    if OwedUpdate(s) {
      var i :| i in s.ops && OwesUpdate(s.ops[i]);
      assert i in s'.ops && OwesUpdate(s'.ops[i]);
    }
  }

  lemma SaveStillOwed(s: World, s': World, id: nat)
    requires UpdateStep(s, id, s')
    ensures OwedSave(s) ==> OwedSave(s')
  {
    if OwedSave(s) {
      var i :| i in s.ops && !s.ops[i].Boot?;
      assert i in s'.ops && !s'.ops[i].Boot?;
    }
  }

  lemma UpsertLeavesOthers(p: Prefix, t: Table, user: string, key: string, expiry: int)
    requires p.Valid() && Upsert(p, t, user, key, expiry).Ok?
    ensures var o := Upsert(p, t, user, key, expiry).value;
            && user in o.table && o.table[user] == o.record
            && (forall u | u != user :: u in o.table <==> u in t)
            && (forall u | u != user && u in t :: o.table[u] == t[u])
  {
  }

  lemma LatestAfterRequest(p: Prefix, s: World, user: string, key: string, expiry: int, s': World)
    requires p.Valid() && LatestInTable(s) && RequestStep(p, s, user, key, expiry, s')
    ensures LatestInTable(s')
  {
    if Upsert(p, s.records, user, key, expiry).Ok? {
      UpsertLeavesOthers(p, s.records, user, key, expiry);
    }
  }

  lemma LatestAfterSweep(s: World, from: int, to: int, s': World)
    requires LatestInTable(s) && SweepStep(s, from, to, s')
    ensures LatestInTable(s')
  {
  }

  lemma LatestAfterUpdate(s: World, id: nat, s': World)
    requires LatestInTable(s) && UpdateStep(s, id, s')
    ensures LatestInTable(s')
  {
  }

  /** A step that only ends operations, and lets time pass. */
  lemma LatestAfterEnd(s: World, s': World)
    requires LatestInTable(s) && s'.records == s.records && s'.latest == s.latest && s'.nextId == s.nextId
             && s'.now >= s.now
    requires forall id | id in s'.ops :: id in s.ops && s'.ops[id] == s.ops[id]
    ensures LatestInTable(s')
  {
  }

  lemma LatestAfterFailure(s: World, id: nat, s': World)
    requires LatestInTable(s) && UpdateFailsStep(s, id, s')
    ensures LatestInTable(s')
  {
    LatestAfterEnd(s, s');
  }

  lemma LatestAfterSave(s: World, id: nat, s': World)
    requires LatestInTable(s) && SaveStep(s, id, s')
    ensures LatestInTable(s')
  {
    LatestAfterEnd(s, s');
  }

  lemma LatestAfterFailedSave(s: World, id: nat, s': World)
    requires LatestInTable(s) && SaveFailsStep(s, id, s')
    ensures LatestInTable(s')
  {
    LatestAfterEnd(s, s');
  }

  ghost predicate IsWrite(a: Action) {
    a.DeviceUpdated? || a.DeviceFailed? || a.Saved? || a.SaveFailed?
  }

  lemma LatestAfterWrite(p: Prefix, s: World, a: Action, s': World)
    requires p.Valid() && LatestInTable(s) && Step(p, s, a, s') && IsWrite(a)
    ensures LatestInTable(s')
  {
    match a
    case DeviceUpdated(id) => LatestAfterUpdate(s, id, s');
    case DeviceFailed(id) => LatestAfterFailure(s, id, s');
    case Saved(id) => LatestAfterSave(s, id, s');
    case SaveFailed(id) => LatestAfterFailedSave(s, id, s');
  }

  lemma LatestStaysInTable(p: Prefix, s: World, a: Action, s': World)
    requires p.Valid() && LatestInTable(s) && Step(p, s, a, s')
    ensures LatestInTable(s')
  {
    if IsWrite(a) {
      LatestAfterWrite(p, s, a, s');
    } else {
      match a
      case RequestSection(user, key, expiry) => LatestAfterRequest(p, s, user, key, expiry, s');
      case SweepSection(from, to) => LatestAfterSweep(s, from, to, s');
      case Tick(_) => LatestAfterEnd(s, s');
      case _ =>
    }
  }

  lemma SweptStays(p: Prefix, s: World, a: Action, s': World)
    requires p.Valid() && SweptOrWritten(s) && Step(p, s, a, s')
    requires a.Start? ==> s.sweptFrom == None
    ensures SweptOrWritten(s')
  {
    if a.RequestSection? && Upsert(p, s.records, a.user, a.key, a.expiry).Ok? {
      var o := Upsert(p, s.records, a.user, a.key, a.expiry).value;
      assert forall u | u != a.user && u in o.table :: u in s.records && o.table[u] == s.records[u];
    }
  }

  lemma InvStep(p: Prefix, s: World, a: Action, s': World)
    requires p.Valid() && p.addr.family.V4? && Inv(s) && Step(p, s, a, s')
    ensures Inv(s')
  {
    FileStaysReadable(p, s, a, s');
    MirrorsStayOwed(p, s, a, s');
    LatestStaysInTable(p, s, a, s');
    SweptStays(p, s, a, s');
  }

  lemma InitIsInv(s: World)
    requires Init(s)
    ensures Inv(s)
  {
  }

  lemma RunStep(p: Prefix, ss: seq<World>, acts: seq<Action>, i: nat)
    requires p.Valid() && Run(p, ss, acts) && i < |acts|
    ensures Step(p, ss[i], acts[i], ss[i + 1])
  {
    assert StepAt(p, ss, acts, i);
  }

  lemma NextIsInv(p: Prefix, ss: seq<World>, acts: seq<Action>, i: nat)
    requires p.Valid() && Run(p, ss, acts) && i < |acts|
    ensures Inv(ss[i]) ==> Inv(ss[i + 1])
  {
    if Inv(ss[i]) {
      RunStep(p, ss, acts, i);
      InvStep(p, ss[i], acts[i], ss[i + 1]);
    }
  }

  /** Induction along a run, for any property of its states. */
  lemma {:induction false} Induct(ss: seq<World>, holds: World -> bool, i: nat, j: nat)
    requires i <= j < |ss| && holds(ss[i])
    requires forall k | i <= k < j && holds(ss[k]) :: holds(ss[k + 1])
    ensures holds(ss[j])
  {
    if i < j {
      Induct(ss, holds, i, j - 1);
    }
  }

  /** Every state of every run satisfies the invariant. */
  lemma InvHolds(p: Prefix, ss: seq<World>, acts: seq<Action>, i: nat)
    requires p.Valid() && Run(p, ss, acts) && i < |ss|
    ensures Inv(ss[i])
  {
    var holds := (s: World) => Inv(s);
    InitIsInv(ss[0]);
    forall j | 0 <= j < i && holds(ss[j])
      ensures holds(ss[j + 1])
    {
      NextIsInv(p, ss, acts, j);
    }
    Induct(ss, holds, 0, i);
    assert holds(ss[i]);
  }

  lemma FileIsSaved(p: Prefix, ss: seq<World>, acts: seq<Action>, i: nat)
    requires p.Valid() && Run(p, ss, acts) && i < |ss|
    ensures FileHolds(ss[i]) && Addressable(ss[i].records)
  {
    InvHolds(p, ss, acts, i);
  }

  // ---------- main results ----------

  ghost predicate Quiescent(s: World) {
    s.running && s.ops == map[]
  }

  /** Quiescent agreement: with nothing in flight, device and file both stand for the
      table, unless the last attempt to write them failed. The routes do so if at that
      moment no two live users share a key or a range, whatever happened before. Until this
      run has saved, the table is what its start read from the file. */
  lemma QuiescentAgreement(p: Prefix, ss: seq<World>, acts: seq<Action>, i: nat)
    requires p.Valid() && Run(p, ss, acts) && i < |ss| && Quiescent(ss[i])
    ensures ss[i].deviceStale || DeviceAgrees(ss[i].device, HostsOf(ss[i].records))
    ensures FileHolds(ss[i]) && (ss[i].fileStale || FileAgrees(ss[i]))
    ensures !ss[i].fileStale && !ss[i].saved && !ss[i].cut && AllRestorable(ss[i].filed, ss[i].loadedFrom) ==>
              Loaded(ss[i].filed, ss[i].records, ss[i].loadedFrom, ss[i].loadedTo)
  {
    InvHolds(p, ss, acts, i);
    NothingOwedAtRest(ss[i]);
    var s := ss[i];
    if !s.fileStale && !s.saved && !s.cut && AllRestorable(s.filed, s.loadedFrom) {
      RestorableLoads(s.file, s.filed, s.loadedFrom, s.loadedTo, s.records);
    }
  }

  lemma NothingOwedAtRest(s: World)
    requires MirrorsOwed(s) && Quiescent(s)
    ensures s.deviceStale || DeviceAgrees(s.device, HostsOf(s.records))
    ensures s.fileStale || FileAgrees(s)
  {
  }

  // ---------- what is in flight can finish ----------

  lemma OutcomeExists(before: State, m: Hosts, names: seq<string>) returns (after: State)
    requires IsHostOrder(names, m)
    ensures UpdateOutcome(before, m, names, after)
  {
    NobodyListed(m, names);
    if m == map[] || (RangesDistinct(m) && NothingDropped(before.peers.Keys, PeersFor(m, names))) {
      after := BuildMirror(m);
      MirrorHasHostKeys(after, m);
    } else {
      var peers := PeersExist(m);
      after := State(peers, map[]);
      assert peers.Keys == HostKeys(m);
      NoRoutesNoMirror(after, m);
    }
  }

  lemma NobodyListed(m: Hosts, names: seq<string>)
    requires IsHostOrder(names, m)
    ensures m == map[] ==> names == []
  {
    assert names != [] ==> names[0] in names;
  }

  lemma MirrorHasHostKeys(d: State, m: Hosts)
    requires Mirrors(d, m)
    ensures d.peers.Keys == HostKeys(m)
  {
  }

  lemma NoRoutesNoMirror(d: State, m: Hosts)
    requires d.owner == map[] && m != map[]
    ensures !Mirrors(d, m)
  {
    var u :| u in m;
  }

  /** An update in flight can be made. */
  lemma UpdateExists(s: World, id: nat) returns (s': World)
    requires s.running && id in s.ops && OwesUpdate(s.ops[id])
    ensures UpdateStep(s, id, s')
  {
    var m := HostsOf(s.records);
    var names := SomeOrder(m.Keys);
    var after := OutcomeExists(s.device, m, names);
    s' := s.(device := after, deviceStale := false,
      ops := if s.ops[id].Boot? then s.ops - {id} else s.ops[id := s.ops[id].(phase := MustSave)]);
    assert UpdateInOrder(s, id, names, s');
  }

  lemma TextExists(t: Table) returns (text: string)
    requires Addressable(t)
    ensures IsSavedFrom(text, t)
  {
    var order := SomeOrder(t.Keys);
    assert IsOrder(order, t);
    text := PrintTable(order, t);
  }

  /** And so can a save. */
  lemma SaveExists(s: World, id: nat) returns (s': World)
    requires s.running && Addressable(s.records)
    requires id in s.ops && !s.ops[id].Boot? && s.ops[id].phase == MustSave
    ensures SaveStep(s, id, s')
  {
    var text := TextExists(s.records);
    s' := s.(file := text, filed := s.records, cut := false, saved := true, fileStale := false, ops := s.ops - {id});
  }

  ghost function Updates(ops: map<nat, Op>): set<nat> {
    set id | id in ops && !ops[id].Boot? && ops[id].phase == MustUpdate
  }

  /** How many updates and saves are still to be made. */
  ghost function Work(ops: map<nat, Op>): nat {
    |ops| + |Updates(ops)|
  }

  lemma LessWork(ops: map<nat, Op>, id: nat, ops': map<nat, Op>)
    requires id in ops
    requires if ops[id].Boot? || ops[id].phase == MustSave then ops' == ops - {id}
             else ops' == ops[id := ops[id].(phase := MustSave)]
    ensures Work(ops') < Work(ops)
  {
    if ops[id].Boot? || ops[id].phase == MustSave {
      assert Updates(ops') == Updates(ops);
      assert ops.Keys == ops'.Keys + {id};
    } else {
      assert Updates(ops) == Updates(ops') + {id};
      assert ops'.Keys == ops.Keys;
    }
  }

  ghost predicate FinishStep(p: Prefix, s: World, s': World)
    requires p.Valid()
  {
    exists id: nat :: Step(p, s, DeviceUpdated(id), s') || Step(p, s, Saved(id), s')
  }

  /** A path on which nothing happens but that operations in flight get on. */
  ghost predicate FinishPath(p: Prefix, path: seq<World>)
    requires p.Valid()
  {
    path != [] && forall i | 0 <= i < |path| - 1 :: FinishStep(p, path[i], path[i + 1])
  }

  /** The last save that succeeded was of the table as it is now. */
  ghost predicate FileCurrent(s: World) {
    s.filed == s.records && !s.cut
  }

  lemma FinishOne(p: Prefix, s: World) returns (s': World)
    requires p.Valid() && p.addr.family.V4? && s.running && FileReadable(s) && s.ops != map[]
    ensures FinishStep(p, s, s') && s'.running && FileReadable(s') && s'.records == s.records
    ensures Work(s'.ops) < Work(s.ops)
    ensures DeviceAgrees(s.device, HostsOf(s.records)) || OwedUpdate(s) ==>
              DeviceAgrees(s'.device, HostsOf(s'.records)) || OwedUpdate(s')
    ensures FileCurrent(s) || OwedSave(s) ==> FileCurrent(s') || OwedSave(s')
  {
    var id :| id in s.ops;
    if OwesUpdate(s.ops[id]) {
      s' := UpdateExists(s, id);
      FileStaysReadable(p, s, DeviceUpdated(id), s');
      UpdateAgrees(s, id, s');
      SaveStillOwed(s, s', id);
      assert Step(p, s, DeviceUpdated(id), s');
    } else {
      s' := SaveExists(s, id);
      FileStaysReadable(p, s, Saved(id), s');
      UpdateStillOwed(s, s', id);
      assert Step(p, s, Saved(id), s');
    }
    LessWork(s.ops, id, s'.ops);
  }

  lemma {:induction false} Finish(p: Prefix, s: World) returns (path: seq<World>)
    requires p.Valid() && p.addr.family.V4? && s.running && FileReadable(s)
    ensures FinishPath(p, path) && path[0] == s
    ensures var e := path[|path| - 1];
            && Quiescent(e) && FileReadable(e) && e.records == s.records
            && (DeviceAgrees(s.device, HostsOf(s.records)) || OwedUpdate(s) ==>
                  DeviceAgrees(e.device, HostsOf(e.records)))
            && (FileCurrent(s) || OwedSave(s) ==> FileCurrent(e))
    decreases Work(s.ops)
  {
    if s.ops == map[] {
      path := [s];
    } else {
      var s' := FinishOne(p, s);
      var rest := Finish(p, s');
      path := FinishFirst(p, s, rest);
    }
  }

  lemma FinishFirst(p: Prefix, s: World, rest: seq<World>) returns (path: seq<World>)
    requires p.Valid() && FinishPath(p, rest) && FinishStep(p, s, rest[0])
    ensures FinishPath(p, path) && path[0] == s && path[|path| - 1] == rest[|rest| - 1]
  {
    path := [s] + rest;
    assert forall i | 0 < i < |path| :: path[i] == rest[i - 1];
  }

  /** Whatever is in flight can finish: from every reachable state of a running server,
      updates and saves of the operations in flight alone lead to a quiescent state with the
      same table. Then the device stands for the table if it did or an update was owed, and
      the file is its text if it was or a save was owed. */
  lemma OperationsFinish(p: Prefix, ss: seq<World>, acts: seq<Action>, i: nat) returns (path: seq<World>)
    requires p.Valid() && Run(p, ss, acts) && i < |ss| && ss[i].running
    ensures FinishPath(p, path) && path[0] == ss[i]
    ensures var e := path[|path| - 1];
            && Quiescent(e) && e.records == ss[i].records
            && (OwedUpdate(ss[i]) || DeviceAgrees(ss[i].device, HostsOf(ss[i].records)) ==>
                  DeviceAgrees(e.device, HostsOf(e.records)))
            && (OwedSave(ss[i]) || FileCurrent(ss[i]) ==> IsSavedFrom(e.file, e.records))
  {
    InvHolds(p, ss, acts, i);
    path := Finish(p, ss[i]);
  }

  /** Within a run of the server a user keeps the address until the record is deleted, which
      only expiry does. */
  lemma AddressIsKept(p: Prefix, ss: seq<World>, acts: seq<Action>, i: nat, u: string)
    requires p.Valid() && Run(p, ss, acts) && i < |acts| && ss[i].running && ss[i + 1].running
    requires u in ss[i].records
    ensures if u in ss[i + 1].records then ss[i + 1].records[u].ip == ss[i].records[u].ip
            else ss[i].records[u].expires < ss[i + 1].now
  {
    RunStep(p, ss, acts, i);
    StepKeepsAddress(p, ss[i], acts[i], ss[i + 1], u);
  }

  ghost predicate KeepsAddress(s: World, s': World, u: string)
    requires u in s.records
  {
    if u in s'.records then s'.records[u].ip == s.records[u].ip else s.records[u].expires < s'.now
  }

  lemma RequestKeepsAddress(p: Prefix, s: World, user: string, key: string, expiry: int, s': World, u: string)
    requires p.Valid() && RequestStep(p, s, user, key, expiry, s') && u in s.records
    ensures KeepsAddress(s, s', u)
  {
    if Upsert(p, s.records, user, key, expiry).Ok? && u != user {
      UpsertLeavesOthers(p, s.records, user, key, expiry);
    }
  }

  lemma SweepKeepsAddress(s: World, from: int, to: int, s': World, u: string)
    requires SweepStep(s, from, to, s') && u in s.records
    ensures KeepsAddress(s, s', u)
  {
  }

  lemma StepKeepsAddress(p: Prefix, s: World, a: Action, s': World, u: string)
    requires p.Valid() && Step(p, s, a, s') && s.running && s'.running && u in s.records
    ensures KeepsAddress(s, s', u)
  {
    match a
    case RequestSection(user, key, expiry) => RequestKeepsAddress(p, s, user, key, expiry, s', u);
    case SweepSection(from, to) => SweepKeepsAddress(s, from, to, s', u);
    case DeviceUpdated(_) => assert s'.records == s.records;
    case DeviceFailed(_) => assert s'.records == s.records;
    case Saved(_) => assert s'.records == s.records;
    case SaveFailed(_) => assert s'.records == s.records;
    case Tick(_) => assert s'.records == s.records;
    case _ =>
  }

  /** A sweep that finds nothing expired disturbs nothing. */
  lemma IdleSweepOwesNothing(p: Prefix, ss: seq<World>, acts: seq<Action>, i: nat)
    requires p.Valid() && Run(p, ss, acts) && i < |acts| && acts[i].SweepSection?
    requires forall u | u in ss[i].records :: ss[i].records[u].expires >= acts[i].to
    ensures ss[i + 1].records == ss[i].records && ss[i + 1].ops == ss[i].ops
    ensures ss[i + 1].device == ss[i].device && ss[i + 1].file == ss[i].file
  {
    RunStep(p, ss, acts, i);
    NothingSwept(ss[i], acts[i].from, acts[i].to, ss[i + 1]);
  }

  lemma NothingSwept(s: World, from: int, to: int, s': World)
    requires SweepStep(s, from, to, s') && forall u | u in s.records :: s.records[u].expires >= to
    ensures s'.records == s.records && s'.ops == s.ops && s'.device == s.device && s'.file == s.file
  {
    assert s'.records == s.records;
  }

  // ---------- across restarts ----------

  /** A start finds a file that was written to the end and carries what is live in it: names and keys of live records
      hold no whitespace, expired ones print four fields, and all lines fit. */
  ghost predicate RestorableStart(s: World, a: Action) {
    a.Start? ==> !s.cut && Addressable(s.filed) && AllRestorable(s.filed, a.from)
  }

  ghost predicate RestorableStarts(ss: seq<World>, acts: seq<Action>, i: nat, j: nat)
    requires j < |ss| == |acts| + 1
  {
    forall k | i <= k < j :: RestorableStart(ss[k], acts[k])
  }

  ghost predicate StartRestores(s: World, a: Action, s': World) {
    a.Start? ==> Loaded(s.filed, s'.records, a.from, a.to)
  }

  lemma RestorableRestores(p: Prefix, s: World, a: Action, s': World)
    requires p.Valid() && Inv(s) && Step(p, s, a, s')
    ensures RestorableStart(s, a) ==> StartRestores(s, a, s')
  {
    if a.Start? && RestorableStart(s, a) {
      RestorableLoads(s.file, s.filed, a.from, a.to, s'.records);
    }
  }

  lemma NextRestores(p: Prefix, ss: seq<World>, acts: seq<Action>, i: nat)
    requires p.Valid() && Run(p, ss, acts) && i < |acts|
    ensures Inv(ss[i]) && RestorableStart(ss[i], acts[i]) ==> StartRestores(ss[i], acts[i], ss[i + 1])
  {
    if Inv(ss[i]) {
      RunStep(p, ss, acts, i);
      RestorableRestores(p, ss[i], acts[i], ss[i + 1]);
    }
  }

  /** What a start reads from such a file are exactly the leases that are live. */
  lemma RestorableStartRestores(p: Prefix, ss: seq<World>, acts: seq<Action>, i: nat)
    requires p.Valid() && Run(p, ss, acts) && i < |acts|
    ensures RestorableStart(ss[i], acts[i]) ==> StartRestores(ss[i], acts[i], ss[i + 1])
  {
    InvHolds(p, ss, acts, i);
    NextRestores(p, ss, acts, i);
  }

  ghost predicate TablesSound(p: Prefix, s: World)
    requires p.Valid()
  {
    Sound(p, s.filed) && Sound(p, s.records)
  }

  lemma RequestKeepsTables(p: Prefix, s: World, user: string, key: string, expiry: int, s': World)
    requires p.Valid() && TablesSound(p, s) && RequestStep(p, s, user, key, expiry, s')
    ensures TablesSound(p, s')
  {
    if Upsert(p, s.records, user, key, expiry).Ok? {
      UpsertKeepsSound(p, s.records, user, key, expiry);
    }
  }

  lemma TablesStaySound(p: Prefix, s: World, a: Action, s': World)
    requires p.Valid() && TablesSound(p, s) && StartRestores(s, a, s') && Step(p, s, a, s')
    ensures TablesSound(p, s')
  {
    match a
    case Start(_, _) => SubsetKeepsSound(p, s.filed, s'.records);
    case RequestSection(user, key, expiry) => RequestKeepsTables(p, s, user, key, expiry, s');
    case SweepSection(_, _) => SubsetKeepsSound(p, s.records, s'.records);
    case Crash => SubsetKeepsSound(p, s.records, s'.records);
    case _ =>
  }

  /** Leased addresses: distinct, inside the prefix, never reserved, in memory and in the
      file, so that no two users are routed one range. Every step keeps that; the start of
      a server does where the file carries what is live in it, and `LeaseRestart` shows
      what other starts do. */
  lemma LeasesStaySound(p: Prefix, ss: seq<World>, acts: seq<Action>, i: nat, j: nat)
    requires p.Valid() && Run(p, ss, acts) && i <= j < |ss|
    requires TablesSound(p, ss[i]) && RestorableStarts(ss, acts, i, j)
    ensures TablesSound(p, ss[j]) && RangesDistinct(HostsOf(ss[j].records))
  {
    var holds := (s: World) => TablesSound(p, s);
    forall k | i <= k < j && holds(ss[k])
      ensures holds(ss[k + 1])
    {
      NextIsSound(p, ss, acts, k);
    }
    Induct(ss, holds, i, j);
    assert holds(ss[j]);
    FileIsSaved(p, ss, acts, j);
    AddressesAreRanges(ss[j].records);
  }

  lemma NextIsSound(p: Prefix, ss: seq<World>, acts: seq<Action>, i: nat)
    requires p.Valid() && Run(p, ss, acts) && i < |acts| && RestorableStart(ss[i], acts[i])
    ensures TablesSound(p, ss[i]) ==> TablesSound(p, ss[i + 1])
  {
    if TablesSound(p, ss[i]) {
      RestorableStartRestores(p, ss, acts, i);
      RunStep(p, ss, acts, i);
      TablesStaySound(p, ss[i], acts[i], ss[i + 1]);
    }
  }

  /** In particular nobody is ever leased the server's own address or an end of the prefix. */
  lemma NobodyHasKeptBack(p: Prefix, ss: seq<World>, acts: seq<Action>, i: nat, j: nat, u: string)
    requires p.Valid() && Run(p, ss, acts) && i <= j < |ss| && u in ss[j].records
    requires TablesSound(p, ss[i]) && RestorableStarts(ss, acts, i, j)
    ensures var a := ss[j].records[u].ip;
            && a.Valid() && p.Contains(a) && a != p.addr && a != p.Masked() && a != p.Last()
            && forall v | v in ss[j].records && v != u :: ss[j].records[v].ip != a
  {
    LeasesStaySound(p, ss, acts, i, j);
    SoundExactlyWhen(p, ss[j].records);
  }

  /** Operation `id` is a request for the record `r`, and `u` has asked for nothing since. */
  ghost predicate AnswersLatest(s: World, id: nat, u: string, r: WGRecord) {
    && id in s.ops && s.ops[id].Request? && s.ops[id].user == u && s.ops[id].record == r
    && u in s.latest && s.latest[u] == id
  }

  /** Step `i` is the save after which `u` is told of the lease `r`. */
  ghost predicate Acknowledges(ss: seq<World>, acts: seq<Action>, i: nat, u: string, r: WGRecord)
    requires i < |acts| < |ss|
  {
    acts[i].Saved? && AnswersLatest(ss[i], acts[i].id, u, r)
  }

  ghost predicate NoRequestBetween(acts: seq<Action>, i: nat, j: nat, u: string)
    requires j <= |acts|
  {
    forall k | i < k < j :: !(acts[k].RequestSection? && acts[k].user == u)
  }

  /** While it is live the lease is in the file, and in the table while there is one. */
  ghost predicate Held(s: World, u: string, r: WGRecord) {
    r.expires > s.now ==>
      && u in s.filed && s.filed[u] == r
      && (s.running ==> u in s.records && s.records[u] == r)
  }

  lemma AcknowledgedIsHeld(s: World, id: nat, s': World, u: string, r: WGRecord)
    requires LatestInTable(s) && SaveStep(s, id, s') && AnswersLatest(s, id, u, r)
    ensures Held(s', u, r)
  {
  }

  lemma HeldAfterRequest(
    p: Prefix, s: World, user: string, key: string, expiry: int, s': World, u: string, r: WGRecord)
    requires p.Valid() && Held(s, u, r) && RequestStep(p, s, user, key, expiry, s') && user != u
    ensures Held(s', u, r)
  {
    if Upsert(p, s.records, user, key, expiry).Ok? {
      UpsertLeavesOthers(p, s.records, user, key, expiry);
    }
  }

  lemma HeldAfterStart(s: World, from: int, to: int, s': World, u: string, r: WGRecord)
    requires Held(s, u, r) && StartStep(s, from, to, s') && Loaded(s.filed, s'.records, from, to)
    ensures Held(s', u, r)
  {
  }

  lemma HeldAfterSweep(s: World, from: int, to: int, s': World, u: string, r: WGRecord)
    requires Held(s, u, r) && SweepStep(s, from, to, s')
    ensures Held(s', u, r)
  {
  }

  lemma StaysHeld(p: Prefix, s: World, a: Action, s': World, u: string, r: WGRecord)
    requires p.Valid() && Held(s, u, r) && StartRestores(s, a, s') && Step(p, s, a, s')
    requires !(a.RequestSection? && a.user == u)
    ensures Held(s', u, r)
  {
    match a
    case Start(from, to) => HeldAfterStart(s, from, to, s', u, r);
    case RequestSection(user, key, expiry) => HeldAfterRequest(p, s, user, key, expiry, s', u, r);
    case SweepSection(from, to) => HeldAfterSweep(s, from, to, s', u, r);
    case _ =>
  }

  lemma NextIsHeld(p: Prefix, ss: seq<World>, acts: seq<Action>, i: nat, u: string, r: WGRecord)
    requires p.Valid() && Run(p, ss, acts) && i < |acts| && RestorableStart(ss[i], acts[i])
    requires !(acts[i].RequestSection? && acts[i].user == u)
    ensures Held(ss[i], u, r) ==> Held(ss[i + 1], u, r)
  {
    if Held(ss[i], u, r) {
      RestorableStartRestores(p, ss, acts, i);
      RunStep(p, ss, acts, i);
      StaysHeld(p, ss[i], acts[i], ss[i + 1], u, r);
    }
  }

  lemma SavedIsHeld(p: Prefix, ss: seq<World>, acts: seq<Action>, i: nat, u: string, r: WGRecord)
    requires p.Valid() && Run(p, ss, acts) && i < |acts| && Acknowledges(ss, acts, i, u, r)
    ensures Held(ss[i + 1], u, r)
  {
    InvHolds(p, ss, acts, i);
    RunStep(p, ss, acts, i);
    AcknowledgedIsHeld(ss[i], acts[i].id, ss[i + 1], u, r);
  }

  lemma HeldSince(p: Prefix, ss: seq<World>, acts: seq<Action>, i: nat, j: nat, u: string, r: WGRecord)
    requires p.Valid() && Run(p, ss, acts) && i < j < |ss| && Acknowledges(ss, acts, i, u, r)
    requires NoRequestBetween(acts, i, j, u) && RestorableStarts(ss, acts, i, j)
    ensures Held(ss[j], u, r)
  {
    SavedIsHeld(p, ss, acts, i, u, r);
    var holds := (s: World) => Held(s, u, r);
    forall k | i + 1 <= k < j && holds(ss[k])
      ensures holds(ss[k + 1])
    {
      NextIsHeld(p, ss, acts, k, u, r);
    }
    Induct(ss, holds, i + 1, j);
    assert holds(ss[j]);
  }

  /** Durable leases: an acknowledged lease whose user asked for nothing since is, until it
      expires, in the table whenever the server runs, with the same key, address and expiry;
      whatever anybody asks for, through any interleaving, failures, crashes and starts
      that find a file that carries what is live in it. And while the file does, it can be
      read at any time until then and gives the lease back. */
  lemma AcknowledgedLeaseIsDurable(
    p: Prefix, ss: seq<World>, acts: seq<Action>, i: nat, j: nat, u: string, r: WGRecord)
    requires p.Valid() && Run(p, ss, acts) && i < j < |ss| && Acknowledges(ss, acts, i, u, r)
    requires NoRequestBetween(acts, i, j, u) && RestorableStarts(ss, acts, i, j)
    requires r.expires > ss[j].now
    ensures ss[j].running ==> u in ss[j].records && ss[j].records[u] == r
    ensures FileHolds(ss[j]) && u in ss[j].filed && ss[j].filed[u] == r
    ensures !ss[j].cut && AllRestorable(ss[j].filed, ss[j].now) ==> ComesBack(ss[j].file, u, r, ss[j].now)
  {
    HeldSince(p, ss, acts, i, j, u, r);
    InvHolds(p, ss, acts, j);
    if !ss[j].cut && AllRestorable(ss[j].filed, ss[j].now) {
      RestorableComesBack(ss[j].file, ss[j].filed, u, ss[j].now);
    }
  }

  /** Two live acknowledged leases never share an address, whenever they were
      acknowledged. */
  lemma AcknowledgedAddressesAreDistinct(
    p: Prefix, ss: seq<World>, acts: seq<Action>, h: nat, j: nat,
    iu: nat, u: string, ru: WGRecord, iv: nat, v: string, rv: WGRecord)
    requires p.Valid() && Run(p, ss, acts) && h <= iu < j < |ss| && h <= iv < j
    requires TablesSound(p, ss[h]) && RestorableStarts(ss, acts, h, j)
    requires Acknowledges(ss, acts, iu, u, ru) && NoRequestBetween(acts, iu, j, u) && ru.expires > ss[j].now
    requires Acknowledges(ss, acts, iv, v, rv) && NoRequestBetween(acts, iv, j, v) && rv.expires > ss[j].now
    ensures u != v ==> ru.ip != rv.ip
  {
    LeasesStaySound(p, ss, acts, h, j);
    HeldSince(p, ss, acts, iu, j, u, ru);
    HeldSince(p, ss, acts, iv, j, v, rv);
  }

  /** Revocation: at a quiescent point whose last device update succeeded, every peer
      is the key of a current record, and that record expires no earlier than the
      start of the last sweep, or was written since. A key that no record holds any
      more, replaced or expired, is gone, whether or not users share keys or ranges,
      whatever names and keys they have, and however the server started. */
  lemma Revocation(p: Prefix, ss: seq<World>, acts: seq<Action>, i: nat, k: Key)
    requires p.Valid() && Run(p, ss, acts) && i < |ss| && Quiescent(ss[i]) && !ss[i].deviceStale
    ensures var s := ss[i];
            k in s.device.peers <==> exists u :: u in HostsOf(s.records) && HostsOf(s.records)[u].key == k
    ensures var s := ss[i];
            k in s.device.peers && s.sweptFrom.Some? ==>
              exists u :: u in HostsOf(s.records) && HostsOf(s.records)[u].key == k
                          && (s.records[u].expires >= s.sweptFrom.value || u in s.written)
  {
    InvHolds(p, ss, acts, i);
    var s, m := ss[i], HostsOf(ss[i].records);
    if k in s.device.peers {
      var u :| u in m && m[u].key == k;
      assert u in s.records;
    }
  }

  lemma RetryRequest(p: Prefix, s: World, user: string, key: string, expiry: int, s': World)
    requires p.Valid() && Quiescent(s) && user in s.records && user != "" && key != ""
    requires RequestStep(p, s, user, key, expiry, s')
    ensures var r := s.records[user].(pubKey := key, expires := expiry);
            && (var phase := if s.records[user].pubKey != key then MustUpdate else MustSave;
                s'.ops == map[s.nextId := Request(phase, user, r)])
            && s'.records == s.records[user := r] && user in s'.latest && s'.latest[user] == s.nextId
            && s'.device == s.device && s'.running
  {
  }

  /** What a retry repairs. A device that disagrees with the table (its last update
      failed) is put right by a user's next request, run to the end without a failure,
      if and only if that request carries a different key, for with the same key the
      device is skipped, and in the order of the update no entry drops the range of an
      earlier one with the same key. */
  lemma RetryRepairsExactlyWhen(
    p: Prefix, s0: World, user: string, key: string, expiry: int, s1: World, names: seq<string>, s2: World, s3: World)
    requires p.Valid() && Quiescent(s0) && !Mirrors(s0.device, HostsOf(s0.records))
    requires AddressesDistinct(s0.records) && user in s0.records && user != "" && key != ""
    requires RequestStep(p, s0, user, key, expiry, s1)
    requires if s0.records[user].pubKey != key then UpdateInOrder(s1, s0.nextId, names, s2) else s2 == s1
    requires SaveStep(s2, s0.nextId, s3)
    ensures AnswersLatest(s2, s0.nextId, user, WGRecord(key, s0.records[user].ip, expiry)) && Quiescent(s3)
    ensures Mirrors(s3.device, HostsOf(s3.records)) <==>
            && s0.records[user].pubKey != key
            && IsHostOrder(names, HostsOf(s1.records))
            && NothingDropped(s1.device.peers.Keys, PeersFor(HostsOf(s1.records), names))
  {
    var r := s0.records[user].(pubKey := key, expires := expiry);
    RetryRequest(p, s0, user, key, expiry, s1);
    if s0.records[user].pubKey != key {
      RetryKeepsAddresses(s0.records, user, key, expiry);
      AddressesAreRanges(s1.records);
      RetryUpdates(s1, s0.nextId, user, r, names, s2);
      UpdateDecides(s1, s0.nextId, names, s2);
    } else {
      ExpiryChangeKeepsHosts(s0.records, user, expiry);
    }
    RetryEnds(s2, s0.nextId, user, r, s3);
  }

  lemma RetryKeepsAddresses(t: Table, user: string, key: string, expiry: int)
    requires AddressesDistinct(t) && user in t
    ensures AddressesDistinct(t[user := t[user].(pubKey := key, expires := expiry)])
  {
  }

  lemma UpdateDecides(s: World, id: nat, names: seq<string>, s': World)
    requires RangesDistinct(HostsOf(s.records))
    ensures UpdateInOrder(s, id, names, s') ==>
              && IsHostOrder(names, HostsOf(s.records))
              && (Mirrors(s'.device, HostsOf(s.records)) <==>
                  NothingDropped(s.device.peers.Keys, PeersFor(HostsOf(s.records), names)))
  {
  }

  lemma RetryUpdates(s: World, id: nat, user: string, r: WGRecord, names: seq<string>, s': World)
    requires s.ops == map[id := Request(MustUpdate, user, r)] && UpdateInOrder(s, id, names, s')
    ensures s'.ops == map[id := Request(MustSave, user, r)] && s'.latest == s.latest && s'.records == s.records
  {
  }

  lemma RetryEnds(s: World, id: nat, user: string, r: WGRecord, s': World)
    requires SaveStep(s, id, s') && s.ops == map[id := Request(MustSave, user, r)]
    requires user in s.latest && s.latest[user] == id
    ensures AnswersLatest(s, id, user, r) && Quiescent(s')
    ensures s'.device == s.device && s'.records == s.records
  {
    assert s'.ops == map[];
  }

  /** With a new key that no other user has, it always does. */
  lemma RetryWithOwnKeyRepairs(
    p: Prefix, s0: World, user: string, key: string, expiry: int, s1: World, s2: World, s3: World)
    requires p.Valid() && Quiescent(s0) && AddressesDistinct(s0.records)
    requires user in s0.records && user != "" && key != "" && s0.records[user].pubKey != key
    requires RequestStep(p, s0, user, key, expiry, s1) && KeysDistinct(HostsOf(s1.records))
    requires UpdateStep(s1, s0.nextId, s2) && SaveStep(s2, s0.nextId, s3)
    ensures Mirrors(s3.device, HostsOf(s3.records))
  {
    RetryRequest(p, s0, user, key, expiry, s1);
    RetryKeepsAddresses(s0.records, user, key, expiry);
    AddressesAreRanges(s1.records);
    UpdateAgrees(s1, s0.nextId, s2);
    assert s3.device == s2.device && s3.records == s2.records;
  }

  lemma LeastWithOneMore(a: set<nat>, x: nat)
    requires x !in a
    ensures Least(a + {x}).Some?
    ensures Least(a + {x}).value == x <==> forall w | w in a :: x < w
  {
  }

  lemma AvailableAfterExpiry(p: Prefix, t: Table, u: string)
    requires p.Valid() && Sound(p, t) && u in t
    ensures t[u].ip.value !in Available(p, t)
    ensures Available(p, t - {u}) == Available(p, t) + {t[u].ip.value}
  {
    var x, rest := t[u].ip.value, t - {u};
    LeasedWithout(t, u);
    assert forall w | w in rest :: t[w].ip != t[u].ip;
    assert x !in Leased(rest);
  }

  lemma SweptIsWithout(t: Table, u: string, shortened: Table, shorter: int, swept: Table, at: int)
    requires u in t && shortened == t[u := t[u].(expires := shorter)] && Swept(shortened, swept, at, at)
    requires shorter < at && forall w | w in t && w != u :: t[w].expires >= at
    ensures swept == t - {u}
  {
  }

  /** Why the durable leases are those with no later request: when `u` follows a live
      lease with a shorter one and that is swept, the next newcomer gets the address
      `u` was promised if and only if no lower one is free. */
  lemma SupersededAddressIsReused(
    p: Prefix, t: Table, u: string, shortened: Table, shorter: int, swept: Table, at: int,
    v: string, key: string, expiry: int)
    requires p.Valid() && Sound(p, t) && u in t && v !in t && v != "" && key != ""
    requires shortened == t[u := t[u].(expires := shorter)] && Swept(shortened, swept, at, at)
    requires shorter < at && forall w | w in t && w != u :: t[w].expires >= at
    ensures var o := Upsert(p, swept, v, key, expiry);
            o.Ok? && (o.value.record.ip == t[u].ip <==> forall w | w in Available(p, t) :: t[u].ip.value < w)
  {
    SweptIsWithout(t, u, shortened, shorter, swept, at);
    AvailableAfterExpiry(p, t, u);
    LeastWithOneMore(Available(p, t), t[u].ip.value);
  }
}
