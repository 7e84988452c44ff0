/** The upgrade planner: for every manifest row, in order, resolve the serial
    number, the target version and the interface names through the catalog,
    read the device's software state and either skip the row or put the state
    back with the upgrade fields overwritten. A row's failure is reported and
    the loop goes on with the next row. */
module Planner {
  import opened Api
  import opened Catalog
  import opened Manifest

  /** One upgrade-manifest row; a blank cell is None (or Null for the cells
      passed straight through to the controller). */
  datatype UpgradeRow = UpgradeRow(
    serial: Option<string>,
    version: Option<string>,
    downloadTime: Json,
    upgradeTime: Json,
    interfaces: Option<string>,
    downloadInterval: Json,
    upgradeInterval: Json)

  /** The lines the planner prints. */
  datatype Msg =
    | DeviceNotFound(row: nat, serialCell: Option<string>)
    | ImageNotSupported(row: nat, versionCell: Option<string>)
    | InvalidImage(row: nat, versionCell: Option<string>)
    | InterfacesGiven(text: string)
    | UnassignedSiteIgnored
    | InterfaceNotFound(intf: string, serial: string)
    | AlreadyAtVersion(serial: string, version: string)
    | UpgradeScheduled(serial: string, version: string)
    | UpgradeNotScheduled(serial: string, version: string)
    | StatusNotRetrieved

  function SeverityOf(m: Msg): Severity
  {
    match m
    case InterfacesGiven(_) => Untagged
    case UnassignedSiteIgnored => Warn
    case AlreadyAtVersion(_, _) => Info
    case UpgradeScheduled(_, _) => Info
    case _ => Err
  }

  /** The 1-based manifest row a line names ("[CSV Row n]"), if any. */
  function RowOf(m: Msg): Option<nat>
  {
    match m
    case DeviceNotFound(r, _) => Some(r)
    case ImageNotSupported(r, _) => Some(r)
    case InvalidImage(r, _) => Some(r)
    case _ => None
  }

  // ---------------------------------------------------------------------------
  // The interface list of one row
  // ---------------------------------------------------------------------------

  /** An interface name the catalog knows on element `eid` of site `sid`. */
  predicate KnownName(intfNameId: map<IntfKey, string>, sid: Json, eid: string, name: string)
  {
    IntfKey(sid, eid, name) in intfNameId
  }

  datatype Resolved = Resolved(ids: seq<string>, errors: seq<Msg>)

  /** The interface loop: a known name appends its id, an unknown one prints
      an error and is dropped. */
  function ResolveNames(intfNameId: map<IntfKey, string>, sid: Json, eid: string, hwid: string, names: seq<string>): Resolved
    decreases |names|
  {
    if names == [] then Resolved([], [])
    else
      var prev := ResolveNames(intfNameId, sid, eid, hwid, names[..|names| - 1]);
      var name := names[|names| - 1];
      if KnownName(intfNameId, sid, eid, name) then Resolved(prev.ids + [intfNameId[IntfKey(sid, eid, name)]], prev.errors)
      else Resolved(prev.ids, prev.errors + [InterfaceNotFound(name, hwid)])
  }

  /** The names the catalog knows, in manifest order. */
  function Found(intfNameId: map<IntfKey, string>, sid: Json, eid: string, names: seq<string>): (r: seq<string>)
    ensures forall k :: 0 <= k < |r| ==> KnownName(intfNameId, sid, eid, r[k])
    decreases |names|
  {
    if names == [] then []
    else
      var n := names[|names| - 1];
      Found(intfNameId, sid, eid, names[..|names| - 1]) + (if KnownName(intfNameId, sid, eid, n) then [n] else [])
  }

  /** The names it does not know, in manifest order. */
  function Missing(intfNameId: map<IntfKey, string>, sid: Json, eid: string, names: seq<string>): (r: seq<string>)
    ensures forall k :: 0 <= k < |r| ==> !KnownName(intfNameId, sid, eid, r[k])
    decreases |names|
  {
    if names == [] then []
    else
      var n := names[|names| - 1];
      Missing(intfNameId, sid, eid, names[..|names| - 1]) + (if KnownName(intfNameId, sid, eid, n) then [] else [n])
  }

  /** `Found` holds exactly the known names of the cell. */
  lemma {:induction false} FoundExact(m: map<IntfKey, string>, sid: Json, eid: string, names: seq<string>)
    ensures var f := Found(m, sid, eid, names);
      (forall x :: x in f ==> x in names && KnownName(m, sid, eid, x)) &&
      (forall x :: x in names && KnownName(m, sid, eid, x) ==> x in f)
    decreases |names|
  {
    if names != [] {
      var front, n := names[..|names| - 1], names[|names| - 1];
      FoundExact(m, sid, eid, front);
      assert names == front + [n];
    }
  }

  /** `Missing` holds exactly the unknown names of the cell. */
  lemma {:induction false} MissingExact(m: map<IntfKey, string>, sid: Json, eid: string, names: seq<string>)
    ensures var u := Missing(m, sid, eid, names);
      (forall x :: x in u ==> x in names && !KnownName(m, sid, eid, x)) &&
      (forall x :: x in names && !KnownName(m, sid, eid, x) ==> x in u)
    decreases |names|
  {
    if names != [] {
      var front, n := names[..|names| - 1], names[|names| - 1];
      MissingExact(m, sid, eid, front);
      assert names == front + [n];
    }
  }

  /** The loop's ids are the ids of the known names in manifest order, and its
      errors name the unknown names in manifest order, one each. */
  lemma {:induction false} ResolveNamesSpec(m: map<IntfKey, string>, sid: Json, eid: string, hwid: string, names: seq<string>)
    ensures var r, f, u := ResolveNames(m, sid, eid, hwid, names), Found(m, sid, eid, names), Missing(m, sid, eid, names);
      |r.ids| == |f| && (forall k :: 0 <= k < |f| ==> r.ids[k] == m[IntfKey(sid, eid, f[k])]) &&
      |r.errors| == |u| && (forall k :: 0 <= k < |u| ==> r.errors[k] == InterfaceNotFound(u[k], hwid))
    decreases |names|
  {
    if names != [] {
      ResolveNamesSpec(m, sid, eid, hwid, names[..|names| - 1]);
    }
  }

  /** Every name is either found or missing. */
  lemma {:induction false} FoundMissingCover(m: map<IntfKey, string>, sid: Json, eid: string, names: seq<string>)
    ensures |Found(m, sid, eid, names)| + |Missing(m, sid, eid, names)| == |names|
    decreases |names|
  {
    if names != [] {
      FoundMissingCover(m, sid, eid, names[..|names| - 1]);
    }
  }

  /** When every name is known, all of them are found, in order. */
  lemma {:induction false} FoundAll(m: map<IntfKey, string>, sid: Json, eid: string, names: seq<string>)
    requires forall k :: 0 <= k < |names| ==> KnownName(m, sid, eid, names[k])
    ensures Found(m, sid, eid, names) == names
    decreases |names|
  {
    if names != [] {
      var front := names[..|names| - 1];
      assert forall k :: 0 <= k < |front| ==> front[k] == names[k];
      FoundAll(m, sid, eid, front);
      assert KnownName(m, sid, eid, names[|names| - 1]);
      assert Found(m, sid, eid, names) == front + [names[|names| - 1]];
      assert names == front + [names[|names| - 1]];
    }
  }

  /** When no name is known, none is found. */
  lemma {:induction false} FoundNone(m: map<IntfKey, string>, sid: Json, eid: string, names: seq<string>)
    requires forall k :: 0 <= k < |names| ==> !KnownName(m, sid, eid, names[k])
    ensures Found(m, sid, eid, names) == []
    decreases |names|
  {
    if names != [] {
      var front := names[..|names| - 1];
      assert forall k :: 0 <= k < |front| ==> front[k] == names[k];
      FoundNone(m, sid, eid, front);
    }
  }

  /** The target interfaces of a row: None means "all interfaces". */
  datatype IntfChoice = IntfChoice(ids: Option<seq<string>>, msgs: seq<Msg>)

  function InterfaceIds(intfNameId: map<IntfKey, string>, sid: Json, eid: string, hwid: string, cell: Option<string>): IntfChoice
  {
    match cell
    case None => IntfChoice(None, [])
    case Some(text) =>
      if Unassigned(sid) then IntfChoice(None, [InterfacesGiven(text), UnassignedSiteIgnored])
      else
        var r := ResolveNames(intfNameId, sid, eid, hwid, Split(text, ','));
        IntfChoice(if r.ids == [] then None else Some(r.ids), [InterfacesGiven(text)] + r.errors)
  }

  /** The interface list: None when the cell is blank or the device has no
      site (with a warning when names were given); otherwise the ids of the
      known comma-separated names in manifest order, one error per unknown
      name, and None if no name is known. */
  lemma InterfaceIdsSpec(m: map<IntfKey, string>, sid: Json, eid: string, hwid: string, cell: Option<string>)
    ensures var r := InterfaceIds(m, sid, eid, hwid, cell);
      (cell.None? ==> r == IntfChoice(None, [])) &&
      (cell.Some? && Unassigned(sid) ==> r == IntfChoice(None, [InterfacesGiven(cell.value), UnassignedSiteIgnored])) &&
      (cell.Some? && !Unassigned(sid) ==>
        var f, u := Found(m, sid, eid, Split(cell.value, ',')), Missing(m, sid, eid, Split(cell.value, ','));
        (r.ids.None? <==> f == []) &&
        (r.ids.Some? ==> |r.ids.value| == |f| && forall k :: 0 <= k < |f| ==> r.ids.value[k] == m[IntfKey(sid, eid, f[k])]) &&
        |r.msgs| == 1 + |u| && r.msgs[0] == InterfacesGiven(cell.value) &&
        (forall k :: 0 <= k < |u| ==> r.msgs[k + 1] == InterfaceNotFound(u[k], hwid)))
  {
    if cell.Some? && !Unassigned(sid) {
      InterfaceIdsResolved(m, sid, eid, hwid, cell.value);
    }
  }

  /** The case of a names cell on a device with a site. */
  lemma InterfaceIdsResolved(m: map<IntfKey, string>, sid: Json, eid: string, hwid: string, text: string)
    requires !Unassigned(sid)
    ensures var r, names := InterfaceIds(m, sid, eid, hwid, Some(text)), Split(text, ',');
      var f, u := Found(m, sid, eid, names), Missing(m, sid, eid, names);
      (r.ids.None? <==> f == []) &&
      (r.ids.Some? ==> |r.ids.value| == |f| && forall k :: 0 <= k < |f| ==> r.ids.value[k] == m[IntfKey(sid, eid, f[k])]) &&
      |r.msgs| == 1 + |u| && r.msgs[0] == InterfacesGiven(text) &&
      (forall k :: 0 <= k < |u| ==> r.msgs[k + 1] == InterfaceNotFound(u[k], hwid))
  {
    var names := Split(text, ',');
    var res := ResolveNames(m, sid, eid, hwid, names);
    ResolveNamesSpec(m, sid, eid, hwid, names);
    var c := InterfaceIds(m, sid, eid, hwid, Some(text));
    assert c.ids == (if res.ids == [] then None else Some(res.ids));
    assert c.msgs == [InterfacesGiven(text)] + res.errors;
    assert forall k :: 0 <= k < |res.errors| ==> c.msgs[k + 1] == res.errors[k];
  }

  /** A site-less device never has a non-empty interface list, whatever the
      manifest says. */
  lemma UnassignedIgnoresInterfaces(m: map<IntfKey, string>, sid: Json, eid: string, hwid: string, cell: Option<string>)
    requires Unassigned(sid)
    ensures InterfaceIds(m, sid, eid, hwid, cell).ids == None
    ensures UnassignedSiteIgnored in InterfaceIds(m, sid, eid, hwid, cell).msgs <==> cell.Some?
  {
  }

  /** The interface list only ever prints its own kinds of line. */
  lemma InterfaceMsgs(m: map<IntfKey, string>, sid: Json, eid: string, hwid: string, cell: Option<string>)
    ensures forall x :: x in InterfaceIds(m, sid, eid, hwid, cell).msgs ==>
      x.InterfacesGiven? || x.UnassignedSiteIgnored? || x.InterfaceNotFound?
  {
    if cell.Some? && !Unassigned(sid) {
      var names := Split(cell.value, ',');
      var r := ResolveNames(m, sid, eid, hwid, names);
      ResolveNamesSpec(m, sid, eid, hwid, names);
      assert forall k :: 0 <= k < |r.errors| ==> r.errors[k].InterfaceNotFound?;
    }
  }

  // ---------------------------------------------------------------------------
  // The state put back to the controller
  // ---------------------------------------------------------------------------

  /** The keys of the fetched state that the put overwrites. */
  const OverwrittenKeys: set<string> :=
    {"image_id", "scheduled_download", "scheduled_upgrade", "interface_ids", "download_interval", "upgrade_interval"}

  function IdsJson(ids: Option<seq<string>>): Json
  {
    match ids
    case None => Null
    case Some(xs) => Arr(seq(|xs|, k requires 0 <= k < |xs| => Str(xs[k])))
  }

  /** The fetched state with the six upgrade fields set and every other key
      left as the controller sent it. */
  function Payload(status: SoftwareState, imageId: string, row: UpgradeRow, ids: Option<seq<string>>): (p: JsonObject)
    ensures p.Keys == status.Keys + OverwrittenKeys
    ensures p["image_id"] == Str(imageId)
    ensures p["scheduled_download"] == row.downloadTime && p["scheduled_upgrade"] == row.upgradeTime
    ensures p["interface_ids"] == IdsJson(ids)
    ensures p["download_interval"] == row.downloadInterval && p["upgrade_interval"] == row.upgradeInterval
    ensures forall k :: k in status && k !in OverwrittenKeys ==> p[k] == status[k]
  {
    status["image_id" := Str(imageId)]
          ["scheduled_download" := row.downloadTime]
          ["scheduled_upgrade" := row.upgradeTime]
          ["interface_ids" := IdsJson(ids)]
          ["download_interval" := row.downloadInterval]
          ["upgrade_interval" := row.upgradeInterval]
  }

  // ---------------------------------------------------------------------------
  // One row, and the whole loop
  // ---------------------------------------------------------------------------

  /** The catalog knows the serial number. */
  predicate KnownDevice(t: Tables, serial: Option<string>)
  {
    serial.Some? && serial.value in t.elemHwidId
  }

  /** The version is a released image. */
  predicate ReleasedVersion(t: Tables, version: Option<string>)
  {
    version.Some? && version.value in t.imageNameId
  }

  /** The version is only a retired image. */
  predicate UnsupportedVersion(t: Tables, version: Option<string>)
  {
    version.Some? && version.value in t.unsupportedNameId
  }

  /** The row reaches the put: device and released version known, state
      fetched, and the device on another image. */
  predicate NeedsPut(t: Tables, ctl: Controller, i: nat, row: UpgradeRow)
    requires WellFormed(t)
  {
    && KnownDevice(t, row.serial)
    && ReleasedVersion(t, row.version)
    && var elemid := t.elemHwidId[row.serial.value];
       ctl.softwareState(i, elemid).Some?
       && ctl.softwareState(i, elemid).value["image_id"] != Str(t.imageNameId[row.version.value])
  }

  /** Row `i` (0-based) of the manifest. */
  function PlanRow(t: Tables, ctl: Controller, i: nat, row: UpgradeRow): Outcome<Msg>
    requires WellFormed(t)
  {
    if !KnownDevice(t, row.serial) then Outcome([DeviceNotFound(i + 1, row.serial)], [])
    else if ReleasedVersion(t, row.version) then
      var hwid, version := row.serial.value, row.version.value;
      var elemid := t.elemHwidId[hwid];
      var sid := t.elemidSid[elemid];
      var imageid := t.imageNameId[version];
      var intf := InterfaceIds(t.intfNameId, sid, elemid, hwid, row.interfaces);
      var fetched := Outcome(intf.msgs, [GetSoftwareState(elemid)]);
      match ctl.softwareState(i, elemid)
      case None => fetched.Then(Outcome([StatusNotRetrieved], []))
      case Some(status) =>
        if status["image_id"] == Str(imageid) then fetched.Then(Outcome([AlreadyAtVersion(hwid, version)], []))
        else
          var data := Payload(status, imageid, row, intf.ids);
          var line := if ctl.putAccepted(i, elemid, data) then UpgradeScheduled(hwid, version) else UpgradeNotScheduled(hwid, version);
          fetched.Then(Outcome([line], [PutSoftwareState(elemid, data)]))
    else if UnsupportedVersion(t, row.version) then Outcome([ImageNotSupported(i + 1, row.version)], [])
    else Outcome([InvalidImage(i + 1, row.version)], [])
  }

  /** Rows `start`, `start + 1`, ... of the manifest, each planned whatever
      happened to the ones before. */
  function RunUpgrade(t: Tables, ctl: Controller, start: nat, rows: seq<UpgradeRow>): Outcome<Msg>
    requires WellFormed(t)
    decreases |rows|
  {
    if rows == [] then Outcome([], [])
    else PlanRow(t, ctl, start, rows[0]).Then(RunUpgrade(t, ctl, start + 1, rows[1..]))
  }

  // ---------------------------------------------------------------------------
  // Properties of one row
  // ---------------------------------------------------------------------------

  /** A row sends no request exactly when its serial number is unknown or its
      version is not a released image; it then prints one error naming row
      i + 1: device not found, image retired, or image invalid. */
  lemma PlanRowRejected(t: Tables, ctl: Controller, i: nat, row: UpgradeRow)
    requires WellFormed(t)
    ensures var o := PlanRow(t, ctl, i, row);
      (o.calls == [] <==> !KnownDevice(t, row.serial) || !ReleasedVersion(t, row.version)) &&
      (o.calls == [] ==> |o.log| == 1 && SeverityOf(o.log[0]) == Err && RowOf(o.log[0]) == Some(i + 1)) &&
      (!KnownDevice(t, row.serial) ==> o.log == [DeviceNotFound(i + 1, row.serial)]) &&
      (KnownDevice(t, row.serial) && !ReleasedVersion(t, row.version) ==>
        o.log == [if UnsupportedVersion(t, row.version) then ImageNotSupported(i + 1, row.version) else InvalidImage(i + 1, row.version)])
  {
  }

  /** A version that is both released and retired is treated as released: the
      row never reports it retired, and any put targets the released image. */
  lemma PlanRowReleasedFirst(t: Tables, ctl: Controller, i: nat, row: UpgradeRow)
    requires WellFormed(t)
    requires KnownDevice(t, row.serial) && ReleasedVersion(t, row.version)
    ensures var o := PlanRow(t, ctl, i, row);
      (forall m :: m in o.log ==> !m.ImageNotSupported? && !m.InvalidImage?) &&
      o.calls[0] == GetSoftwareState(t.elemHwidId[row.serial.value]) &&
      (forall c :: c in o.calls && c.PutSoftwareState? ==> c.data["image_id"] == Str(t.imageNameId[row.version.value]))
  {
    var elemid := t.elemHwidId[row.serial.value];
    var sid := t.elemidSid[elemid];
    var intf := InterfaceIds(t.intfNameId, sid, elemid, row.serial.value, row.interfaces);
    InterfaceMsgs(t.intfNameId, sid, elemid, row.serial.value, row.interfaces);
    var imageid := t.imageNameId[row.version.value];
    var fetched := Outcome(intf.msgs, [GetSoftwareState(elemid)]);
    var o := PlanRow(t, ctl, i, row);
    match ctl.softwareState(i, elemid)
    case None =>
      assert o == fetched.Then(Outcome([StatusNotRetrieved], []));
    case Some(status) =>
      if status["image_id"] == Str(imageid) {
        assert o == fetched.Then(Outcome([AlreadyAtVersion(row.serial.value, row.version.value)], []));
      } else {
        var data := Payload(status, imageid, row, intf.ids);
        assert o.calls == [GetSoftwareState(elemid), PutSoftwareState(elemid, data)];
        assert |o.log| == |intf.msgs| + 1 && o.log[..|intf.msgs|] == intf.msgs;
        assert o.log[|intf.msgs|].UpgradeScheduled? || o.log[|intf.msgs|].UpgradeNotScheduled?;
      }
  }

  /** A row puts exactly when it needs to, and then sends the state fetch
      followed by one put of the fetched state with the upgrade fields set. */
  lemma PlanRowPut(t: Tables, ctl: Controller, i: nat, row: UpgradeRow)
    requires WellFormed(t)
    ensures var o := PlanRow(t, ctl, i, row);
      ((exists c :: c in o.calls && c.PutSoftwareState?) <==> NeedsPut(t, ctl, i, row)) &&
      (NeedsPut(t, ctl, i, row) ==>
        var elemid := t.elemHwidId[row.serial.value];
        var intf := InterfaceIds(t.intfNameId, t.elemidSid[elemid], elemid, row.serial.value, row.interfaces);
        o.calls == [GetSoftwareState(elemid),
                    PutSoftwareState(elemid, Payload(ctl.softwareState(i, elemid).value, t.imageNameId[row.version.value], row, intf.ids))])
  {
    var o := PlanRow(t, ctl, i, row);
    if NeedsPut(t, ctl, i, row) {
      assert o.calls[1] in o.calls;
    } else if KnownDevice(t, row.serial) && ReleasedVersion(t, row.version) {
      assert o.calls == [GetSoftwareState(t.elemHwidId[row.serial.value])];
    } else {
      assert o.calls == [];
    }
  }

  /** A device already on the target image is skipped: one state fetch, no
      put, and the run of lines ends with "already at". */
  lemma PlanRowAlreadyCurrent(t: Tables, ctl: Controller, i: nat, row: UpgradeRow)
    requires WellFormed(t)
    requires KnownDevice(t, row.serial) && ReleasedVersion(t, row.version)
    requires var elemid := t.elemHwidId[row.serial.value];
      ctl.softwareState(i, elemid).Some? && ctl.softwareState(i, elemid).value["image_id"] == Str(t.imageNameId[row.version.value])
    ensures var o := PlanRow(t, ctl, i, row);
      o.calls == [GetSoftwareState(t.elemHwidId[row.serial.value])] &&
      o.log[|o.log| - 1] == AlreadyAtVersion(row.serial.value, row.version.value)
  {
  }

  /** A row that reaches the put prints the interface lines, then one line
      saying whether the controller accepted that put, and sends exactly the
      state fetch and the put. */
  lemma PlanRowPutLine(t: Tables, ctl: Controller, i: nat, row: UpgradeRow)
    requires WellFormed(t)
    requires NeedsPut(t, ctl, i, row)
    ensures var o, hwid, version := PlanRow(t, ctl, i, row), row.serial.value, row.version.value;
      var elemid := t.elemHwidId[hwid];
      var intf := InterfaceIds(t.intfNameId, t.elemidSid[elemid], elemid, hwid, row.interfaces);
      var data := Payload(ctl.softwareState(i, elemid).value, t.imageNameId[version], row, intf.ids);
      o.calls == [GetSoftwareState(elemid), PutSoftwareState(elemid, data)] &&
      o.log == intf.msgs + [if ctl.putAccepted(i, elemid, data) then UpgradeScheduled(hwid, version)
                            else UpgradeNotScheduled(hwid, version)]
  {
  }

  /** A failed state fetch ends the row: the fetch is the only call, and the
      last line says the status could not be retrieved. */
  lemma PlanRowFetchFailed(t: Tables, ctl: Controller, i: nat, row: UpgradeRow)
    requires WellFormed(t)
    requires KnownDevice(t, row.serial) && ReleasedVersion(t, row.version)
    requires ctl.softwareState(i, t.elemHwidId[row.serial.value]).None?
    ensures var o, elemid := PlanRow(t, ctl, i, row), t.elemHwidId[row.serial.value];
      var intf := InterfaceIds(t.intfNameId, t.elemidSid[elemid], elemid, row.serial.value, row.interfaces);
      o.calls == [GetSoftwareState(elemid)] && o.log == intf.msgs + [StatusNotRetrieved]
  {
  }

  // ---------------------------------------------------------------------------
  // Properties of the whole loop
  // ---------------------------------------------------------------------------

  /** Continue on error: the rows after a stretch run exactly as they would on
      their own, whatever the stretch printed or sent. */
  lemma {:induction false} RunUpgradeSplit(t: Tables, ctl: Controller, start: nat, a: seq<UpgradeRow>, b: seq<UpgradeRow>)
    requires WellFormed(t)
    ensures RunUpgrade(t, ctl, start, a + b) == RunUpgrade(t, ctl, start, a).Then(RunUpgrade(t, ctl, start + |a|, b))
    decreases |a|
  {
    if a == [] {
      assert a + b == b;
    } else {
      assert (a + b)[0] == a[0] && (a + b)[1..] == a[1..] + b;
      RunUpgradeSplit(t, ctl, start + 1, a[1..], b);
      ThenAssoc(PlanRow(t, ctl, start, a[0]), RunUpgrade(t, ctl, start + 1, a[1..]), RunUpgrade(t, ctl, start + |a|, b));
    }
  }

  function CountPuts(calls: seq<Call>): nat
    decreases |calls|
  {
    if calls == [] then 0 else (if calls[0].PutSoftwareState? then 1 else 0) + CountPuts(calls[1..])
  }

  lemma {:induction false} CountPutsAppend(a: seq<Call>, b: seq<Call>)
    ensures CountPuts(a + b) == CountPuts(a) + CountPuts(b)
    decreases |a|
  {
    if a == [] {
      assert a + b == b;
    } else {
      assert (a + b)[0] == a[0] && (a + b)[1..] == a[1..] + b;
      CountPutsAppend(a[1..], b);
    }
  }

  lemma CountPutsNone(calls: seq<Call>)
    requires CountPuts(calls) == 0
    ensures forall c :: c in calls ==> !c.PutSoftwareState?
    decreases |calls|
  {
    if calls != [] {
      CountPutsNone(calls[1..]);
    }
  }

  /** The rows among `rows` (numbered from `start`) that need a put. */
  function CountNeedsPut(t: Tables, ctl: Controller, start: nat, rows: seq<UpgradeRow>): nat
    requires WellFormed(t)
    decreases |rows|
  {
    if rows == [] then 0
    else (if NeedsPut(t, ctl, start, rows[0]) then 1 else 0) + CountNeedsPut(t, ctl, start + 1, rows[1..])
  }

  /** The run sends exactly one put per row that needs one. */
  lemma {:induction false} RunUpgradePuts(t: Tables, ctl: Controller, start: nat, rows: seq<UpgradeRow>)
    requires WellFormed(t)
    ensures CountPuts(RunUpgrade(t, ctl, start, rows).calls) == CountNeedsPut(t, ctl, start, rows)
    decreases |rows|
  {
    if rows != [] {
      var o := PlanRow(t, ctl, start, rows[0]);
      RunUpgradePuts(t, ctl, start + 1, rows[1..]);
      CountPutsAppend(o.calls, RunUpgrade(t, ctl, start + 1, rows[1..]).calls);
      PlanRowPut(t, ctl, start, rows[0]);
      if NeedsPut(t, ctl, start, rows[0]) {
        assert CountPuts(o.calls) == 1 by {
          assert o.calls[1..][1..] == [];
        }
      } else {
        assert CountPuts(o.calls) == 0 by {
          CountPutsZero(o.calls);
        }
      }
    }
  }

  lemma CountPutsZero(calls: seq<Call>)
    requires forall c :: c in calls ==> !c.PutSoftwareState?
    ensures CountPuts(calls) == 0
    decreases |calls|
  {
    if calls != [] {
      CountPutsZero(calls[1..]);
    }
  }

  /** Idempotence: when every device is already on its target image (or its
      row is rejected), the run changes nothing on the controller. */
  lemma RunUpgradeIdempotent(t: Tables, ctl: Controller, start: nat, rows: seq<UpgradeRow>)
    requires WellFormed(t)
    requires forall k :: 0 <= k < |rows| ==> !NeedsPut(t, ctl, start + k, rows[k])
    ensures forall c :: c in RunUpgrade(t, ctl, start, rows).calls ==> !IsMutation(c)
  {
    NoRowNeedsPut(t, ctl, start, rows);
    RunUpgradePuts(t, ctl, start, rows);
    CountPutsNone(RunUpgrade(t, ctl, start, rows).calls);
    NoPosts(t, ctl, start, rows);
  }

  lemma {:induction false} NoRowNeedsPut(t: Tables, ctl: Controller, start: nat, rows: seq<UpgradeRow>)
    requires WellFormed(t)
    requires forall k :: 0 <= k < |rows| ==> !NeedsPut(t, ctl, start + k, rows[k])
    ensures CountNeedsPut(t, ctl, start, rows) == 0
    decreases |rows|
  {
    if rows != [] {
      assert !NeedsPut(t, ctl, start + 0, rows[0]);
      forall k | 0 <= k < |rows[1..]|
        ensures !NeedsPut(t, ctl, start + 1 + k, rows[1..][k])
      {
        assert rows[1..][k] == rows[k + 1];
      }
      NoRowNeedsPut(t, ctl, start + 1, rows[1..]);
    }
  }

  /** The planner never posts an operation. */
  lemma {:induction false} NoPosts(t: Tables, ctl: Controller, start: nat, rows: seq<UpgradeRow>)
    requires WellFormed(t)
    ensures forall c :: c in RunUpgrade(t, ctl, start, rows).calls ==> !c.PostOperation?
    decreases |rows|
  {
    if rows != [] {
      NoPosts(t, ctl, start + 1, rows[1..]);
    }
  }

  /** A manifest of unknown serial numbers sends nothing and prints one
      "device not found" per row, each naming its own row. */
  lemma {:induction false} RunUpgradeUnknownDevices(t: Tables, ctl: Controller, start: nat, rows: seq<UpgradeRow>)
    requires WellFormed(t)
    requires forall k :: 0 <= k < |rows| ==> !KnownDevice(t, rows[k].serial)
    ensures var o := RunUpgrade(t, ctl, start, rows);
      o.calls == [] && |o.log| == |rows| &&
      forall k :: 0 <= k < |rows| ==> o.log[k] == DeviceNotFound(start + k + 1, rows[k].serial)
    decreases |rows|
  {
    if rows != [] {
      forall k | 0 <= k < |rows[1..]|
        ensures !KnownDevice(t, rows[1..][k].serial)
      {
        assert rows[1..][k] == rows[k + 1];
      }
      RunUpgradeUnknownDevices(t, ctl, start + 1, rows[1..]);
    }
  }

  // ---------------------------------------------------------------------------
  // The loop as the script runs it, over the catalog's dictionaries
  // ---------------------------------------------------------------------------

  /** Plan and submit every row of the manifest in order. The catalog is only
      read. */
  method UpgradeDevice(cat: Catalog, rows: seq<UpgradeRow>, ctl: Controller) returns (log: seq<Msg>, calls: seq<Call>)
    requires WellFormed(cat.View())
    ensures Outcome(log, calls) == RunUpgrade(cat.View(), ctl, 0, rows)
  {
    log, calls := [], [];
    var i := 0;
    while i < |rows|
      invariant 0 <= i <= |rows|
      invariant Outcome(log, calls).Then(RunUpgrade(cat.View(), ctl, i, rows[i..])) == RunUpgrade(cat.View(), ctl, 0, rows)
    {
      var rowLog, rowCalls := UpgradeOne(cat, rows[i], i, ctl);
      assert rows[i..][0] == rows[i] && rows[i..][1..] == rows[i + 1..];
      ThenAssoc(Outcome(log, calls), Outcome(rowLog, rowCalls), RunUpgrade(cat.View(), ctl, i + 1, rows[i + 1..]));
      log, calls := log + rowLog, calls + rowCalls;
      i := i + 1;
    }
    assert Outcome(log, calls).Then(Outcome([], [])) == Outcome(log, calls);
  }

  /** The body of the row loop for row `i`. */
  method UpgradeOne(cat: Catalog, row: UpgradeRow, i: nat, ctl: Controller) returns (log: seq<Msg>, calls: seq<Call>)
    requires WellFormed(cat.View())
    ensures Outcome(log, calls) == PlanRow(cat.View(), ctl, i, row)
  {
    var hwid := row.serial;
    if hwid.Some? && hwid.value in cat.elemHwidId {
      var elemid := cat.elemHwidId[hwid.value];
      var sid := cat.elemidSid[elemid];
      var swversion := row.version;
      if swversion.Some? && swversion.value in cat.imageNameId {
        var imageid := cat.imageNameId[swversion.value];
        var intfList;
        intfList, log := InterfaceList(cat, sid, elemid, hwid.value, row.interfaces);
        var resp := ctl.softwareState(i, elemid);
        calls := [GetSoftwareState(elemid)];
        if resp.Some? {
          var status: JsonObject := resp.value;
          var currentImageId := status["image_id"];
          if currentImageId == Str(imageid) {
            log := log + [AlreadyAtVersion(hwid.value, swversion.value)];
          } else {
            status := status["image_id" := Str(imageid)];
            status := status["scheduled_download" := row.downloadTime];
            status := status["scheduled_upgrade" := row.upgradeTime];
            status := status["interface_ids" := IdsJson(intfList)];
            status := status["download_interval" := row.downloadInterval];
            status := status["upgrade_interval" := row.upgradeInterval];
            calls := calls + [PutSoftwareState(elemid, status)];
            if ctl.putAccepted(i, elemid, status) {
              log := log + [UpgradeScheduled(hwid.value, swversion.value)];
            } else {
              log := log + [UpgradeNotScheduled(hwid.value, swversion.value)];
            }
          }
        } else {
          log := log + [StatusNotRetrieved];
        }
      } else if swversion.Some? && swversion.value in cat.unsupportedNameId {
        log, calls := [ImageNotSupported(i + 1, swversion)], [];
      } else {
        log, calls := [InvalidImage(i + 1, swversion)], [];
      }
    } else {
      log, calls := [DeviceNotFound(i + 1, hwid)], [];
    }
  }

  /** The interface list of one row, built by the interface loop. */
  method InterfaceList(cat: Catalog, sid: Json, elemid: string, hwid: string, cell: Option<string>)
    returns (intfList: Option<seq<string>>, log: seq<Msg>)
    ensures IntfChoice(intfList, log) == InterfaceIds(cat.View().intfNameId, sid, elemid, hwid, cell)
  {
    intfList := Some([]);
    log := [];
    if cell.Some? {
      log := [InterfacesGiven(cell.value)];
      var interfaces := Split(cell.value, ',');
      if Unassigned(sid) {
        log := log + [UnassignedSiteIgnored];
        intfList := None;
      } else {
        var j := 0;
        while j < |interfaces|
          invariant 0 <= j <= |interfaces|
          invariant var r := ResolveNames(cat.intfNameId, sid, elemid, hwid, interfaces[..j]);
            intfList == Some(r.ids) && log == [InterfacesGiven(cell.value)] + r.errors
        {
          var intf := interfaces[j];
          assert interfaces[..j + 1][..j] == interfaces[..j];
          if IntfKey(sid, elemid, intf) in cat.intfNameId {
            var iid := cat.intfNameId[IntfKey(sid, elemid, intf)];
            intfList := Some(intfList.value + [iid]);
          } else {
            log := log + [InterfaceNotFound(intf, hwid)];
          }
          j := j + 1;
        }
        assert interfaces[..|interfaces|] == interfaces;
      }
    }
    if intfList.Some? && |intfList.value| == 0 {
      intfList := None;
    }
  }
}
