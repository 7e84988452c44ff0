/** Abort mode: for every manifest row whose serial number the catalog knows,
    post the abort-upgrade operation to its element and report the answer.
    Rows with an unknown serial number are passed over without a line. */
module Abort {
  import opened Api
  import opened Catalog

  /** The operation posted to each element: abort the upgrade, no parameters. */
  const AbortAction: JsonObject := map["action" := Str("abort_upgrade"), "parameters" := Null]

  /** The lines abort mode prints. */
  datatype AbortMsg = UpgradeAborted(serial: string) | AbortNotDone(serial: string)

  function SeverityOf(m: AbortMsg): Severity
  {
    if m.UpgradeAborted? then Untagged else Err
  }

  /** Row `i`, whose serial-number cell is `serial`. */
  function AbortRow(t: Tables, ctl: Controller, i: nat, serial: Option<string>): Outcome<AbortMsg>
  {
    if serial.Some? && serial.value in t.elemHwidId then
      var elemid := t.elemHwidId[serial.value];
      var line := if ctl.postAccepted(i, elemid, AbortAction) then UpgradeAborted(serial.value) else AbortNotDone(serial.value);
      Outcome([line], [PostOperation(elemid, AbortAction)])
    else Outcome([], [])
  }

  /** Rows `start`, `start + 1`, ... of the manifest. */
  function RunAbort(t: Tables, ctl: Controller, start: nat, serials: seq<Option<string>>): Outcome<AbortMsg>
    decreases |serials|
  {
    if serials == [] then Outcome([], [])
    else AbortRow(t, ctl, start, serials[0]).Then(RunAbort(t, ctl, start + 1, serials[1..]))
  }

  /** The serial numbers of the manifest that the catalog knows, in order. */
  function KnownSerials(t: Tables, serials: seq<Option<string>>): (r: seq<string>)
    ensures forall k :: 0 <= k < |r| ==> r[k] in t.elemHwidId && Some(r[k]) in serials
    decreases |serials|
  {
    if serials == [] then []
    else
      assert forall x :: x in serials[1..] ==> x in serials;
      (if serials[0].Some? && serials[0].value in t.elemHwidId then [serials[0].value] else [])
        + KnownSerials(t, serials[1..])
  }

  /** Every serial number of the manifest that the catalog knows is among
      the known serials. */
  lemma {:induction false} KnownSerialsComplete(t: Tables, serials: seq<Option<string>>)
    ensures forall k :: 0 <= k < |serials| && serials[k].Some? && serials[k].value in t.elemHwidId ==>
      serials[k].value in KnownSerials(t, serials)
    decreases |serials|
  {
    if serials != [] {
      KnownSerialsComplete(t, serials[1..]);
      assert forall k :: 0 < k < |serials| ==> serials[k] == serials[1..][k - 1];
    }
  }

  /** Abort mode posts the abort operation once to the element of each known
      serial number, in manifest order, and prints one line per post naming
      that serial number. */
  lemma {:induction false} RunAbortPosts(t: Tables, ctl: Controller, start: nat, serials: seq<Option<string>>)
    ensures var o, known := RunAbort(t, ctl, start, serials), KnownSerials(t, serials);
      |o.calls| == |known| && |o.log| == |known| &&
      (forall k :: 0 <= k < |known| ==> o.calls[k] == PostOperation(t.elemHwidId[known[k]], AbortAction)) &&
      (forall k :: 0 <= k < |known| ==> o.log[k].serial == known[k])
    decreases |serials|
  {
    if serials != [] {
      RunAbortPosts(t, ctl, start + 1, serials[1..]);
    }
  }

  /** A manifest of unknown serial numbers sends nothing and prints nothing. */
  lemma {:induction false} RunAbortUnknown(t: Tables, ctl: Controller, start: nat, serials: seq<Option<string>>)
    requires forall k :: 0 <= k < |serials| ==> serials[k].None? || serials[k].value !in t.elemHwidId
    ensures RunAbort(t, ctl, start, serials) == Outcome([], [])
    decreases |serials|
  {
    if serials != [] {
      assert forall k :: 0 <= k < |serials[1..]| ==> serials[1..][k] == serials[k + 1];
      RunAbortUnknown(t, ctl, start + 1, serials[1..]);
    }
  }

  /** A row's line is untagged exactly when the controller accepted its post. */
  lemma AbortRowReport(t: Tables, ctl: Controller, i: nat, serial: Option<string>)
    requires serial.Some? && serial.value in t.elemHwidId
    ensures var o := AbortRow(t, ctl, i, serial);
      |o.log| == 1 &&
      (SeverityOf(o.log[0]) == Untagged <==> ctl.postAccepted(i, t.elemHwidId[serial.value], AbortAction))
  {
  }

  /** Abort mode never changes a device's software state. */
  lemma {:induction false} RunAbortNoPut(t: Tables, ctl: Controller, start: nat, serials: seq<Option<string>>)
    ensures forall c :: c in RunAbort(t, ctl, start, serials).calls ==> c.PostOperation? && c.data == AbortAction
    decreases |serials|
  {
    if serials != [] {
      RunAbortNoPut(t, ctl, start + 1, serials[1..]);
    }
  }

  /** Abort every known device of the manifest in order. The catalog is only
      read. */
  method AbortUpgrades(cat: Catalog, serials: seq<Option<string>>, ctl: Controller) returns (log: seq<AbortMsg>, calls: seq<Call>)
    ensures Outcome(log, calls) == RunAbort(cat.View(), ctl, 0, serials)
  {
    log, calls := [], [];
    var i := 0;
    while i < |serials|
      invariant 0 <= i <= |serials|
      invariant Outcome(log, calls).Then(RunAbort(cat.View(), ctl, i, serials[i..])) == RunAbort(cat.View(), ctl, 0, serials)
    {
      var rowLog, rowCalls := AbortOne(cat, serials[i], i, ctl);
      assert serials[i..][0] == serials[i] && serials[i..][1..] == serials[i + 1..];
      ThenAssoc(Outcome(log, calls), Outcome(rowLog, rowCalls), RunAbort(cat.View(), ctl, i + 1, serials[i + 1..]));
      log, calls := log + rowLog, calls + rowCalls;
      i := i + 1;
    }
    assert Outcome(log, calls).Then(Outcome([], [])) == Outcome(log, calls);
  }

  /** The body of the row loop for row `i`. */
  method AbortOne(cat: Catalog, hwid: Option<string>, i: nat, ctl: Controller) returns (log: seq<AbortMsg>, calls: seq<Call>)
    ensures Outcome(log, calls) == AbortRow(cat.View(), ctl, i, hwid)
  {
    log, calls := [], [];
    if hwid.Some? && hwid.value in cat.elemHwidId {
      var elemid := cat.elemHwidId[hwid.value];
      var data := AbortAction;
      calls := [PostOperation(elemid, data)];
      if ctl.postAccepted(i, elemid, data) {
        log := [UpgradeAborted(hwid.value)];
      } else {
        log := [AbortNotDone(hwid.value)];
      }
    }
  }
}
