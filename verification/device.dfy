/** The device registry routes (`routes/device.js`): `/set`, `/add` and
    `/remove`, each a read-validate-modify-write edit of the device list.
    The read outcome (the parsed list, or None when reading or parsing
    fails), the write outcome and the random nibbles of the new identifier
    are parameters. */
module DeviceRoutes {
  import opened Wrappers
  import opened Envelope
  import Uuid

  /** `using` is stored as a boolean by `/add` but as the query string
      "true"/"false" by `/set`, so the list can hold either. */
  datatype Using = Bool(b: bool) | Str(s: string)

  /** A stored device: the four fields the routes name, and every other
      field of the stored object, which `/set` carries through its spread
      copy. */
  datatype Device = Device(id: string, showName: string, using: Using, appName: string, others: map<string, string>)

  /** The query parameters the three routes read; None is an absent one. */
  datatype Query = Query(id: Option<string>, showName: Option<string>, using: Option<string>, appName: Option<string>)

  /** An error envelope, or `{success: true, message, device}` with
      `device_id` added by `/add`. */
  datatype Response =
    | Failed(envelope: Envelope)
    | Done(message: string, device: Device, deviceId: Option<string>)

  /** The list a call wrote, if it wrote one, and its response. */
  datatype Outcome = Outcome(written: Option<seq<Device>>, response: Response)

  function HttpStatus(r: Response): int {
    match r
    case Failed(e) => e.code
    case Done(_, _, _) => 200
  }

  function Fail(code: int, message: string): (o: Outcome)
    ensures o.written.None? && o.response.Failed?
    ensures HttpStatus(o.response) == code && o.response.envelope.message == message
  {
    Outcome(None, Failed(APIUnsuccessful(code, message)))
  }

  const ReadFailed: string := "Failed to read devices data"
  const WriteFailed: string := "Failed to save device data"

  function NotFound(id: string): string {
    "Device with ID " + id + " not found"
  }

  /** The ids of a list, in order. */
  function Ids(devices: seq<Device>): (ids: seq<string>)
    ensures |ids| == |devices|
    ensures forall j :: 0 <= j < |devices| ==> ids[j] == devices[j].id
  {
    if devices == [] then [] else [devices[0].id] + Ids(devices[1..])
  }

  predicate HasId(devices: seq<Device>, id: string) {
    exists j :: 0 <= j < |devices| && devices[j].id == id
  }

  /** No two devices share an id. */
  predicate UniqueIds(devices: seq<Device>) {
    forall j, k :: 0 <= j < k < |devices| ==> devices[j].id != devices[k].id
  }

  /** `findIndex(device => device.id === id)`: the first match, or -1. */
  function FindIndex(devices: seq<Device>, id: string): (i: int)
    ensures -1 <= i < |devices|
    ensures i == -1 <==> !HasId(devices, id)
    ensures i >= 0 ==> devices[i].id == id
    ensures forall j :: 0 <= j < i ==> devices[j].id != id
  {
    if devices == [] then -1
    else if devices[0].id == id then 0
    else
      var k := FindIndex(devices[1..], id);
      if k == -1 then
        assert forall j :: 1 <= j < |devices| ==> devices[j] == devices[1..][j - 1];
        -1
      else k + 1
  }

  // ---------------------------------------------------------------------------
  // /set
  // ---------------------------------------------------------------------------

  const SetMissingId: string := "Missing required parameter 'id'"
  const SetUsingNotBoolean: string := "Argument 'using' must be boolean"
  const SetDone: string := "Device status updated successfully"

  predicate IsBooleanText(s: string) {
    s == "true" || s == "false"
  }

  /** The copy `/set` builds: every parameter that is present, even as the
      empty string, overwrites its field; `using` is kept as text. */
  function Patched(d: Device, q: Query): Device {
    Device(
      d.id,
      q.showName.GetOr(d.showName),
      if q.using.Some? then Str(q.using.value) else d.using,
      q.appName.GetOr(d.appName),
      d.others)
  }

  /** `/api/device/set?id=..&show_name=..&using=..&app_name=..`. */
  function HandleSet(q: Query, stored: Option<seq<Device>>, writeOk: bool): (o: Outcome)
    ensures !Truthy(q.id) ==> o == Fail(400, SetMissingId)
    ensures Truthy(q.id) && stored.None? ==> o == Fail(500, ReadFailed)
    ensures Truthy(q.id) && stored.Some? && !HasId(stored.value, q.id.value) ==> o == Fail(404, NotFound(q.id.value))
    ensures Truthy(q.id) && stored.Some? && HasId(stored.value, q.id.value) && q.using.Some? && !IsBooleanText(q.using.value)
            ==> o == Fail(400, SetUsingNotBoolean)
    ensures Truthy(q.id) && stored.Some? && HasId(stored.value, q.id.value)
            && (q.using.None? || IsBooleanText(q.using.value)) && !writeOk
            ==> o == Fail(500, WriteFailed)
    ensures o.written.Some? <==>
            Truthy(q.id) && stored.Some? && HasId(stored.value, q.id.value)
            && (q.using.None? || IsBooleanText(q.using.value)) && writeOk
    ensures o.response.Done? <==> o.written.Some?
    ensures o.written.Some? ==>
      var before := stored.value;
      var after := o.written.value;
      var i := FindIndex(before, q.id.value);
      && |after| == |before|
      && (forall j :: 0 <= j < |before| && j != i ==> after[j] == before[j])
      && after[i].id == before[i].id
      && after[i].showName == (if q.showName.Some? then q.showName.value else before[i].showName)
      && after[i].using == (if q.using.Some? then Str(q.using.value) else before[i].using)
      && after[i].appName == (if q.appName.Some? then q.appName.value else before[i].appName)
      && after[i].others == before[i].others
      && o.response == Done(SetDone, after[i], None)
  {
    if !Truthy(q.id) then Fail(400, SetMissingId)
    else if stored.None? then Fail(500, ReadFailed)
    else
      var devices := stored.value;
      var i := FindIndex(devices, q.id.value);
      if i == -1 then Fail(404, NotFound(q.id.value))
      else if q.using.Some? && !IsBooleanText(q.using.value) then Fail(400, SetUsingNotBoolean)
      else
        var updated := Patched(devices[i], q);
        if !writeOk then Fail(500, WriteFailed)
        else Outcome(Some(devices[i := updated]), Done(SetDone, updated, None))
  }

  // ---------------------------------------------------------------------------
  // /add
  // ---------------------------------------------------------------------------

  const AddMissingShowName: string := "Missing required parameter \"show_name\""
  const AddUsingNotBoolean: string := "Argument \"using\" must be boolean (\"true\" or \"false\")"
  const AddMissingAppName: string := "Missing required parameter \"app_name\""
  const AddDone: string := "Device added successfully"

  /** `/api/device/add?show_name=..&using=..&app_name=..`; `nibbles` are the
      random draws of generateUUID for the new id. */
  function HandleAdd(q: Query, stored: Option<seq<Device>>, nibbles: seq<Uuid.Nibble>, writeOk: bool): (o: Outcome)
    requires |nibbles| == 31
    ensures !Truthy(q.showName) ==> o == Fail(400, AddMissingShowName)
    ensures Truthy(q.showName) && !(q.using.Some? && IsBooleanText(q.using.value)) ==> o == Fail(400, AddUsingNotBoolean)
    ensures Truthy(q.showName) && q.using.Some? && IsBooleanText(q.using.value) && !Truthy(q.appName)
            ==> o == Fail(400, AddMissingAppName)
    ensures Truthy(q.showName) && q.using.Some? && IsBooleanText(q.using.value) && Truthy(q.appName)
            && stored.None?
            ==> o == Fail(500, ReadFailed)
    ensures Truthy(q.showName) && q.using.Some? && IsBooleanText(q.using.value) && Truthy(q.appName)
            && stored.Some? && !writeOk
            ==> o == Fail(500, WriteFailed)
    ensures o.written.Some? <==>
            Truthy(q.showName) && q.using.Some? && IsBooleanText(q.using.value) && Truthy(q.appName)
            && stored.Some? && writeOk
    ensures o.response.Done? <==> o.written.Some?
    ensures o.written.Some? ==>
      var d := Device(Uuid.GenerateUUID(nibbles), q.showName.value, Bool(q.using.value == "true"), q.appName.value, map[]);
      && o.written.value == stored.value + [d]
      && o.response == Done(AddDone, d, Some(d.id))
      && Uuid.IsValidUUID(Some(d.id))
  {
    if !Truthy(q.showName) then Fail(400, AddMissingShowName)
    else if !(q.using.Some? && IsBooleanText(q.using.value)) then Fail(400, AddUsingNotBoolean)
    else if !Truthy(q.appName) then Fail(400, AddMissingAppName)
    else if stored.None? then Fail(500, ReadFailed)
    else
      var newId := Uuid.GenerateUUID(nibbles);
      Uuid.GeneratedUUIDIsValid(nibbles);
      var d := Device(newId, q.showName.value, Bool(q.using.value == "true"), q.appName.value, map[]);
      if !writeOk then Fail(500, WriteFailed)
      else Outcome(Some(stored.value + [d]), Done(AddDone, d, Some(newId)))
  }

  // ---------------------------------------------------------------------------
  // /remove
  // ---------------------------------------------------------------------------

  const RemoveMissingId: string := "Missing required parameter \"id\""
  const RemoveDone: string := "Device removed successfully"

  /** `/api/device/remove?id=..`. */
  function HandleRemove(q: Query, stored: Option<seq<Device>>, writeOk: bool): (o: Outcome)
    ensures !Truthy(q.id) ==> o == Fail(400, RemoveMissingId)
    ensures Truthy(q.id) && stored.None? ==> o == Fail(500, ReadFailed)
    ensures Truthy(q.id) && stored.Some? && !HasId(stored.value, q.id.value) ==> o == Fail(404, NotFound(q.id.value))
    ensures Truthy(q.id) && stored.Some? && HasId(stored.value, q.id.value) && !writeOk ==> o == Fail(500, WriteFailed)
    ensures o.written.Some? <==> Truthy(q.id) && stored.Some? && HasId(stored.value, q.id.value) && writeOk
    ensures o.response.Done? <==> o.written.Some?
    ensures o.written.Some? ==>
      var before := stored.value;
      var after := o.written.value;
      var i := FindIndex(before, q.id.value);
      && after == before[..i] + before[i + 1..]
      && |after| == |before| - 1
      && multiset(after) + multiset{before[i]} == multiset(before)
      && o.response == Done(RemoveDone, before[i], None)
  {
    if !Truthy(q.id) then Fail(400, RemoveMissingId)
    else if stored.None? then Fail(500, ReadFailed)
    else
      var devices := stored.value;
      var i := FindIndex(devices, q.id.value);
      if i == -1 then Fail(404, NotFound(q.id.value))
      else
        var deleted := devices[i];
        var rest := devices[..i] + devices[i + 1..];
        SpliceMultiset(devices, i);
        if !writeOk then Fail(500, WriteFailed)
        else Outcome(Some(rest), Done(RemoveDone, deleted, None))
  }

  // ---------------------------------------------------------------------------
  // Properties across calls
  // ---------------------------------------------------------------------------

  /** `/set` never changes an id, so the id column, and with it uniqueness,
      is preserved. */
  lemma SetKeepsIds(q: Query, stored: Option<seq<Device>>, writeOk: bool)
    ensures var o := HandleSet(q, stored, writeOk);
      o.written.Some? ==> Ids(o.written.value) == Ids(stored.value)
                          && (UniqueIds(stored.value) ==> UniqueIds(o.written.value))
  {
    var o := HandleSet(q, stored, writeOk);
    if o.written.Some? {
      var before := stored.value;
      var after := o.written.value;
      assert |after| == |before| && forall j :: 0 <= j < |after| ==> after[j].id == before[j].id;
      SameIdColumn(after, before);
    }
  }

  /** Lists that agree position by position on the ids have the same id
      column, and one is free of duplicates when the other is. */
  lemma SameIdColumn(a: seq<Device>, b: seq<Device>)
    requires |a| == |b| && forall j :: 0 <= j < |a| ==> a[j].id == b[j].id
    ensures Ids(a) == Ids(b)
    ensures UniqueIds(b) ==> UniqueIds(a)
  {
  }

  /** Patching is idempotent. */
  lemma PatchedTwice(d: Device, q: Query)
    ensures Patched(Patched(d, q), q) == Patched(d, q)
  {
  }

  /** A list that differs from another only in non-id fields has the same
      first match. */
  lemma FindIndexSameIds(a: seq<Device>, b: seq<Device>, id: string)
    requires |a| == |b| && forall j :: 0 <= j < |a| ==> a[j].id == b[j].id
    ensures FindIndex(a, id) == FindIndex(b, id)
  {
    var i := FindIndex(a, id);
    if i == -1 {
      assert !HasId(b, id);
    } else {
      assert b[i].id == id;
      assert forall j :: 0 <= j < i ==> b[j].id != id;
      var k := FindIndex(b, id);
      assert k != -1;
      assert !(k < i) && !(i < k);
    }
  }

  /** Repeating a successful `/set` writes the same list again. */
  lemma SetIdempotent(q: Query, devices: seq<Device>)
    requires HandleSet(q, Some(devices), true).written.Some?
    ensures var once := HandleSet(q, Some(devices), true).written.value;
      HandleSet(q, Some(once), true).written == Some(once)
  {
    var i := FindIndex(devices, q.id.value);
    var updated := Patched(devices[i], q);
    var once := devices[i := updated];
    assert HandleSet(q, Some(devices), true).written == Some(once);
    FindIndexSameIds(once, devices, q.id.value);
    PatchedTwice(devices[i], q);
    assert once[i := Patched(once[i], q)] == once;
  }

  /** `/add` keeps ids unique when the generated id is new to the list. */
  lemma AddKeepsUniqueIds(q: Query, devices: seq<Device>, nibbles: seq<Uuid.Nibble>)
    requires |nibbles| == 31
    requires UniqueIds(devices) && !HasId(devices, Uuid.GenerateUUID(nibbles))
    ensures var o := HandleAdd(q, Some(devices), nibbles, true);
      o.written.Some? ==> UniqueIds(o.written.value) && |o.written.value| == |devices| + 1
  {
  }

  /** With unique ids, `/remove` leaves no device with the removed id. */
  lemma RemoveDeletesTheId(q: Query, devices: seq<Device>)
    requires UniqueIds(devices)
    ensures var o := HandleRemove(q, Some(devices), true);
      o.written.Some? ==> !HasId(o.written.value, q.id.value) && UniqueIds(o.written.value)
  {
    if Truthy(q.id) && HasId(devices, q.id.value) {
      var i := FindIndex(devices, q.id.value);
      RemoveWritesSplice(q, devices);
      SpliceUnique(devices, i, q.id.value);
    }
  }

  /** Splicing one device out of a list keeps the rest in order and leaves
      the multiset of devices short by exactly that one. */
  lemma SpliceMultiset(devices: seq<Device>, i: nat)
    requires i < |devices|
    ensures multiset(devices[..i] + devices[i + 1..]) + multiset{devices[i]} == multiset(devices)
  {
    assert devices == devices[..i] + [devices[i]] + devices[i + 1..];
  }

  /** With unique ids, splicing out the device with id `id` removes `id`
      and keeps the others unique. */
  lemma SpliceUnique(devices: seq<Device>, i: nat, id: string)
    requires UniqueIds(devices) && i < |devices| && devices[i].id == id
    ensures !HasId(devices[..i] + devices[i + 1..], id)
    ensures UniqueIds(devices[..i] + devices[i + 1..])
  {
    var after := devices[..i] + devices[i + 1..];
    assert forall j :: 0 <= j < |after| ==> after[j] == (if j < i then devices[j] else devices[j + 1]);
  }

  /** A device after the spliced-out position is still in the list. */
  lemma SpliceKeepsLater(devices: seq<Device>, i: nat, k: nat, id: string)
    requires i < k < |devices| && devices[k].id == id
    ensures HasId(devices[..i] + devices[i + 1..], id)
  {
    assert (devices[..i] + devices[i + 1..])[k - 1] == devices[k];
  }

  /** A successful `/remove` writes the list with the first match spliced out. */
  lemma RemoveWritesSplice(q: Query, devices: seq<Device>)
    requires Truthy(q.id) && HasId(devices, q.id.value)
    ensures var i := FindIndex(devices, q.id.value);
      HandleRemove(q, Some(devices), true).written == Some(devices[..i] + devices[i + 1..])
  {
  }

  /** Only the first match goes: a later device with the same id stays. */
  lemma RemoveKeepsLaterDuplicate(q: Query, devices: seq<Device>, k: nat)
    requires Truthy(q.id) && k < |devices| && devices[k].id == q.id.value
    requires FindIndex(devices, q.id.value) < k
    ensures var o := HandleRemove(q, Some(devices), true);
      o.written.Some? && HasId(o.written.value, q.id.value)
  {
    var id := q.id.value;
    var i := FindIndex(devices, id);
    var spliced := devices[..i] + devices[i + 1..];
    assert HandleRemove(q, Some(devices), true).written == Some(spliced) by {
      assert HasId(devices, id);
      RemoveWritesSplice(q, devices);
    }
    assert HasId(spliced, id) by {
      SpliceKeepsLater(devices, i, k, id);
    }
  }

  /** Adding a device and then removing it by the id `/add` returned gives
      back the list as it was, when the new id was not already in it. */
  lemma AddThenRemove(q: Query, devices: seq<Device>, nibbles: seq<Uuid.Nibble>)
    requires |nibbles| == 31
    requires !HasId(devices, Uuid.GenerateUUID(nibbles))
    requires HandleAdd(q, Some(devices), nibbles, true).written.Some?
    ensures var added := HandleAdd(q, Some(devices), nibbles, true);
      var removal := Query(added.response.deviceId, None, None, None);
      HandleRemove(removal, added.written, true).written == Some(devices)
  {
    var added := HandleAdd(q, Some(devices), nibbles, true);
    var id := Uuid.GenerateUUID(nibbles);
    var after := added.written.value;
    assert after == devices + [after[|devices|]];
    assert after[|devices|].id == id;
    assert FindIndex(after, id) == |devices| by {
      assert forall j :: 0 <= j < |devices| ==> after[j] == devices[j];
    }
    assert after[..|devices|] == devices;
    assert after[|devices| + 1..] == [];
    assert Truthy(Some(id));
    assert after[..|devices|] + after[|devices| + 1..] == devices;
  }
}
