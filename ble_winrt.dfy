/**
  The native bridge of ble-winrt.cpp: the global scan state (quit flag,
  device watcher, host callbacks), the subscription list, and the
  coroutines that enumerate services and characteristics into the arrays
  handed to the host. Each coroutine is one sequential step; a `Quit`
  running concurrently with an enumeration is the input `quitFrom`, the
  first iteration at which the enumeration sees the flag set.
*/
module Native {
  import opened Wrappers
  import opened Serialization
  import opened Platform
  import opened Cache

  /** The size of `BleData.buf`. */
  const BufferSize: nat := 512

  /** Text stored for a characteristic that has no User Description descriptor. */
  const NoDescription: string := "no description available"

  /**
    The 16-bit UUID 0x2901 (Characteristic User Description, Bluetooth Core
    Specification Vol 3 Part G, section 3.3.3.2) in the Bluetooth base UUID,
    as the bridge spells it.
  */
  const UserDescriptionText: string := "0000" + "2901" + "-" + "0000" + "-" + "1000" + "-" + "8000" + "-" + "0080" + "5F9B" + "34FB"

  const UserDescriptionUuid: Uuid := Guid(HexDigits(UserDescriptionText))

  // ------------------------------------------------------------ the 0x2901 GUID

  lemma Group4(a: char, b: char, c: char, d: char)
    requires HexValue(a).Some? && HexValue(b).Some? && HexValue(c).Some? && HexValue(d).Some?
    ensures HexDigits([a, b, c, d]) == [HexValue(a).value, HexValue(b).value, HexValue(c).value, HexValue(d).value]
  {
    assert [a, b, c, d][..3] == [a, b, c];
    assert [a, b, c][..2] == [a, b];
    assert [a, b][..1] == [a];
    assert [a][..0] == [];
    assert HexDigits([a]) == [HexValue(a).value];
    assert HexDigits([a, b]) == [HexValue(a).value, HexValue(b).value];
    assert HexDigits([a, b, c]) == [HexValue(a).value, HexValue(b).value, HexValue(c).value];
  }

  lemma Hyphen(s: string)
    ensures HexDigits(s + "-") == HexDigits(s)
  {
    HexDigitsConcat(s, "-");
    assert "-"[..0] == [];
  }

  lemma Group(s: string, a: char, b: char, c: char, d: char)
    requires HexValue(a).Some? && HexValue(b).Some? && HexValue(c).Some? && HexValue(d).Some?
    ensures HexDigits(s + [a, b, c, d]) == HexDigits(s) + [HexValue(a).value, HexValue(b).value, HexValue(c).value, HexValue(d).value]
  {
    HexDigitsConcat(s, [a, b, c, d]);
    Group4(a, b, c, d);
  }

  lemma UserDescriptionDigits()
    ensures HexDigits(UserDescriptionText) == [0,0,0,0, 2,9,0,1, 0,0,0,0, 1,0,0,0, 8,0,0,0, 0,0,8,0, 5,15,9,11, 3,4,15,11]
  {
    var s1: string := "0000"; Group4('0', '0', '0', '0');
    var s2 := s1 + "2901"; Group(s1, '2', '9', '0', '1');
    assert HexDigits(s2) == [0,0,0,0, 2,9,0,1];
    var s3 := s2 + "-"; Hyphen(s2);
    var s4 := s3 + "0000"; Group(s3, '0', '0', '0', '0');
    var s5 := s4 + "-"; Hyphen(s4);
    var s6 := s5 + "1000"; Group(s5, '1', '0', '0', '0');
    assert HexDigits(s6) == [0,0,0,0, 2,9,0,1, 0,0,0,0, 1,0,0,0];
    var s7 := s6 + "-"; Hyphen(s6);
    var s8 := s7 + "8000"; Group(s7, '8', '0', '0', '0');
    var s9 := s8 + "-"; Hyphen(s8);
    var s10 := s9 + "0080"; Group(s9, '0', '0', '8', '0');
    assert HexDigits(s10) == [0,0,0,0, 2,9,0,1, 0,0,0,0, 1,0,0,0, 8,0,0,0, 0,0,8,0];
    var s11 := s10 + "5F9B"; Group(s10, '5', 'F', '9', 'B');
    var s12 := s11 + "34FB"; Group(s11, '3', '4', 'F', 'B');
    assert s12 == UserDescriptionText;
  }

  /** The first field (0x00002901) is stored little-endian, as are the next two; the last eight bytes keep their order. */
  lemma UserDescriptionLayout()
    ensures UserDescriptionUuid == [0x01, 0x29, 0x00, 0x00, 0x00, 0x00, 0x00, 0x10, 0x80, 0x00, 0x00, 0x80, 0x5F, 0x9B, 0x34, 0xFB]
  {
    UserDescriptionDigits();
  }

  // ------------------------------------------------------------ the quit flag

  /** Whether the enumeration sees the quit flag at iteration `j`. */
  predicate Observed(quitFlag: bool, quitFrom: Option<nat>, j: nat)
  {
    quitFlag || (quitFrom.Some? && quitFrom.value <= j)
  }

  /** The first of `n` iterations at which the flag is seen, or `n`. */
  function FirstObserved(quitFlag: bool, quitFrom: Option<nat>, n: nat): (k: nat)
    ensures k <= n
    ensures forall j: nat :: j < k ==> !Observed(quitFlag, quitFrom, j)
    ensures k < n ==> Observed(quitFlag, quitFrom, k)
  {
    if quitFlag then 0
    else if quitFrom.None? then n
    else if quitFrom.value < n then quitFrom.value
    else n
  }

  /** An array of `n` slots whose first `|written|` slots hold `written`, the rest never written. */
  function Slots<T>(written: seq<T>, n: nat): (slots: seq<Option<T>>)
    requires |written| <= n
    ensures |slots| == n
    ensures forall k :: 0 <= k < n ==> (slots[k].Some? <==> k < |written|)
  {
    seq(n, k requires 0 <= k < n => if k < |written| then Some(written[k]) else None)
  }

  lemma SlotsAppend<T>(written: seq<T>, x: T, n: nat)
    requires |written| < n
    ensures Slots(written + [x], n) == Slots(written, n)[|written| := Some(x)]
  {
  }

  /** Writes the next slot. */
  method Store<T>(slots: array<Option<T>>, i: nat, ghost written: seq<T>, x: T)
    requires i == |written| < slots.Length && slots[..] == Slots(written, slots.Length)
    modifies slots
    ensures slots[..] == Slots(written + [x], slots.Length)
  {
    SlotsAppend(written, x, slots.Length);
    slots[i] := Some(x);
  }

  // ------------------------------------------------------------ service enumeration

  function UuidsOf(os: Os, services: seq<Service>): (uuids: seq<Uuid>)
    ensures |uuids| == |services|
  {
    seq(|services|, k requires 0 <= k < |services| => os.serviceUuid(services[k]))
  }

  /**
    The loop of `ScanServicesAsync`: one slot per service; the flag is checked
    before each store, so the services before the first iteration that sees it
    are written and nothing after.
  */
  method FillServices(os: Os, services: seq<Service>, quitFlag: bool, quitFrom: Option<nat>)
    returns (slots: array<Option<Uuid>>)
    ensures slots.Length == |services|
    ensures slots[..] == Slots(UuidsOf(os, services)[..FirstObserved(quitFlag, quitFrom, |services|)], |services|)
  {
    ghost var uuids := UuidsOf(os, services);
    ghost var stop := FirstObserved(quitFlag, quitFrom, |services|);
    slots := new Option<Uuid>[|services|](_ => None);
    var i := 0;
    var j := 0;
    while j < |services|
      invariant i == j <= stop
      invariant slots.Length == |services|
      invariant slots[..] == Slots(uuids[..i], |services|)
    {
      var uuid := os.serviceUuid(services[j]);
      if Observed(quitFlag, quitFrom, j) {
        break;
      }
      assert uuids[..i + 1] == uuids[..i] + [uuid];
      SlotsAppend(uuids[..i], uuid, |services|);
      slots[i] := Some(uuid);
      i := i + 1;
      j := j + 1;
    }
    assert i == stop;
  }

  /** What `ScanServicesAsync` hands to its callback, once the device lookup gave `device`. */
  function ServicesReport(os: Os, device: Option<Device>, quitFlag: bool, quitFrom: Option<nat>): (arg: CallbackArg)
    ensures arg.ServiceArray? && |arg.services| == arg.count
    // the count is every service found, whether or not the loop stopped early
    ensures (device.Some? && os.gattServicesAsync(device.value).Returned? &&
             os.gattServicesAsync(device.value).value.status == Success) ==>
      arg.count == |os.gattServicesAsync(device.value).value.items|
    // no device, an exception or a failed query give an empty array
    ensures (device.None? || os.gattServicesAsync(device.value).Threw? ||
             os.gattServicesAsync(device.value).value.status != Success) ==> arg == ServiceArray(0, [])
  {
    if device.None? then ServiceArray(0, [])
    else match os.gattServicesAsync(device.value)
      case Threw => ServiceArray(0, [])
      case Returned(r) =>
        if r.status != Success then ServiceArray(0, [])
        else ServiceArray(|r.items|, Slots(UuidsOf(os, r.items)[..FirstObserved(quitFlag, quitFrom, |r.items|)], |r.items|))
  }

  /** Quit already set when the scan starts: no slot is written, but the count stays. */
  lemma ServicesAfterQuit(os: Os, device: Option<Device>, quitFrom: Option<nat>)
    ensures var arg := ServicesReport(os, device, true, quitFrom);
      forall k :: 0 <= k < |arg.services| ==> arg.services[k].None?
  {
  }

  /** Without quit, slot k holds the UUID of service k. */
  lemma ServicesWithoutQuit(os: Os, d: Device, k: nat)
    requires os.gattServicesAsync(d).Returned? && os.gattServicesAsync(d).value.status == Success
    requires k < |os.gattServicesAsync(d).value.items|
    ensures ServicesReport(os, Some(d), false, None).services[k] == Some(os.serviceUuid(os.gattServicesAsync(d).value.items[k]))
  {
  }

  // ------------------------------------------------------------ characteristic enumeration

  /** How the User Description of a characteristic comes out. */
  datatype Description = DescriptorThrew | ReadFailed | Text(text: string)

  function DescriptionOf(os: Os, c: Characteristic): (d: Description)
    ensures os.descriptorsForUuidAsync(c, UserDescriptionUuid) == Returned([]) ==> d == Text(NoDescription)
  {
    match os.descriptorsForUuidAsync(c, UserDescriptionUuid)
    case Threw => DescriptorThrew
    case Returned(descriptors) =>
      if |descriptors| == 0 then Text(NoDescription)
      else match os.readValueAsync(descriptors[0])
        case Threw => DescriptorThrew
        case Returned(r) => if r.status != Success then ReadFailed else Text(r.text)
  }

  /**
    The body of the loop of `ScanCharacteristicsAsync` up to the store: query
    the 0x2901 descriptors, default the text when there is none, else read the
    first one.
  */
  method ReadDescription(os: Os, c: Characteristic) returns (d: Description)
    ensures d == DescriptionOf(os, c)
  {
    var descriptorScan := os.descriptorsForUuidAsync(c, UserDescriptionUuid);
    if descriptorScan.Threw? {
      return DescriptorThrew;
    }
    if |descriptorScan.value| == 0 {
      return Text(NoDescription);
    }
    var nameResult := os.readValueAsync(descriptorScan.value[0]);
    if nameResult.Threw? {
      return DescriptorThrew;
    }
    if nameResult.value.status != Success {
      return ReadFailed;
    }
    return Text(nameResult.value.text);
  }

  /** The uuid of each characteristic, in enumeration order. */
  function CharacteristicUuids(os: Os, cs: seq<Characteristic>): (uuids: seq<Uuid>)
    ensures |uuids| == |cs|
  {
    seq(|cs|, k requires 0 <= k < |cs| => os.characteristicUuid(cs[k]))
  }

  /** How the description of each characteristic comes out, in enumeration order. */
  function Descriptions(os: Os, cs: seq<Characteristic>): (ds: seq<Description>)
    ensures |ds| == |cs|
  {
    seq(|cs|, k requires 0 <= k < |cs| => DescriptionOf(os, cs[k]))
  }

  /**
    The records the loop of `ScanCharacteristicsAsync` stores from iteration
    `j` on, given each characteristic's uuid and description: a failed read
    skips the characteristic and the quit check; an exception ends the loop;
    otherwise the record is stored and then the flag is checked.
  */
  function ScanRecords(uuids: seq<Uuid>, ds: seq<Description>, j: nat, quitFlag: bool, quitFrom: Option<nat>): (records: seq<CharacteristicRecord>)
    requires |uuids| == |ds| && j <= |ds|
    ensures |records| <= |ds| - j
    decreases |ds| - j
  {
    if j == |ds| then []
    else match ds[j]
      case DescriptorThrew => []
      case ReadFailed => ScanRecords(uuids, ds, j + 1, quitFlag, quitFrom)
      case Text(text) =>
        [CharacteristicRecord(uuids[j], text)] +
        (if Observed(quitFlag, quitFrom, j) then [] else ScanRecords(uuids, ds, j + 1, quitFlag, quitFrom))
  }

  /** One iteration of the loop, as `ScanRecords` describes it. */
  lemma ScanRecordsNext(uuids: seq<Uuid>, ds: seq<Description>, j: nat, quitFlag: bool, quitFrom: Option<nat>)
    requires |uuids| == |ds| && j < |ds|
    ensures var records := ScanRecords(uuids, ds, j, quitFlag, quitFrom);
      (ds[j].DescriptorThrew? ==> records == []) &&
      (ds[j].ReadFailed? ==> records == ScanRecords(uuids, ds, j + 1, quitFlag, quitFrom)) &&
      (ds[j].Text? && Observed(quitFlag, quitFrom, j) ==> records == [CharacteristicRecord(uuids[j], ds[j].text)]) &&
      (ds[j].Text? && !Observed(quitFlag, quitFrom, j) ==>
        records == [CharacteristicRecord(uuids[j], ds[j].text)] + ScanRecords(uuids, ds, j + 1, quitFlag, quitFrom))
  {
  }

  /**
    One iteration of the loop of `ScanCharacteristicsAsync` on characteristic
    `j`: read its description and store a record in slot `i` when there is
    one; `stop` says whether the loop ends here.
  */
  method ScanStep(os: Os, cs: seq<Characteristic>, j: nat, quitFlag: bool, quitFrom: Option<nat>,
                  slots: array<Option<CharacteristicRecord>>, i: nat, ghost written: seq<CharacteristicRecord>)
    returns (next: nat, stop: bool, ghost written': seq<CharacteristicRecord>)
    requires j < |cs| && i == |written| <= j && slots.Length == |cs| && slots[..] == Slots(written, |cs|)
    modifies slots
    ensures next == |written'| <= j + 1
    ensures slots[..] == Slots(written', |cs|)
    ensures var uuids, ds := CharacteristicUuids(os, cs), Descriptions(os, cs);
      written + ScanRecords(uuids, ds, j, quitFlag, quitFrom) ==
      written' + (if stop then [] else ScanRecords(uuids, ds, j + 1, quitFlag, quitFrom))
  {
    ghost var uuids, ds := CharacteristicUuids(os, cs), Descriptions(os, cs);
    var c := cs[j];
    var uuid := os.characteristicUuid(c);
    var description := ReadDescription(os, c);
    assert uuid == uuids[j] && description == ds[j];
    ScanRecordsNext(uuids, ds, j, quitFlag, quitFrom);
    if description.DescriptorThrew? {
      assert written + [] == written;
      return i, true, written;
    } else if description.ReadFailed? {
      return i, false, written;
    }
    var record := CharacteristicRecord(uuid, description.text);
    Store(slots, i, written, record);
    stop := Observed(quitFlag, quitFrom, j);
    ghost var rest := if stop then [] else ScanRecords(uuids, ds, j + 1, quitFlag, quitFrom);
    assert (written + [record]) + rest == written + ([record] + rest);
    return i + 1, stop, written + [record];
  }

  method FillCharacteristics(os: Os, cs: seq<Characteristic>, quitFlag: bool, quitFrom: Option<nat>)
    returns (slots: array<Option<CharacteristicRecord>>)
    ensures slots.Length == |cs|
    ensures slots[..] == Slots(ScanRecords(CharacteristicUuids(os, cs), Descriptions(os, cs), 0, quitFlag, quitFrom), |cs|)
  {
    ghost var uuids, ds := CharacteristicUuids(os, cs), Descriptions(os, cs);
    slots := new Option<CharacteristicRecord>[|cs|](_ => None);
    ghost var written: seq<CharacteristicRecord> := [];
    var i := 0;
    var j := 0;
    while j < |cs|
      invariant 0 <= i <= j <= |cs| && i == |written|
      invariant slots.Length == |cs|
      invariant ScanRecords(uuids, ds, 0, quitFlag, quitFrom) == written + ScanRecords(uuids, ds, j, quitFlag, quitFrom)
      invariant slots[..] == Slots(written, |cs|)
    {
      var stop;
      i, stop, written := ScanStep(os, cs, j, quitFlag, quitFrom, slots, i, written);
      if stop {
        break;
      }
      j := j + 1;
    }
  }

  /** What `ScanCharacteristicsAsync` hands to its callback, once the service lookup gave `service`. */
  function CharacteristicsReport(os: Os, service: Option<Service>, quitFlag: bool, quitFrom: Option<nat>): (arg: CallbackArg)
    ensures arg.CharacteristicArray? && |arg.characteristics| == arg.count
    ensures (service.Some? && os.characteristicsAsync(service.value).Returned? &&
             os.characteristicsAsync(service.value).value.status == Success) ==>
      arg.count == |os.characteristicsAsync(service.value).value.items|
    ensures (service.None? || os.characteristicsAsync(service.value).Threw? ||
             os.characteristicsAsync(service.value).value.status != Success) ==> arg == CharacteristicArray(0, [])
  {
    if service.None? then CharacteristicArray(0, [])
    else match os.characteristicsAsync(service.value)
      case Threw => CharacteristicArray(0, [])
      case Returned(r) =>
        if r.status != Success then CharacteristicArray(0, [])
        else
          var cs := r.items;
          CharacteristicArray(|cs|, Slots(ScanRecords(CharacteristicUuids(os, cs), Descriptions(os, cs), 0, quitFlag, quitFrom), |cs|))
  }

  /**
    With the flag already set, at most one record is stored: the check comes
    after the store, so the first readable characteristic is still written.
  */
  lemma {:induction false} ScanRecordsAfterQuit(uuids: seq<Uuid>, ds: seq<Description>, j: nat, quitFrom: Option<nat>)
    requires |uuids| == |ds| && j <= |ds|
    ensures |ScanRecords(uuids, ds, j, true, quitFrom)| <= 1
    decreases |ds| - j
  {
    if j < |ds| && ds[j].ReadFailed? {
      ScanRecordsAfterQuit(uuids, ds, j + 1, quitFrom);
    }
  }

  /** Whether one of iterations `j` to `q - 1` has its descriptor scan throw, which ends the loop. */
  predicate ThrowsBefore(ds: seq<Description>, j: nat, q: nat)
    requires q <= |ds|
  {
    exists k :: j <= k < q && ds[k].DescriptorThrew?
  }

  /** Once the quit point has passed, the loop behaves as if the flag were set. */
  lemma {:induction false} ScanRecordsPastQuit(uuids: seq<Uuid>, ds: seq<Description>, j: nat, q: nat)
    requires |uuids| == |ds| && q <= j <= |ds|
    ensures ScanRecords(uuids, ds, j, false, Some(q)) == ScanRecords(uuids, ds, j, true, None)
    decreases |ds| - j
  {
    if j < |ds| && ds[j].ReadFailed? {
      ScanRecordsPastQuit(uuids, ds, j + 1, q);
    }
  }

  /**
    Quit requested at iteration `q` while the loop runs: the records are those
    the loop stores, without quit, over the characteristics before `q`, then
    (unless a scan threw before `q`) at most one more, the first readable
    characteristic at or after `q`, since the check follows the store.
  */
  lemma {:induction false} ScanRecordsQuitFrom(uuids: seq<Uuid>, ds: seq<Description>, j: nat, q: nat)
    requires |uuids| == |ds| && j <= q && j <= |ds|
    ensures var p := if q < |ds| then q else |ds|;
      var tail := if ThrowsBefore(ds, j, p) then [] else ScanRecords(uuids, ds, p, true, None);
      ScanRecords(uuids, ds, j, false, Some(q)) == ScanRecords(uuids[..p], ds[..p], j, false, None) + tail &&
      |tail| <= 1
    decreases |ds| - j
  {
    var p := if q < |ds| then q else |ds|;
    ScanRecordsAfterQuit(uuids, ds, p, None);
    if j == p {
      assert !ThrowsBefore(ds, j, p);
      if j < |ds| {
        ScanRecordsPastQuit(uuids, ds, j, q);
      }
    } else {
      assert ds[..p][j] == ds[j] && uuids[..p][j] == uuids[j];
      ScanRecordsQuitFrom(uuids, ds, j + 1, q);
      match ds[j]
      case DescriptorThrew =>
        assert ThrowsBefore(ds, j, p);
      case ReadFailed =>
        assert ThrowsBefore(ds, j, p) <==> ThrowsBefore(ds, j + 1, p);
      case Text(_) =>
        assert ThrowsBefore(ds, j, p) <==> ThrowsBefore(ds, j + 1, p);
    }
  }

  /** Without quit and with every description readable, record k describes characteristic j + k. */
  lemma {:induction false} ScanRecordsComplete(uuids: seq<Uuid>, ds: seq<Description>, j: nat)
    requires |uuids| == |ds| && j <= |ds|
    requires forall k :: j <= k < |ds| ==> ds[k].Text?
    ensures var records := ScanRecords(uuids, ds, j, false, None);
      |records| == |ds| - j &&
      forall k :: 0 <= k < |records| ==> records[k] == CharacteristicRecord(uuids[j + k], ds[j + k].text)
    decreases |ds| - j
  {
    if j < |ds| {
      ScanRecordsComplete(uuids, ds, j + 1);
    }
  }

  // ------------------------------------------------------------ the bridge state

  /** The five host callbacks `StartDeviceScan` stores. */
  datatype ScanCallbacks = ScanCallbacks(
    added: Option<CallbackId>, updated: Option<CallbackId>, removed: Option<CallbackId>,
    completed: Option<CallbackId>, stopped: Option<CallbackId>)

  /** A subscription: the characteristic and whether its `ValueChanged` revoker is armed. */
  datatype Subscription = Subscription(characteristic: Characteristic, armed: bool)

  /** What `StartDeviceScan` asks of the OS: create watcher `w`, register its handlers (which revokes those of the previous watcher), start it. */
  function StartEffects(previous: Option<nat>, w: nat): (effects: seq<Effect>)
    ensures |effects| == if previous.Some? then 4 else 3
    ensures effects[0] == WatcherCreated(w) && effects[|effects| - 1] == WatcherStarted(w)
  {
    [WatcherCreated(w), HandlersRegistered(w)] +
    (if previous.Some? then [HandlersRevoked(previous.value)] else []) +
    [WatcherStarted(w)]
  }

  /** What `StopDeviceScan` asks of the OS: nothing without a watcher; else revoke, then stop. */
  function StopEffects(watcher: Option<nat>): (effects: seq<Effect>)
    ensures watcher.None? <==> effects == []
    ensures watcher.Some? ==> WatcherStopped(watcher.value) in effects && effects[|effects| - 1].WatcherStopped?
  {
    match watcher
    case None => []
    case Some(w) => [HandlersRevoked(w), WatcherStopped(w)]
  }

  /** The revocations `Quit` performs: one per armed subscription, in list order. */
  function RevokeEffects(subscriptions: seq<Subscription>): (effects: seq<Effect>)
    ensures |effects| <= |subscriptions|
  {
    if subscriptions == [] then []
    else
      var last := subscriptions[|subscriptions| - 1];
      RevokeEffects(subscriptions[..|subscriptions| - 1]) +
      (if last.armed then [SubscriptionRevoked(last.characteristic)] else [])
  }

  /** No revoker is ever armed, so `Quit` revokes nothing. */
  lemma {:induction false} NothingToRevoke(subscriptions: seq<Subscription>)
    requires forall s :: s in subscriptions ==> !s.armed
    ensures RevokeEffects(subscriptions) == []
    decreases |subscriptions|
  {
    if subscriptions != [] {
      assert subscriptions[|subscriptions| - 1] in subscriptions;
      NothingToRevoke(subscriptions[..|subscriptions| - 1]);
    }
  }

  /** The characteristic a subscription request adds: found, and the notify write succeeded. */
  function Subscribed(os: Os, found: Option<Characteristic>): (added: Option<Characteristic>)
    ensures added.Some? <==> found.Some? && os.writeNotifyAsync(found.value) == Success
    ensures added.Some? ==> added == found
  {
    if found.Some? && os.writeNotifyAsync(found.value) == Success then found else None
  }

  function SubscribeEffects(os: Os, found: Option<Characteristic>, callback: Option<CallbackId>): (effects: seq<Effect>)
    ensures found.None? ==> effects == []
    ensures Subscribed(os, found).None? ==> forall e :: e in effects ==> !e.Invoked?
  {
    if found.None? then []
    else [NotifyRequested(found.value)] + (if Subscribed(os, found).Some? then InvokeIf(callback, NoArgs) else [])
  }

  class Bridge {
    const platform: Platform
    const cache: ConnectionCache
    var quitFlag: bool
    var callbacks: ScanCallbacks
    /** The current `deviceWatcher`, by creation number; `None` is `nullptr`. */
    var watcher: Option<nat>
    var watchersCreated: nat
    var subscriptions: seq<Subscription>

    ghost predicate Valid()
      reads this, cache
    {
      cache.platform == platform && cache.Valid() &&
      (forall s :: s in subscriptions ==> !s.armed) &&
      (watcher.Some? ==> watcher.value < watchersCreated)
    }

    constructor (platform: Platform)
      ensures Valid()
      ensures this.platform == platform && cache.entries == map[]
      ensures !quitFlag && watcher.None? && watchersCreated == 0 && subscriptions == []
      ensures callbacks == ScanCallbacks(None, None, None, None, None)
    {
      this.platform := platform;
      cache := new ConnectionCache(platform);
      quitFlag := false;
      callbacks := ScanCallbacks(None, None, None, None, None);
      watcher := None;
      watchersCreated := 0;
      subscriptions := [];
    }

    method StartDeviceScan(addedCb: Option<CallbackId>, updatedCb: Option<CallbackId>, removedCb: Option<CallbackId>,
                           completedCb: Option<CallbackId>, stoppedCb: Option<CallbackId>)
      requires Valid()
      modifies this, platform`trace
      ensures Valid()
      ensures !quitFlag
      ensures callbacks == ScanCallbacks(addedCb, updatedCb, removedCb, completedCb, stoppedCb)
      ensures watcher == Some(old(watchersCreated)) && watchersCreated == old(watchersCreated) + 1
      ensures subscriptions == old(subscriptions)
      ensures platform.trace == old(platform.trace) + StartEffects(old(watcher), old(watchersCreated))
    {
      quitFlag := false;
      callbacks := ScanCallbacks(addedCb, updatedCb, removedCb, completedCb, stoppedCb);
      var w := watchersCreated;
      watchersCreated := w + 1;
      platform.Emit(WatcherCreated(w));
      platform.Emit(HandlersRegistered(w));
      if watcher.Some? {
        platform.Emit(HandlersRevoked(watcher.value));
      }
      watcher := Some(w);
      platform.Emit(WatcherStarted(w));
    }

    method StopDeviceScan()
      requires Valid()
      modifies this, platform`trace
      ensures Valid()
      ensures watcher.None?
      ensures quitFlag == old(quitFlag) && callbacks == old(callbacks) && subscriptions == old(subscriptions)
      ensures watchersCreated == old(watchersCreated)
      ensures platform.trace == old(platform.trace) + StopEffects(old(watcher))
    {
      if watcher.None? {
        return;
      }
      platform.Emit(HandlersRevoked(watcher.value));
      platform.Emit(WatcherStopped(watcher.value));
      watcher := None;
    }

    /** `DeviceWatcher_EnumerationCompleted`, delivered only while watcher `w`'s handlers are registered. */
    method OnEnumerationCompleted(w: nat)
      requires Valid()
      modifies this, platform`trace
      ensures Valid()
      ensures old(watcher) != Some(w) ==> watcher == old(watcher) && platform.trace == old(platform.trace)
      ensures old(watcher) == Some(w) ==>
        watcher.None? &&
        platform.trace == old(platform.trace) + StopEffects(old(watcher)) + InvokeIf(callbacks.completed, NoArgs)
      ensures quitFlag == old(quitFlag) && callbacks == old(callbacks) && subscriptions == old(subscriptions)
      ensures watchersCreated == old(watchersCreated)
    {
      if watcher != Some(w) {
        return;
      }
      StopDeviceScan();
      platform.Invoke(callbacks.completed, NoArgs);
    }

    /**
      `DeviceWatcher_Stopped`, delivered only while watcher `w`'s handlers are
      registered. `StopDeviceScan` revokes them before it stops the watcher,
      so the stop it causes is never relayed.
    */
    method OnWatcherStopped(w: nat)
      requires Valid()
      modifies platform`trace
      ensures platform.trace == old(platform.trace) + (if watcher == Some(w) then InvokeIf(callbacks.stopped, NoArgs) else [])
    {
      if watcher == Some(w) {
        platform.Invoke(callbacks.stopped, NoArgs);
      }
    }

    /** `revoker.revoke()`: only an armed revoker has anything to undo. */
    method Revoke(s: Subscription)
      modifies platform`trace
      ensures platform.trace == old(platform.trace) + RevokeEffects([s])
    {
      assert [s][..0] == [];
      if s.armed {
        platform.Emit(SubscriptionRevoked(s.characteristic));
      }
    }

    method Quit()
      requires Valid()
      modifies this, cache, platform`trace
      ensures Valid()
      ensures quitFlag && watcher.None? && subscriptions == [] && cache.entries == map[]
      ensures callbacks == old(callbacks) && watchersCreated == old(watchersCreated)
      ensures ClosesExactly(old(platform.trace) + StopEffects(old(watcher)) + RevokeEffects(old(subscriptions)),
        platform.trace, AllHandles(old(cache.entries)))
    {
      quitFlag := true;
      StopDeviceScan();
      var k := 0;
      while k < |subscriptions|
        invariant 0 <= k <= |subscriptions| && subscriptions == old(subscriptions)
        invariant Valid() && cache.entries == old(cache.entries)
        invariant quitFlag && watcher.None? && callbacks == old(callbacks) && watchersCreated == old(watchersCreated)
        invariant platform.trace == old(platform.trace) + StopEffects(old(watcher)) + RevokeEffects(subscriptions[..k])
      {
        assert subscriptions[..k + 1][..k] == subscriptions[..k];
        Revoke(subscriptions[k]);
        k := k + 1;
      }
      assert subscriptions[..k] == subscriptions;
      subscriptions := [];
      cache.ClearCache();
    }

    /** Forgets the device (closing its handles), then reports its id. */
    method DisconnectDevice(id: CText, connectedCb: Option<CallbackId>)
      requires Valid()
      modifies this, cache, platform`trace
      ensures Valid()
      ensures cache.entries == old(cache.entries) - {Djb2(id)}
      ensures var n := |platform.trace| - |InvokeIf(connectedCb, DeviceId(Some(id)))|;
        0 <= n && platform.trace[n..] == InvokeIf(connectedCb, DeviceId(Some(id))) &&
        ClosesExactly(old(platform.trace), platform.trace[..n], RemovedHandles(old(cache.entries), id))
      ensures quitFlag == old(quitFlag) && watcher == old(watcher) && subscriptions == old(subscriptions)
      ensures callbacks == old(callbacks) && watchersCreated == old(watchersCreated)
    {
      cache.RemoveFromCache(id);
      ghost var mid := platform.trace;
      platform.Invoke(connectedCb, DeviceId(Some(id)));
      assert platform.trace[..|mid|] == mid;
    }

    method ScanServicesAsync(id: CText, servicesCb: Option<CallbackId>, quitFrom: Option<nat>)
      requires Valid()
      modifies this, cache, platform`trace
      ensures Valid()
      ensures var step := LookupDevice(platform.os, old(cache.entries), id);
        cache.entries == step.entries &&
        platform.trace == old(platform.trace) + step.effects + InvokeIf(servicesCb, ServicesReport(platform.os, step.result, quitFlag, quitFrom))
      ensures quitFlag == old(quitFlag) && watcher == old(watcher) && subscriptions == old(subscriptions)
      ensures callbacks == old(callbacks) && watchersCreated == old(watchersCreated)
    {
      var device := cache.RetrieveDevice(id);
      if device.None? {
        platform.Invoke(servicesCb, ServiceArray(0, []));
        return;
      }
      var result := platform.os.gattServicesAsync(device.value);
      if result.Threw? || result.value.status != Success {
        platform.Invoke(servicesCb, ServiceArray(0, []));
        return;
      }
      var services := FillServices(platform.os, result.value.items, quitFlag, quitFrom);
      platform.Invoke(servicesCb, ServiceArray(|result.value.items|, services[..]));
    }

    method ScanCharacteristicsAsync(id: CText, serviceUuid: CText, characteristicsCb: Option<CallbackId>, quitFrom: Option<nat>)
      requires |HexDigits(serviceUuid)| <= 32
      requires Valid()
      modifies this, cache, platform`trace
      ensures Valid()
      ensures var step := LookupService(platform.os, old(cache.entries), id, serviceUuid);
        cache.entries == step.entries &&
        platform.trace == old(platform.trace) + step.effects +
          InvokeIf(characteristicsCb, CharacteristicsReport(platform.os, step.result, quitFlag, quitFrom))
      ensures quitFlag == old(quitFlag) && watcher == old(watcher) && subscriptions == old(subscriptions)
      ensures callbacks == old(callbacks) && watchersCreated == old(watchersCreated)
    {
      var service := cache.RetrieveService(id, serviceUuid);
      if service.None? {
        platform.Invoke(characteristicsCb, CharacteristicArray(0, []));
        return;
      }
      var charScan := platform.os.characteristicsAsync(service.value);
      if charScan.Threw? || charScan.value.status != Success {
        platform.Invoke(characteristicsCb, CharacteristicArray(0, []));
        return;
      }
      var characteristics := FillCharacteristics(platform.os, charScan.value.items, quitFlag, quitFrom);
      platform.Invoke(characteristicsCb, CharacteristicArray(|charScan.value.items|, characteristics[..]));
    }

    /** The part of `SubscribeCharacteristicAsync` after the lookup: request notifications, and on success record the subscription and call back. */
    method AddSubscription(characteristic: Option<Characteristic>, subscribeCallback: Option<CallbackId>)
      modifies this`subscriptions, platform`trace
      ensures subscriptions == old(subscriptions) +
        (if Subscribed(platform.os, characteristic).Some? then [Subscription(characteristic.value, false)] else [])
      ensures platform.trace == old(platform.trace) + SubscribeEffects(platform.os, characteristic, subscribeCallback)
    {
      if characteristic.Some? {
        platform.Emit(NotifyRequested(characteristic.value));
        var status := platform.os.writeNotifyAsync(characteristic.value);
        if status == Success {
          // the ValueChanged handler is not registered, so the revoker stays empty
          subscriptions := subscriptions + [Subscription(characteristic.value, false)];
          platform.Invoke(subscribeCallback, NoArgs);
        }
      }
    }

    method SubscribeCharacteristicAsync(deviceId: CText, serviceId: CText, characteristicId: CText, subscribeCallback: Option<CallbackId>)
      requires |HexDigits(serviceId)| <= 32 && |HexDigits(characteristicId)| <= 32
      requires Valid()
      modifies this, cache, platform`trace
      ensures Valid()
      ensures var step := LookupCharacteristic(platform.os, old(cache.entries), deviceId, serviceId, characteristicId);
        cache.entries == step.entries &&
        subscriptions == old(subscriptions) +
          (if Subscribed(platform.os, step.result).Some? then [Subscription(step.result.value, false)] else []) &&
        platform.trace == old(platform.trace) + step.effects + SubscribeEffects(platform.os, step.result, subscribeCallback)
      ensures quitFlag == old(quitFlag) && watcher == old(watcher)
      ensures callbacks == old(callbacks) && watchersCreated == old(watchersCreated)
    {
      var characteristic := cache.RetrieveCharacteristic(deviceId, serviceId, characteristicId);
      AddSubscription(characteristic, subscribeCallback);
    }

    /**
      `Characteristic_ValueChanged`: copies the value into a `BleData` buffer
      and its length into `size`; the data is then dropped whether or not the
      flag is set, so no callback is made.
    */
    method CharacteristicValueChanged(value: seq<Byte>) returns (buf: array<Byte>, size: nat)
      requires |value| <= BufferSize
      ensures buf.Length == BufferSize && size == |value| && buf[..size] == value
    {
      buf := new Byte[BufferSize](_ => 0);
      size := |value|;
      for k := 0 to size
        invariant buf.Length == BufferSize
        invariant buf[..k] == value[..k]
      {
        buf[k] := value[k];
      }
      if quitFlag {
        return;
      }
    }
  }
}
