/**
  The part of Windows Runtime Bluetooth LE that the bridge calls, kept
  abstract: handles are opaque, every OS answer is a function of its
  arguments (`Os`), and every call whose occurrence matters (a lookup the
  cache makes, a `Close()`, the watcher's life cycle, a revoke, a callback
  into the host) is appended to the ghost `trace` of the `Platform` object.
*/
module Platform {
  import opened Wrappers
  import Serialization

  /** A 16-byte GUID in the Windows layout. */
  type Uuid = seq<Serialization.Byte>

  datatype Device = Device(ref: nat)
  datatype Service = Service(ref: nat)
  datatype Characteristic = Characteristic(ref: nat)
  datatype Descriptor = Descriptor(ref: nat)

  /** `GattCommunicationStatus`. */
  datatype Status = Success | Unreachable | ProtocolError | AccessDenied

  /** A GATT query result: its status and the items it holds. */
  datatype GattResult<T> = GattResult(status: Status, items: seq<T>)

  /** Outcome of a call that may throw an `hresult_error`. */
  datatype Outcome<T> = Threw | Returned(value: T)

  /** A descriptor read: its status and the string read from its value. */
  datatype ReadResult = ReadResult(status: Status, text: string)

  /** What the OS answers, call by call. */
  datatype Os = Os(
    /** `BluetoothLEDevice::FromIdAsync` (null when the device cannot be reached). */
    fromIdAsync: string -> Option<Device>,
    /** `GetGattServicesForUuidAsync(uuid, Cached)`. */
    servicesForUuidAsync: (Device, Uuid) -> GattResult<Service>,
    /** `GetCharacteristicsForUuidAsync(uuid, Cached)`. */
    characteristicsForUuidAsync: (Service, Uuid) -> GattResult<Characteristic>,
    /** `GetGattServicesAsync(Uncached)`. */
    gattServicesAsync: Device -> Outcome<GattResult<Service>>,
    /** `GetCharacteristicsAsync(Uncached)`. */
    characteristicsAsync: Service -> Outcome<GattResult<Characteristic>>,
    /** `Uuid()` of a service and of a characteristic. */
    serviceUuid: Service -> Uuid,
    characteristicUuid: Characteristic -> Uuid,
    /** `GetDescriptorsForUuidAsync(uuid, Uncached)`, reduced to its descriptor list. */
    descriptorsForUuidAsync: (Characteristic, Uuid) -> Outcome<seq<Descriptor>>,
    /** `ReadValueAsync` of a descriptor, its value read as a string. */
    readValueAsync: Descriptor -> Outcome<ReadResult>,
    /** `WriteClientCharacteristicConfigurationDescriptorAsync(Notify)`. */
    writeNotifyAsync: Characteristic -> Status)

  /** A handle the cache closes. */
  datatype Handle = DeviceHandle(device: Device) | ServiceHandle(service: Service) | CharacteristicHandle(characteristic: Characteristic)

  /** A lookup the cache asks the OS for. */
  datatype Query =
    | FromId(id: string)
    | ServicesForUuid(device: Device, uuid: Uuid)
    | CharacteristicsForUuid(service: Service, uuid: Uuid)

  /** A host function pointer handed to the bridge. */
  type CallbackId = nat

  /** One slot of the `BleCharacteristicArray` handed to the host. */
  datatype CharacteristicRecord = CharacteristicRecord(uuid: Uuid, userDescription: string)

  /** What a callback is called with. */
  datatype CallbackArg =
    | NoArgs
    | DeviceId(id: Option<string>)
    /** A `BleServiceArray`: its `count` and its slots, `None` where nothing was written. */
    | ServiceArray(count: nat, services: seq<Option<Uuid>>)
    | CharacteristicArray(count: nat, characteristics: seq<Option<CharacteristicRecord>>)

  datatype Effect =
    | Queried(query: Query)
    | Closed(handle: Handle)
    | WatcherCreated(watcher: nat)
    | HandlersRegistered(watcher: nat)
    | HandlersRevoked(watcher: nat)
    | WatcherStarted(watcher: nat)
    | WatcherStopped(watcher: nat)
    | NotifyRequested(characteristic: Characteristic)
    | SubscriptionRevoked(characteristic: Characteristic)
    | Invoked(callback: CallbackId, arg: CallbackArg)

  /** The handles closed by the `Closed` effects of `effects`. */
  function ClosedIn(effects: seq<Effect>): multiset<Handle>
  {
    if effects == [] then multiset{}
    else
      var last := effects[|effects| - 1];
      ClosedIn(effects[..|effects| - 1]) + (if last.Closed? then multiset{last.handle} else multiset{})
  }

  lemma {:induction false} ClosedInConcat(a: seq<Effect>, b: seq<Effect>)
    ensures ClosedIn(a + b) == ClosedIn(a) + ClosedIn(b)
    decreases |b|
  {
    if b == [] {
      assert a + b == a;
    } else {
      assert (a + b)[..|a + b| - 1] == a + b[..|b| - 1];
      ClosedInConcat(a, b[..|b| - 1]);
    }
  }

  ghost predicate OnlyCloses(effects: seq<Effect>)
  {
    forall i :: 0 <= i < |effects| ==> effects[i].Closed?
  }

  /**
    `after` extends `before` by `Close()` calls only, and the handles they
    close are exactly `handles`, each as often as it occurs there.
  */
  ghost predicate ClosesExactly(before: seq<Effect>, after: seq<Effect>, handles: multiset<Handle>)
  {
    |before| <= |after| && after[..|before|] == before &&
    OnlyCloses(after[|before|..]) && ClosedIn(after[|before|..]) == handles
  }

  lemma ClosesExactlyCompose(a: seq<Effect>, b: seq<Effect>, c: seq<Effect>, h1: multiset<Handle>, h2: multiset<Handle>)
    requires ClosesExactly(a, b, h1) && ClosesExactly(b, c, h2)
    ensures ClosesExactly(a, c, h1 + h2)
  {
    var x: seq<Effect>, y: seq<Effect> := b[|a|..], c[|b|..];
    assert c[..|b|] == b;
    assert c[|a|..] == x + y;
    assert c[..|a|] == a by {
      assert c[..|a|] == c[..|b|][..|a|];
    }
    forall i | 0 <= i < |x + y|
      ensures (x + y)[i].Closed?
    {
      if i < |x| {
        assert (x + y)[i] == x[i];
      } else {
        assert (x + y)[i] == y[i - |x|];
      }
    }
    ClosedInConcat(x, y);
  }

  /** One more `Close()` call extends what was closed by its handle. */
  lemma ClosesOneMore(before: seq<Effect>, mid: seq<Effect>, closed: multiset<Handle>, h: Handle)
    requires ClosesExactly(before, mid, closed)
    ensures ClosesExactly(before, mid + [Closed(h)], closed + multiset{h})
  {
    var after := mid + [Closed(h)];
    assert after[|mid|..] == [Closed(h)];
    assert ClosedIn([Closed(h)]) == multiset{h} by {
      assert [Closed(h)][..0] == [];
    }
    ClosesExactlyCompose(before, mid, after, closed, multiset{h});
  }

  /** The callback, when the host registered one, called once with `arg`. */
  function InvokeIf(callback: Option<CallbackId>, arg: CallbackArg): (effects: seq<Effect>)
    ensures |effects| == if callback.Some? then 1 else 0
  {
    match callback
    case Some(cb) => [Invoked(cb, arg)]
    case None => []
  }

  class Platform {
    const os: Os
    ghost var trace: seq<Effect>

    constructor (os: Os)
      ensures this.os == os && trace == []
    {
      this.os := os;
      trace := [];
    }

    /** Records a call whose result, if any, the OS functions give. */
    method Emit(e: Effect)
      modifies this`trace
      ensures trace == old(trace) + [e]
    {
      trace := trace + [e];
    }

    method FromIdAsync(id: string) returns (device: Option<Device>)
      modifies this`trace
      ensures device == os.fromIdAsync(id)
      ensures trace == old(trace) + [Queried(FromId(id))]
    {
      trace := trace + [Queried(FromId(id))];
      device := os.fromIdAsync(id);
    }

    method GetGattServicesForUuidAsync(device: Device, uuid: Uuid) returns (result: GattResult<Service>)
      modifies this`trace
      ensures result == os.servicesForUuidAsync(device, uuid)
      ensures trace == old(trace) + [Queried(ServicesForUuid(device, uuid))]
    {
      trace := trace + [Queried(ServicesForUuid(device, uuid))];
      result := os.servicesForUuidAsync(device, uuid);
    }

    method GetCharacteristicsForUuidAsync(service: Service, uuid: Uuid) returns (result: GattResult<Characteristic>)
      modifies this`trace
      ensures result == os.characteristicsForUuidAsync(service, uuid)
      ensures trace == old(trace) + [Queried(CharacteristicsForUuid(service, uuid))]
    {
      trace := trace + [Queried(CharacteristicsForUuid(service, uuid))];
      result := os.characteristicsForUuidAsync(service, uuid);
    }

    /** `Close()` on a device or service handle. */
    method Close(h: Handle)
      modifies this`trace
      ensures trace == old(trace) + [Closed(h)]
    {
      trace := trace + [Closed(h)];
    }

    /** Calls the callback, when there is one, with `arg`. */
    method Invoke(callback: Option<CallbackId>, arg: CallbackArg)
      modifies this`trace
      ensures trace == old(trace) + InvokeIf(callback, arg)
    {
      if callback.Some? {
        trace := trace + [Invoked(callback.value, arg)];
      }
    }
  }
}
