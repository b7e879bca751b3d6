/**
  The connection cache of the native bridge: a map from the 32-bit djb2
  hash of a device id to the device handle and, below it, maps from hashed
  service and characteristic UUID strings to the handles found for them.
  Lookups go to the OS only on a miss; removing a device closes its device
  and service handles.
*/
module Cache {
  import opened Wrappers
  import opened Serialization
  import opened Platform

  const HashModulus: nat := 0x1_0000_0000
  const HashSeed: nat := 5381

  /** The bits of a Windows `long` (32 bits). */
  type Key = k: int | 0 <= k < 0x1_0000_0000

  /**
    djb2 over the code units of a string: start at 5381, then for each unit
    `seed * 33 + unit`, wrapping at 32 bits.
  */
  function Djb2(s: string): (k: Key)
  {
    if s == [] then HashSeed
    else (Djb2(s[..|s| - 1]) * 33 + s[|s| - 1] as int) % HashModulus
  }

  /** djb2 with unbounded integers: no wrap-around. */
  function Djb2Exact(s: string): nat
  {
    if s == [] then HashSeed else Djb2Exact(s[..|s| - 1]) * 33 + s[|s| - 1] as int
  }

  /** Wrapping at every step gives the exact djb2 value reduced once modulo 2^32. */
  lemma {:induction false} Djb2WrapsOnce(s: string)
    ensures Djb2(s) == Djb2Exact(s) % HashModulus
    decreases |s|
  {
    if s != [] {
      var p := s[..|s| - 1];
      Djb2WrapsOnce(p);
      WrapOnce(Djb2Exact(p), s[|s| - 1] as int, HashModulus);
    }
  }

  /** Reducing before a step `x * 33 + c` does not change the result modulo `m`. */
  lemma WrapOnce(x: int, c: int, m: int)
    requires m > 0
    ensures ((x % m) * 33 + c) % m == (x * 33 + c) % m
  {
    var q, r := x / m, x % m;
    var t := r * 33 + c;
    assert x * 33 + c == m * (q * 33 + t / m) + t % m by {
      assert x == m * q + r;
      assert t == m * (t / m) + t % m;
    }
    DivModUnique(x * 33 + c, m, q * 33 + t / m, t % m);
  }

  /** Strings whose hashes agree keep agreeing whatever is appended to both. */
  lemma {:induction false} Djb2Extends(a: string, b: string, c: string)
    requires Djb2(a) == Djb2(b)
    ensures Djb2(a + c) == Djb2(b + c)
    decreases |c|
  {
    if c == [] {
      assert a + c == a && b + c == b;
    } else {
      var c' := c[..|c| - 1];
      Djb2Extends(a, b, c');
      assert (a + c)[..|a + c| - 1] == a + c';
      assert (b + c)[..|b + c| - 1] == b + c';
    }
  }

  /** Two different two-character ids with the same hash. */
  lemma Djb2Collision()
    ensures Djb2("Ez") == Djb2("FY")
  {
    assert "Ez"[..1] == "E" && "FY"[..1] == "F";
    assert "E"[..0] == [] && "F"[..0] == [];
  }

  /** `hsh` of cache.cpp: the loop over the code units up to the terminating NUL. */
  method Hash(s: CText) returns (seed: Key)
    ensures seed == Djb2(s)
  {
    seed := HashSeed;
    var i := 0;
    while i < |s|
      invariant 0 <= i <= |s|
      invariant seed == Djb2(s[..i])
    {
      assert s[..i + 1][..i] == s[..i];
      seed := (seed * 33 + s[i] as int) % HashModulus;
      i := i + 1;
    }
    assert s[..i] == s;
  }

  datatype CharacteristicEntry = CharacteristicEntry(characteristic: Characteristic)
  datatype ServiceEntry = ServiceEntry(service: Service, characteristics: map<Key, CharacteristicEntry>)
  datatype DeviceEntry = DeviceEntry(device: Device, services: map<Key, ServiceEntry>)

  type Entries = map<Key, DeviceEntry>

  /** The outcome of a lookup: the handle or null, the new cache, the OS queries made. */
  datatype Step<T> = Step(result: Option<T>, entries: Entries, effects: seq<Effect>)

  /** The first item of a query result, when the query succeeded and found one. */
  function FirstFound<T>(r: GattResult<T>): (found: Option<T>)
    ensures found.Some? <==> r.status == Success && |r.items| > 0
    ensures found.Some? ==> found.value == r.items[0]
  {
    if r.status != Success then None
    else if |r.items| == 0 then None
    else Some(r.items[0])
  }

  ghost predicate AllQueries(effects: seq<Effect>)
  {
    forall i :: 0 <= i < |effects| ==> effects[i].Queried?
  }

  /** `RetrieveDevice`. */
  function LookupDevice(os: Os, m: Entries, id: CText): (r: Step<Device>)
    ensures r.result.Some? <==> Djb2(id) in m || os.fromIdAsync(id).Some?
    ensures r.result.Some? ==> Djb2(id) in r.entries && r.entries[Djb2(id)].device == r.result.value
    // a hit answers from the cache and asks the OS nothing
    ensures Djb2(id) in m ==> r == Step(Some(m[Djb2(id)].device), m, [])
    // a miss asks FromIdAsync once and returns its answer
    ensures Djb2(id) !in m ==> r.effects == [Queried(FromId(id))] && r.result == os.fromIdAsync(id)
    // entries already present never change; only the device's own key can appear
    ensures forall k :: k in m ==> k in r.entries && r.entries[k] == m[k]
    ensures r.entries.Keys <= m.Keys + {Djb2(id)}
    ensures r.result.None? ==> r.entries == m
    // a freshly cached device starts with no services
    ensures Djb2(id) !in m && r.result.Some? ==> r.entries[Djb2(id)].services == map[]
  {
    var k := Djb2(id);
    if k in m then Step(Some(m[k].device), m, [])
    else
      match os.fromIdAsync(id)
      case None => Step(None, m, [Queried(FromId(id))])
      case Some(d) => Step(Some(d), m[k := DeviceEntry(d, map[])], [Queried(FromId(id))])
  }

  /** `m` with the service `s` cached, with no characteristics, under device `k` and key `sk`. */
  function WithService(m: Entries, k: Key, sk: Key, s: Service): (m': Entries)
    requires k in m
    ensures m'.Keys == m.Keys
    ensures forall k' :: k' in m && k' != k ==> m'[k'] == m[k']
    ensures m'[k].device == m[k].device && m'[k].services.Keys == m[k].services.Keys + {sk}
    ensures m'[k].services[sk] == ServiceEntry(s, map[])
    ensures forall sk' :: sk' in m[k].services && sk' != sk ==> m'[k].services[sk'] == m[k].services[sk']
  {
    m[k := m[k].(services := m[k].services[sk := ServiceEntry(s, map[])])]
  }

  /** `m` with the characteristic `c` cached under device `k`, service `sk` and key `ck`. */
  function WithCharacteristic(m: Entries, k: Key, sk: Key, ck: Key, c: Characteristic): (m': Entries)
    requires k in m && sk in m[k].services
    ensures m'.Keys == m.Keys
    ensures forall k' :: k' in m && k' != k ==> m'[k'] == m[k']
    ensures m'[k].device == m[k].device && m'[k].services.Keys == m[k].services.Keys
    ensures forall sk' :: sk' in m[k].services && sk' != sk ==> m'[k].services[sk'] == m[k].services[sk']
    ensures m'[k].services[sk].service == m[k].services[sk].service
    ensures m'[k].services[sk].characteristics.Keys == m[k].services[sk].characteristics.Keys + {ck}
    ensures m'[k].services[sk].characteristics[ck] == CharacteristicEntry(c)
    ensures forall ck' :: ck' in m[k].services[sk].characteristics && ck' != ck ==>
      m'[k].services[sk].characteristics[ck'] == m[k].services[sk].characteristics[ck']
  {
    var e := m[k];
    var se := e.services[sk];
    m[k := e.(services := e.services[sk := se.(characteristics := se.characteristics[ck := CharacteristicEntry(c)])])]
  }

  /** `RetrieveService`; `make_guid` needs at most 32 hex digits in the UUID. */
  function LookupService(os: Os, m: Entries, id: CText, serviceUuid: CText): (r: Step<Service>)
    requires |HexDigits(serviceUuid)| <= 32
    ensures r.result.Some? ==>
      Djb2(id) in r.entries && Djb2(serviceUuid) in r.entries[Djb2(id)].services &&
      r.entries[Djb2(id)].services[Djb2(serviceUuid)].service == r.result.value
    // a device that cannot be reached gives null and changes nothing
    ensures LookupDevice(os, m, id).result.None? ==> r == Step(None, m, LookupDevice(os, m, id).effects)
    // a cached service is answered from the cache with no query
    ensures Djb2(id) in m && Djb2(serviceUuid) in m[Djb2(id)].services ==>
      r == Step(Some(m[Djb2(id)].services[Djb2(serviceUuid)].service), m, [])
    // otherwise the device is asked once for the uuid `make_guid` reads, and the first service found is taken
    ensures var ds := LookupDevice(os, m, id);
      var uuid := Guid(HexDigits(serviceUuid));
      ds.result.Some? && Djb2(serviceUuid) !in ds.entries[Djb2(id)].services ==>
        r.effects == ds.effects + [Queried(ServicesForUuid(ds.result.value, uuid))] &&
        r.result == FirstFound(os.servicesForUuidAsync(ds.result.value, uuid)) &&
        r.entries == (if r.result.None? then ds.entries
                      else WithService(ds.entries, Djb2(id), Djb2(serviceUuid), r.result.value))
    // other devices are untouched, and the device keeps its handle and its cached services
    ensures forall k :: k in m && k != Djb2(id) ==> k in r.entries && r.entries[k] == m[k]
    ensures r.entries.Keys <= m.Keys + {Djb2(id)}
    ensures Djb2(id) in m ==>
      Djb2(id) in r.entries && r.entries[Djb2(id)].device == m[Djb2(id)].device &&
      forall sk :: sk in m[Djb2(id)].services ==>
        sk in r.entries[Djb2(id)].services && r.entries[Djb2(id)].services[sk] == m[Djb2(id)].services[sk]
    // a failed lookup adds no service
    ensures r.result.None? ==> r.entries == LookupDevice(os, m, id).entries
    ensures AllQueries(r.effects) && |r.effects| <= 2
  {
    var ds := LookupDevice(os, m, id);
    if ds.result.None? then Step(None, ds.entries, ds.effects)
    else
      var k := Djb2(id);
      var sk := Djb2(serviceUuid);
      var e := ds.entries[k];
      if sk in e.services then Step(Some(e.services[sk].service), ds.entries, ds.effects)
      else
        var uuid := Guid(HexDigits(serviceUuid));
        var effects := ds.effects + [Queried(ServicesForUuid(e.device, uuid))];
        match FirstFound(os.servicesForUuidAsync(e.device, uuid))
        case None => Step(None, ds.entries, effects)
        case Some(s) => Step(Some(s), WithService(ds.entries, k, sk, s), effects)
  }

  /** `RetrieveCharacteristic`. */
  function LookupCharacteristic(os: Os, m: Entries, id: CText, serviceUuid: CText, characteristicUuid: CText): (r: Step<Characteristic>)
    requires |HexDigits(serviceUuid)| <= 32 && |HexDigits(characteristicUuid)| <= 32
    ensures r.result.Some? ==>
      Djb2(id) in r.entries && Djb2(serviceUuid) in r.entries[Djb2(id)].services &&
      Djb2(characteristicUuid) in r.entries[Djb2(id)].services[Djb2(serviceUuid)].characteristics &&
      r.entries[Djb2(id)].services[Djb2(serviceUuid)].characteristics[Djb2(characteristicUuid)].characteristic == r.result.value
    ensures LookupService(os, m, id, serviceUuid).result.None? ==>
      r == Step(None, LookupService(os, m, id, serviceUuid).entries, LookupService(os, m, id, serviceUuid).effects)
    // a cached characteristic is answered from the cache after the service step, with no further query
    ensures var ss := LookupService(os, m, id, serviceUuid);
      var k, sk, ck := Djb2(id), Djb2(serviceUuid), Djb2(characteristicUuid);
      ss.result.Some? && ck in ss.entries[k].services[sk].characteristics ==>
        r == Step(Some(ss.entries[k].services[sk].characteristics[ck].characteristic), ss.entries, ss.effects)
    // otherwise the service is asked once for the uuid `make_guid` reads, and the first characteristic
    // found is cached under it; the device's other services and the service's other characteristics stay
    ensures var ss := LookupService(os, m, id, serviceUuid);
      var k, sk, ck := Djb2(id), Djb2(serviceUuid), Djb2(characteristicUuid);
      var uuid := Guid(HexDigits(characteristicUuid));
      ss.result.Some? && ck !in ss.entries[k].services[sk].characteristics ==>
        r.effects == ss.effects + [Queried(CharacteristicsForUuid(ss.result.value, uuid))] &&
        r.result == FirstFound(os.characteristicsForUuidAsync(ss.result.value, uuid)) &&
        r.entries == (if r.result.None? then ss.entries
                      else WithCharacteristic(ss.entries, k, sk, ck, r.result.value))
    // a failed lookup adds no characteristic
    ensures r.result.None? ==> r.entries == LookupService(os, m, id, serviceUuid).entries
    ensures forall k :: k in m && k != Djb2(id) ==> k in r.entries && r.entries[k] == m[k]
    ensures r.entries.Keys <= m.Keys + {Djb2(id)}
    ensures AllQueries(r.effects) && |r.effects| <= 3
  {
    var ss := LookupService(os, m, id, serviceUuid);
    if ss.result.None? then Step(None, ss.entries, ss.effects)
    else
      var k := Djb2(id);
      var sk := Djb2(serviceUuid);
      var ck := Djb2(characteristicUuid);
      var se := ss.entries[k].services[sk];
      if ck in se.characteristics then Step(Some(se.characteristics[ck].characteristic), ss.entries, ss.effects)
      else
        var uuid := Guid(HexDigits(characteristicUuid));
        var effects := ss.effects + [Queried(CharacteristicsForUuid(se.service, uuid))];
        match FirstFound(os.characteristicsForUuidAsync(se.service, uuid))
        case None => Step(None, ss.entries, effects)
        case Some(c) => Step(Some(c), WithCharacteristic(ss.entries, k, sk, ck, c), effects)
  }

  /** Hits and collisions */

  /** Once a device was found, asking again answers from the cache with no OS call. */
  lemma {:induction false} LookupDeviceTwice(os: Os, m: Entries, id: CText, other: CText)
    requires LookupDevice(os, m, id).result.Some?
    requires Djb2(other) == Djb2(id)
    ensures var r := LookupDevice(os, m, id);
      LookupDevice(os, r.entries, other) == Step(r.result, r.entries, [])
  {
  }

  /** Two ids with the same hash share one cache entry: the second gets the first's device. */
  lemma CollidingIdsShareDevice(os: Os, m: Entries)
    requires Djb2("Ez") !in m && os.fromIdAsync("Ez").Some?
    ensures var r := LookupDevice(os, m, "Ez");
      LookupDevice(os, r.entries, "FY") == Step(os.fromIdAsync("Ez"), r.entries, [])
  {
    Djb2Collision();
    LookupDeviceTwice(os, m, "Ez", "FY");
  }

  /** A service once found is answered from the cache with no OS call. */
  lemma LookupServiceTwice(os: Os, m: Entries, id: CText, serviceUuid: CText)
    requires |HexDigits(serviceUuid)| <= 32
    requires LookupService(os, m, id, serviceUuid).result.Some?
    ensures var r := LookupService(os, m, id, serviceUuid);
      LookupService(os, r.entries, id, serviceUuid) == Step(r.result, r.entries, [])
  {
    var r := LookupService(os, m, id, serviceUuid);
    assert LookupDevice(os, r.entries, id) == Step(Some(r.entries[Djb2(id)].device), r.entries, []);
  }

  /** A characteristic once found is answered from the cache with no OS call. */
  lemma LookupCharacteristicTwice(os: Os, m: Entries, id: CText, serviceUuid: CText, characteristicUuid: CText)
    requires |HexDigits(serviceUuid)| <= 32 && |HexDigits(characteristicUuid)| <= 32
    requires LookupCharacteristic(os, m, id, serviceUuid, characteristicUuid).result.Some?
    ensures var r := LookupCharacteristic(os, m, id, serviceUuid, characteristicUuid);
      LookupCharacteristic(os, r.entries, id, serviceUuid, characteristicUuid) == Step(r.result, r.entries, [])
  {
    var r := LookupCharacteristic(os, m, id, serviceUuid, characteristicUuid);
    var k, sk := Djb2(id), Djb2(serviceUuid);
    assert LookupDevice(os, r.entries, id) == Step(Some(r.entries[k].device), r.entries, []);
    assert LookupService(os, r.entries, id, serviceUuid) == Step(Some(r.entries[k].services[sk].service), r.entries, []);
  }

  /** After the device is removed, a lookup asks the OS again. */
  lemma LookupAfterRemove(os: Os, m: Entries, id: CText)
    ensures LookupDevice(os, m - {Djb2(id)}, id).effects == [Queried(FromId(id))]
    ensures LookupDevice(os, m - {Djb2(id)}, id).result == os.fromIdAsync(id)
  {
  }

  /** Soundness: every cached handle is one the OS gave for an id of the same hash */

  ghost predicate DeviceFrom(os: Os, k: Key, d: Device)
  {
    exists id: CText :: Djb2(id) == k && os.fromIdAsync(id) == Some(d)
  }

  ghost predicate ServiceFrom(os: Os, d: Device, sk: Key, s: Service)
  {
    exists u: CText :: Djb2(u) == sk && |HexDigits(u)| <= 32 &&
      FirstFound(os.servicesForUuidAsync(d, Guid(HexDigits(u)))) == Some(s)
  }

  ghost predicate CharacteristicFrom(os: Os, s: Service, ck: Key, c: Characteristic)
  {
    exists u: CText :: Djb2(u) == ck && |HexDigits(u)| <= 32 &&
      FirstFound(os.characteristicsForUuidAsync(s, Guid(HexDigits(u)))) == Some(c)
  }

  ghost predicate ServiceSound(os: Os, d: Device, sk: Key, e: ServiceEntry)
  {
    ServiceFrom(os, d, sk, e.service) &&
    forall ck :: ck in e.characteristics ==> CharacteristicFrom(os, e.service, ck, e.characteristics[ck].characteristic)
  }

  ghost predicate DeviceSound(os: Os, k: Key, e: DeviceEntry)
  {
    DeviceFrom(os, k, e.device) &&
    forall sk :: sk in e.services ==> ServiceSound(os, e.device, sk, e.services[sk])
  }

  ghost predicate Sound(os: Os, m: Entries)
  {
    forall k :: k in m ==> DeviceSound(os, k, m[k])
  }

  lemma LookupDeviceSound(os: Os, m: Entries, id: CText)
    requires Sound(os, m)
    ensures var r := LookupDevice(os, m, id);
      Sound(os, r.entries) && (r.result.Some? ==> DeviceFrom(os, Djb2(id), r.result.value))
  {
    var r := LookupDevice(os, m, id);
    var k := Djb2(id);
    if k !in m && r.result.Some? {
      assert DeviceFrom(os, k, r.result.value);
      assert DeviceSound(os, k, r.entries[k]);
    }
  }

  lemma LookupServiceSound(os: Os, m: Entries, id: CText, serviceUuid: CText)
    requires |HexDigits(serviceUuid)| <= 32
    requires Sound(os, m)
    ensures var r := LookupService(os, m, id, serviceUuid);
      Sound(os, r.entries) &&
      (r.result.Some? ==> ServiceFrom(os, r.entries[Djb2(id)].device, Djb2(serviceUuid), r.result.value))
  {
    LookupDeviceSound(os, m, id);
    var ds := LookupDevice(os, m, id);
    var r := LookupService(os, m, id, serviceUuid);
    if ds.result.Some? {
      var k, sk := Djb2(id), Djb2(serviceUuid);
      var e := ds.entries[k];
      assert DeviceSound(os, k, e);
      if sk !in e.services && r.result.Some? {
        var e' := r.entries[k];
        assert ServiceFrom(os, e.device, sk, r.result.value);
        assert ServiceSound(os, e.device, sk, e'.services[sk]);
        assert DeviceSound(os, k, e');
      }
    }
  }

  /** Storing a characteristic the OS gave for a key keeps the cache sound. */
  lemma InsertCharacteristicSound(os: Os, m: Entries, k: Key, sk: Key, ck: Key, c: Characteristic)
    requires Sound(os, m) && k in m && sk in m[k].services
    requires CharacteristicFrom(os, m[k].services[sk].service, ck, c)
    ensures var e := m[k];
      var se := e.services[sk];
      Sound(os, m[k := e.(services := e.services[sk := se.(characteristics := se.characteristics[ck := CharacteristicEntry(c)])])])
  {
    var e := m[k];
    var se := e.services[sk];
    var se' := se.(characteristics := se.characteristics[ck := CharacteristicEntry(c)]);
    var e' := e.(services := e.services[sk := se']);
    assert DeviceSound(os, k, e);
    assert ServiceSound(os, e.device, sk, se);
    assert ServiceSound(os, e.device, sk, se');
    assert DeviceSound(os, k, e');
  }

  lemma LookupCharacteristicSound(os: Os, m: Entries, id: CText, serviceUuid: CText, characteristicUuid: CText)
    requires |HexDigits(serviceUuid)| <= 32 && |HexDigits(characteristicUuid)| <= 32
    requires Sound(os, m)
    ensures var r := LookupCharacteristic(os, m, id, serviceUuid, characteristicUuid);
      Sound(os, r.entries) &&
      (r.result.Some? ==> CharacteristicFrom(os, r.entries[Djb2(id)].services[Djb2(serviceUuid)].service, Djb2(characteristicUuid), r.result.value))
  {
    LookupServiceSound(os, m, id, serviceUuid);
    var ss := LookupService(os, m, id, serviceUuid);
    if ss.result.Some? {
      var k, sk, ck := Djb2(id), Djb2(serviceUuid), Djb2(characteristicUuid);
      var se := ss.entries[k].services[sk];
      assert DeviceSound(os, k, ss.entries[k]);
      assert ServiceSound(os, ss.entries[k].device, sk, se);
      if ck !in se.characteristics {
        var uuid := Guid(HexDigits(characteristicUuid));
        var found := FirstFound(os.characteristicsForUuidAsync(se.service, uuid));
        if found.Some? {
          assert CharacteristicFrom(os, se.service, ck, found.value);
          InsertCharacteristicSound(os, ss.entries, k, sk, ck, found.value);
        }
      }
    }
  }

  /** The handles a removal closes */

  /** Some key of a non-empty map. */
  ghost function PickKey<V>(m: map<Key, V>): (k: Key)
    requires m != map[]
    ensures k in m
  {
    var k :| k in m; k
  }

  /** The service handles of a device entry, one per cached service. */
  ghost function ServiceHandles(services: map<Key, ServiceEntry>): (h: multiset<Handle>)
    ensures |h| == |services|
    decreases |services|
  {
    if services == map[] then multiset{}
    else
      var sk := PickKey(services);
      multiset{ServiceHandle(services[sk].service)} + ServiceHandles(services - {sk})
  }

  lemma {:induction false} ServiceHandlesRemove(services: map<Key, ServiceEntry>, sk: Key)
    requires sk in services
    ensures ServiceHandles(services) == multiset{ServiceHandle(services[sk].service)} + ServiceHandles(services - {sk})
    decreases |services|
  {
    var j := PickKey(services);
    if j != sk {
      var rest := services - {j} - {sk};
      assert rest == services - {sk} - {j};
      ServiceHandlesRemove(services - {j}, sk);
      ServiceHandlesRemove(services - {sk}, j);
    }
  }

  /** Only service handles are counted by `ServiceHandles`. */
  lemma {:induction false} ServiceHandlesAreServices(services: map<Key, ServiceEntry>)
    ensures forall x :: x in ServiceHandles(services) ==> x.ServiceHandle?
    decreases |services|
  {
    if services != map[] {
      ServiceHandlesAreServices(services - {PickKey(services)});
    }
  }

  /** What `Close()` is called on when a device entry is dropped: the device and its services. */
  ghost function EntryHandles(e: DeviceEntry): (h: multiset<Handle>)
    ensures |h| == 1 + |e.services|
    ensures h[DeviceHandle(e.device)] == 1
  {
    ServiceHandlesAreServices(e.services);
    multiset{DeviceHandle(e.device)} + ServiceHandles(e.services)
  }

  /** The handles `ClearCache` closes: those of every entry. */
  ghost function AllHandles(m: Entries): (h: multiset<Handle>)
    decreases |m|
  {
    if m == map[] then multiset{}
    else
      var k := PickKey(m);
      EntryHandles(m[k]) + AllHandles(m - {k})
  }

  /** No characteristic handle is ever closed by the cache. */
  lemma {:induction false} AllHandlesNoCharacteristic(m: Entries)
    ensures forall x :: x in AllHandles(m) ==> !x.CharacteristicHandle?
    decreases |m|
  {
    if m != map[] {
      var k := PickKey(m);
      ServiceHandlesAreServices(m[k].services);
      AllHandlesNoCharacteristic(m - {k});
    }
  }

  lemma {:induction false} AllHandlesRemove(m: Entries, k: Key)
    requires k in m
    ensures AllHandles(m) == EntryHandles(m[k]) + AllHandles(m - {k})
    decreases |m|
  {
    var j := PickKey(m);
    if j != k {
      var rest := m - {j} - {k};
      assert rest == m - {k} - {j};
      AllHandlesRemove(m - {j}, k);
      AllHandlesRemove(m - {k}, j);
    }
  }

  /** One iteration of the loop of `ClearCache`: the entry at `k` is closed and leaves `remaining`. */
  lemma CloseAllStep(m: Entries, remaining: Entries, k: Key,
                     before: seq<Effect>, mid: seq<Effect>, after: seq<Effect>, closed: multiset<Handle>)
    requires k in remaining
    requires ClosesExactly(before, mid, closed) && closed + AllHandles(remaining) == AllHandles(m)
    requires ClosesExactly(mid, after, EntryHandles(remaining[k]))
    ensures ClosesExactly(before, after, closed + EntryHandles(remaining[k]))
    ensures closed + EntryHandles(remaining[k]) + AllHandles(remaining - {k}) == AllHandles(m)
  {
    AllHandlesRemove(remaining, k);
    ClosesExactlyCompose(before, mid, after, closed, EntryHandles(remaining[k]));
  }

  /** The handles `RemoveFromCache(id)` closes. */
  ghost function RemovedHandles(m: Entries, id: CText): (h: multiset<Handle>)
    ensures Djb2(id) !in m ==> h == multiset{}
    ensures Djb2(id) in m ==> h + AllHandles(m - {Djb2(id)}) == AllHandles(m)
  {
    if Djb2(id) in m then
      AllHandlesRemove(m, Djb2(id));
      EntryHandles(m[Djb2(id)])
    else multiset{}
  }

  /** A removal keeps the cache sound. */
  lemma RemoveSound(os: Os, m: Entries, k: Key)
    requires Sound(os, m)
    ensures Sound(os, m - {k})
  {
  }

  /** The cache object */

  class ConnectionCache {
    const platform: Platform
    var entries: Entries

    /** Every cached handle came from the OS. */
    ghost predicate Valid()
      reads this
    {
      Sound(platform.os, entries)
    }

    constructor (platform: Platform)
      ensures this.platform == platform && entries == map[] && Valid()
    {
      this.platform := platform;
      entries := map[];
    }

    method RetrieveDevice(deviceId: CText) returns (device: Option<Device>)
      requires Valid()
      modifies this, platform`trace
      ensures Valid()
      ensures var r := LookupDevice(platform.os, old(entries), deviceId);
        device == r.result && entries == r.entries && platform.trace == old(platform.trace) + r.effects
    {
      LookupDeviceSound(platform.os, entries, deviceId);
      var deviceHash := Hash(deviceId);
      if deviceHash in entries {
        return Some(entries[deviceHash].device);
      }
      device := platform.FromIdAsync(deviceId);
      if device.None? {
        return;
      }
      entries := entries[deviceHash := DeviceEntry(device.value, map[])];
    }

    method RetrieveService(id: CText, serviceUuid: CText) returns (service: Option<Service>)
      requires |HexDigits(serviceUuid)| <= 32
      requires Valid()
      modifies this, platform`trace
      ensures Valid()
      ensures var r := LookupService(platform.os, old(entries), id, serviceUuid);
        service == r.result && entries == r.entries && platform.trace == old(platform.trace) + r.effects
    {
      LookupServiceSound(platform.os, entries, id, serviceUuid);
      var device := RetrieveDevice(id);
      if device.None? {
        return None;
      }
      var deviceHash := Hash(id);
      var serviceHash := Hash(serviceUuid);
      var e := entries[deviceHash];
      if serviceHash in e.services {
        return Some(e.services[serviceHash].service);
      }
      var uuid := MakeGuid(serviceUuid);
      var result := platform.GetGattServicesForUuidAsync(device.value, uuid);
      if result.status != Success {
        return None;
      }
      if |result.items| == 0 {
        return None;
      }
      service := Some(result.items[0]);
      entries := WithService(entries, deviceHash, serviceHash, result.items[0]);
    }

    method RetrieveCharacteristic(deviceId: CText, serviceId: CText, characteristicId: CText)
      returns (characteristic: Option<Characteristic>)
      requires |HexDigits(serviceId)| <= 32 && |HexDigits(characteristicId)| <= 32
      requires Valid()
      modifies this, platform`trace
      ensures Valid()
      ensures var r := LookupCharacteristic(platform.os, old(entries), deviceId, serviceId, characteristicId);
        characteristic == r.result && entries == r.entries && platform.trace == old(platform.trace) + r.effects
    {
      LookupCharacteristicSound(platform.os, entries, deviceId, serviceId, characteristicId);
      ghost var ss := LookupService(platform.os, entries, deviceId, serviceId);
      var service := RetrieveService(deviceId, serviceId);
      if service.None? {
        return None;
      }
      var deviceHash := Hash(deviceId);
      var serviceHash := Hash(serviceId);
      var characteristicHash := Hash(characteristicId);
      var se := entries[deviceHash].services[serviceHash];
      if characteristicHash in se.characteristics {
        return Some(se.characteristics[characteristicHash].characteristic);
      }
      ghost var mid := platform.trace;
      characteristic := FetchCharacteristic(service.value, deviceHash, serviceHash, characteristicHash, characteristicId);
      ghost var query := Queried(CharacteristicsForUuid(service.value, Guid(HexDigits(characteristicId))));
      assert mid + [query] == old(platform.trace) + (ss.effects + [query]);
    }

    /**
      The miss path of `RetrieveCharacteristic`: ask the service for the uuid
      and cache the first characteristic found under the three hashes.
    */
    method FetchCharacteristic(service: Service, k: Key, sk: Key, ck: Key, characteristicId: CText)
      returns (characteristic: Option<Characteristic>)
      requires |HexDigits(characteristicId)| <= 32
      requires k in entries && sk in entries[k].services
      modifies this`entries, platform`trace
      ensures var uuid := Guid(HexDigits(characteristicId));
        characteristic == FirstFound(platform.os.characteristicsForUuidAsync(service, uuid)) &&
        platform.trace == old(platform.trace) + [Queried(CharacteristicsForUuid(service, uuid))]
      ensures entries == if characteristic.None? then old(entries)
                         else WithCharacteristic(old(entries), k, sk, ck, characteristic.value)
    {
      var uuid := MakeGuid(characteristicId);
      var result := platform.GetCharacteristicsForUuidAsync(service, uuid);
      if result.status != Success || |result.items| == 0 {
        return None;
      }
      characteristic := Some(result.items[0]);
      entries := WithCharacteristic(entries, k, sk, ck, result.items[0]);
    }

    /** Closes every service handle of `services`, in the map's iteration order. */
    method CloseServices(services: map<Key, ServiceEntry>)
      modifies platform`trace
      ensures ClosesExactly(old(platform.trace), platform.trace, ServiceHandles(services))
    {
      ghost var before := platform.trace;
      ghost var closed: multiset<Handle> := multiset{};
      var remaining := services;
      assert platform.trace[|before|..] == [];
      while remaining != map[]
        invariant ClosesExactly(before, platform.trace, closed)
        invariant closed + ServiceHandles(remaining) == ServiceHandles(services)
        decreases |remaining|
      {
        var sk :| sk in remaining;
        var h := ServiceHandle(remaining[sk].service);
        ghost var mid := platform.trace;
        ServiceHandlesRemove(remaining, sk);
        platform.Close(h);
        ClosesOneMore(before, mid, closed, h);
        closed := closed + multiset{h};
        remaining := remaining - {sk};
      }
    }

    /** Closes a device handle, then each of its service handles; characteristics are not closed. */
    method CloseEntry(dev: DeviceEntry)
      modifies platform`trace
      ensures ClosesExactly(old(platform.trace), platform.trace, EntryHandles(dev))
    {
      ghost var before := platform.trace;
      assert ClosesExactly(before, before, multiset{}) by {
        assert before[|before|..] == [];
      }
      platform.Close(DeviceHandle(dev.device));
      ClosesOneMore(before, before, multiset{}, DeviceHandle(dev.device));
      ghost var mid := platform.trace;
      CloseServices(dev.services);
      ClosesExactlyCompose(before, mid, platform.trace, multiset{DeviceHandle(dev.device)}, ServiceHandles(dev.services));
    }

    /** Closes the device and its services and forgets it; an unknown id does nothing. */
    method RemoveFromCache(deviceId: CText)
      requires Valid()
      modifies this, platform`trace
      ensures Valid()
      ensures entries == old(entries) - {Djb2(deviceId)}
      ensures ClosesExactly(old(platform.trace), platform.trace, RemovedHandles(old(entries), deviceId))
    {
      RemoveSound(platform.os, entries, Djb2(deviceId));
      var deviceHash := Hash(deviceId);
      if deviceHash !in entries {
        assert platform.trace[|platform.trace|..] == [];
        return;
      }
      CloseEntry(entries[deviceHash]);
      entries := entries - {deviceHash};
    }

    /** Closes the handles of every entry of `m`, in the map's iteration order. */
    method CloseAll(m: Entries)
      modifies platform`trace
      ensures ClosesExactly(old(platform.trace), platform.trace, AllHandles(m))
    {
      ghost var before := platform.trace;
      ghost var closed: multiset<Handle> := multiset{};
      var remaining := m;
      assert platform.trace[|before|..] == [];
      while remaining != map[]
        invariant ClosesExactly(before, platform.trace, closed)
        invariant closed + AllHandles(remaining) == AllHandles(m)
        decreases |remaining|
      {
        var k :| k in remaining;
        ghost var mid := platform.trace;
        CloseEntry(remaining[k]);
        CloseAllStep(m, remaining, k, before, mid, platform.trace, closed);
        closed := closed + EntryHandles(remaining[k]);
        remaining := remaining - {k};
      }
    }

    /** Closes every cached device and service handle and empties the cache. */
    method ClearCache()
      requires Valid()
      modifies this, platform`trace
      ensures Valid()
      ensures entries == map[]
      ensures ClosesExactly(old(platform.trace), platform.trace, AllHandles(old(entries)))
    {
      CloseAll(entries);
      entries := map[];
    }
  }
}
