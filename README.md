# BleWinrtDll in Dafny

BleWinrtDll is a Windows DLL that wraps the WinRT Bluetooth LE API for a
managed host. The DLL side (`BleWinrtDll/`) covers several jobs:

- It watches for devices.
- It enumerates the services and characteristics of a device into arrays
  it hands to host callbacks.
- It subscribes to notifications.
- It keeps its own cache of device, service and characteristic handles,
  keyed by a djb2 hash of their identifier text.

Two small C# hosts (`DebugBle/`) drive it. One is a blocking polling
wrapper, `BLE.cs`. The other is a callback wrapper with an `is_scanning`
flag, `BleWinrt.cs`.

Each source file has a module here:

| module | file | models |
|---|---|---|
| `Wrappers` | `wrappers.dfy` | `Option` and `Result` |
| `Serialization` | `serialization.dfy` | `serialization.cpp`: `make_guid` (hex digits into the Windows GUID byte layout through `BYTE_ORDER`) and `ConvertMacAddressToULong` (strip colons, read hex as a `uint64_t`) |
| `Platform` | `platform.dfy` | the WinRT surface the bridge calls, described below |
| `Cache` | `cache.dfy` | `cache.cpp`: pure lookup functions that say what a lookup returns, which entries it adds and which OS queries it makes; a `ConnectionCache` class whose methods are proved against them; closing of handles on removal and on clearing |
| `Native` | `ble_winrt.dfy` | `ble-winrt.cpp`: a `Bridge` class with the global state (quit flag, watcher, host callbacks, subscription list, the cache) and the coroutines as sequential methods |
| `HostBle` | `host_ble.dfy` | `BLE.cs` |
| `HostBleWinrt` | `host_blewinrt.dfy` | `BleWinrt.cs` |

In `Platform`, OS answers are fixed functions of their arguments. They are
fields of a `datatype Os`. Every call the bridge makes, and every host
callback it fires, is appended to a ghost effect trace. Closing a handle is
the effect `Closed(h)`.

Two things in `Native` need explaining:

- **Quit during an enumeration.** A `Quit` that runs while an enumeration
  is in progress is the input `quitFrom`. It is the first loop iteration
  that sees the flag set.
- **Enumeration arrays.** An enumeration array is specified by a pure
  function of the OS answers. The loop that fills it is proved to write
  exactly that array.

`HostBle` models these parts of `BLE.cs`:

- the `MacToString` LINQ pipeline;
- the 512-byte package fill and check;
- the short-circuit `Subscribe` loop;
- the `isConnected` flag;
- the de-duplicating scan loop.

`HostBleWinrt` models the `is_scanning` flag machine and the two
`ToString` formatters of `BleWinrt.cs`.

Some consequences of the code that the model makes visible:

- **Hash collisions.** Two identifiers with the same 32-bit djb2 hash share
  one cache entry. `"Ez"` and `"FY"` are an example, so a lookup of the
  second answers with the device cached for the first.
- **Characteristics are never closed.** Removing a device or clearing the
  cache closes the device and service handles only.
- **Revokers are never armed.** The line that would arm a subscription's
  `ValueChanged` revoker is commented out (`ble-winrt.cpp:233`). So
  `Quit` has nothing to revoke, and no notification ever reaches the host.
- **Stop is never relayed.** `StopDeviceScan` revokes the `Stopped`
  handler before it calls `Stop()`. The host's `ScanStopped` relay is
  therefore never fired for a stop the host asked for. `BleWinrt.Stop`
  leaves `is_scanning` set. The stop also revokes the `EnumerationCompleted`
  handler and drops the watcher (`ble-winrt.cpp:405-421`), so no completion
  arrives to clear the flag either: after a `Stop`, `is_scanning` stays set
  for good and every later `StartScan` does nothing.
- **A second scan keeps the old watcher running.** Calling
  `StartDeviceScan` while a watcher runs revokes the old watcher's
  handlers, because the revokers are reassigned. It does not stop the
  old watcher.
- **`cancelled` is never reset.** `ScanDevices` does not clear the flag on
  the shared `currentScan`. After one `Cancel`, every later scan stops
  after its first device. The scan loop takes the flag as an input per
  iteration, so this case is covered.
- **`MacToString` drops the top 16 bits.** It reads back through
  `ConvertMacAddressToULong` as the low 48 bits of its argument.

## Model

| member | source | states |
|---|---|---|
| Serialization.HexDigits | BleWinrtDll/serialization.cpp:13-37 | the digits `make_guid` takes from a text: at most one per character |
| Serialization.Guid | BleWinrtDll/serialization.cpp:10-39 | the GUID has 16 bytes, and a text with no hex digit gives the all-zero GUID the `memset` leaves |
| Serialization.HexDigitsConcat | BleWinrtDll/serialization.cpp:13-37 | the digits `make_guid` takes from a concatenation are the digits of the first part followed by those of the second |
| Serialization.SeparatorIgnored | BleWinrtDll/serialization.cpp:33-36 | a character that is not a hex digit (hyphen, brace) is skipped: inserting it anywhere changes nothing |
| Serialization.HexDigitsCaseInsensitive | BleWinrtDll/serialization.cpp:21-32 | upper- and lower-case hex letters give the same digits |
| Serialization.ByteOrderInvolution | BleWinrtDll/serialization.cpp:6 | `BYTE_ORDER` is its own inverse: it only swaps bytes within the first three GUID fields |
| Serialization.DigitPlacement | BleWinrtDll/serialization.cpp:15-32 | digit k ends up in byte `BYTE_ORDER[k/2]`, as the high nibble when k is even and the low nibble when k is odd |
| Serialization.UnreachedBytesZero | BleWinrtDll/serialization.cpp:11 | a byte that no digit reaches keeps the zero of the `memset` |
| Serialization.GuidAppend | BleWinrtDll/serialization.cpp:18 | each new digit adds into exactly one byte without overflowing it and leaves the other bytes alone |
| Serialization.MakeGuid | BleWinrtDll/serialization.cpp:8-40 | the loop over the text builds the 16-byte GUID of the text's hex digits, as `Guid(HexDigits(value))` defines it |
| Serialization.GuidOfNibblesOf | BleWinrtDll/serialization.cpp:8-40 | every 16-byte GUID is the result of some 32-digit input: its digits in the swapped layout |
| Serialization.NibblesOfGuid | BleWinrtDll/serialization.cpp:8-40 | for 32 digits, the GUID determines the digits: the layout is a bijection |
| Serialization.GuidTextRoundTrip | BleWinrtDll/serialization.cpp:8-40 | `make_guid` of the canonical 36-character text of a GUID gives back that GUID |
| Serialization.GuidInjective | BleWinrtDll/serialization.cpp:8-40 | two texts with 32 hex digits each give the same GUID only if their digit sequences are equal |
| Serialization.StripColons | BleWinrtDll/serialization.cpp:61-67 | the colon-free text is no longer than the input and holds no colon |
| Serialization.StripColonsConcat | BleWinrtDll/serialization.cpp:61-67 | removing colons distributes over concatenation |
| Serialization.StripColonsKeepsOthers | BleWinrtDll/serialization.cpp:61-67 | no colon is left, and every other character keeps its number of occurrences |
| Serialization.StripColonsNoColon | BleWinrtDll/serialization.cpp:61-67 | a text without colons comes through unchanged |
| Serialization.HexRun | BleWinrtDll/serialization.cpp:69-71 | the extraction reads the longest prefix of hex digits: all of it is hex, and the next character is not |
| Serialization.ReadHexUInt64 | BleWinrtDll/serialization.cpp:69-71 | the hex extraction skips leading white space, then an optional sign and `0x`; a blank text gives no value (the uninitialised `result`); otherwise the value is at most 2^64-1: 0 with no digits, 2^64-1 when the digits overflow, the number itself when it fits, and its negation modulo 2^64 after a minus sign |
| Serialization.SkipSpaceEmpty | BleWinrtDll/serialization.cpp:71 | skipping white space leaves nothing exactly when the text is blank |
| Serialization.ReadPlainHex | BleWinrtDll/serialization.cpp:69-71 | a non-empty text of hex digits is read whole, capped at 2^64-1 |
| Serialization.ReadUnsigned | BleWinrtDll/serialization.cpp:71 | a field with no minus sign whose digits fit reads as their number |
| Serialization.ReadNegated | BleWinrtDll/serialization.cpp:71 | a field with a minus sign whose non-zero digits fit reads as 2^64 minus their number |
| Serialization.ReadHexSpace | BleWinrtDll/serialization.cpp:71 | leading white space is skipped: `" AA"` reads 0xAA |
| Serialization.ReadHexPrefix | BleWinrtDll/serialization.cpp:71 | a `0x` prefix is read past: `"0x1F"` reads 0x1F |
| Serialization.ReadHexPlus | BleWinrtDll/serialization.cpp:71 | a plus sign is read past: `"+AA"` reads 0xAA |
| Serialization.ReadHexMinus | BleWinrtDll/serialization.cpp:71 | a minus sign negates modulo 2^64: `"-1"` reads 2^64-1 |
| Serialization.ReadHexNothing | BleWinrtDll/serialization.cpp:69-71 | `"G1"` reads 0, and the empty text reads no value |
| Serialization.HexNumberAppendPair | BleWinrtDll/serialization.cpp:71 | two more hex digits multiply the value by 256 and add the byte they spell |
| Serialization.ConvertMacAddressToULong | BleWinrtDll/serialization.cpp:56-74 | the loop drops exactly the colons, and the result is the hex extraction of what remains (no value when only white space remains) |
| Serialization.MacExample | BleWinrtDll/serialization.cpp:56-74 | `"AA:BB:CC:DD:EE:FF"` converts to `0xAABBCCDDEEFF` |
| Platform.Platform.FromIdAsync | BleWinrtDll/cache.cpp:37 | returns the OS answer for the id and records one `FromIdAsync` query |
| Platform.Platform.GetGattServicesForUuidAsync | BleWinrtDll/cache.cpp:65 | returns the OS answer and records one service query |
| Platform.Platform.GetCharacteristicsForUuidAsync | BleWinrtDll/cache.cpp:95 | returns the OS answer and records one characteristic query |
| Platform.Platform.Close | BleWinrtDll/cache.cpp:125 | records that exactly this handle was closed |
| Platform.Platform.Invoke | BleWinrtDll/ble-winrt.cpp:351-352 | `if (cb) (*cb)(…)`: a set callback is invoked once with the argument; an unset one records nothing |
| Platform.ClosesExactlyCompose | BleWinrtDll/cache.cpp:133-144 | two runs of closes in a row close the union of their handles |
| Cache.Djb2WrapsOnce | BleWinrtDll/cache.cpp:18-27 | wrapping the hash to 32 bits at every step gives the exact (unbounded) djb2 value reduced once modulo 2^32 |
| Cache.WrapOnce | BleWinrtDll/cache.cpp:24 | reducing before a step `seed * 33 + c` does not change the step's result modulo 2^32 |
| Cache.Djb2Extends | BleWinrtDll/cache.cpp:18-27 | identifiers that collide keep colliding when the same text is appended to both |
| Cache.Djb2Collision | BleWinrtDll/cache.cpp:18-27 | `"Ez"` and `"FY"` have the same hash |
| Cache.Hash | BleWinrtDll/cache.cpp:18-27 | the loop over the text computes djb2 (seed 5381, times 33 plus the character) modulo 2^32 |
| Cache.FirstFound | BleWinrtDll/cache.cpp:67-80 | a query result yields an item exactly when it succeeded and is non-empty, and then it is the first item |
| Cache.LookupDevice | BleWinrtDll/cache.cpp:29-48 | a hit answers from the cache and asks the OS nothing; a miss asks `FromIdAsync` once and caches a non-null answer under the id's hash, with no services yet; other entries never change |
| Cache.LookupService | BleWinrtDll/cache.cpp:50-82 | an unreachable device gives null and changes nothing; a cached service is answered with no query and no change; otherwise the device is asked once for the GUID `make_guid` reads from the uuid text, the first service found is the answer and is cached with no characteristics, and a failed query adds nothing; other devices and the device's other services are untouched |
| Cache.WithService | BleWinrtDll/cache.cpp:80 | inserting a service changes only that key of that device: the device handle, its other services and every other device stay |
| Cache.LookupCharacteristic | BleWinrtDll/cache.cpp:84-112 | a missing service gives null with the service lookup's effects; a cached characteristic is answered after the service step with no further query; otherwise the service is asked once for the GUID `make_guid` reads, the first characteristic found is the answer and is cached under the three hashes, and a failed query adds nothing; the device's other services, the service's other characteristics and other devices are untouched |
| Cache.WithCharacteristic | BleWinrtDll/cache.cpp:110 | inserting a characteristic changes only that key of that service: the service handle, its other characteristics, the device's other services and every other device stay |
| Cache.LookupDeviceTwice | BleWinrtDll/cache.cpp:31-35 | after a successful lookup, a lookup of any id with the same hash returns the same device from the cache with no query |
| Cache.CollidingIdsShareDevice | BleWinrtDll/cache.cpp:18-35 | once `"Ez"` is cached, looking up `"FY"` returns the device of `"Ez"` without asking the OS |
| Cache.LookupServiceTwice | BleWinrtDll/cache.cpp:50-62 | a service lookup repeated after a success returns the same service with no query |
| Cache.LookupCharacteristicTwice | BleWinrtDll/cache.cpp:84-92 | a characteristic lookup repeated after a success returns the same characteristic with no query |
| Cache.LookupAfterRemove | BleWinrtDll/cache.cpp:114-131 | after a device is removed, its next lookup asks `FromIdAsync` again and returns the OS answer |
| Cache.LookupDeviceSound | BleWinrtDll/cache.cpp:29-48 | the cache only holds devices the OS gave for an id with that hash, and a device lookup keeps this |
| Cache.LookupServiceSound | BleWinrtDll/cache.cpp:50-82 | a service lookup keeps every cached service the first answer of the OS for its device and a uuid with that hash |
| Cache.LookupCharacteristicSound | BleWinrtDll/cache.cpp:84-112 | a characteristic lookup keeps every cached characteristic the first answer of the OS for its service |
| Cache.RemoveSound | BleWinrtDll/cache.cpp:130 | erasing an entry keeps the cache sound |
| Cache.ServiceHandlesRemove | BleWinrtDll/cache.cpp:127-128 | the services loop may close the cached services in any order: any one of them can be closed first, and the rest close the others |
| Cache.AllHandlesNoCharacteristic | BleWinrtDll/cache.cpp:133-144 | clearing the cache closes device and service handles only, never a characteristic |
| Cache.RemovedHandles | BleWinrtDll/cache.cpp:114-131 | removing an absent device closes nothing; removing a present one closes exactly its handles, the rest of the cache holding the others |
| Cache.ConnectionCache.constructor | BleWinrtDll/cache.cpp:14 | the cache starts empty |
| Cache.ConnectionCache.RetrieveDevice | BleWinrtDll/cache.cpp:29-48 | returns, caches and queries exactly what `LookupDevice` says, and keeps the cache sound |
| Cache.ConnectionCache.RetrieveService | BleWinrtDll/cache.cpp:50-82 | returns, caches and queries exactly what `LookupService` says, and keeps the cache sound |
| Cache.ConnectionCache.RetrieveCharacteristic | BleWinrtDll/cache.cpp:84-112 | returns, caches and queries exactly what `LookupCharacteristic` says, and keeps the cache sound |
| Cache.ConnectionCache.CloseEntry | BleWinrtDll/cache.cpp:123-128 | closes the device handle and every service handle of the entry, each once, and nothing else |
| Cache.ConnectionCache.CloseServices | BleWinrtDll/cache.cpp:127-128 | closes every service handle of the map exactly once, in any order, and nothing else |
| Cache.ConnectionCache.RemoveFromCache | BleWinrtDll/cache.cpp:114-131 | erases exactly the id's hash and closes exactly the handles of the removed entry |
| Cache.ConnectionCache.CloseAll | BleWinrtDll/cache.cpp:135-141 | closes every device and service handle of the cache exactly once and nothing else |
| Cache.ConnectionCache.ClearCache | BleWinrtDll/cache.cpp:133-144 | empties the cache and closes every cached device and service handle exactly once |
| Native.UserDescriptionLayout | BleWinrtDll/ble-winrt.cpp:174 | the 0x2901 UUID text becomes the GUID bytes `01 29 00 00 00 00 00 10 80 00 00 80 5F 9B 34 FB` |
| Native.FirstObserved | BleWinrtDll/ble-winrt.cpp:116-120 | the first iteration that sees the quit flag: none before it does |
| Native.FillServices | BleWinrtDll/ble-winrt.cpp:103-123 | the array has one slot per service; the slots before the first iteration that sees the flag hold the service uuids in order, and the rest are never written |
| Native.ServicesReport | BleWinrtDll/ble-winrt.cpp:83-133 | the count is the number of services found even when the loop stopped early; no device, an exception or a failed query report an empty array |
| Native.ServicesAfterQuit | BleWinrtDll/ble-winrt.cpp:116-122 | with the flag already set, no service slot is written, because the check comes before the store |
| Native.ServicesWithoutQuit | BleWinrtDll/ble-winrt.cpp:108-123 | without quit, slot k holds the uuid of service k |
| Native.DescriptionOf | BleWinrtDll/ble-winrt.cpp:174-180 | a characteristic without a User Description descriptor gets "no description available" |
| Native.ReadDescription | BleWinrtDll/ble-winrt.cpp:174-197 | the descriptor query and read give the description `DescriptionOf` defines |
| Native.ScanRecords | BleWinrtDll/ble-winrt.cpp:167-206 | the loop stores at most one record per characteristic it visits |
| Native.ScanStep | BleWinrtDll/ble-winrt.cpp:169-205 | one iteration stores at most the next slot and advances the record list as `ScanRecords` says |
| Native.FillCharacteristics | BleWinrtDll/ble-winrt.cpp:160-206 | the array has one slot per characteristic, and its first slots hold exactly the records `ScanRecords` defines |
| Native.CharacteristicsReport | BleWinrtDll/ble-winrt.cpp:135-215 | the count is the number of characteristics found; no service, an exception or a failed query report an empty array |
| Native.ScanRecordsAfterQuit | BleWinrtDll/ble-winrt.cpp:199-205 | with the flag already set, at most one record is stored, because the check comes after the store |
| Native.ScanRecordsPastQuit | BleWinrtDll/ble-winrt.cpp:199-205 | once the quit point is reached, the loop stores what it stores with the flag already set |
| Native.ScanRecordsQuitFrom | BleWinrtDll/ble-winrt.cpp:196-205 | quit requested at iteration q: the records are those of the loop without quit over the characteristics before q, followed (unless a descriptor scan threw before q) by at most one more, the first readable characteristic from q on |
| Native.ScanRecordsComplete | BleWinrtDll/ble-winrt.cpp:167-206 | without quit and with every description readable, record k describes characteristic k |
| Native.StartEffects | BleWinrtDll/ble-winrt.cpp:387-402 | a scan start creates the watcher first and starts it last; a previous watcher's handlers are revoked in between |
| Native.StopEffects | BleWinrtDll/ble-winrt.cpp:405-421 | stopping without a watcher does nothing; with one, the handlers are revoked and the watcher is stopped last |
| Native.NothingToRevoke | BleWinrtDll/ble-winrt.cpp:457-458 | revoking unarmed revokers has no effect |
| Native.Subscribed | BleWinrtDll/ble-winrt.cpp:221-234 | a subscription is added exactly when the characteristic was found and the notify write succeeded |
| Native.SubscribeEffects | BleWinrtDll/ble-winrt.cpp:222-238 | nothing happens for a missing characteristic, and the host callback fires only on success |
| Native.Bridge.constructor | BleWinrtDll/ble-winrt.cpp:13-31 | no callbacks, no watcher, quit flag clear, no subscriptions, an empty cache |
| Native.Bridge.StartDeviceScan | BleWinrtDll/ble-winrt.cpp:369-403 | clears the quit flag, stores the five callbacks and creates, wires and starts a new watcher |
| Native.Bridge.StopDeviceScan | BleWinrtDll/ble-winrt.cpp:405-421 | with a watcher: revoke its handlers, stop it, forget it; without one: nothing |
| Native.Bridge.OnEnumerationCompleted | BleWinrtDll/ble-winrt.cpp:347-353 | for the current watcher: stop the scan, then fire the completed callback |
| Native.Bridge.OnWatcherStopped | BleWinrtDll/ble-winrt.cpp:355-359 | fires the stopped callback only while the watcher's handlers are still registered |
| Native.Bridge.Revoke | BleWinrtDll/ble-winrt.cpp:458 | revoking a subscription does something only when its revoker is armed |
| Native.Bridge.Quit | BleWinrtDll/ble-winrt.cpp:447-465 | sets the flag, stops the scan, revokes and drops every subscription, then closes every cached device and service handle exactly once and empties the cache |
| Native.Bridge.DisconnectDevice | BleWinrtDll/ble-winrt.cpp:34-42 | removes the device's entry, closes exactly its handles, then reports the id to the callback; the quit flag, watcher, host callbacks, watcher count and subscriptions are untouched |
| Native.Bridge.ScanServicesAsync | BleWinrtDll/ble-winrt.cpp:83-133 | looks the device up through the cache and hands the callback `ServicesReport`; the quit flag, watcher, host callbacks, watcher count and subscriptions are untouched |
| Native.Bridge.ScanCharacteristicsAsync | BleWinrtDll/ble-winrt.cpp:135-215 | looks the service up through the cache and hands the callback `CharacteristicsReport`; the quit flag, watcher, host callbacks, watcher count and subscriptions are untouched |
| Native.Bridge.AddSubscription | BleWinrtDll/ble-winrt.cpp:222-238 | writes the notify descriptor and, on success, appends an unarmed subscription and fires the callback |
| Native.Bridge.SubscribeCharacteristicAsync | BleWinrtDll/ble-winrt.cpp:217-245 | looks the characteristic up through the cache, then subscribes as `Subscribed` and `SubscribeEffects` say; the quit flag, watcher, host callbacks and watcher count are untouched |
| Native.Bridge.CharacteristicValueChanged | BleWinrtDll/ble-winrt.cpp:424-444 | copies the value into the 512-byte buffer and records its length |
| HostBle.MacToString | DebugBle/BLE.cs:278-288 | the text of any 64-bit number has 17 characters (its layout is `MacToStringLayout`) |
| HostBle.X2 | DebugBle/BLE.cs:283 | two upper-case hex digits whose value is the byte |
| HostBle.JoinGroups | DebugBle/BLE.cs:280-284 | joined two-character groups sit at every third position with a colon between them |
| HostBle.MacToStringLowBytes | DebugBle/BLE.cs:280-285 | `Substring(6)` drops exactly the groups of bytes 7 and 6, leaving bytes 5 down to 0 |
| HostBle.MacToStringLayout | DebugBle/BLE.cs:278-288 | 17 characters: six upper-case hex groups separated by colons, group k being byte 5-k of the number |
| HostBle.MacToStringIgnoresTopBits | DebugBle/BLE.cs:281-285 | the text depends only on the low 48 bits |
| HostBle.MacAddressRoundTrip | DebugBle/BLE.cs:278-288 | `ConvertMacAddressToULong` reads the text back as the low 48 bits of the number (never the blank case), so it inverts `MacToString` on addresses below 2^48 |
| HostBle.Int16 | DebugBle/BLE.cs:242 | the `(short)` cast lands in the 16-bit range, congruent to its argument, and keeps values that fit |
| HostBle.Package | DebugBle/BLE.cs:240-247 | the buffer is 512 bytes, starts with the data, is zero after it, and the size is the data length |
| HostBle.WritePackage | DebugBle/BLE.cs:238-249 | data longer than 512 bytes runs the copy off the buffer (index error) and nothing is sent; otherwise `SendData` gets `Package` and its answer is returned |
| HostBle.ReadPackage | DebugBle/BLE.cs:251-263 | a polled package whose size exceeds 512 raises `ArgumentOutOfRangeException`; anything else passes |
| HostBle.WrittenPackageReadable | DebugBle/BLE.cs:238-263 | every package `WritePackage` sends passes the size check of `ReadPackage` |
| HostBle.Accepted | DebugBle/BLE.cs:213-219 | the accepted run from the start ends at the first refused characteristic |
| HostBle.Subscribe | DebugBle/BLE.cs:211-220 | true iff every characteristic is accepted (true for none); the bridge is asked for the characteristics up to and including the first refusal, and no later ones |
| HostBle.Ble.constructor | DebugBle/BLE.cs:129 | a new connection is not connected |
| HostBle.Ble.Connect | DebugBle/BLE.cs:222-236 | already connected: false and nothing else; otherwise true and connected exactly when the profile stage, every subscription and the subscribe stage succeed, else `ConnectionFailed` with the error text of the failing stage |
| HostBle.Ble.Close | DebugBle/BLE.cs:265-269 | asks the bridge to quit and clears the flag |
| HostBle.BleScan.constructor | DebugBle/BLE.cs:135 | a new scan handle is not cancelled |
| HostBle.BleScan.Cancel | DebugBle/BLE.cs:145-149 | sets `cancelled` and asks the bridge to stop the watcher |
| HostBle.ScanLoop | DebugBle/BLE.cs:172-189 | the loop reads polls until FINISHED or a set `cancelled`; each address is recorded once with name "" and not connectable, so `Found` is never invoked |
| HostBleWinrt.DecimalText | DebugBle/BleWinrt.cs:79 | the strength prints as at least one character: a leading minus exactly for negatives, decimal digits after it |
| HostBleWinrt.DecimalRoundTrip | DebugBle/BleWinrt.cs:78-79 | the decimal text of the signal strength, negative or not, reads back as the same number |
| HostBleWinrt.SignalSuffixReadsBack | DebugBle/BleWinrt.cs:78-79 | whatever precedes it, a text ending in " // " and a strength reads that strength back after the separator |
| HostBleWinrt.DeviceInfo.ToString | DebugBle/BleWinrt.cs:71-82 | the text starts with the id; a non-empty name follows as " / " and the name; a reported strength closes the text as " // " and its decimal text; the length is the id plus exactly those parts, so with neither the text is the id |
| HostBleWinrt.DeviceInfoUpdate.ToString | DebugBle/BleWinrt.cs:115-126 | as for `DeviceInfo`, with the name shown only when `namePresent` is set and it is non-empty: id, then " / " and the name, then " // " and the strength when reported, and nothing else |
| HostBleWinrt.UpdateFormatsAsInfo | DebugBle/BleWinrt.cs:115-126 | an update prints as the device record with the same id and signal, and with its name only when `namePresent` is set |
| HostBleWinrt.SignalReadsBack | DebugBle/BleWinrt.cs:78-79 | with a signal strength, the text ends with " // " and a number that reads back as that strength |
| HostBleWinrt.BleWinrt.constructor | DebugBle/BleWinrt.cs:167 | a new wrapper is not scanning and has called nothing |
| HostBleWinrt.BleWinrt.StartScan | DebugBle/BleWinrt.cs:169-178 | while scanning: nothing; otherwise sets the flag and calls the native start exactly once |
| HostBleWinrt.BleWinrt.Stop | DebugBle/BleWinrt.cs:180-186 | while idle: nothing; otherwise calls the native stop and leaves the flag set |
| HostBleWinrt.BleWinrt.InternalScanCompleted | DebugBle/BleWinrt.cs:188-195 | clears the flag, then relays to `ScanCompleted` if the host set it |
| HostBleWinrt.BleWinrt.InternalScanStopped | DebugBle/BleWinrt.cs:197-204 | clears the flag, then relays to `ScanStopped` if the host set it |

## Left out

- The WinRT calls are not modelled: device lookup, GATT queries, descriptor reads, notify writes and the device watcher. They appear only as answers fixed per argument (`Platform.Os`). Uncached enumeration queries are therefore not logged as effects.
- Exceptions thrown inside the cache lookups are left out; the lookups always complete. The enumerations do model an exception from the descriptor query or read, which ends the characteristic loop.
- `DisconnectDevice`: the `catch (std::exception&)` path that reports `nullptr` is left out. WinRT raises `hresult_error`, which that handler does not catch.
- Serialization.MakeGuid requires at most 32 hex digits. A longer text makes `make_guid` index past the end of `BYTE_ORDER`, which is undefined behaviour. The cache lookups and the bridge methods that call it inherit this requirement.
- Cache.Hash and Cache.Djb2: the hash of a `long` is taken modulo 2^32, as on Windows. A character outside the Basic Multilingual Plane counts as one unit, not as two UTF-16 surrogates.
- `cache.h` declares maps keyed by `guid` and lookups taking `uint64_t`/`guid`. The model follows the definitions in `cache.cpp`, which key every level by the djb2 hash of the text.
- The ordering of closes within one removal or clearing is not modelled: `std::map` iteration order is replaced by a multiset of closed handles.
- `ConnectDevice` is declared in `ble-winrt.h:47` but defined nowhere, so it is not part of this model. The same goes for the empty stubs `ReadBytes` and `WriteBytes`, the one-line forwarders `ScanServices`, `ScanCharacteristics` and `SubscribeCharacteristic`, and `ConnectAsync`.
- `SendDataAsync` and the watcher's `Added`/`Updated`/`Removed` handlers are left out. They only copy OS data into carriers and fire a callback.
- `convert_to_string` is left out: it calls `WideCharToMultiByte`.
- The fixed-size text copies (`wcscpy_s` into the carriers' `ID_SIZE` and `UUID_SIZE` arrays, `carriers.h:5-6`) are modelled as plain strings with no size limit. On a longer text (a user description past 127 characters, say) `wcscpy_s` does not truncate: it calls the invalid-parameter handler, which ends the process. That failure is not modelled.
- Serialization.ReadHexUInt64 reads the field as `strtoull` does in base 16. It counts only the ASCII white space (space, tab to carriage return) as skippable; other characters a wide stream's locale may class as space are not modelled. A `0x` with no hex digit after it reads 0, as a failed extraction does.
- Serialization.ConvertMacAddressToULong returns no value where the source returns its uninitialised `result` (a text that is blank once the colons are gone); the model does not say which number that is.
- Native.FillServices, Native.FillCharacteristics: array slots the loop never writes are `None`. In the source they are uninitialised memory.
- Native.Bridge.CharacteristicValueChanged requires a value of at most 512 bytes. The source copies `Length()` bytes unchecked. The buffer past `size` is not specified.
- HostBle.ScanLoop stops at the end of the loop. The `Finished` event raised after it (`BLE.cs:190`) and the reset of `scanThread` are not modelled; they only notify the host and end the thread.
- Threads, locks and concurrency are left out. `quitLock` is not modelled. A concurrent `Quit` is the input `quitFrom`. A concurrent `Cancel` is the per-iteration `cancelled` input of HostBle.ScanLoop.
- `ScanDevices`: the checks on `scanThread` (no nested scan, no scan while one runs) and the thread start are left out. `RetrieveProfile` is left out because it polls entry points the DLL does not export. `Connect` takes the outcome of `RetrieveProfile` as the `GetError` text reported after it.
- HostBle.Ble.Connect and HostBle.Subscribe: the bridge's subscribe answer is a function of the characteristic uuid only.
- P/Invoke marshalling, logging, `Console`/`Debug` output and the `Program.cs` demos are left out.
- HostBleWinrt.DecimalText: integers are formatted with the invariant culture, with '-' as the minus sign. The current culture is not modelled.
- HostBleWinrt.DeviceInfo.ToString treats a null name like an empty one (`string.IsNullOrEmpty`). Marshalled strings are never null here.
