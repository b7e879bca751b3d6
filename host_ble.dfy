/**
  The host library in BLE.cs: the printable form of a 48-bit device address,
  the fixed 512-byte data package, the blocking subscription loop, the
  connection flag and the de-duplicating device scan loop.
*/
module HostBle {
  import opened Wrappers
  import Serialization

  type Byte = Serialization.Byte

  /** Values of a C# `ulong`. */
  const UInt64Modulus: nat := 0x1_0000_0000_0000_0000

  /** Values of a 48-bit IEEE 802 address. */
  const MacModulus: nat := 0x1_0000_0000_0000

  // ------------------------------------------------------------ arithmetic

  function Pow256(k: nat): (p: nat)
    ensures p >= 1
  {
    if k == 0 then 1 else 256 * Pow256(k - 1)
  }

  /** Dividing by 256 and then by `p` is dividing by `256 * p`, and the remainders nest. */
  lemma DivModStep(n: nat, p: nat)
    requires p >= 1
    ensures n / (256 * p) == (n / 256) / p
    ensures n % (256 * p) == 256 * ((n / 256) % p) + n % 256
  {
    var q, r := n / 256, n % 256;
    var a, b := q / p, q % p;
    assert n == (256 * p) * a + (256 * b + r) by {
      assert n == 256 * q + r;
      assert q == p * a + b;
    }
    assert 256 * b + r < 256 * p by {
      assert b <= p - 1;
      assert 256 * b <= 256 * (p - 1);
    }
    Serialization.DivModUnique(n, 256 * p, a, 256 * b + r);
  }

  // ------------------------------------------------------------ MacToString

  /** `BitConverter.GetBytes`: the `k` low bytes of `n`, least significant first. */
  function LittleEndian(n: nat, k: nat): (bs: seq<Byte>)
    ensures |bs| == k
  {
    if k == 0 then [] else [n % 256] + LittleEndian(n / 256, k - 1)
  }

  /** Byte `i` of `n`, counting from the least significant. */
  function ByteOf(n: nat, i: nat): Byte
  {
    (n / Pow256(i)) % 256
  }

  function Reverse<T>(s: seq<T>): seq<T>
  {
    seq(|s|, i requires 0 <= i < |s| => s[|s| - 1 - i])
  }

  /** `ToString("X2")` uses upper-case digits. */
  function UpperHexChar(v: Serialization.Nibble): (c: char)
    ensures Serialization.HexValue(c) == Some(v)
    ensures c in "0123456789ABCDEF"
  {
    if v < 10 then ('0' as int + v) as char else ('A' as int + v - 10) as char
  }

  /** `b.ToString("X2")`: two upper-case hex digits, high nibble first. */
  function X2(b: Byte): (s: string)
    ensures |s| == 2 && s[0] in "0123456789ABCDEF" && s[1] in "0123456789ABCDEF"
    ensures 16 * Serialization.DigitValue(s[0]) + Serialization.DigitValue(s[1]) == b
  {
    [UpperHexChar(b / 16), UpperHexChar(b % 16)]
  }

  function Select(bs: seq<Byte>): seq<string>
  {
    seq(|bs|, i requires 0 <= i < |bs| => X2(bs[i]))
  }

  /** `string.Join(":", groups)`. */
  function Join(groups: seq<string>): string
  {
    if groups == [] then ""
    else if |groups| == 1 then groups[0]
    else Join(groups[..|groups| - 1]) + ":" + groups[|groups| - 1]
  }

  ghost predicate Pairs(groups: seq<string>)
  {
    forall i :: 0 <= i < |groups| ==> |groups[i]| == 2
  }

  lemma {:induction false} JoinLength(groups: seq<string>)
    requires |groups| >= 1 && Pairs(groups)
    ensures |Join(groups)| == 3 * |groups| - 1
    decreases |groups|
  {
    if |groups| > 1 {
      JoinLength(groups[..|groups| - 1]);
    }
  }

  /** Joined pairs: pair `k` at `3k`, a colon after every pair but the last. */
  lemma {:induction false} JoinPairs(groups: seq<string>)
    requires |groups| >= 1 && Pairs(groups)
    ensures |Join(groups)| == 3 * |groups| - 1
    ensures forall k :: 0 <= k < |groups| ==> Join(groups)[3 * k] == groups[k][0] && Join(groups)[3 * k + 1] == groups[k][1]
    ensures forall k :: 0 <= k < |groups| - 1 ==> Join(groups)[3 * k + 2] == ':'
    decreases |groups|
  {
    if |groups| > 1 {
      JoinPairs(groups[..|groups| - 1]);
    }
  }

  /** Dropping the first three characters drops the first pair and its colon. */
  lemma {:induction false} JoinDropFirst(groups: seq<string>)
    requires |groups| >= 2 && |groups[0]| == 2
    ensures |Join(groups)| >= 3 && Join(groups)[3..] == Join(groups[1..])
    decreases |groups|
  {
    var init := groups[..|groups| - 1];
    var last := groups[|groups| - 1];
    if |groups| == 2 {
      assert Join(groups) == groups[0] + ":" + last;
      assert groups[1..] == [last];
    } else {
      JoinDropFirst(init);
      assert groups[1..][..|groups[1..]| - 1] == init[1..];
      assert Join(groups)[3..] == Join(init)[3..] + ":" + last;
    }
  }

  /** `string.Join(":", …).Substring(6)` over the reversed eight little-endian bytes. */
  function MacToString(number: nat): (s: string)
    requires number < UInt64Modulus
    ensures |s| == 17
  {
    var groups := Select(Reverse(LittleEndian(number, 8)));
    JoinLength(groups);
    Join(groups)[6..]
  }

  lemma {:induction false} LittleEndianPrefix(n: nat, k: nat, j: nat)
    ensures LittleEndian(n, k + j)[..k] == LittleEndian(n, k)
    decreases k
  {
    if k > 0 {
      LittleEndianPrefix(n / 256, k - 1, j);
    }
  }

  lemma {:induction false} LittleEndianAt(n: nat, k: nat, i: nat)
    requires i < k
    ensures LittleEndian(n, k)[i] == ByteOf(n, i)
    decreases k
  {
    if i > 0 {
      LittleEndianAt(n / 256, k - 1, i - 1);
      DivModStep(n, Pow256(i - 1));
    }
  }

  lemma SelectReverseDrop(bs: seq<Byte>)
    requires |bs| >= 2
    ensures Select(Reverse(bs))[2..] == Select(Reverse(bs[..|bs| - 2]))
  {
    var a := Select(Reverse(bs))[2..];
    var b := Select(Reverse(bs[..|bs| - 2]));
    assert |a| == |b|;
    forall i | 0 <= i < |a|
      ensures a[i] == b[i]
    {
      assert Reverse(bs)[i + 2] == bs[|bs| - 3 - i] == Reverse(bs[..|bs| - 2])[i];
    }
  }

  /** The two groups `Substring(6)` drops are bytes 7 and 6; the rest are bytes 5..0. */
  lemma MacToStringLowBytes(n: nat)
    requires n < UInt64Modulus
    ensures MacToString(n) == Join(Select(Reverse(LittleEndian(n, 6))))
  {
    var groups := Select(Reverse(LittleEndian(n, 8)));
    JoinLength(groups);
    JoinDropFirst(groups);
    JoinDropFirst(groups[1..]);
    assert Join(groups)[6..] == Join(groups)[3..][3..];
    assert groups[1..][1..] == groups[2..];
    LittleEndianPrefix(n, 6, 2);
    SelectReverseDrop(LittleEndian(n, 8));
  }

  /** Joined pairs, read back as slices. */
  lemma JoinGroups(groups: seq<string>)
    requires |groups| >= 1 && Pairs(groups)
    ensures |Join(groups)| == 3 * |groups| - 1
    ensures forall k :: 0 <= k < |groups| ==> Join(groups)[3 * k..3 * k + 2] == groups[k]
    ensures forall k :: 0 <= k < |groups| - 1 ==> Join(groups)[3 * k + 2] == ':'
  {
    JoinPairs(groups);
    var s := Join(groups);
    forall k | 0 <= k < |groups|
      ensures s[3 * k..3 * k + 2] == groups[k]
    {
      assert s[3 * k..3 * k + 2] == [groups[k][0], groups[k][1]];
    }
  }

  /**
    Seventeen characters: six two-digit groups joined by colons, the group at
    `3k` being byte `5 - k` of the number in upper-case hex (`X2`).
  */
  lemma MacToStringLayout(n: nat)
    requires n < UInt64Modulus
    ensures |MacToString(n)| == 17
    ensures forall k :: 0 <= k < 6 ==> MacToString(n)[3 * k..3 * k + 2] == X2(ByteOf(n, 5 - k))
    ensures forall k :: 0 <= k < 5 ==> MacToString(n)[3 * k + 2] == ':'
  {
    MacToStringLowBytes(n);
    var s := MacToString(n);
    var groups := Select(Reverse(LittleEndian(n, 6)));
    JoinGroups(groups);
    forall k | 0 <= k < 6
      ensures s[3 * k..3 * k + 2] == X2(ByteOf(n, 5 - k))
    {
      LittleEndianAt(n, 6, 5 - k);
      assert s[3 * k..3 * k + 2] == groups[k];
    }
  }

  lemma {:induction false} LittleEndianMod(n: nat, k: nat)
    ensures LittleEndian(n % Pow256(k), k) == LittleEndian(n, k)
    decreases k
  {
    if k > 0 {
      var p := Pow256(k - 1);
      var m := n % (256 * p);
      DivModStep(n, p);
      Serialization.DivModUnique(m, 256, (n / 256) % p, n % 256);
      LittleEndianMod(n / 256, k - 1);
    }
  }

  /** Only the low 48 bits of the number reach the text. */
  lemma MacToStringIgnoresTopBits(n: nat)
    requires n < UInt64Modulus
    ensures MacToString(n) == MacToString(n % MacModulus)
  {
    assert Pow256(6) == MacModulus;
    MacToStringLowBytes(n);
    MacToStringLowBytes(n % MacModulus);
    LittleEndianMod(n, 6);
  }

  /** Concatenation of groups. */
  function Concat(groups: seq<string>): string
  {
    if groups == [] then "" else Concat(groups[..|groups| - 1]) + groups[|groups| - 1]
  }

  /** Removing the colons from joined groups leaves the groups run together. */
  lemma {:induction false} StripJoin(groups: seq<string>)
    requires forall i :: 0 <= i < |groups| ==> ':' !in groups[i]
    ensures Serialization.StripColons(Join(groups)) == Concat(groups)
    decreases |groups|
  {
    if |groups| == 1 {
      Serialization.StripColonsNoColon(groups[0]);
      assert Concat(groups) == Concat([]) + groups[0];
    } else if |groups| > 1 {
      var init := groups[..|groups| - 1];
      var last := groups[|groups| - 1];
      StripJoin(init);
      Serialization.StripColonsConcat(Join(init) + ":", last);
      Serialization.StripColonsConcat(Join(init), ":");
      Serialization.StripColonsNoColon(last);
      assert Serialization.StripColons(":") == [] by {
        assert ":"[..0] == [];
      }
    }
  }

  /** The byte string read most significant byte first. */
  function BigEndianValue(bs: seq<Byte>): nat
  {
    if bs == [] then 0 else BigEndianValue(bs[..|bs| - 1]) * 256 + bs[|bs| - 1]
  }

  lemma {:induction false} HexOfBytes(bs: seq<Byte>)
    ensures |Concat(Select(bs))| == 2 * |bs|
    ensures Serialization.AllHex(Concat(Select(bs)))
    ensures Serialization.HexNumber(Concat(Select(bs))) == BigEndianValue(bs)
    decreases |bs|
  {
    if bs != [] {
      var init := bs[..|bs| - 1];
      var g := X2(bs[|bs| - 1]);
      assert Select(bs)[..|bs| - 1] == Select(init);
      HexOfBytes(init);
      assert Concat(Select(bs)) == Concat(Select(init)) + [g[0], g[1]];
      Serialization.HexNumberAppendPair(Concat(Select(init)), g[0], g[1]);
    }
  }

  lemma {:induction false} BigEndianOfReversed(n: nat, k: nat)
    ensures BigEndianValue(Reverse(LittleEndian(n, k))) == n % Pow256(k)
    decreases k
  {
    if k > 0 {
      var rest := Reverse(LittleEndian(n / 256, k - 1));
      assert Reverse(LittleEndian(n, k)) == rest + [n % 256];
      assert (rest + [n % 256])[..|rest|] == rest;
      BigEndianOfReversed(n / 256, k - 1);
      DivModStep(n, Pow256(k - 1));
    }
  }

  /**
    `ConvertMacAddressToULong` reads the text back as the low 48 bits of the
    number, so it inverts `MacToString` on 48-bit addresses.
  */
  lemma MacAddressRoundTrip(n: nat)
    requires n < UInt64Modulus
    ensures Serialization.ReadHexUInt64(Serialization.StripColons(MacToString(n))) == Some(n % MacModulus)
    ensures n < MacModulus ==> Serialization.ReadHexUInt64(Serialization.StripColons(MacToString(n))) == Some(n)
  {
    var bytes := Reverse(LittleEndian(n, 6));
    MacToStringLowBytes(n);
    StripJoin(Select(bytes));
    var text := Concat(Select(bytes));
    assert Serialization.StripColons(MacToString(n)) == text;
    HexOfBytes(bytes);
    BigEndianOfReversed(n, 6);
    assert Pow256(6) == MacModulus;
    var v := n % MacModulus;
    assert Serialization.HexNumber(text) == v <= Serialization.UInt64Max;
    Serialization.ReadPlainHex(text);
    if n < MacModulus {
      Serialization.DivModUnique(n, MacModulus, 0, n);
    }
  }

  // ------------------------------------------------------------ packages

  /** The exceptions the host library lets escape. */
  datatype HostError =
    | IndexOutOfRange
    | ArgumentOutOfRange
    | ConnectionFailed(message: string)

  /** The fixed size of `BLEData.buf`. */
  const PackageSize: nat := 512

  /** `BLEData` as the host marshals it. */
  datatype BleData = BleData(
    deviceId: string, serviceUuid: string, characteristicUuid: string,
    buf: seq<Byte>, size: int)

  /** The `(short)` cast: two's-complement wrap into 16 bits. */
  function Int16(n: int): (r: int)
    ensures -0x8000 <= r < 0x8000
    ensures (r - n) % 0x1_0000 == 0
  {
    (n + 0x8000) % 0x1_0000 - 0x8000
  }

  /** The package `WritePackage` hands to `SendData` when the data fits. */
  function Package(deviceId: string, serviceUuid: string, characteristicUuid: string, data: seq<Byte>): (p: BleData)
    requires |data| <= PackageSize
    ensures |p.buf| == PackageSize && p.size == |data|
    ensures p.buf[..|data|] == data
    ensures forall i :: |data| <= i < PackageSize ==> p.buf[i] == 0
  {
    BleData(deviceId, serviceUuid, characteristicUuid,
            data + seq(PackageSize - |data|, _ => 0), Int16(|data|))
  }

  /**
    Copies the data into a zeroed 512-byte buffer and sends it; data longer
    than the buffer runs the copy off its end.
  */
  method WritePackage(deviceId: string, serviceUuid: string, characteristicUuid: string,
                      data: seq<Byte>, sendData: BleData -> bool)
    returns (r: Result<bool, HostError>)
    ensures r.Err? <==> |data| > PackageSize
    ensures r.Err? ==> r.error == IndexOutOfRange
    ensures r.Ok? ==> r.value == sendData(Package(deviceId, serviceUuid, characteristicUuid, data))
  {
    var buf := new Byte[PackageSize](_ => 0);
    var size := Int16(|data|);
    var i := 0;
    while i < |data|
      invariant 0 <= i <= |data| && i <= buf.Length
      invariant buf[..i] == data[..i]
      invariant forall j :: i <= j < buf.Length ==> buf[j] == 0
    {
      if i >= buf.Length {
        return Err(IndexOutOfRange);
      }
      buf[i] := data[i];
      i := i + 1;
    }
    assert buf[..] == data + seq(PackageSize - |data|, _ => 0) by {
      assert buf[..][..|data|] == data[..i];
    }
    var sent := sendData(BleData(deviceId, serviceUuid, characteristicUuid, buf[..], size));
    return Ok(sent);
  }

  /**
    The check on a polled package: `received` is `None` when nothing was
    polled, and a package announcing more than 512 bytes is refused.
  */
  function ReadPackage(received: Option<BleData>): (r: Result<Option<BleData>, HostError>)
    ensures r.Err? <==> received.Some? && received.value.size > PackageSize
    ensures r.Err? ==> r.error == ArgumentOutOfRange
    ensures r.Ok? ==> r.value == received
  {
    if received.Some? && received.value.size > PackageSize then Err(ArgumentOutOfRange)
    else Ok(received)
  }

  /** Every package `WritePackage` sends passes the size check of `ReadPackage`. */
  lemma WrittenPackageReadable(deviceId: string, serviceUuid: string, characteristicUuid: string, data: seq<Byte>)
    requires |data| <= PackageSize
    ensures ReadPackage(Some(Package(deviceId, serviceUuid, characteristicUuid, data))).Ok?
  {
  }

  // ------------------------------------------------------------ subscribing

  /** How many characteristics in a row the bridge accepts from the start. */
  function Accepted(uuids: seq<string>, subscribe: string -> bool): (k: nat)
    ensures k <= |uuids|
    ensures forall i :: 0 <= i < k ==> subscribe(uuids[i])
    ensures k < |uuids| ==> !subscribe(uuids[k])
  {
    if uuids == [] || !subscribe(uuids[0]) then 0 else 1 + Accepted(uuids[1..], subscribe)
  }

  /**
    Subscribes to each characteristic in turn and gives up at the first
    refusal. `subscribe` is the bridge's blocking answer for one
    characteristic; `tried` lists the characteristics it was asked for.
  */
  method Subscribe(deviceId: string, serviceUuid: string, characteristicUuids: seq<string>,
                   subscribe: string -> bool)
    returns (ok: bool, ghost tried: seq<string>)
    ensures ok <==> forall i :: 0 <= i < |characteristicUuids| ==> subscribe(characteristicUuids[i])
    ensures tried == characteristicUuids[..if ok then |characteristicUuids| else Accepted(characteristicUuids, subscribe) + 1]
  {
    tried := [];
    for i := 0 to |characteristicUuids|
      invariant tried == characteristicUuids[..i]
      invariant forall j :: 0 <= j < i ==> subscribe(characteristicUuids[j])
    {
      tried := tried + [characteristicUuids[i]];
      var res := subscribe(characteristicUuids[i]);
      if !res {
        AcceptedStops(characteristicUuids, subscribe, i);
        return false, tried;
      }
    }
    return true, tried;
  }

  /** The first refusal is where the accepted run ends. */
  lemma {:induction false} AcceptedStops(uuids: seq<string>, subscribe: string -> bool, i: nat)
    requires i < |uuids| && !subscribe(uuids[i])
    requires forall j :: 0 <= j < i ==> subscribe(uuids[j])
    ensures Accepted(uuids, subscribe) == i
    decreases i
  {
    if i > 0 {
      AcceptedStops(uuids[1..], subscribe, i - 1);
    }
  }

  // ------------------------------------------------------------ connection flag

  /** The answer the bridge's `GetError` gives when nothing went wrong. */
  const NoError: string := "Ok"

  const FailurePrefix: string := "Connection failed: "

  class Ble {
    var isConnected: bool
    /** How many times `Close` asked the bridge to quit. */
    ghost var quits: nat

    constructor ()
      ensures !isConnected && quits == 0
    {
      isConnected := false;
      quits := 0;
    }

    /**
      Retrieves the profile, then subscribes to the characteristics; either
      stage reporting an error raises `ConnectionFailed`. `profileError` and
      `subscribeError` are what `GetError` answers after each stage.
    */
    method Connect(deviceId: string, serviceUuid: string, characteristicUuids: seq<string>,
                   profileError: string, subscribe: string -> bool, subscribeError: string)
      returns (r: Result<bool, HostError>)
      modifies this`isConnected
      ensures old(isConnected) ==> r == Ok(false)
      ensures !old(isConnected) ==>
        (r == Ok(true) <==>
          profileError == NoError && subscribeError == NoError &&
          forall i :: 0 <= i < |characteristicUuids| ==> subscribe(characteristicUuids[i]))
      ensures !old(isConnected) && r.Err? ==>
        r.error == ConnectionFailed(FailurePrefix + (if profileError != NoError then profileError else subscribeError))
      ensures !old(isConnected) ==> r != Ok(false)
      ensures isConnected <==> old(isConnected) || r == Ok(true)
    {
      if isConnected {
        return Ok(false);
      }
      if profileError != NoError {
        return Err(ConnectionFailed(FailurePrefix + profileError));
      }
      var result, _ := Subscribe(deviceId, serviceUuid, characteristicUuids, subscribe);
      if subscribeError != NoError || !result {
        return Err(ConnectionFailed(FailurePrefix + subscribeError));
      }
      isConnected := true;
      return Ok(true);
    }

    method Close()
      modifies this
      ensures !isConnected && quits == old(quits) + 1
    {
      quits := quits + 1;
      isConnected := false;
    }
  }

  // ------------------------------------------------------------ device scan

  /** One answer of the blocking device poll. */
  datatype Poll = Finished | Update(mac: nat, name: string)

  /**
    The loop leaves after poll `j`: on FINISHED, or when the `cancelled`
    flag it reads after handling the update is set.
  */
  predicate Stops(polls: seq<Poll>, cancelled: nat -> bool, j: nat)
    requires j < |polls|
  {
    polls[j].Finished? || cancelled(j)
  }

  /** The addresses seen in the first `n` polls. */
  ghost function Seen(polls: seq<Poll>, n: nat): set<nat>
    requires n <= |polls|
  {
    set k | 0 <= k < n && polls[k].Update? :: polls[k].mac
  }

  class BleScan {
    var cancelled: bool
    /** How many times `Cancel` asked the bridge to stop the watcher. */
    ghost var stopRequests: nat

    constructor ()
      ensures !cancelled && stopRequests == 0
    {
      cancelled := false;
      stopRequests := 0;
    }

    method Cancel()
      modifies this
      ensures cancelled && stopRequests == old(stopRequests) + 1
    {
      cancelled := true;
      stopRequests := stopRequests + 1;
    }
  }

  /**
    The scan thread's loop. `polls` are the poll answers in order and
    `cancelled(j)` is the flag as the loop reads it after poll `j`. Each
    address is recorded once, with an empty name and as not connectable;
    `found` logs the `Found` invocations, `handled` counts the polls read.
  */
  method ScanLoop(polls: seq<Poll>, cancelled: nat -> bool)
    returns (deviceMacs: set<nat>, deviceName: map<nat, string>,
             deviceIsConnectable: map<nat, bool>, found: seq<(nat, string)>, handled: nat)
    requires exists j :: 0 <= j < |polls| && Stops(polls, cancelled, j)
    ensures 0 < handled <= |polls| && Stops(polls, cancelled, handled - 1)
    ensures forall j :: 0 <= j < handled - 1 ==> !Stops(polls, cancelled, j)
    ensures deviceMacs == Seen(polls, handled)
    ensures deviceName == map m | m in deviceMacs :: ""
    ensures deviceIsConnectable == map m | m in deviceMacs :: false
    ensures found == []
  {
    deviceMacs, deviceName, deviceIsConnectable, found := {}, map[], map[], [];
    var j := 0;
    while true
      invariant j < |polls|
      invariant forall k :: 0 <= k < j ==> !Stops(polls, cancelled, k)
      invariant deviceMacs == Seen(polls, j)
      invariant deviceName == map m | m in deviceMacs :: ""
      invariant deviceIsConnectable == map m | m in deviceMacs :: false
      invariant found == []
      decreases |polls| - j
    {
      if polls[j].Finished? {
        return deviceMacs, deviceName, deviceIsConnectable, found, j + 1;
      }
      var mac := polls[j].mac;
      if mac !in deviceMacs {
        deviceMacs := deviceMacs + {mac};
        deviceName := deviceName[mac := ""];
        deviceIsConnectable := deviceIsConnectable[mac := false];
      }
      assert deviceMacs == Seen(polls, j + 1);
      var name := deviceName[mac];
      if deviceIsConnectable[mac] {
        found := found + [(mac, name)];
      }
      if cancelled(j) {
        return deviceMacs, deviceName, deviceIsConnectable, found, j + 1;
      }
      j := j + 1;
    }
  }
}
