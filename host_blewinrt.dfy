/**
  The host-side wrapper of the bridge in BleWinrt.cs: the `is_scanning`
  flag that guards the native scan calls, the two relays the bridge calls
  back, and the `ToString` formatters of the device records.
*/
module HostBleWinrt {

  // ------------------------------------------------------------ decimal text

  function DigitChar(d: nat): (c: char)
    requires d < 10
    ensures '0' <= c <= '9'
  {
    ('0' as int + d) as char
  }

  /** Decimal digits of a natural number, most significant first, no leading zeros. */
  function NatText(n: nat): (s: string)
    ensures |s| >= 1
    ensures forall i :: 0 <= i < |s| ==> '0' <= s[i] <= '9'
    ensures n >= 10 ==> s[0] != '0'
    decreases n
  {
    if n < 10 then [DigitChar(n)] else NatText(n / 10) + [DigitChar(n % 10)]
  }

  /** `int.ToString()` with the invariant culture: a minus sign for negatives, then the digits. */
  function DecimalText(n: int): (s: string)
    ensures |s| >= 1
    ensures n < 0 <==> s[0] == '-'
    ensures forall i :: (if n < 0 then 1 else 0) <= i < |s| ==> '0' <= s[i] <= '9'
  {
    if n < 0 then "-" + NatText(-n) else NatText(n)
  }

  /** Reads a run of decimal digits. */
  function ParseNat(s: string): nat
  {
    if s == [] then 0
    else ParseNat(s[..|s| - 1]) * 10 + (if '0' <= s[|s| - 1] <= '9' then s[|s| - 1] as int - '0' as int else 0)
  }

  function ParseDecimal(s: string): int
  {
    if |s| > 0 && s[0] == '-' then 0 - ParseNat(s[1..]) as int else ParseNat(s)
  }

  lemma {:induction false} ParseNatText(n: nat)
    ensures ParseNat(NatText(n)) == n
    decreases n
  {
    if n >= 10 {
      var s := NatText(n);
      assert s[..|s| - 1] == NatText(n / 10);
      ParseNatText(n / 10);
    }
  }

  /** The signal strength printed by the formatters reads back as the same number. */
  lemma DecimalRoundTrip(n: int)
    ensures ParseDecimal(DecimalText(n)) == n
  {
    if n < 0 {
      assert DecimalText(n)[1..] == NatText(-n);
      ParseNatText(-n);
    } else {
      ParseNatText(n);
    }
  }

  // ------------------------------------------------------------ device records

  const NameSeparator: string := " / "
  const SignalSeparator: string := " // "

  /** A device the watcher added, as marshalled into the host. */
  datatype DeviceInfo = DeviceInfo(
    id: string, name: string, mac: nat,
    signalStrength: int, signalStrengthPresent: bool,
    isConnected: bool, isConnectedPresent: bool,
    isConnectable: bool, isConnectablePresented: bool)
  {
    /** The id, then " / name" when there is a name, then " // strength" when one was reported. */
    function ToString(): (s: string)
      ensures |s| >= |id| && s[..|id|] == id
      // a name follows the id after " / "
      ensures name != "" ==>
        |s| >= |id| + |NameSeparator| + |name| &&
        s[|id|..|id| + |NameSeparator| + |name|] == NameSeparator + name
      // without a name the signal part, if any, follows the id directly
      ensures name == "" && signalStrengthPresent ==>
        |s| >= |id| + |SignalSeparator| && s[|id|..|id| + |SignalSeparator|] == SignalSeparator
      ensures name == "" && !signalStrengthPresent ==> s == id
      // a reported strength closes the text, right after the name part
      ensures signalStrengthPresent ==>
        var t := SignalSeparator + DecimalText(signalStrength);
        |s| >= |t| && s[|s| - |t|..] == t
      ensures |s| == |id| + (if name != "" then |NameSeparator| + |name| else 0) +
        (if signalStrengthPresent then |SignalSeparator| + |DecimalText(signalStrength)| else 0)
    {
      id +
      (if name != "" then NameSeparator + name else "") +
      (if signalStrengthPresent then SignalSeparator + DecimalText(signalStrength) else "")
    }
  }

  /** An update or removal of a device, as marshalled into the host. */
  datatype DeviceInfoUpdate = DeviceInfoUpdate(
    id: string, name: string, namePresent: bool,
    signalStrength: int, signalStrengthPresent: bool,
    isConnected: bool, isConnectedUpdated: bool,
    isConnectable: bool, isConnectableUpdated: bool)
  {
    /** As `DeviceInfo.ToString`, but the name only counts when `namePresent` is set. */
    function ToString(): (s: string)
      ensures |s| >= |id| && s[..|id|] == id
      // a name the update carries follows the id after " / "
      ensures namePresent && name != "" ==>
        |s| >= |id| + |NameSeparator| + |name| &&
        s[|id|..|id| + |NameSeparator| + |name|] == NameSeparator + name
      // an absent or empty name is not shown: the signal part, if any, follows the id directly
      ensures !(namePresent && name != "") && signalStrengthPresent ==>
        |s| >= |id| + |SignalSeparator| && s[|id|..|id| + |SignalSeparator|] == SignalSeparator
      ensures !(namePresent && name != "") && !signalStrengthPresent ==> s == id
      // a reported strength closes the text, right after the name part
      ensures signalStrengthPresent ==>
        var t := SignalSeparator + DecimalText(signalStrength);
        |s| >= |t| && s[|s| - |t|..] == t
      ensures |s| == |id| + (if namePresent && name != "" then |NameSeparator| + |name| else 0) +
        (if signalStrengthPresent then |SignalSeparator| + |DecimalText(signalStrength)| else 0)
    {
      id +
      (if namePresent && name != "" then NameSeparator + name else "") +
      (if signalStrengthPresent then SignalSeparator + DecimalText(signalStrength) else "")
    }
  }

  /**
    An update prints as a device record with the same id and signal and with
    its name, or with no name when the update carries none.
  */
  lemma UpdateFormatsAsInfo(u: DeviceInfoUpdate, mac: nat)
    ensures u.ToString() ==
      DeviceInfo(u.id, if u.namePresent then u.name else "", mac,
                 u.signalStrength, u.signalStrengthPresent,
                 u.isConnected, u.isConnectedUpdated, u.isConnectable, u.isConnectableUpdated).ToString()
  {
  }

  /** A text that ends with " // " and the decimal text of `n` reads back `n` after the separator. */
  lemma SignalSuffixReadsBack(s: string, n: int)
    requires var t := SignalSeparator + DecimalText(n); |s| >= |t| && s[|s| - |t|..] == t
    ensures var t := SignalSeparator + DecimalText(n); ParseDecimal(s[|s| - |t| + |SignalSeparator|..]) == n
  {
    var d := DecimalText(n);
    var t := SignalSeparator + d;
    assert s[|s| - |t| + |SignalSeparator|..] == t[|SignalSeparator|..] == d;
    DecimalRoundTrip(n);
  }

  /** When a strength was reported, the text ends with " // " and a number that reads back as it. */
  lemma SignalReadsBack(info: DeviceInfo)
    requires info.signalStrengthPresent
    ensures var s := info.ToString();
      var t := SignalSeparator + DecimalText(info.signalStrength);
      |s| >= |t| && s[|s| - |t|..] == t &&
      ParseDecimal(s[|s| - |t| + |SignalSeparator|..]) == info.signalStrength
  {
    SignalSuffixReadsBack(info.ToString(), info.signalStrength);
  }

  // ------------------------------------------------------------ the scan flag

  /** A call the wrapper makes: into the bridge, or to a host handler. */
  datatype HostCall =
    | NativeStartDeviceScan
    | NativeStopDeviceScan
    | RelayScanCompleted
    | RelayScanStopped

  class BleWinrt {
    var isScanning: bool
    /** Whether the host set `ScanCompleted` / `ScanStopped`. */
    var scanCompletedSet: bool
    var scanStoppedSet: bool
    ghost var calls: seq<HostCall>

    constructor (scanCompletedSet: bool, scanStoppedSet: bool)
      ensures !isScanning && calls == []
      ensures this.scanCompletedSet == scanCompletedSet && this.scanStoppedSet == scanStoppedSet
    {
      isScanning := false;
      this.scanCompletedSet := scanCompletedSet;
      this.scanStoppedSet := scanStoppedSet;
      calls := [];
    }

    /** Starts the native scan unless one is already running. */
    method StartScan()
      modifies this`isScanning, this`calls
      ensures isScanning
      ensures calls == old(calls) + (if old(isScanning) then [] else [NativeStartDeviceScan])
    {
      if isScanning {
        return;
      }
      isScanning := true;
      calls := calls + [NativeStartDeviceScan];
    }

    /** Asks the bridge to stop; the flag stays set until a relay clears it. */
    method Stop()
      modifies this`calls
      ensures calls == old(calls) + (if old(isScanning) then [NativeStopDeviceScan] else [])
    {
      if !isScanning {
        return;
      }
      calls := calls + [NativeStopDeviceScan];
    }

    method InternalScanCompleted()
      modifies this`isScanning, this`calls
      ensures !isScanning
      ensures calls == old(calls) + (if scanCompletedSet then [RelayScanCompleted] else [])
    {
      isScanning := false;
      if scanCompletedSet {
        calls := calls + [RelayScanCompleted];
      }
    }

    method InternalScanStopped()
      modifies this`isScanning, this`calls
      ensures !isScanning
      ensures calls == old(calls) + (if scanStoppedSet then [RelayScanStopped] else [])
    {
      isScanning := false;
      if scanStoppedSet {
        calls := calls + [RelayScanStopped];
      }
    }
  }
}
