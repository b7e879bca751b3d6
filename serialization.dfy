/**
  The identifier codec of the native bridge (BleWinrtDll/serialization.cpp):
  `make_guid`, which reads the hex digits of a UUID text into the 16-byte
  Windows GUID layout, and `ConvertMacAddressToULong`, which drops the colons
  of a MAC text and reads the rest as a hexadecimal number.
*/
module Serialization {
  import opened Wrappers

  /** One byte of the `to_guid` buffer (`uint8_t`). */
  type Byte = x: int | 0 <= x < 256

  /** The value of one hex digit. */
  type Nibble = x: int | 0 <= x < 16

  /** An index into the 16-byte GUID buffer. */
  type ByteIndex = x: int | 0 <= x < 16

  /** Text handed over as a `wchar_t*`: the characters before the terminating NUL. */
  type CText = s: string | forall i :: 0 <= i < |s| ==> s[i] != '\0'

  /** `BYTE_ORDER`: the first three GUID fields are stored byte-reversed. */
  const ByteOrder: seq<ByteIndex> := [3, 2, 1, 0, 5, 4, 7, 6, 8, 9, 10, 11, 12, 13, 14, 15]

  const UInt64Max: nat := 0xFFFF_FFFF_FFFF_FFFF

  // ---------------------------------------------------------------- hex digits

  /** The value `make_guid` gives a character: '0'-'9', 'A'-'F' and 'a'-'f' are digits, anything else is skipped. */
  function HexValue(c: char): Option<Nibble>
  {
    if '0' <= c <= '9' then Some(c as int - '0' as int)
    else if 'A' <= c <= 'F' then Some(10 + c as int - 'A' as int)
    else if 'a' <= c <= 'f' then Some(10 + c as int - 'a' as int)
    else None
  }

  /** The hex digits of `s`, in order, with every other character dropped. */
  function HexDigits(s: string): (d: seq<Nibble>)
    ensures |d| <= |s|
  {
    if s == [] then []
    else
      var rest := HexDigits(s[..|s| - 1]);
      match HexValue(s[|s| - 1])
      case Some(v) => rest + [v]
      case None => rest
  }

  lemma {:induction false} HexDigitsConcat(a: string, b: string)
    ensures HexDigits(a + b) == HexDigits(a) + HexDigits(b)
    decreases |b|
  {
    if b == [] {
      assert a + b == a;
    } else {
      var b' := b[..|b| - 1];
      assert (a + b)[..|a + b| - 1] == a + b';
      assert (a + b)[|a + b| - 1] == b[|b| - 1];
      HexDigitsConcat(a, b');
    }
  }

  /** A character that is not a hex digit (a hyphen, a brace, a space) changes nothing, wherever it stands. */
  lemma SeparatorIgnored(a: string, c: char, b: string)
    requires HexValue(c).None?
    ensures HexDigits(a + [c] + b) == HexDigits(a + b)
  {
    HexDigitsConcat(a + [c], b);
    HexDigitsConcat(a, [c]);
    HexDigitsConcat(a, b);
    assert [c][..0] == [];
  }

  /** ASCII upper case to lower case. */
  function ToLower(c: char): char
  {
    if 'A' <= c <= 'Z' then (c as int + 32) as char else c
  }

  /** Upper- and lower-case hex letters have the same value. */
  lemma HexValueCaseInsensitive(c: char)
    ensures HexValue(ToLower(c)) == HexValue(c)
  {
  }

  function LowerAll(s: string): (r: string)
    ensures |r| == |s|
  {
    seq(|s|, i requires 0 <= i < |s| => ToLower(s[i]))
  }

  /** Reading a text and reading its lower-cased copy give the same digits. */
  lemma {:induction false} HexDigitsCaseInsensitive(s: string)
    ensures HexDigits(LowerAll(s)) == HexDigits(s)
    decreases |s|
  {
    if s != [] {
      var s' := s[..|s| - 1];
      assert LowerAll(s)[..|s| - 1] == LowerAll(s');
      HexValueCaseInsensitive(s[|s| - 1]);
      HexDigitsCaseInsensitive(s');
    }
  }

  // ---------------------------------------------------------------- GUID layout

  lemma ByteOrderInvolution()
    ensures forall j: ByteIndex :: ByteOrder[ByteOrder[j]] == j
  {
    forall j: ByteIndex ensures ByteOrder[ByteOrder[j]] == j {
      if j < 8 {
        if j < 4 { assert ByteOrder[j] == 3 - j; } else if j < 6 { assert ByteOrder[j] == 9 - j; }
        else { assert ByteOrder[j] == 13 - j; }
      } else {
        assert ByteOrder[j] == j;
      }
    }
  }

  /** Digit k of `d`, or 0 past its end: the buffer is zeroed before any digit is added. */
  function NibbleAt(d: seq<Nibble>, k: nat): Nibble
  {
    if k < |d| then d[k] else 0
  }

  /**
    The 16 bytes that digits `d` produce: byte p holds the two digits whose
    pair index k / 2 is sent to p by `ByteOrder`. `ByteOrder` is its own
    inverse, so that pair index is `ByteOrder[p]`.
  */
  function Guid(d: seq<Nibble>): (g: seq<Byte>)
    ensures |g| == 16
    // with no digit every byte keeps the zero it was cleared to
    ensures d == [] ==> forall p :: 0 <= p < 16 ==> g[p] == 0
  {
    seq(16, p requires 0 <= p < 16 => 16 * NibbleAt(d, 2 * (ByteOrder[p] as int)) + NibbleAt(d, 2 * (ByteOrder[p] as int) + 1))
  }

  /**
    Digit k goes into byte `ByteOrder[k / 2]`: the high nibble for even k, the
    low nibble for odd k, and bytes no digit reached stay 0.
  */
  lemma DigitPlacement(d: seq<Nibble>, k: nat)
    requires k < |d| <= 32
    ensures var b := Guid(d)[ByteOrder[k / 2]];
      if k % 2 == 0 then b / 16 == d[k] else b % 16 == d[k]
  {
    ByteOrderInvolution();
  }

  lemma UnreachedBytesZero(d: seq<Nibble>, p: ByteIndex)
    requires |d| <= 2 * (ByteOrder[p] as int)
    ensures Guid(d)[p] == 0
  {
  }

  /** Adding digit v at offset |d| adds `v << 4` or `v` to byte `ByteOrder[|d| / 2]` and cannot carry. */
  lemma {:induction false} GuidAppend(d: seq<Nibble>, v: Nibble)
    requires |d| < 32
    ensures var p := ByteOrder[|d| / 2];
      Guid(d)[p] + (if |d| % 2 == 0 then 16 * v else v) < 256 &&
      Guid(d + [v]) == Guid(d)[p := Guid(d)[p] + (if |d| % 2 == 0 then 16 * v else v)]
  {
    ByteOrderInvolution();
    var o := |d|;
    var p := ByteOrder[o / 2];
    var d' := d + [v];
    forall q: ByteIndex
      ensures Guid(d')[q] == if q == p then Guid(d)[p] + (if o % 2 == 0 then 16 * v else v) else Guid(d)[q]
    {
      if q == p {
        assert ByteOrder[q] == o / 2;
      } else {
        assert ByteOrder[q] != o / 2;
        var j := ByteOrder[q] as int;
        assert NibbleAt(d', 2 * j) == NibbleAt(d, 2 * j);
        assert NibbleAt(d', 2 * j + 1) == NibbleAt(d, 2 * j + 1);
      }
    }
  }

  lemma HexDigitsStep(value: string, i: nat)
    requires i < |value|
    ensures HexDigits(value[..i + 1]) ==
      HexDigits(value[..i]) + (match HexValue(value[i]) case Some(v) => [v] case None => [])
    ensures |HexDigits(value[..i + 1])| <= |HexDigits(value)|
  {
    assert value[..i + 1][..i] == value[..i];
    HexDigitsConcat(value[..i + 1], value[i + 1..]);
    assert value[..i + 1] + value[i + 1..] == value;
  }

  /** One `to_guid.buf[BYTE_ORDER[offset / 2]] += ...` step of `make_guid`. */
  method AddDigit(buf: array<Byte>, ghost before: seq<Nibble>, offset: nat, digit: Nibble)
    requires buf.Length == 16 && offset == |before| < 32
    requires buf[..] == Guid(before)
    modifies buf
    ensures buf[..] == Guid(before + [digit])
  {
    GuidAppend(before, digit);
    var p := ByteOrder[offset / 2];
    var add: int := if offset % 2 == 0 then 16 * digit else digit;
    buf[p] := buf[p] + add;
    assert buf[..] == old(buf[..])[p := old(buf[p]) + add];
  }

  /**
    `make_guid`: zero a 16-byte buffer, then add each hex digit of `value`
    into byte `ByteOrder[offset / 2]`, shifted left by 4 at even offsets.
    The source has no bound on `offset`; a 33rd digit would index
    `BYTE_ORDER[16]`, so at most 32 digits are required.
  */
  method MakeGuid(value: CText) returns (guid: seq<Byte>)
    requires |HexDigits(value)| <= 32
    ensures guid == Guid(HexDigits(value))
  {
    var buf := new Byte[16](_ => 0);
    var offset := 0;
    for i := 0 to |value|
      invariant offset == |HexDigits(value[..i])|
      invariant buf[..] == Guid(HexDigits(value[..i]))
    {
      HexDigitsStep(value, i);
      ghost var before := HexDigits(value[..i]);
      var c := value[i];
      if '0' <= c <= '9' {
        AddDigit(buf, before, offset, c as int - '0' as int);
        assert HexDigits(value[..i + 1]) == before + [c as int - '0' as int];
        offset := offset + 1;
      } else if 'A' <= c <= 'F' {
        AddDigit(buf, before, offset, 10 + c as int - 'A' as int);
        assert HexDigits(value[..i + 1]) == before + [10 + c as int - 'A' as int];
        offset := offset + 1;
      } else if 'a' <= c <= 'f' {
        AddDigit(buf, before, offset, 10 + c as int - 'a' as int);
        assert HexDigits(value[..i + 1]) == before + [10 + c as int - 'a' as int];
        offset := offset + 1;
      } else {
        // skip char
        assert HexDigits(value[..i + 1]) == before;
      }
    }
    assert value[..|value|] == value;
    guid := buf[..];
  }

  // ---------------------------------------------------------------- round trip

  /** The 32 hex digits of a GUID in text order: byte `ByteOrder[k / 2]`, high nibble first. */
  function NibblesOf(g: seq<Byte>): (d: seq<Nibble>)
    requires |g| == 16
    ensures |d| == 32
  {
    seq(32, k requires 0 <= k < 32 =>
      if k % 2 == 0 then g[ByteOrder[k / 2]] / 16 else g[ByteOrder[k / 2]] % 16)
  }

  lemma GuidOfNibblesOfAt(g: seq<Byte>, p: ByteIndex)
    requires |g| == 16
    ensures Guid(NibblesOf(g))[p] == g[p]
  {
    ByteOrderInvolution();
    var j := ByteOrder[p] as int;
    assert ByteOrder[j] == p;
    assert NibblesOf(g)[2 * j] == g[p] / 16;
    assert NibblesOf(g)[2 * j + 1] == g[p] % 16;
  }

  lemma GuidOfNibblesOf(g: seq<Byte>)
    requires |g| == 16
    ensures Guid(NibblesOf(g)) == g
  {
    forall p: ByteIndex ensures Guid(NibblesOf(g))[p] == g[p] {
      GuidOfNibblesOfAt(g, p);
    }
  }

  lemma NibblesOfGuidAt(d: seq<Nibble>, k: nat)
    requires |d| == 32 && k < 32
    ensures NibblesOf(Guid(d))[k] == d[k]
  {
    ByteOrderInvolution();
    var j := k / 2;
    assert ByteOrder[ByteOrder[j]] == j;
    assert Guid(d)[ByteOrder[j]] == 16 * (d[2 * j] as int) + d[2 * j + 1];
  }

  lemma NibblesOfGuid(d: seq<Nibble>)
    requires |d| == 32
    ensures NibblesOf(Guid(d)) == d
  {
    forall k | 0 <= k < 32 ensures NibblesOf(Guid(d))[k] == d[k] {
      NibblesOfGuidAt(d, k);
    }
  }

  /** Lower-case hex digit for a nibble. */
  function HexChar(v: Nibble): (c: char)
    ensures HexValue(c) == Some(v)
  {
    if v < 10 then ('0' as int + v) as char else ('a' as int + v - 10) as char
  }

  function HexText(d: seq<Nibble>): (s: string)
    ensures |s| == |d|
  {
    seq(|d|, i requires 0 <= i < |d| => HexChar(d[i]))
  }

  lemma {:induction false} HexDigitsOfHexText(d: seq<Nibble>)
    ensures HexDigits(HexText(d)) == d
    decreases |d|
  {
    if d != [] {
      var d' := d[..|d| - 1];
      assert HexText(d)[..|d| - 1] == HexText(d');
      HexDigitsOfHexText(d');
    }
  }

  /**
    The textual form of section 3 of RFC 4122 for the GUID bytes `g`:
    8-4-4-4-12 lower-case hex digits separated by hyphens.
  */
  function GuidText(g: seq<Byte>): (s: CText)
    requires |g| == 16
    ensures |s| == 36
  {
    var t := HexText(NibblesOf(g));
    t[..8] + "-" + t[8..12] + "-" + t[12..16] + "-" + t[16..20] + "-" + t[20..]
  }

  /** Parsing the text of any GUID gives back its 16 bytes. */
  lemma GuidTextRoundTrip(g: seq<Byte>)
    requires |g| == 16
    ensures |HexDigits(GuidText(g))| == 32
    ensures Guid(HexDigits(GuidText(g))) == g
  {
    var t := HexText(NibblesOf(g));
    HexDigitsOfHexText(NibblesOf(g));
    assert HexDigits("-") == [];
    assert t == t[..8] + t[8..12] + t[12..16] + t[16..20] + t[20..];
    HexDigitsConcat(t[..8], "-");
    HexDigitsConcat(t[..8] + "-", t[8..12]);
    HexDigitsConcat(t[..8] + "-" + t[8..12], "-");
    HexDigitsConcat(t[..8] + "-" + t[8..12] + "-", t[12..16]);
    HexDigitsConcat(t[..8] + "-" + t[8..12] + "-" + t[12..16], "-");
    HexDigitsConcat(t[..8] + "-" + t[8..12] + "-" + t[12..16] + "-", t[16..20]);
    HexDigitsConcat(t[..8] + "-" + t[8..12] + "-" + t[12..16] + "-" + t[16..20], "-");
    HexDigitsConcat(t[..8] + "-" + t[8..12] + "-" + t[12..16] + "-" + t[16..20] + "-", t[20..]);
    HexDigitsConcat(t[..8], t[8..12]);
    HexDigitsConcat(t[..8] + t[8..12], t[12..16]);
    HexDigitsConcat(t[..8] + t[8..12] + t[12..16], t[16..20]);
    HexDigitsConcat(t[..8] + t[8..12] + t[12..16] + t[16..20], t[20..]);
    GuidOfNibblesOf(g);
  }

  /** Texts with exactly 32 hex digits that give the same GUID have the same digits. */
  lemma GuidInjective(s: string, t: string)
    requires |HexDigits(s)| == 32 && |HexDigits(t)| == 32
    requires Guid(HexDigits(s)) == Guid(HexDigits(t))
    ensures HexDigits(s) == HexDigits(t)
  {
    NibblesOfGuid(HexDigits(s));
    NibblesOfGuid(HexDigits(t));
  }

  // ---------------------------------------------------------------- MAC text

  /** The text with every ':' removed and every other character kept, in order. */
  function StripColons(s: string): (r: string)
    ensures |r| <= |s|
    ensures forall i :: 0 <= i < |r| ==> r[i] != ':'
  {
    if s == [] then []
    else StripColons(s[..|s| - 1]) + (if s[|s| - 1] == ':' then [] else [s[|s| - 1]])
  }

  lemma {:induction false} StripColonsConcat(a: string, b: string)
    ensures StripColons(a + b) == StripColons(a) + StripColons(b)
    decreases |b|
  {
    if b == [] {
      assert a + b == a;
    } else {
      var b' := b[..|b| - 1];
      assert (a + b)[..|a + b| - 1] == a + b';
      StripColonsConcat(a, b');
    }
  }

  /** No colon survives, and every other character keeps its number of occurrences. */
  lemma {:induction false} StripColonsKeepsOthers(s: string)
    ensures ':' !in StripColons(s)
    ensures forall c :: c != ':' ==> multiset(StripColons(s))[c] == multiset(s)[c]
    decreases |s|
  {
    if s != [] {
      var s' := s[..|s| - 1];
      StripColonsKeepsOthers(s');
      var last := s[|s| - 1];
      var tail := if last == ':' then [] else [last];
      assert s == s' + [last];
      assert multiset(s) == multiset(s') + multiset{last};
      assert multiset(StripColons(s)) == multiset(StripColons(s')) + multiset(tail);
    }
  }

  /** A text without colons is left as it is. */
  lemma {:induction false} StripColonsNoColon(s: string)
    requires ':' !in s
    ensures StripColons(s) == s
    decreases |s|
  {
    if s != [] {
      assert s == s[..|s| - 1] + [s[|s| - 1]];
      StripColonsNoColon(s[..|s| - 1]);
    }
  }

  /** Value of a hex digit, 0 for any other character. */
  function DigitValue(c: char): Nibble
  {
    match HexValue(c)
    case Some(v) => v
    case None => 0
  }

  /** The number a run of hex digits spells, most significant digit first. */
  function HexNumber(s: string): nat
  {
    if s == [] then 0 else HexNumber(s[..|s| - 1]) * 16 + DigitValue(s[|s| - 1])
  }

  ghost predicate AllHex(s: string)
  {
    forall i :: 0 <= i < |s| ==> HexValue(s[i]).Some?
  }

  /** The longest prefix of `s` made of hex digits. */
  function HexRun(s: string): (r: string)
    ensures |r| <= |s| && r == s[..|r|] && AllHex(r)
    ensures |r| < |s| ==> HexValue(s[|r|]).None?
  {
    if s == [] || HexValue(s[0]).None? then []
    else [s[0]] + HexRun(s[1..])
  }

  /** The white space a stream skips before a number: space, and tab through carriage return. */
  predicate IsSpace(c: char)
  {
    c == ' ' || '\t' <= c <= '\r'
  }

  /** Nothing but white space. */
  ghost predicate Blank(s: string)
  {
    forall i :: 0 <= i < |s| ==> IsSpace(s[i])
  }

  /** `s` without its leading white space. */
  function SkipSpace(s: string): (t: string)
    ensures |t| <= |s| && t == s[|s| - |t|..]
    ensures t != [] ==> !IsSpace(t[0])
  {
    if s != [] && IsSpace(s[0]) then SkipSpace(s[1..]) else s
  }

  /** Skipping white space leaves nothing exactly when there was nothing else. */
  lemma {:induction false} SkipSpaceEmpty(s: string)
    ensures SkipSpace(s) == [] <==> Blank(s)
  {
    if s != [] {
      if IsSpace(s[0]) {
        SkipSpaceEmpty(s[1..]);
        assert Blank(s) <==> Blank(s[1..]) by {
          assert forall i :: 1 <= i < |s| ==> s[i] == s[1..][i - 1];
        }
      } else {
        assert !Blank(s);
      }
    }
  }

  /** A number field without its sign. */
  function DropSign(t: string): string
  {
    if t != [] && (t[0] == '+' || t[0] == '-') then t[1..] else t
  }

  /** A number field without its `0x` or `0X`. */
  function DropPrefix(u: string): string
  {
    if |u| >= 2 && u[0] == '0' && (u[1] == 'x' || u[1] == 'X') then u[2..] else u
  }

  /** The hex digits a number field holds after an optional sign and an optional `0x` or `0X`. */
  function Magnitude(t: string): string
  {
    HexRun(DropPrefix(DropSign(t)))
  }

  /** A non-zero multiple of a positive number is at least that number away from zero. */
  lemma MultipleBound(d: int, x: int)
    requires d > 0
    ensures x >= 1 ==> d * x >= d
    ensures x <= -1 ==> d * x <= -d
  {
    assert d * x == d * (x - 1) + d;
    assert d * x == d * (x + 1) - d;
  }

  /** Euclidean division has one quotient and remainder. */
  lemma DivModUnique(n: int, d: int, q: int, m: int)
    requires d > 0 && 0 <= m < d && n == d * q + m
    ensures n / d == q && n % d == m
  {
    var x := q - n / d;
    assert d * x == n % d - m by {
      assert n == d * (n / d) + n % d;
      assert d * x == d * q - d * (n / d);
    }
    MultipleBound(d, x);
  }

  /** Zero and the modulus itself leave no remainder. */
  lemma ModulusMultiple(x: int, m: int)
    requires m > 0
    ensures x == 0 || x == m ==> x % m == 0
  {
    if x == m {
      assert x == m * 1 + 0;
    }
  }

  /**
    `stream >> std::hex >> result` for a `uint64_t`, read as `strtoull` in
    base 16 reads its field: leading white space is skipped, then an optional
    sign, an optional `0x`, and the longest run of hex digits. No digits give
    0; a number past 2^64-1 gives 2^64-1; a minus sign negates modulo 2^64.
    When nothing but white space is left the extraction fails before any
    conversion and `result` keeps its uninitialised value: `None`.
  */
  function ReadHexUInt64(s: string): (r: Option<nat>)
    ensures r.None? <==> Blank(s)
    ensures r.Some? ==> r.value <= UInt64Max
    ensures var t := SkipSpace(s);
      var n := HexNumber(Magnitude(t));
      t != [] ==>
        r.Some? &&
        (Magnitude(t) == [] ==> r.value == 0) &&
        (n > UInt64Max ==> r.value == UInt64Max) &&
        (n <= UInt64Max && t[0] != '-' ==> r.value == n) &&
        (n <= UInt64Max && t[0] == '-' ==> (r.value + n) % (UInt64Max + 1) == 0)
  {
    SkipSpaceEmpty(s);
    var t := SkipSpace(s);
    if t == [] then None
    else
      var n := HexNumber(Magnitude(t));
      if n > UInt64Max then Some(UInt64Max)
      else if t[0] == '-' && n > 0 then
        ModulusMultiple(UInt64Max + 1 - n + n, UInt64Max + 1);
        Some(UInt64Max + 1 - n)
      else
        ModulusMultiple(n + n, UInt64Max + 1);
        Some(n)
  }

  /**
    `ConvertMacAddressToULong`: copy every character but ':' into a new
    string, then read that string as a hexadecimal `uint64_t`.
  */
  method ConvertMacAddressToULong(macAddress: string) returns (result: Option<nat>)
    ensures result == ReadHexUInt64(StripColons(macAddress))
  {
    var macWithoutDelimiter := "";
    for i := 0 to |macAddress|
      invariant macWithoutDelimiter == StripColons(macAddress[..i])
    {
      assert macAddress[..i + 1][..i] == macAddress[..i];
      var ch := macAddress[i];
      if ch != ':' {
        macWithoutDelimiter := macWithoutDelimiter + [ch];
      }
    }
    assert macAddress[..|macAddress|] == macAddress;
    result := ReadHexUInt64(macWithoutDelimiter);
  }

  /** A text of hex digits only is read whole. */
  lemma HexRunAllHex(s: string)
    requires AllHex(s)
    ensures HexRun(s) == s
  {
  }

  /** Two more digits multiply the number by 256 and add their byte. */
  lemma HexNumberAppendPair(s: string, h: char, l: char)
    ensures HexNumber(s + [h, l]) == HexNumber(s) * 256 + 16 * DigitValue(h) + DigitValue(l)
  {
    assert (s + [h, l])[..|s| + 1] == s + [h];
    assert (s + [h])[..|s|] == s;
  }

  lemma StripGroup(x: char, y: char)
    requires x != ':' && y != ':'
    ensures StripColons([x, y, ':']) == [x, y]
  {
    assert [x, y, ':'][..2] == [x, y];
    assert [x, y][..1] == [x];
    assert [x][..0] == [];
    assert StripColons([x]) == [x];
    assert StripColons([x, y]) == [x, y];
  }

  lemma StripPair(s: string, x: char, y: char)
    requires x != ':' && y != ':'
    ensures StripColons(s + [x, y, ':']) == StripColons(s) + [x, y]
  {
    StripGroup(x, y);
    StripColonsConcat(s, [x, y, ':']);
  }

  /** The address "AA:BB:CC:DD:EE:FF", in the colon-separated form Windows reports. */
  const ExampleMac: string := "AA:" + "BB:" + "CC:" + "DD:" + "EE:" + "FF"

  lemma StripExample()
    ensures StripColons(ExampleMac) == "AABBCCDDEEFF"
  {
    var t1: string := "AA:"; StripGroup('A', 'A');
    var t2 := t1 + "BB:"; StripPair(t1, 'B', 'B');
    assert StripColons(t2) == "AABB";
    var t3 := t2 + "CC:"; StripPair(t2, 'C', 'C');
    assert StripColons(t3) == "AABBCC";
    var t4 := t3 + "DD:"; StripPair(t3, 'D', 'D');
    assert StripColons(t4) == "AABBCCDD";
    var t5 := t4 + "EE:"; StripPair(t4, 'E', 'E');
    assert StripColons(t5) == "AABBCCDDEE";
    var t6 := t5 + "FF"; StripColonsNoColon("FF"); StripColonsConcat(t5, "FF");
    assert t6 == ExampleMac;
  }

  lemma NumberExample()
    ensures HexNumber("AABBCCDDEEFF") == 0xAABBCCDDEEFF
  {
    assert DigitValue('A') == 10 && DigitValue('B') == 11 && DigitValue('C') == 12;
    assert DigitValue('D') == 13 && DigitValue('E') == 14 && DigitValue('F') == 15;
    HexNumberAppendPair("", 'A', 'A');
    assert "" + ['A', 'A'] == "AA";
    HexNumberAppendPair("AA", 'B', 'B');
    assert "AA" + ['B', 'B'] == "AABB";
    HexNumberAppendPair("AABB", 'C', 'C');
    assert "AABB" + ['C', 'C'] == "AABBCC";
    HexNumberAppendPair("AABBCC", 'D', 'D');
    assert "AABBCC" + ['D', 'D'] == "AABBCCDD";
    HexNumberAppendPair("AABBCCDD", 'E', 'E');
    assert "AABBCCDD" + ['E', 'E'] == "AABBCCDDEE";
    HexNumberAppendPair("AABBCCDDEE", 'F', 'F');
    assert "AABBCCDDEE" + ['F', 'F'] == "AABBCCDDEEFF";
  }

  /** A hex digit is neither white space, a sign, nor the `x` of a prefix. */
  lemma HexDigitIsPlain(c: char)
    requires HexValue(c).Some?
    ensures !IsSpace(c) && c != '+' && c != '-' && c != 'x' && c != 'X'
  {
  }

  /** A field that does not start with white space is not skipped into. */
  lemma NoSpaceToSkip(s: string)
    requires s != [] && !IsSpace(s[0])
    ensures SkipSpace(s) == s
  {
  }

  /** A field that starts with neither a sign nor `0x` has nothing to drop. */
  lemma NoSignOrPrefix(s: string)
    requires s != [] && s[0] != '+' && s[0] != '-'
    requires |s| >= 2 ==> s[1] != 'x' && s[1] != 'X'
    ensures DropPrefix(DropSign(s)) == s
  {
  }

  /** A field that starts with two hex digits has no white space, sign or prefix to drop. */
  lemma PlainField(s: string)
    requires s != [] && HexValue(s[0]).Some? && (|s| >= 2 ==> HexValue(s[1]).Some?)
    ensures SkipSpace(s) == s && DropPrefix(DropSign(s)) == s
  {
    HexDigitIsPlain(s[0]);
    if |s| >= 2 {
      HexDigitIsPlain(s[1]);
    }
    NoSpaceToSkip(s);
    NoSignOrPrefix(s);
  }

  /** A text of hex digits only is read whole, with no sign, prefix or white space in the way. */
  lemma ReadPlainHex(s: string)
    requires s != [] && AllHex(s)
    ensures ReadHexUInt64(s) == Some(if HexNumber(s) > UInt64Max then UInt64Max else HexNumber(s))
  {
    assert HexValue(s[0]).Some? && (|s| >= 2 ==> HexValue(s[1]).Some?);
    PlainField(s);
    HexRunAllHex(s);
    assert Magnitude(s) == s;
  }

  /** A field whose digits fit and that carries no minus sign reads as its number. */
  lemma ReadUnsigned(s: string, n: nat)
    requires SkipSpace(s) != [] && SkipSpace(s)[0] != '-'
    requires HexNumber(Magnitude(SkipSpace(s))) == n <= UInt64Max
    ensures ReadHexUInt64(s) == Some(n)
  {
  }

  /** A field whose non-zero digits fit and that carries a minus sign reads as their negation modulo 2^64. */
  lemma ReadNegated(s: string, n: nat)
    requires SkipSpace(s) != [] && SkipSpace(s)[0] == '-'
    requires 0 < HexNumber(Magnitude(SkipSpace(s))) == n <= UInt64Max
    ensures ReadHexUInt64(s) == Some(UInt64Max + 1 - n)
  {
  }

  /** A blank character in front is skipped. */
  lemma SkipOneSpace(c: char, t: string)
    requires IsSpace(c)
    ensures SkipSpace([c] + t) == SkipSpace(t)
  {
    assert ([c] + t)[1..] == t;
  }

  /** The digits "AA" are read whole, as 0xAA. */
  lemma DigitsAA()
    ensures DropPrefix("AA") == "AA" && HexRun("AA") == "AA" && HexNumber("AA") == 0xAA
  {
    assert HexRun("AA") == "AA" by { assert "AA"[1..] == "A"; assert "A"[1..] == []; }
    assert HexNumber("AA") == 0xAA by { assert "AA"[..1] == "A"; assert "A"[..0] == []; }
  }

  /** Leading white space is skipped. */
  lemma ReadHexSpace()
    ensures ReadHexUInt64(" AA") == Some(0xAA)
  {
    assert " AA" == [' '] + "AA";
    SkipOneSpace(' ', "AA");
    NoSpaceToSkip("AA");
    DigitsAA();
    ReadUnsigned(" AA", 0xAA);
  }

  /** A `0x` prefix is read past. */
  lemma ReadHexPrefix()
    ensures ReadHexUInt64("0x1F") == Some(0x1F)
  {
    assert SkipSpace("0x1F") == "0x1F";
    assert Magnitude("0x1F") == "1F" by {
      assert DropPrefix("0x1F") == "1F" by { assert "0x1F"[2..] == "1F"; }
      assert HexRun("1F") == "1F" by { assert "1F"[1..] == "F"; assert "F"[1..] == []; }
    }
    assert HexNumber("1F") == 0x1F by { assert "1F"[..1] == "1"; assert "1"[..0] == []; }
    ReadUnsigned("0x1F", 0x1F);
  }

  /** A plus sign is read past. */
  lemma ReadHexPlus()
    ensures ReadHexUInt64("+AA") == Some(0xAA)
  {
    NoSpaceToSkip("+AA");
    assert DropSign("+AA") == "AA" by { assert "+AA"[1..] == "AA"; }
    DigitsAA();
    ReadUnsigned("+AA", 0xAA);
  }

  /** A minus sign negates modulo 2^64. */
  lemma ReadHexMinus()
    ensures ReadHexUInt64("-1") == Some(UInt64Max)
  {
    assert SkipSpace("-1") == "-1";
    assert Magnitude("-1") == "1" by {
      assert DropSign("-1") == "1" by { assert "-1"[1..] == "1"; }
      assert HexRun("1") == "1" by { assert "1"[1..] == []; }
    }
    assert HexNumber("1") == 1 by { assert "1"[..0] == []; }
    ReadNegated("-1", 1);
  }

  /** A field with no hex digit reads 0; a blank text reads nothing. */
  lemma ReadHexNothing()
    ensures ReadHexUInt64("G1") == Some(0)
    ensures ReadHexUInt64("") == None
  {
    assert SkipSpace("G1") == "G1";
    assert Magnitude("G1") == [] by {
      assert DropPrefix(DropSign("G1")) == "G1";
      assert HexValue('G').None?;
    }
    ReadUnsigned("G1", 0);
  }

  /** "AA:BB:CC:DD:EE:FF" becomes 0xAABBCCDDEEFF: the digits are read most significant first. */
  lemma MacExample()
    ensures ReadHexUInt64(StripColons(ExampleMac)) == Some(0xAABBCCDDEEFF)
  {
    StripExample();
    var t := "AABBCCDDEEFF";
    assert forall i :: 0 <= i < |t| ==> 'A' <= t[i] <= 'F';
    NumberExample();
    ReadPlainHex(t);
  }
}
