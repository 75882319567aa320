/**
 * The logic of Qpid::Proton::Codec::Data that is written in Ruby rather than
 * handed to the C library: the UUID and decimal128 conversions, the
 * encode-with-growing-buffer loop, the error-code check, the guards of the
 * unsigned setters and the type-code lookup.
 *
 * The C library (the value tree and its cursor) is outside the model. A setter
 * is modelled up to the call it issues into the library (a Put) or the exception
 * it raises before issuing one; a getter takes the bytes the library returned.
 */
module Data {
  import opened Octets
  import opened Ruby

  /** The pn_data_put_* calls the modelled setters issue, with their arguments. */
  datatype Put =
    | PutUint(n: int)
    | PutUlong(n: int)
    | PutDecimal128(bytes: seq<int>)
    | PutUuid(bytes: seq<int>)

  /** PN_OVERFLOW, the C library's "buffer too small" status. */
  const PN_OVERFLOW: int := -3

  /** The capacity of the first buffer encode tries. */
  const INITIAL_CAPACITY: nat := 1024

  // ---------------------------------------------------------------------
  // check and type_code
  // ---------------------------------------------------------------------

  /**
   * check(err): a non-negative status passes through; a negative one raises
   * DataError "[err]: <diagnostic>", where the diagnostic is the library's
   * last error text for this data object.
   */
  function Check(err: int, diagnostic: string): (r: Result<int>)
    ensures r.Ok? <==> err >= 0
    ensures r.Ok? ==> r.value == err
    ensures r.Raised? ==> r.error.DataError? && r.error.message == "[" + IntToS(err) + "]: " + diagnostic
  {
    if err < 0 then Raised(DataError("[" + IntToS(err) + "]: " + diagnostic)) else Ok(err)
  }

  /** The message of a raised DataError starts with the status, which reads back exactly. */
  lemma CheckMessageCarriesCode(err: int, diagnostic: string)
    requires err < 0
    ensures var m := Check(err, diagnostic).error.message;
      var n := |IntToS(err)|;
      |m| >= n + 3 && m[0] == '[' && m[n + 1..n + 3] == "]:"
      && m[1..n + 1] == IntToS(err) && ToI(m[1..n + 1]) == err
  {
    IntToSRoundTrip(err);
    var m := Check(err, diagnostic).error.message;
    var n := |IntToS(err)|;
    assert m == "[" + IntToS(err) + "]: " + diagnostic;
    assert m[1..n + 1] == IntToS(err);
  }

  /** type_code: the library's -1 ("no current node") becomes nil; any other code is kept. */
  function TypeCode(dtype: int): (r: Option<int>)
    ensures r.Nil? <==> dtype == -1
    ensures r.Some? ==> r.value == dtype
  {
    if dtype == -1 then Nil else Some(dtype)
  }

  // ---------------------------------------------------------------------
  // uint= and ulong=
  // ---------------------------------------------------------------------

  /** uint=: nil raises TypeError, a negative value RangeError, both before any put. */
  function SetUint(value: Option<int>): (r: Result<Put>)
    ensures r.Ok? <==> value.Some? && value.value >= 0
    ensures r.Ok? ==> r.value == PutUint(value.value)
    ensures value.Nil? ==> r == Raised(TypeError("TypeError"))
    ensures value.Some? && value.value < 0 ==> r == Raised(RangeError("invalid uint: " + IntToS(value.value)))
  {
    match value
    case Nil => Raised(TypeError("TypeError"))
    case Some(v) => if v < 0 then Raised(RangeError("invalid uint: " + IntToS(v))) else Ok(PutUint(v))
  }

  /** ulong=: the same guards as uint=, then pn_data_put_ulong. */
  function SetUlong(value: Option<int>): (r: Result<Put>)
    ensures r.Ok? <==> value.Some? && value.value >= 0
    ensures r.Ok? ==> r.value == PutUlong(value.value)
    ensures value.Nil? ==> r == Raised(TypeError("TypeError"))
    ensures value.Some? && value.value < 0 ==> r == Raised(RangeError("invalid ulong: " + IntToS(value.value)))
  {
    match value
    case Nil => Raised(TypeError("TypeError"))
    case Some(v) => if v < 0 then Raised(RangeError("invalid ulong: " + IntToS(v))) else Ok(PutUlong(v))
  }

  // ---------------------------------------------------------------------
  // The hex-pair scan shared by uuid= and decimal128=
  // ---------------------------------------------------------------------

  /** `value.scan(/(..)/) { |v| bytes << v[0].to_i(16) }`, appending one integer per match. */
  method ScanBytes(value: string) returns (bytes: seq<int>)
    ensures bytes == ScanHexPairs(value)
  {
    bytes := [];
    var i := 0;
    while i + 1 < |value|
      invariant 0 <= i <= |value|
      invariant bytes + ScanHexPairs(value[i..]) == ScanHexPairs(value)
    {
      if value[i] != '\n' && value[i + 1] != '\n' {
        assert value[i..][2..] == value[i + 2..];
        bytes := bytes + [PairToI(value[i], value[i + 1])];
        i := i + 2;
      } else {
        assert value[i..][1..] == value[i + 1..];
        i := i + 1;
      }
    }
  }

  /** The bytes decimal128= hands to the library for a value: to_s(16), padded to 32 digits, scanned. */
  function Decimal128Bytes(v: int): seq<int> {
    ScanHexPairs(RJust(ToS16(v), 32, '0'))
  }

  /** A value below 2^128 is put as its 16 big-endian bytes. */
  lemma Decimal128BytesBigEndian(v: nat)
    requires v < Pow(256, 16)
    ensures Decimal128Bytes(v) == BigEndian(v, 16)
  {
    PowHexBytes(16);
    ZeroPaddedHexIsFixed(v, 32);
    ScanFixedHex(v, 16);
  }

  // ---------------------------------------------------------------------
  // decimal128= and decimal128
  // ---------------------------------------------------------------------

  /** decimal128=: nil raises TypeError before any put; otherwise the scanned bytes are put. */
  method SetDecimal128(value: Option<int>) returns (r: Result<Put>)
    ensures value.Nil? ==> r == Raised(TypeError("invalid decimal128 value: "))
    ensures value.Some? ==> r == Ok(PutDecimal128(Decimal128Bytes(value.value)))
    ensures value.Some? && 0 <= value.value < Pow(256, 16) ==> r == Ok(PutDecimal128(BigEndian(value.value, 16)))
  {
    if value.Nil? {
      return Raised(TypeError("invalid decimal128 value: "));
    }
    var text := RJust(ToS16(value.value), 32, '0');
    var bytes := ScanBytes(text);
    r := Ok(PutDecimal128(bytes));
    if 0 <= value.value < Pow(256, 16) {
      Decimal128BytesBigEndian(value.value);
    }
  }

  /** decimal128: "%02x" of each byte the library returned, then the whole text read as hexadecimal. */
  method GetDecimal128(bytes: seq<Byte>) returns (v: int)
    ensures v == ValueOf(bytes)
  {
    var value := "";
    for i := 0 to |bytes|
      invariant value == HexOfBytes(bytes[..i])
    {
      assert bytes[..i + 1][..i] == bytes[..i];
      value := value + Hex2(bytes[i]);
    }
    assert bytes[..|bytes|] == bytes;
    HexToIOfHexOfBytes(bytes);
    v := HexToI(value);
  }

  /** decimal128 reads back every value decimal128= accepts below 2^128. */
  lemma Decimal128RoundTrip(v: nat)
    requires v < Pow(256, 16)
    ensures AllBytes(Decimal128Bytes(v)) && |Decimal128Bytes(v)| == 16
    ensures ValueOf(Decimal128Bytes(v)) == v
  {
    Decimal128BytesBigEndian(v);
    ValueOfBigEndian(v, 16);
  }

  /**
   * A negative value is not rejected: -1 becomes "-1" padded with 30 zeros, so
   * the last scanned pair "-1" is put as the integer -1, which is not a byte.
   */
  lemma Decimal128MinusOne()
    ensures Decimal128Bytes(-1) == seq(15, _ => 0) + [-1]
  {
    var zeros: string := seq(30, _ => '0');
    assert ToS16(-1) == "-1" by {
      assert HexString(1) == "1";
    }
    assert RJust("-1", 32, '0') == zeros + "-1";
    assert ScanHexPairs(zeros) == seq(15, _ => 0) by {
      FixedHexOfZero(30);
      ScanFixedHex(0, 15);
      BigEndianZero(15);
    }
    assert ScanHexPairs("-1") == [-1] by {
      assert ScanHexPairs("-1") == [PairToI('-', '1')] + ScanHexPairs([]);
    }
    ScanHexPairsAppend(zeros, "-1");
  }

  // ---------------------------------------------------------------------
  // valid_uuid?
  // ---------------------------------------------------------------------

  predicate IsHyphenIndex(k: int) {
    k == 8 || k == 13 || k == 18 || k == 23
  }

  /** t is 36 characters laid out 8-4-4-4-12: hyphens between groups of hex digits of either case. */
  predicate UuidShaped(t: string) {
    |t| == 36 && forall k :: 0 <= k < 36 ==> if IsHyphenIndex(k) then t[k] == '-' else IsHexDigit(t[k])
  }

  /** The UUID pattern matches s at index i. */
  predicate MatchesAt(s: string, i: nat) {
    i + 36 <= |s| && UuidShaped(s[i..i + 36])
  }

  /** The leftmost match at index i or later, or nil. */
  function MatchFrom(s: string, i: nat): (r: Option<nat>)
    ensures r.Some? ==> i <= r.value && MatchesAt(s, r.value)
    ensures r.Some? ==> forall j :: i <= j < r.value ==> !MatchesAt(s, j)
    ensures r.Nil? ==> forall j :: i <= j ==> !MatchesAt(s, j)
    decreases |s| - i
  {
    if i + 36 > |s| then Nil
    else if MatchesAt(s, i) then Some(i)
    else MatchFrom(s, i + 1)
  }

  /**
   * valid_uuid?: `value =~ pattern` with an unanchored pattern, so the index of
   * the leftmost UUID-shaped substring anywhere in the string, or nil.
   */
  function ValidUuid(s: string): (r: Option<nat>)
    ensures r.Some? ==> MatchesAt(s, r.value) && forall j :: 0 <= j < r.value ==> !MatchesAt(s, j)
    ensures r.Nil? ==> forall j: nat :: !MatchesAt(s, j)
  {
    MatchFrom(s, 0)
  }

  /** Any string holding a UUID-shaped substring passes, whatever surrounds it. */
  lemma ValidUuidUnanchored(prefix: string, u: string, suffix: string)
    requires UuidShaped(u)
    ensures ValidUuid(prefix + u + suffix).Some?
    ensures ValidUuid(prefix + u + suffix).value <= |prefix|
  {
    var s := prefix + u + suffix;
    assert s[|prefix|..|prefix| + 36] == u;
    assert MatchesAt(s, |prefix|);
  }

  // ---------------------------------------------------------------------
  // uuid= and uuid
  // ---------------------------------------------------------------------

  /** The argument of uuid= when it is not nil: an Integer or a String. */
  datatype UuidValue = Numeric(n: nat) | Text(s: string)

  /** The bytes uuid= hands to the library for a number: "%032x", scanned. */
  function UuidNumberBytes(n: nat): seq<int> {
    ScanHexPairs(ZeroPaddedHex(n, 32))
  }

  /** A number below 2^128 is put as its 16 big-endian bytes. */
  lemma UuidNumberBigEndian(n: nat)
    requires n < Pow(256, 16)
    ensures UuidNumberBytes(n) == BigEndian(n, 16)
  {
    PowHexBytes(16);
    ZeroPaddedHexIsFixed(n, 32);
    ScanFixedHex(n, 16);
  }

  /** value[0, 8] + value[9, 4] + value[14, 4] + value[19, 4] + value[24, 12]. */
  function StripHyphens(s: string): (t: string)
    requires |s| >= 36
    ensures |t| == 32
  {
    s[0..8] + s[9..13] + s[14..18] + s[19..23] + s[24..36]
  }

  /**
   * uuid=: nil and a string without a UUID-shaped substring raise ArgumentError
   * before any put. A number is rendered "%032x"; a string is cut at the fixed
   * offsets of the 8-4-4-4-12 layout, whether or not its match starts at 0.
   */
  method SetUuid(value: Option<UuidValue>) returns (r: Result<Put>)
    ensures value.Nil? ==> r == Raised(ArgumentError("invalid uuid: "))
    ensures value.Some? && value.value.Text? && ValidUuid(value.value.s).Nil? ==>
      r == Raised(ArgumentError("invalid uuid: " + value.value.s))
    ensures value.Some? && value.value.Text? && ValidUuid(value.value.s).Some? ==>
      r == Ok(PutUuid(ScanHexPairs(StripHyphens(value.value.s))))
    ensures value.Some? && value.value.Numeric? ==>
      r == Ok(PutUuid(UuidNumberBytes(value.value.n)))
    ensures value.Some? && value.value.Numeric? && value.value.n < Pow(256, 16) ==>
      r == Ok(PutUuid(BigEndian(value.value.n, 16)))
  {
    if value.Nil? {
      return Raised(ArgumentError("invalid uuid: "));
    }
    var text: string;
    match value.value {
      case Numeric(n) =>
        text := ZeroPaddedHex(n, 32);
        if n < Pow(256, 16) {
          UuidNumberBigEndian(n);
        }
      case Text(s) =>
        if ValidUuid(s).Nil? {
          return Raised(ArgumentError("invalid uuid: " + s));
        }
        text := s[0..8] + s[9..13] + s[14..18] + s[19..23] + s[24..36];
    }
    var bytes := ScanBytes(text);
    r := Ok(PutUuid(bytes));
  }

  /**
   * The chain .insert(8, "-").insert(13, "-").insert(18, "-").insert(23, "-"),
   * each insert raising IndexError when its index is past the end.
   */
  function Hyphenate(value: string): Result<string> {
    match Insert(value, 8, "-")
    case Raised(e) => Raised(e)
    case Ok(v1) =>
      match Insert(v1, 13, "-")
      case Raised(e) => Raised(e)
      case Ok(v2) =>
        match Insert(v2, 18, "-")
        case Raised(e) => Raised(e)
        case Ok(v3) => Insert(v3, 23, "-")
  }

  /** uuid: "%02x" of each byte the library returned, then the four hyphens inserted. */
  method GetUuid(bytes: seq<Byte>) returns (r: Result<string>)
    ensures r == Hyphenate(HexOfBytes(bytes))
    ensures r.Ok? <==> |bytes| >= 10
  {
    var value := "";
    for i := 0 to |bytes|
      invariant value == HexOfBytes(bytes[..i])
    {
      assert bytes[..i + 1][..i] == bytes[..i];
      value := value + Hex2(bytes[i]);
    }
    assert bytes[..|bytes|] == bytes;
    r := Insert(value, 8, "-");
    if r.Ok? {
      r := Insert(r.value, 13, "-");
    }
    if r.Ok? {
      r := Insert(r.value, 18, "-");
    }
    if r.Ok? {
      r := Insert(r.value, 23, "-");
    }
  }

  /** A UUID in the 8-4-4-4-12 layout with lower-case digits only. */
  predicate LowerUuid(t: string) {
    UuidShaped(t) && forall k :: 0 <= k < 36 ==> !IsHyphenIndex(k) ==> IsLowerHexDigit(t[k])
  }

  /** Inserting the four hyphens into 32 characters puts them at indices 8, 13, 18 and 23. */
  lemma HyphenateLayout(v: string)
    requires |v| == 32
    ensures Hyphenate(v) == Ok(v[..8] + "-" + v[8..12] + "-" + v[12..16] + "-" + v[16..20] + "-" + v[20..])
  {
    var v1 := v[..8] + "-" + v[8..];
    var v2 := v[..8] + "-" + v[8..12] + "-" + v[12..];
    var v3 := v[..8] + "-" + v[8..12] + "-" + v[12..16] + "-" + v[16..];
    var v4 := v[..8] + "-" + v[8..12] + "-" + v[12..16] + "-" + v[16..20] + "-" + v[20..];
    assert Insert(v, 8, "-") == Ok(v1);
    assert v1[..13] + "-" + v1[13..] == v2;
    assert v2[..18] + "-" + v2[18..] == v3;
    assert v3[..23] + "-" + v3[23..] == v4;
  }

  /** Cutting the hyphens out of a laid-out UUID and inserting them again restores it. */
  lemma HyphenateStrip(u: string)
    requires |u| == 36 && forall k :: 0 <= k < 36 && IsHyphenIndex(k) ==> u[k] == '-'
    ensures Hyphenate(StripHyphens(u)) == Ok(u)
  {
    var v := StripHyphens(u);
    HyphenateLayout(v);
    assert v[..8] == u[0..8] && v[8..12] == u[9..13] && v[12..16] == u[14..18];
    assert v[16..20] == u[19..23] && v[20..] == u[24..36];
    assert u == u[0..8] + "-" + u[9..13] + "-" + u[14..18] + "-" + u[19..23] + "-" + u[24..36];
  }

  /** The layout HyphenateLayout produces from 32 lower-case digits is a lower-case UUID. */
  lemma LayoutIsLowerUuid(v: string)
    requires |v| == 32 && forall k :: 0 <= k < 32 ==> IsLowerHexDigit(v[k])
    ensures var t := v[..8] + "-" + v[8..12] + "-" + v[12..16] + "-" + v[16..20] + "-" + v[20..];
      LowerUuid(t) && StripHyphens(t) == v
  {
    var t := v[..8] + "-" + v[8..12] + "-" + v[12..16] + "-" + v[16..20] + "-" + v[20..];
    assert StripHyphens(t) == v[..8] + v[8..12] + v[12..16] + v[16..20] + v[20..];
    assert v == v[..8] + v[8..12] + v[12..16] + v[16..20] + v[20..];
    forall k | 0 <= k < 36
      ensures if IsHyphenIndex(k) then t[k] == '-' else IsLowerHexDigit(t[k])
    {
      if k < 8 { assert t[k] == v[k]; }
      else if 8 < k < 13 { assert t[k] == v[k - 1]; }
      else if 13 < k < 18 { assert t[k] == v[k - 2]; }
      else if 18 < k < 23 { assert t[k] == v[k - 3]; }
      else if 23 < k { assert t[k] == v[k - 4]; }
    }
  }

  /**
   * uuid of 16 bytes is 36 characters: hyphens at 8, 13, 18 and 23 and, with
   * those removed, the "%02x" renderings of the bytes in order.
   */
  lemma UuidTextShape(bytes: seq<Byte>)
    requires |bytes| == 16
    ensures Hyphenate(HexOfBytes(bytes)).Ok?
    ensures var t := Hyphenate(HexOfBytes(bytes)).value;
      LowerUuid(t) && StripHyphens(t) == HexOfBytes(bytes)
  {
    var v := HexOfBytes(bytes);
    HyphenateLayout(v);
    HexOfBytesIsLowerHex(bytes);
    LayoutIsLowerUuid(v);
  }

  /**
   * A string whose first 36 characters are a UUID (digits of either case) is
   * accepted by uuid=, and uuid reads the bytes back as those 36 characters in
   * lower case.
   */
  lemma UuidTextRoundTrip(s: string)
    requires |s| >= 36 && UuidShaped(s[..36])
    ensures ValidUuid(s) == Some(0)
    ensures var bytes := ScanHexPairs(StripHyphens(s));
      |bytes| == 16 && AllBytes(bytes) && Hyphenate(HexOfBytes(bytes)) == Ok(LowerCaseAll(s[..36]))
  {
    assert s[0..36] == s[..36];
    assert MatchesAt(s, 0);
    var u := s[..36];
    StripHyphensOfPrefix(s);
    var t := StripHyphens(u);
    HexOfScan(t);
    LowerCaseStrip(u);
    HyphenateStrip(LowerCaseAll(u));
  }

  /** Only the first 36 characters matter, and without their hyphens they are 32 hex digits. */
  lemma StripHyphensOfPrefix(s: string)
    requires |s| >= 36 && UuidShaped(s[..36])
    ensures StripHyphens(s) == StripHyphens(s[..36])
    ensures forall i :: 0 <= i < 32 ==> IsHexDigit(StripHyphens(s)[i])
  {
    var u := s[..36];
    assert s[0..8] == u[0..8] && s[9..13] == u[9..13] && s[14..18] == u[14..18];
    assert s[19..23] == u[19..23] && s[24..36] == u[24..36];
    var t := StripHyphens(u);
    forall i | 0 <= i < 32 ensures IsHexDigit(t[i]) {
      if i < 8 { assert t[i] == u[i]; }
      else if i < 12 { assert t[i] == u[i + 1]; }
      else if i < 16 { assert t[i] == u[i + 2]; }
      else if i < 20 { assert t[i] == u[i + 3]; }
      else { assert t[i] == u[i + 4]; }
    }
  }

  lemma LowerCaseStrip(u: string)
    requires |u| == 36
    ensures LowerCaseAll(StripHyphens(u)) == StripHyphens(LowerCaseAll(u))
  {
    var a, b := LowerCaseAll(StripHyphens(u)), StripHyphens(LowerCaseAll(u));
    forall i | 0 <= i < 32 ensures a[i] == b[i] {
      if i < 8 { assert b[i] == LowerCaseAll(u)[i]; }
      else if i < 12 { assert b[i] == LowerCaseAll(u)[i + 1]; }
      else if i < 16 { assert b[i] == LowerCaseAll(u)[i + 2]; }
      else if i < 20 { assert b[i] == LowerCaseAll(u)[i + 3]; }
      else { assert b[i] == LowerCaseAll(u)[i + 4]; }
    }
  }

  /**
   * uuid= slices at fixed offsets even when the match does not start at 0:
   * "-" followed by the example UUID passes valid_uuid?, and its first scanned
   * pair is "-f", put as the integer -15.
   */
  lemma UuidMisalignedMatch()
    ensures var s := "-" + EXAMPLE_UUID;
      ValidUuid(s) == Some(1)
      && |ScanHexPairs(StripHyphens(s))| > 0 && ScanHexPairs(StripHyphens(s))[0] == -15
  {
    var s := "-" + EXAMPLE_UUID;
    ExampleUuidIsLower();
    assert s[1..37] == EXAMPLE_UUID;
    assert MatchesAt(s, 1);
    assert !MatchesAt(s, 0) by {
      assert s[0..36][0] == '-';
    }
    var t := StripHyphens(s);
    assert t[0] == '-' && t[1] == 'f';
    assert ScanHexPairs(t) == [PairToI('-', 'f')] + ScanHexPairs(t[2..]);
  }

  /** A lower-case UUID reads back identically. */
  lemma UuidLowerRoundTrip(s: string)
    requires LowerUuid(s)
    ensures ValidUuid(s) == Some(0)
    ensures var bytes := ScanHexPairs(StripHyphens(s));
      |bytes| == 16 && AllBytes(bytes) && Hyphenate(HexOfBytes(bytes)) == Ok(s)
  {
    assert s[..36] == s;
    UuidTextRoundTrip(s);
    forall k | 0 <= k < 36 ensures LowerCase(s[k]) == s[k] {
      if !IsHyphenIndex(k) {
        assert IsLowerHexDigit(s[k]);
      }
    }
    assert LowerCaseAll(s) == s;
  }

  /** The example UUID of the uuid= documentation. */
  const EXAMPLE_UUID: string := "fd0289a5-8eec-4a08-9283-81d02c9d2fff"

  lemma ExampleUuidIsLower()
    ensures LowerUuid(EXAMPLE_UUID)
  {
    var s := EXAMPLE_UUID;
    forall k | 0 <= k < 36
      ensures if IsHyphenIndex(k) then s[k] == '-' else IsLowerHexDigit(s[k])
    {
      if k < 8 {} else if k < 13 {} else if k < 18 {} else if k < 23 {} else {}
    }
  }

  /** The worked example "fd0289a5-8eec-4a08-9283-81d02c9d2fff" reads back identically. */
  lemma UuidExampleRoundTrip()
    ensures var bytes := ScanHexPairs(StripHyphens(EXAMPLE_UUID));
      AllBytes(bytes) && Hyphenate(HexOfBytes(bytes)) == Ok(EXAMPLE_UUID)
  {
    ExampleUuidIsLower();
    UuidLowerRoundTrip(EXAMPLE_UUID);
  }

  lemma ZeroUuidText()
    ensures var u := "00000000-0000-0000-0000-000000000000";
      |u| == 36 && (forall k :: 0 <= k < 36 && IsHyphenIndex(k) ==> u[k] == '-')
      && StripHyphens(u) == seq(32, _ => '0')
  {
    var u := "00000000-0000-0000-0000-000000000000";
    forall k | 0 <= k < 36 ensures if IsHyphenIndex(k) then u[k] == '-' else u[k] == '0' {
      if k < 8 {} else if k < 13 {} else if k < 18 {} else if k < 23 {} else {}
    }
    var t := StripHyphens(u);
    forall i | 0 <= i < 32 ensures t[i] == '0' {
      if i < 8 { assert t[i] == u[i]; }
      else if i < 12 { assert t[i] == u[i + 1]; }
      else if i < 16 { assert t[i] == u[i + 2]; }
      else if i < 20 { assert t[i] == u[i + 3]; }
      else { assert t[i] == u[i + 4]; }
    }
  }

  lemma HexOfZeroBytes(n: nat)
    ensures HexOfBytes(seq(n, _ => 0)) == seq(2 * n, _ => '0')
  {
    var zeros: seq<Byte> := seq(n, _ => 0);
    var v := HexOfBytes(zeros);
    forall k | 0 <= k < 2 * n ensures v[k] == '0' {
      HexOfBytesAt(zeros, k / 2);
      assert k == 2 * (k / 2) || k == 2 * (k / 2) + 1;
    }
  }

  /** The number 0 is put as sixteen zero bytes, which read back as the all-zero UUID. */
  lemma UuidZero()
    ensures UuidNumberBytes(0) == BigEndian(0, 16)
    ensures Hyphenate(HexOfBytes(BigEndian(0, 16))) == Ok("00000000-0000-0000-0000-000000000000")
  {
    UuidNumberBigEndian(0);
    BigEndianZero(16);
    HexOfZeroBytes(16);
    ZeroUuidText();
    HyphenateStrip("00000000-0000-0000-0000-000000000000");
  }

  // ---------------------------------------------------------------------
  // encode
  // ---------------------------------------------------------------------

  /**
   * What pn_data_encode makes of this data object's tree: either its serialized
   * bytes, or a status that is not PN_OVERFLOW together with the library's error text.
   */
  datatype Encoder = Serialized(wire: seq<Byte>) | Failing(code: int, diagnostic: string)

  predicate ValidEncoder(enc: Encoder) {
    enc.Failing? ==> enc.code < 0 && enc.code != PN_OVERFLOW
  }

  /**
   * pn_data_encode(impl, buffer, buffer.length): the status it returns and the
   * buffer's content afterwards. It reports PN_OVERFLOW when the bytes do not
   * fit; otherwise it writes them at the start of the buffer and returns their count.
   */
  function PnDataEncode(enc: Encoder, buffer: seq<Byte>): (res: (int, seq<Byte>))
    ensures |res.1| == |buffer|
  {
    match enc
    case Failing(code, _) => (code, buffer)
    case Serialized(wire) =>
      if |wire| <= |buffer| then (|wire|, wire + buffer[|wire|..]) else (PN_OVERFLOW, buffer)
  }

  /** The size of encode's buffer after k doublings. */
  function Capacity(k: nat): (c: nat)
    ensures c >= INITIAL_CAPACITY
  {
    if k == 0 then INITIAL_CAPACITY else 2 * Capacity(k - 1)
  }

  /** The buffer after k doublings holds 1024 * 2^k bytes. */
  lemma {:induction false} CapacityIsPowerOfTwo(k: nat)
    ensures Capacity(k) == INITIAL_CAPACITY * Pow(2, k)
  {
    if k > 0 {
      CapacityIsPowerOfTwo(k - 1);
      assert INITIAL_CAPACITY * Pow(2, k) == 2 * (INITIAL_CAPACITY * Pow(2, k - 1));
    }
  }

  /**
   * encode: try a 1024-byte buffer, double it on every PN_OVERFLOW, return the
   * first cd bytes on a status cd >= 0 and raise through check on any other
   * status. `doublings` counts the PN_OVERFLOW retries: the buffers tried are
   * Capacity(0), ..., Capacity(doublings), and the last is the first that fits.
   */
  method Encode(enc: Encoder) returns (r: Result<seq<Byte>>, ghost doublings: nat)
    requires ValidEncoder(enc)
    ensures enc.Serialized? ==> r == Ok(enc.wire)
    ensures enc.Failing? ==> r == Raised(Check(enc.code, enc.diagnostic).error)
    ensures enc.Failing? ==> doublings == 0
    ensures enc.Serialized? ==> |enc.wire| <= Capacity(doublings)
    ensures enc.Serialized? && doublings > 0 ==> Capacity(doublings - 1) < |enc.wire|
    ensures enc.Serialized? && doublings > 0 ==> Capacity(doublings) < 2 * |enc.wire|
  {
    var buffer: seq<Byte> := seq(INITIAL_CAPACITY, _ => 0);
    doublings := 0;
    while true
      invariant |buffer| == Capacity(doublings)
      invariant enc.Failing? ==> doublings == 0
      invariant enc.Serialized? && doublings > 0 ==> Capacity(doublings - 1) < |enc.wire|
      decreases if enc.Serialized? && |buffer| < |enc.wire| then |enc.wire| - |buffer| else 0
    {
      var (cd, written) := PnDataEncode(enc, buffer);
      buffer := written;
      if cd == PN_OVERFLOW {
        buffer := buffer + buffer;
        doublings := doublings + 1;
      } else if cd >= 0 {
        r := Ok(buffer[..cd]);
        return;
      } else {
        var checked := Check(cd, enc.diagnostic);
        r := Raised(checked.error);
        return;
      }
    }
  }

  /** Capacities only grow, so every buffer before the last one was too small. */
  lemma {:induction false} CapacityMonotone(i: nat, j: nat)
    requires i <= j
    ensures Capacity(i) <= Capacity(j)
  {
    if i < j {
      CapacityMonotone(i, j - 1);
    }
  }

}
