/**
 * The parts of Ruby's core library that the hand-written conversions of
 * Qpid::Proton::Codec::Data rely on: nil, the exceptions raised, Integer#to_s,
 * String#rjust, sprintf's "%0Nx", String#insert, String#to_i and the
 * two-character matches of String#scan(/(..)/).
 */
module Ruby {
  import opened Octets

  /** A value that may be Ruby's nil. */
  datatype Option<+T> = Nil | Some(value: T)

  /**
   * The exceptions raised by the modelled code, each with its message.
   * DataError is the codec's own exception class; the others are Ruby's.
   */
  datatype Exception =
    | ArgumentError(message: string)
    | TypeError(message: string)
    | RangeError(message: string)
    | IndexError(message: string)
    | DataError(message: string)

  /** What a Ruby call does: return a value or raise an exception. */
  datatype Result<+T> = Ok(value: T) | Raised(error: Exception)

  // ---------------------------------------------------------------------
  // Digits
  // ---------------------------------------------------------------------

  predicate IsHexDigit(c: char) {
    '0' <= c <= '9' || 'a' <= c <= 'f' || 'A' <= c <= 'F'
  }

  predicate IsLowerHexDigit(c: char) {
    '0' <= c <= '9' || 'a' <= c <= 'f'
  }

  predicate IsDecimalDigit(c: char) {
    '0' <= c <= '9'
  }

  /** The value of a hexadecimal digit of either case. */
  function DigitValue(c: char): (d: nat)
    requires IsHexDigit(c)
    ensures d < 16
    ensures IsDecimalDigit(c) ==> d < 10
  {
    if c <= '9' then c as int - '0' as int
    else if c <= 'F' then c as int - 'A' as int + 10
    else c as int - 'a' as int + 10
  }

  /** The lower-case hexadecimal digit of a value below 16. */
  function LowerDigit(d: nat): (c: char)
    requires d < 16
    ensures IsLowerHexDigit(c) && DigitValue(c) == d
    ensures d < 10 ==> IsDecimalDigit(c)
  {
    if d < 10 then (d + '0' as int) as char else (d - 10 + 'a' as int) as char
  }

  /** A character with 'A'..'F' turned into 'a'..'f'. */
  function LowerCase(c: char): (r: char)
    ensures IsHexDigit(c) ==> IsLowerHexDigit(r) && DigitValue(r) == DigitValue(c)
    ensures !('A' <= c <= 'F') ==> r == c
  {
    if 'A' <= c <= 'F' then (c as int - 'A' as int + 'a' as int) as char else c
  }

  lemma LowerDigitOfValue(c: char)
    requires IsHexDigit(c)
    ensures LowerDigit(DigitValue(c)) == LowerCase(c)
  {
  }

  /** A string with every 'A'..'F' turned into 'a'..'f'. */
  function LowerCaseAll(s: string): string {
    seq(|s|, k requires 0 <= k < |s| => LowerCase(s[k]))
  }

  // ---------------------------------------------------------------------
  // Integer#to_s, String#rjust, sprintf "%0Nx", String#to_i
  // ---------------------------------------------------------------------

  /** Integer#to_s(16) of a non-negative integer: lower case, no leading zeros. */
  function HexString(n: nat): (s: string)
    ensures 0 < |s|
    ensures forall i :: 0 <= i < |s| ==> IsLowerHexDigit(s[i])
  {
    if n < 16 then [LowerDigit(n)] else HexString(n / 16) + [LowerDigit(n % 16)]
  }

  /** Integer#to_s(16): a negative integer gets a leading '-'. */
  function ToS16(v: int): string {
    if v < 0 then "-" + HexString(-v) else HexString(v)
  }

  /** Integer#to_s of a non-negative integer, in decimal. */
  function DecimalString(n: nat): (s: string)
    ensures 0 < |s|
    ensures forall i :: 0 <= i < |s| ==> IsDecimalDigit(s[i])
  {
    if n < 10 then [LowerDigit(n)] else DecimalString(n / 10) + [LowerDigit(n % 10)]
  }

  /** Integer#to_s, the text "#{v}" interpolates. */
  function IntToS(v: int): string {
    if v < 0 then "-" + DecimalString(-v) else DecimalString(v)
  }

  /** The non-negative integer a string of decimal digits denotes. */
  function DecimalValue(s: string): nat
    requires forall i :: 0 <= i < |s| ==> IsDecimalDigit(s[i])
  {
    if s == [] then 0
    else
      assert IsDecimalDigit(s[|s| - 1]);
      DecimalValue(s[..|s| - 1]) * 10 + DigitValue(s[|s| - 1])
  }

  /** String#to_i of an optional '-' followed by decimal digits. */
  function ToI(s: string): int
    requires forall i :: 0 <= i < |s| ==> IsDecimalDigit(s[i]) || (i == 0 && s[i] == '-')
  {
    if s != [] && s[0] == '-' then 0 - DecimalValue(s[1..]) else DecimalValue(s)
  }

  /** The decimal text of an integer reads back as that integer. */
  lemma {:induction false} DecimalRoundTrip(n: nat)
    ensures DecimalValue(DecimalString(n)) == n
  {
    if n >= 10 {
      var s := DecimalString(n);
      DecimalRoundTrip(n / 10);
      assert s[..|s| - 1] == DecimalString(n / 10);
    }
  }

  lemma IntToSRoundTrip(v: int)
    ensures ToI(IntToS(v)) == v
  {
    if v < 0 {
      DecimalRoundTrip(-v);
      assert IntToS(v)[1..] == DecimalString(-v);
    } else {
      DecimalRoundTrip(v);
    }
  }

  /** String#to_i(16) of a string of hexadecimal digits of either case. */
  function HexToI(s: string): nat
    requires forall i :: 0 <= i < |s| ==> IsHexDigit(s[i])
  {
    if s == [] then 0 else HexToI(s[..|s| - 1]) * 16 + DigitValue(s[|s| - 1])
  }

  /** String#rjust(width, pad). */
  function RJust(s: string, width: nat, pad: char): (r: string)
    ensures |r| == if |s| >= width then |s| else width
  {
    if |s| >= width then s else seq(width - |s|, _ => pad) + s
  }

  /** sprintf("%0<width>x", n) of a non-negative n; the same text as n.to_s(16).rjust(width, "0"). */
  function ZeroPaddedHex(n: nat, width: nat): string {
    RJust(HexString(n), width, '0')
  }

  /** sprintf("%02x", b), the rendering of one byte. */
  function Hex2(b: Byte): string {
    ZeroPaddedHex(b, 2)
  }

  /** Exactly w hexadecimal digits of v modulo 16^w, most significant first. */
  function FixedHex(v: nat, w: nat): (s: string)
    ensures |s| == w
    ensures forall i :: 0 <= i < w ==> IsLowerHexDigit(s[i])
  {
    if w == 0 then [] else FixedHex(v / 16, w - 1) + [LowerDigit(v % 16)]
  }

  lemma {:induction false} FixedHexOfZero(w: nat)
    ensures FixedHex(0, w) == seq(w, _ => '0')
  {
    if w > 0 {
      FixedHexOfZero(w - 1);
    }
  }

  lemma RJustSnoc(s: string, c: char, w: nat, pad: char)
    requires w >= 1
    ensures RJust(s + [c], w, pad) == RJust(s, w - 1, pad) + [c]
  {
    if |s| < w - 1 {
      assert seq(w - |s + [c]|, _ => pad) == seq(w - 1 - |s|, _ => pad);
    }
  }

  /** Zero padding a value that fits in the width yields its fixed-width digits. */
  lemma {:induction false} ZeroPaddedHexIsFixed(v: nat, w: nat)
    requires 1 <= w && v < Pow(16, w)
    ensures ZeroPaddedHex(v, w) == FixedHex(v, w)
  {
    if v < 16 {
      FixedHexOfZero(w - 1);
      RJustSnoc([], LowerDigit(v), w, '0');
      assert FixedHex(v, w) == FixedHex(0, w - 1) + [LowerDigit(v)];
    } else {
      assert Pow(16, 1) == 16;
      assert w >= 2;
      assert v / 16 < Pow(16, w - 1);
      ZeroPaddedHexIsFixed(v / 16, w - 1);
      RJustSnoc(HexString(v / 16), LowerDigit(v % 16), w, '0');
    }
  }

  /** "%02x" renders a byte as its high and low hexadecimal digit. */
  lemma Hex2Digits(b: Byte)
    ensures Hex2(b) == [LowerDigit(b / 16), LowerDigit(b % 16)]
  {
    assert Pow(16, 2) == 256;
    ZeroPaddedHexIsFixed(b, 2);
    assert FixedHex(b, 2) == FixedHex(b / 16 / 16, 0) + [LowerDigit(b / 16 % 16)] + [LowerDigit(b % 16)];
  }

  // ---------------------------------------------------------------------
  // String#scan(/(..)/) { |p| p.to_i(16) }
  // ---------------------------------------------------------------------

  /** The characters String#to_i skips before a number. */
  predicate IsSpace(c: char) {
    c == ' ' || c == '\t' || c == '\n' || c as int == 11 || c as int == 12 || c == '\r'
  }

  /**
   * String#to_i(16) of the two-character string [c1, c2]: an optional sign or
   * leading blank, then the longest run of hexadecimal digits; 0 if there is none.
   */
  function PairToI(c1: char, c2: char): int {
    if IsHexDigit(c1) then
      (if IsHexDigit(c2) then 16 * DigitValue(c1) + DigitValue(c2) else DigitValue(c1))
    else if IsSpace(c1) || c1 == '+' then
      (if IsHexDigit(c2) then DigitValue(c2) else 0)
    else if c1 == '-' then
      (if IsHexDigit(c2) then 0 - DigitValue(c2) else 0)
    else 0
  }

  /**
   * The integers `s.scan(/(..)/) { |p| p.to_i(16) }` yields: the leftmost
   * non-overlapping two-character matches, where '.' matches anything but '\n'.
   */
  function ScanHexPairs(s: string): (r: seq<int>)
    ensures |r| <= |s| / 2
  {
    if |s| < 2 then []
    else if s[0] != '\n' && s[1] != '\n' then [PairToI(s[0], s[1])] + ScanHexPairs(s[2..])
    else ScanHexPairs(s[1..])
  }

  /** Scanning splits over a prefix of even length without line breaks. */
  lemma {:induction false} ScanHexPairsAppend(a: string, b: string)
    requires |a| % 2 == 0
    requires forall i :: 0 <= i < |a| ==> a[i] != '\n'
    ensures ScanHexPairs(a + b) == ScanHexPairs(a) + ScanHexPairs(b)
  {
    if a == [] {
      assert a + b == b;
    } else {
      assert (a + b)[2..] == a[2..] + b;
      ScanHexPairsAppend(a[2..], b);
    }
  }

  /** Scanning fixed-width hexadecimal digits yields the big-endian bytes of the value. */
  lemma {:induction false} ScanFixedHex(v: nat, k: nat)
    ensures ScanHexPairs(FixedHex(v, 2 * k)) == BigEndian(v, k)
  {
    if k > 0 {
      DivMod256(v);
      var hi, lo := LowerDigit(v / 16 % 16), LowerDigit(v % 16);
      var front := FixedHex(v / 256, 2 * k - 2);
      assert FixedHex(v, 2 * k) == front + [hi, lo];
      ScanHexPairsAppend(front, [hi, lo]);
      ScanFixedHex(v / 256, k - 1);
      assert ScanHexPairs([hi, lo]) == [v % 256];
    }
  }

  lemma DivMod256(v: nat)
    ensures v / 16 / 16 == v / 256
    ensures 16 * (v / 16 % 16) + v % 16 == v % 256
  {
    var q, r := v / 256, v % 256;
    var a, b := r / 16, r % 16;
    assert v == 16 * (16 * q + a) + b;
    assert v / 16 == 16 * q + a;
    assert v % 16 == b;
  }

  /** Scanning hexadecimal digits two at a time yields bytes. */
  predicate AllBytes(xs: seq<int>) {
    forall i :: 0 <= i < |xs| ==> 0 <= xs[i] < 256
  }

  // ---------------------------------------------------------------------
  // "%02x" of each byte, concatenated
  // ---------------------------------------------------------------------

  /** The text `bytes.each { |b| value += "%02x" % b }` accumulates. */
  function HexOfBytes(bytes: seq<Byte>): (s: string)
    ensures |s| == 2 * |bytes|
  {
    if bytes == [] then []
    else
      Hex2Digits(bytes[|bytes| - 1]);
      HexOfBytes(bytes[..|bytes| - 1]) + Hex2(bytes[|bytes| - 1])
  }

  lemma {:induction false} HexOfBytesAppend(a: seq<Byte>, b: seq<Byte>)
    ensures HexOfBytes(a + b) == HexOfBytes(a) + HexOfBytes(b)
  {
    if b != [] {
      var n := |b|;
      assert (a + b)[..|a + b| - 1] == a + b[..n - 1];
      HexOfBytesAppend(a, b[..n - 1]);
    } else {
      assert a + b == a;
    }
  }

  /** Byte i occupies characters 2i and 2i+1, as its high and low digit. */
  lemma {:induction false} HexOfBytesAt(bytes: seq<Byte>, i: nat)
    requires i < |bytes|
    ensures HexOfBytes(bytes)[2 * i] == LowerDigit(bytes[i] / 16)
    ensures HexOfBytes(bytes)[2 * i + 1] == LowerDigit(bytes[i] % 16)
  {
    var n := |bytes|;
    Hex2Digits(bytes[n - 1]);
    if i < n - 1 {
      HexOfBytesAt(bytes[..n - 1], i);
    }
  }

  lemma HexOfBytesIsLowerHex(bytes: seq<Byte>)
    ensures forall k :: 0 <= k < |HexOfBytes(bytes)| ==> IsLowerHexDigit(HexOfBytes(bytes)[k])
  {
    forall k | 0 <= k < |HexOfBytes(bytes)|
      ensures IsLowerHexDigit(HexOfBytes(bytes)[k])
    {
      HexOfBytesAt(bytes, k / 2);
    }
  }

  /** Parsing the rendered bytes as one hexadecimal number gives their big-endian value. */
  lemma {:induction false} HexToIOfHexOfBytes(bytes: seq<Byte>)
    ensures forall k :: 0 <= k < |HexOfBytes(bytes)| ==> IsHexDigit(HexOfBytes(bytes)[k])
    ensures HexToI(HexOfBytes(bytes)) == ValueOf(bytes)
  {
    HexOfBytesIsLowerHex(bytes);
    if bytes != [] {
      var n := |bytes|;
      var init := bytes[..n - 1];
      var last := bytes[n - 1];
      var front := HexOfBytes(init);
      Hex2Digits(last);
      var hi, lo := LowerDigit(last / 16), LowerDigit(last % 16);
      var s := front + [hi, lo];
      assert HexOfBytes(bytes) == s;
      HexToIOfHexOfBytes(init);
      assert s[..|s| - 1] == front + [hi];
      assert (front + [hi])[..|front|] == front;
      assert HexToI(s) == (HexToI(front) * 16 + last / 16) * 16 + last % 16;
    }
  }

  lemma LowerCaseAllSplit(t: string)
    requires |t| >= 2
    ensures LowerCaseAll(t) == [LowerCase(t[0]), LowerCase(t[1])] + LowerCaseAll(t[2..])
  {
    var r := [LowerCase(t[0]), LowerCase(t[1])] + LowerCaseAll(t[2..]);
    forall k | 0 <= k < |t| ensures r[k] == LowerCaseAll(t)[k] {
      if k >= 2 {
        assert r[k] == LowerCaseAll(t[2..])[k - 2];
      }
    }
  }

  /** Two hexadecimal digits scan to a byte that "%02x" renders as the same digits in lower case. */
  lemma Hex2OfPair(c1: char, c2: char)
    requires IsHexDigit(c1) && IsHexDigit(c2)
    ensures 0 <= PairToI(c1, c2) < 256
    ensures Hex2(PairToI(c1, c2)) == [LowerCase(c1), LowerCase(c2)]
  {
    var b := PairToI(c1, c2);
    assert b / 16 == DigitValue(c1) && b % 16 == DigitValue(c2);
    Hex2Digits(b);
    LowerDigitOfValue(c1);
    LowerDigitOfValue(c2);
  }

  /**
   * Scanning a string of hexadecimal digits of either case yields bytes whose
   * "%02x" renderings spell the same string in lower case.
   */
  lemma {:induction false} HexOfScan(t: string)
    requires |t| % 2 == 0
    requires forall i :: 0 <= i < |t| ==> IsHexDigit(t[i])
    ensures |ScanHexPairs(t)| == |t| / 2
    ensures AllBytes(ScanHexPairs(t))
    ensures HexOfBytes(ScanHexPairs(t)) == LowerCaseAll(t)
  {
    if t != [] {
      Hex2OfPair(t[0], t[1]);
      var b: Byte := PairToI(t[0], t[1]);
      HexOfScan(t[2..]);
      var rest: seq<Byte> := ScanHexPairs(t[2..]);
      assert ScanHexPairs(t) == [b] + rest;
      HexOfBytesAppend([b], rest);
      assert HexOfBytes([b]) == Hex2(b);
      LowerCaseAllSplit(t);
    }
  }

  // ---------------------------------------------------------------------
  // String#insert
  // ---------------------------------------------------------------------

  /** String#insert(idx, t) for idx >= 0: IndexError when idx is past the end. */
  function Insert(s: string, idx: nat, t: string): (r: Result<string>)
    ensures r.Ok? <==> idx <= |s|
    ensures r.Ok? ==>
      (|r.value| == |s| + |t| && r.value[idx..idx + |t|] == t
       && r.value[..idx] == s[..idx] && r.value[idx + |t|..] == s[idx..])
  {
    if idx <= |s| then Ok(s[..idx] + t + s[idx..])
    else Raised(IndexError("index " + IntToS(idx) + " out of string"))
  }
}
