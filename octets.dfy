/**
 * Bytes and the unsigned integers they denote in big-endian order (most
 * significant byte first), the layout of the 16-byte UUID and decimal128
 * payloads.
 */
module Octets {

  /** One byte of a payload, as the C library hands it to Ruby. */
  type Byte = b: int | 0 <= b < 256

  function Pow(base: nat, e: nat): (r: nat)
    ensures base > 0 ==> r > 0
  {
    if e == 0 then 1 else base * Pow(base, e - 1)
  }

  /** The k-byte big-endian representation of v modulo 256^k. */
  function BigEndian(v: nat, k: nat): (r: seq<Byte>)
    ensures |r| == k
  {
    if k == 0 then [] else BigEndian(v / 256, k - 1) + [v % 256]
  }

  /** The unsigned integer a big-endian byte sequence denotes. */
  function ValueOf(bytes: seq<Byte>): (v: nat)
    ensures v < Pow(256, |bytes|)
  {
    if bytes == [] then 0
    else
      var init := bytes[..|bytes| - 1];
      var rest := ValueOf(init);
      assert rest <= Pow(256, |init|) - 1;
      assert rest * 256 <= Pow(256, |init|) * 256 - 256;
      rest * 256 + bytes[|bytes| - 1]
  }

  /** Zero is k zero bytes. */
  lemma {:induction false} BigEndianZero(k: nat)
    ensures BigEndian(0, k) == seq(k, _ => 0)
  {
    if k > 0 {
      BigEndianZero(k - 1);
    }
  }

  /** Reading back the k bytes of a value that fits in them gives the value. */
  lemma {:induction false} ValueOfBigEndian(v: nat, k: nat)
    requires v < Pow(256, k)
    ensures ValueOf(BigEndian(v, k)) == v
  {
    if k > 0 {
      var init := BigEndian(v / 256, k - 1);
      assert v / 256 < Pow(256, k - 1);
      ValueOfBigEndian(v / 256, k - 1);
      assert (init + [v % 256])[..k - 1] == init;
    }
  }

  /** Every byte sequence is the big-endian representation of its value. */
  lemma {:induction false} BigEndianValueOf(bytes: seq<Byte>)
    ensures BigEndian(ValueOf(bytes), |bytes|) == bytes
  {
    if bytes != [] {
      var n := |bytes|;
      var init := bytes[..n - 1];
      var v := ValueOf(bytes);
      assert v == ValueOf(init) * 256 + bytes[n - 1];
      assert v / 256 == ValueOf(init) && v % 256 == bytes[n - 1];
      BigEndianValueOf(init);
      assert bytes == init + [bytes[n - 1]];
    }
  }

  /** Two hexadecimal digits make one byte: 16^(2k) == 256^k. */
  lemma {:induction false} PowHexBytes(k: nat)
    ensures Pow(16, 2 * k) == Pow(256, k)
  {
    if k > 0 {
      PowHexBytes(k - 1);
      assert Pow(16, 2 * k) == 16 * (16 * Pow(16, 2 * (k - 1)));
    }
  }
}
