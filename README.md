# Qpid Proton Ruby codec: the conversions of `Codec::Data`

`Qpid::Proton::Codec::Data` is the Ruby wrapper around the proton C library's
AMQP data tree (`pn_data_t`). Almost all of its methods hand their argument to
a C call directly. This model covers the part that is Ruby logic of its own:

- `uuid=` turns a number or a hyphenated string into 16 bytes. The string is
  first checked by the private `valid_uuid?`.
- `uuid` turns the bytes back into a hyphenated string.
- `decimal128=` and `decimal128` convert between an Integer and 16 bytes.
- `encode` serializes into a buffer that starts at 1024 bytes and doubles on
  every `PN_OVERFLOW`.
- `check` turns a negative status into a `DataError`.
- `uint=` and `ulong=` guard against nil and negative values.
- `type_code` maps the library's `-1` to nil.

The model is in three modules:

- `Octets` (octets.dfy) defines big-endian bytes and the unsigned integer they
  denote.
- `Ruby` (ruby.dfy) defines the Ruby core behaviour these methods depend on.
  That is `Integer#to_s(16)`, `String#rjust`, `"%0Nx"`, `"%02x"`,
  `String#to_i(16)` of a two-character string, `String#scan(/(..)/)` (where `.`
  does not match a line break) and `String#insert`. It also defines nil (an
  `Option`) and raised exceptions (a `Result`).
- `Data` (data.dfy) defines the methods themselves.

A setter is modelled up to the `pn_data_put_*` call it issues. It returns a
`Put` carrying the arguments of that call, or the exception raised before the
call. A getter takes the bytes that the C getter returned as a parameter.
`encode` takes the result of `pn_data_encode` on the data object's tree as an
`Encoder` value. `PnDataEncode` describes what the C function does with a
buffer of a given size.

Two behaviours of the code as written are stated rather than corrected:

- The UUID pattern is unanchored (`ValidUuidUnanchored`), yet the string is
  cut at fixed offsets from index 0. So `"-"` followed by a valid UUID is
  accepted, and its first byte is put as `-15` (`UuidMisalignedMatch`).
- `decimal128=` does not reject negative values. `-1` puts fifteen zeros and
  then `-1` (`Decimal128MinusOne`).

## Model

| member | source | states |
|---|---|---|
| Data.Check | proton-c/bindings/ruby/lib/codec/data.rb:902-908 | A status passes through exactly when it is non-negative. A negative status raises DataError "[err]: diagnostic". |
| Data.CheckMessageCarriesCode | proton-c/bindings/ruby/lib/codec/data.rb:904 | The DataError message starts with "[", then the status, then "]:". The status text reads back as the status. |
| Data.TypeCode | proton-c/bindings/ruby/lib/codec/data.rb:174-177 | The result is nil exactly when the library reports -1. Otherwise it is the library's code unchanged. |
| Data.SetUint | proton-c/bindings/ruby/lib/codec/data.rb:562-566 | The put happens exactly for non-negative values, and it puts the value itself. nil raises TypeError. A negative value raises RangeError "invalid uint: v". |
| Data.SetUlong | proton-c/bindings/ruby/lib/codec/data.rb:616-620 | The same guards as uint=, with the "invalid ulong: v" message and pn_data_put_ulong. |
| Data.ScanBytes | proton-c/bindings/ruby/lib/codec/data.rb:791-792 | The accumulating scan loop yields exactly the integers of the leftmost non-overlapping two-character matches, each read with to_i(16). |
| Data.SetDecimal128 | proton-c/bindings/ruby/lib/codec/data.rb:736-742 | nil raises TypeError before any put. Any other Integer puts the scan of its to_s(16), right-justified to 32 digits. A value in [0, 2^128) puts exactly its 16 big-endian bytes. |
| Data.Decimal128BytesBigEndian | proton-c/bindings/ruby/lib/codec/data.rb:738-740 | For 0 <= v < 2^128, padding and scanning yield the 16-byte big-endian representation of v. |
| Data.GetDecimal128 | proton-c/bindings/ruby/lib/codec/data.rb:749-753 | Concatenating "%02x" of each byte and parsing the text as hexadecimal gives the big-endian value of the bytes. |
| Data.Decimal128RoundTrip | proton-c/bindings/ruby/lib/codec/data.rb:736-753 | Every value in [0, 2^128) is put as 16 bytes and reads back unchanged. |
| Data.Decimal128MinusOne | proton-c/bindings/ruby/lib/codec/data.rb:737-740 | Negative values are not guarded. -1 is put as fifteen 0 bytes followed by the integer -1, which is not a byte. |
| Data.MatchFrom | proton-c/bindings/ruby/lib/codec/data.rb:898 | The result is the leftmost index at or after i where the 8-4-4-4-12 hex pattern matches. It is nil when there is none. |
| Data.ValidUuid | proton-c/bindings/ruby/lib/codec/data.rb:895-899 | `value =~ pattern` returns the leftmost match index in the whole string, or nil exactly when no substring matches. |
| Data.ValidUuidUnanchored | proton-c/bindings/ruby/lib/codec/data.rb:898 | Any string containing a UUID-shaped substring passes, whatever precedes or follows it. |
| Data.UuidNumberBigEndian | proton-c/bindings/ruby/lib/codec/data.rb:780-781 | A number below 2^128 is rendered "%032x" and scanned into its 16 big-endian bytes. |
| Data.StripHyphens | proton-c/bindings/ruby/lib/codec/data.rb:785-789 | The five fixed slices of a string of at least 36 characters make 32 characters. |
| Data.SetUuid | proton-c/bindings/ruby/lib/codec/data.rb:774-794 | nil raises ArgumentError before any put. A string with no match raises ArgumentError "invalid uuid: s". A string with a match puts the scan of its five fixed slices. A number puts the scan of "%032x", which is its 16 big-endian bytes when it is below 2^128. |
| Data.GetUuid | proton-c/bindings/ruby/lib/codec/data.rb:801-805 | The result is the "%02x" text of the bytes with hyphens inserted at 8, 13, 18 and 23. It succeeds exactly when there are at least 10 bytes; otherwise String#insert raises IndexError. |
| Data.HyphenateLayout | proton-c/bindings/ruby/lib/codec/data.rb:804 | The four chained inserts on 32 characters lay them out as 8-4-4-4-12, separated by hyphens. |
| Data.HyphenateStrip | proton-c/bindings/ruby/lib/codec/data.rb:785-789 | Cutting out the hyphens of a laid-out UUID with uuid='s slices, then inserting them back with uuid's inserts, restores the UUID. |
| Data.UuidTextShape | proton-c/bindings/ruby/lib/codec/data.rb:801-805 | uuid of 16 bytes is a lower-case 8-4-4-4-12 UUID. Without its hyphens, it is the "%02x" text of the bytes in order. |
| Data.UuidTextRoundTrip | proton-c/bindings/ruby/lib/codec/data.rb:774-805 | A string whose first 36 characters form a UUID in either case matches at index 0 and is put as 16 bytes. Those bytes read back as the 36 characters in lower case. |
| Data.UuidLowerRoundTrip | proton-c/bindings/ruby/lib/codec/data.rb:774-805 | A lower-case UUID round-trips through uuid= and uuid unchanged. |
| Data.UuidMisalignedMatch | proton-c/bindings/ruby/lib/codec/data.rb:783-792 | "-" followed by the documented example UUID matches at index 1, but the slicing starts at 0, so the first value put is -15 ("-f".to_i(16)). |
| Data.UuidExampleRoundTrip | proton-c/bindings/ruby/lib/codec/data.rb:769 | The documented example "fd0289a5-8eec-4a08-9283-81d02c9d2fff" is put as 16 bytes that read back as the same text. |
| Data.UuidZero | proton-c/bindings/ruby/lib/codec/data.rb:772 | The number 0 is put as sixteen zero bytes. Those bytes read back as "00000000-0000-0000-0000-000000000000", as documented. |
| Data.PnDataEncode | proton-c/bindings/ruby/lib/codec/data.rb:201 | The buffer keeps its length across the C call. |
| Data.CapacityIsPowerOfTwo | proton-c/bindings/ruby/lib/codec/data.rb:199-203 | After k doublings the buffer holds 1024 * 2^k bytes. |
| Data.CapacityMonotone | proton-c/bindings/ruby/lib/codec/data.rb:203 | Buffer sizes never shrink across doublings. |
| Data.Encode | proton-c/bindings/ruby/lib/codec/data.rb:198-210 | Serialized data is returned exactly as the library produced it. A failing status raises the DataError that check builds. The final buffer is the first doubling that holds the data: the one before it was too small, and the final one is less than twice the data's size. |
| Ruby.Insert | proton-c/bindings/ruby/lib/codec/data.rb:804 | String#insert succeeds exactly when the index is at most the length. The inserted text sits at that index, with the original text on either side. |
| Ruby.IntToSRoundTrip | proton-c/bindings/ruby/lib/codec/data.rb:904 | The decimal text that "#{err}" interpolates reads back as err, including negative values. |
| Ruby.ZeroPaddedHexIsFixed | proton-c/bindings/ruby/lib/codec/data.rb:781 | "%0wx" of a value below 16^w, and to_s(16).rjust(w, "0"), is exactly its w lower-case hexadecimal digits. |
| Ruby.Hex2Digits | proton-c/bindings/ruby/lib/codec/data.rb:751 | "%02x" renders a byte as its high digit followed by its low digit. |
| Ruby.ScanFixedHex | proton-c/bindings/ruby/lib/codec/data.rb:738-740 | Scanning the 2k fixed-width hex digits of v gives v's k big-endian bytes. |
| Ruby.ScanHexPairsAppend | proton-c/bindings/ruby/lib/codec/data.rb:792 | Scanning splits over a prefix of even length that has no line breaks. |
| Ruby.HexOfScan | proton-c/bindings/ruby/lib/codec/data.rb:792-803 | Scanning an even-length string of hex digits gives |t|/2 bytes. Their "%02x" text is the same string in lower case. |
| Ruby.HexOfBytesAt | proton-c/bindings/ruby/lib/codec/data.rb:803 | Byte i of the input appears at characters 2i and 2i+1 of the rendered text, as its high and low digit. |
| Ruby.HexToIOfHexOfBytes | proton-c/bindings/ruby/lib/codec/data.rb:751-752 | The concatenated "%02x" text of the bytes is all hex digits, and to_i(16) of it is the bytes' big-endian value. |
| Octets.ValueOfBigEndian | proton-c/bindings/ruby/lib/codec/data.rb:752 | Reading back the k big-endian bytes of a value below 256^k gives the value. |
| Octets.BigEndianValueOf | proton-c/bindings/ruby/lib/codec/data.rb:752 | Every byte sequence is the big-endian representation of its own value. |
| Octets.PowHexBytes | proton-c/bindings/ruby/lib/codec/data.rb:738 | 32 hexadecimal digits span exactly 16 bytes: 16^(2k) = 256^k. |

## Left out

- The C library is not part of this model. That covers the value tree, its cursor, the `pn_data_put_*` and `pn_data_get_*` calls, decoding and `pn_data_error`. The bytes a getter returns and the diagnostic text are parameters, and the put calls are returned as `Put` values.
- Data.SetUint: the status of the put call is not passed through `check`; the model stops at the call. The same holds for SetUlong, SetDecimal128 and SetUuid.
- Data.SetUint: arguments that are not Integers are not modelled. For such arguments `value < 0` raises, or compares differently, in Ruby. The same holds for SetUlong.
- Data.SetUuid: arguments that are neither a non-negative Integer nor a String are not modelled. That covers Floats and other Numerics, negative Integers (for which "%032x" prints a two's-complement form such as "..f") and other objects, whose `=~` has its own behaviour.
- Data.SetDecimal128: Float arguments are not modelled.
- Data.Encode: requires that a failing status is not PN_OVERFLOW. A library that reported PN_OVERFLOW forever would make `encode` loop forever, and that cannot be stated as a terminating method. The model also does not capture the string mutation of `buffer *= 2`; the doubled buffer is a new sequence.
- `PN_OVERFLOW` is -3, the value in proton's C `error.h`. That header is not part of this model.
- The C library's treatment of byte arrays with a length other than 16, or with values outside 0..255, is not modelled. The model states what is handed to the library, as `Put` values.
- The methods that only forward to the C library are not modelled, because they contain no Ruby logic. That covers the other `put_*` setters and getters, `timestamp=`, `float`/`double`, the `binary`/`string` wrappers, the mapping-based `object`/`type` dispatch, the array, list, map and described-value navigation, and the finalizer.
- The C++ binding headers are not part of this model.
