# ObjectId engine of penguin, modelled in Dafny

penguin generates 12-byte, time-sortable identifiers ("ObjectIds"). An id is
three fixed-width big-endian fields packed together:

- a 4-byte timestamp: seconds since the Unix epoch, truncated to `u32`;
- a 5-byte machine id: chosen at random once per process;
- a 3-byte counter: the low three bytes of a process-wide `u32`. Each
  "unique" construction fetches the counter and then increments it.

The repository holds two copies of this engine. The main crate
(`crates/object_id`) checks the length when it parses hex. The older Ruby
extension (`ext/bson_object_id`) skips that check and adds an integer view.
A thin Ruby-facing wrapper (`ext/penguin_object_id`) adds the 24-character
lowercase hex rendering and the -1/0/1 comparison on top of the main crate.

Modules:

- `Bytes` (bytes.dfy): Rust's `u8`/`u32`/`i64` as subset types. Also
  `to_be_bytes` (`ToBe`), `from_be_bytes` (`BeValue`), and the lexicographic
  `Ord` on byte slices (`Cmp`), with their algebra.
- `Time` (time.dfy): `SystemTime` and Ruby's `Time`, both as a Unix timespec.
- `Hex` (hex.dfy): the parts of the `hex` crate that the engine calls.
  `encode` and `encode_to_slice` write lowercase. `decode` accepts both cases,
  refuses odd length first, and then reports the first bad character with its
  byte index.
- `Layout` (layout.dfy): what the two crates define identically. This covers
  the `ObjectId` struct, `to_bytes`, `machine_id`, `counter`, `eq`/`cmp`,
  the counter rule, and the two process-wide cells. Layout also holds the main
  crate's `timestamp` accessor, which returns the `i64` seconds, and its
  `t as u32` timestamp rule on an `i64`. The older extension builds its
  timestamp from a `SystemTime` instead (`BsonObjectId.FromTime`).
  Also in Layout are the `timestamp` (as a time) and `compare` that both Ruby
  classes expose in the same way (`ToTime`, `CompareI8`). Each crate's
  `COUNTER`/`MACHINE_ID` statics become one `Process` object. `machineId` is
  a `const`, because it is written once. `counter` is a `u32` field that only
  `FetchAdd` changes, wrapping at 2^32. The random initial values are
  constructor parameters.
- `CoreObjectId`, `BsonObjectId`, `PenguinObjectId`: one module per crate,
  with what that crate does differently.

Text is modelled as its UTF-8 byte sequence (`seq<byte>`), because
`hex::decode` works on bytes. The byte copy that `ext/bson_object_id` makes in
`to_string` (lines 135-138) into a 12-byte buffer is the same packing as `to_bytes`, so the model
calls `Layout.ToBytes` for it. `ext/bson_object_id` repeats `to_bytes`,
`machine_id`, `counter`, `eq` and `cmp` word for word (lines 99-105, 118-126,
143-161). The `crates/object_id` rows below cover both copies.

Three details of the code matter:

- The errors are named `InvalidHexString` and `InvalidHexIdLength`.
- The counter field comes from the value `fetch_add` returns, which is the
  value *before* the increment.
- Parsing accepts uppercase hex digits and gives them the value of their
  lowercase form. Re-rendering a parsed id gives the lowercase form of the
  input.

## Model

| member | source | states |
|---|---|---|
| Layout.Process.constructor | crates/object_id/src/lib.rs:8-16 | the machine id and the counter start at the given (random) values |
| Layout.Process.FetchAdd | crates/object_id/src/lib.rs:52 | returns the counter before the increment; the counter becomes (c+1) mod 2^32 |
| CoreObjectId.FromTime | crates/object_id/src/lib.rs:50-68 | the id holds `t mod 2^32` big-endian, the process machine id, and either the low 3 bytes of the fetched counter (unique; counter then advances) or zeros (counter untouched) |
| CoreObjectId.New | crates/object_id/src/lib.rs:35-47 | `from_time(now, true)` with the clock's seconds as input |
| Layout.ToBytes | crates/object_id/src/lib.rs:71-77 | filling a zeroed 12-byte buffer yields exactly timestamp ++ machine id ++ counter |
| Layout.Pack | crates/object_id/src/lib.rs:71-77 | the 12-byte form has the timestamp at 0..4, the machine id at 4..9, the counter at 9..12 |
| Layout.CopyFromSlice | crates/object_id/src/lib.rs:73-75 | the bytes at positions at..at+n of the buffer become the source, and every other byte is unchanged |
| Layout.Unpack | crates/object_id/src/lib.rs:101-103 | the fields split at offsets 4 and 9 re-pack to the first 12 bytes |
| Layout.UnpackPack | crates/object_id/src/lib.rs:101-109 | splitting an id's bytes at offsets 4 and 9 gives the id back |
| Layout.Timestamp | crates/object_id/src/lib.rs:79-81 | the timestamp accessor lies in [0, 2^32) |
| Layout.MachineId | crates/object_id/src/lib.rs:83-87 | the machine id read through the zero-left-padded `u64` is the 5-byte value, below 2^40 |
| Layout.Counter | crates/object_id/src/lib.rs:89-91 | the counter read through the zero-left-padded `u32` is the 3-byte value, below 2^24 |
| Layout.TruncateU32 | crates/object_id/src/lib.rs:60 | `t as u32` is the unique value in [0, 2^32) congruent to t modulo 2^32 |
| Layout.TimestampBytes | crates/object_id/src/lib.rs:60 | the 4 bytes read big-endian are `t as u32` |
| Layout.CounterBytes | crates/object_id/src/lib.rs:52-54 | the last 3 of the 4 big-endian bytes of c read as c mod 2^24 |
| Layout.CounterField | crates/object_id/src/lib.rs:51-57 | the counter field reads as c mod 2^24 when unique and as 0 otherwise |
| Layout.NextCounter | crates/object_id/src/lib.rs:52 | `fetch_add(1)` leaves c+1, except that 2^32-1 wraps to 0 |
| Layout.TimestampOfTime | crates/object_id/src/lib.rs:60 | an id built from t has `timestamp() == t mod 2^32` (two's-complement truncation, negative t included) |
| Layout.CounterOfFetched | crates/object_id/src/lib.rs:52-54 | a unique id built from counter state c has `counter() == c mod 2^24` |
| Layout.CounterWrapAgrees | crates/object_id/src/lib.rs:52-54 | wrapping the u32 counter at 2^32 and the field at 2^24 agree: the next field is the current one plus one, mod 2^24 |
| Layout.Eq | crates/object_id/src/lib.rs:112-116 | byte-wise equality of `to_bytes` holds exactly when the two ids are the same value |
| Layout.Compare | crates/object_id/src/lib.rs:126-130 | byte-wise `cmp` is the order of the 96-bit big-endian numbers |
| Layout.CompareEqualIff | crates/object_id/src/lib.rs:112-130 | `cmp` says Equal exactly when the ids are equal, so it is consistent with `eq` |
| Layout.CompareAntisymmetric | crates/object_id/src/lib.rs:126-130 | swapping the operands reverses the ordering |
| Layout.CompareTransitive | crates/object_id/src/lib.rs:126-130 | the ordering is transitive, both strictly and non-strictly |
| Layout.CompareFieldwise | crates/object_id/src/lib.rs:126-130 | the ordering is lexicographic on (timestamp, machine id, counter) as integers |
| Layout.ToTime | ext/penguin_object_id/src/lib.rs:43-45 | `timestamp` of both Ruby classes (also ext/bson_object_id/src/lib.rs:114-116): the epoch plus a whole number of seconds below 2^32 |
| Time.FromEpochSecs | ext/penguin_object_id/src/lib.rs:44 | `UNIX_EPOCH + Duration::from_secs(n)` (also ext/bson_object_id/src/lib.rs:115) is n whole seconds after the epoch with no nanoseconds |
| Layout.ToTimeIsFloor | ext/penguin_object_id/src/lib.rs:20-25 | an id generated from a time whose seconds fit in 32 bits reports that time rounded down to the second |
| Layout.CompareI8 | ext/penguin_object_id/src/lib.rs:57-60 | `compare` of both Ruby classes (also ext/bson_object_id/src/lib.rs:128-130): -1, 0 or 1; 0 exactly for equal ids, -1 exactly when the first id's bytes are smaller |
| Bytes.Ordering.AsI8 | ext/penguin_object_id/src/lib.rs:59 | `Ordering as i8` (also ext/bson_object_id/src/lib.rs:129): -1 exactly for Less, 0 exactly for Equal, otherwise 1 |
| Layout.LaterTimestampIsGreater | crates/object_id/src/lib.rs:126-130 | a larger truncated timestamp always gives the larger id |
| CoreObjectId.TryFrom | crates/object_id/src/lib.rs:94-110 | on success the input had 24 characters and the id's bytes are the decoded bytes |
| CoreObjectId.TryFromOkIff | crates/object_id/src/lib.rs:96-109 | parsing succeeds exactly on 24 hex digits (either case) |
| CoreObjectId.TryFromHexError | crates/object_id/src/lib.rs:97 | `InvalidHexString` exactly on odd length or a non-hex character; `OddLength` exactly on odd length; otherwise the reported character is at its index and not a hex digit |
| CoreObjectId.TryFromLengthError | crates/object_id/src/lib.rs:98-100 | `InvalidHexIdLength(n)` exactly when the text is valid hex of 2n characters with n different from 12 |
| CoreObjectId.WrongLengthExamples | crates/object_id/src/lib.rs:98-100 | 22 hex digits give `InvalidHexIdLength(11)`, 26 give `InvalidHexIdLength(13)` |
| CoreObjectId.TryFromEncode | crates/object_id/src/lib.rs:101-109 | parsing the hex of an id's bytes returns that id |
| CoreObjectId.EncodeTryFrom | crates/object_id/src/lib.rs:96-109 | for 24 lowercase hex digits, re-rendering the parsed id reproduces the text |
| CoreObjectId.TryFromIgnoresCase | crates/object_id/src/lib.rs:96-109 | text parses exactly when its lowercase form does, to the same id, and that id renders as the lowercase form |
| CoreObjectId.ParseExample | crates/object_id/src/lib.rs:96-109 | `"507f1f77bcf86cd799439011"` parses and renders back unchanged |
| CoreObjectId.TimestampExamples | crates/object_id/src/lib.rs:60 | t = 2^63-1 gives timestamp 2^32-1; t = 0x12345678 gives leading bytes 12 34 56 78 |
| CoreObjectId.NonUniqueIdsEqual | crates/object_id/src/lib.rs:51-57 | non-unique ids for the same truncated second are equal and have counter 0, whatever the counter state |
| CoreObjectId.CounterWrapScenario | crates/object_id/src/lib.rs:50-68 | from counter 0xFFFFFF, four unique ids get counters 0xFFFFFF, 0, 1, 2, all with the process machine id |
| Bytes.BeValueToBe | crates/object_id/src/lib.rs:53-60 | `to_be_bytes` keeps exactly the value modulo 256^n, so `from_be_bytes` inverts it in range |
| Bytes.BeValue | crates/object_id/src/lib.rs:80 | `from_be_bytes` of n bytes is below 256^n |
| Bytes.ToBe | crates/object_id/src/lib.rs:53 | `to_be_bytes` into n bytes yields exactly n bytes |
| Bytes.Cmp | crates/object_id/src/lib.rs:128 | slice `cmp` is Equal exactly on equal slices, and a proper prefix is Less than the longer slice |
| Bytes.CmpIsValueOrder | crates/object_id/src/lib.rs:128 | on equal-length byte strings lexicographic order is numeric order |
| Bytes.CmpAppend | crates/object_id/src/lib.rs:128 | concatenations compare by their first parts unless those are equal |
| Hex.Decode | crates/object_id/src/lib.rs:97 | a successful decode has half as many bytes as the text has characters |
| Hex.NibbleValue | crates/object_id/src/lib.rs:97 | a byte has a value exactly when it is a hex digit of either case, and the value is below 16 |
| Hex.NibbleCase | crates/object_id/src/lib.rs:97 | an uppercase digit A-F has the same value as its lowercase form |
| Hex.DecodePairs | crates/object_id/src/lib.rs:97 | decoding digit pairs from a given offset yields one byte per pair |
| Hex.DecodeAt | crates/object_id/src/lib.rs:97 | byte k of a decoding is 16 times the value of character 2k plus the value of character 2k+1, in either case |
| Hex.DecodeIgnoresCase | crates/object_id/src/lib.rs:97 | lowercasing the text changes neither whether decoding succeeds nor the bytes it yields |
| Hex.EncodeDecodeAnyCase | crates/object_id/src/lib.rs:97 | re-encoding a decoding gives the lowercase form of the text |
| Hex.DecodeOkIff | crates/object_id/src/lib.rs:97 | decoding succeeds exactly on even-length text of hex digits |
| Hex.DecodeError | crates/object_id/src/lib.rs:97 | `OddLength` exactly on odd length; otherwise the error names the first non-hex character and its index |
| Hex.DecodeEncode | crates/object_id/src/lib.rs:97 | decoding undoes encoding |
| Hex.EncodeDecode | crates/object_id/src/lib.rs:97 | encoding undoes decoding on lowercase even-length text |
| Hex.Encode | ext/bson_object_id/src/lib.rs:139 | the encoding has two lowercase digits per byte |
| Hex.LowerDigit | ext/bson_object_id/src/lib.rs:139 | the encoder writes nibble n as a lowercase digit that reads back as n (also ext/penguin_object_id/src/lib.rs:37) |
| Hex.Alphabet | ext/bson_object_id/src/lib.rs:139 | nibble n is written as the n-th character of `0123456789abcdef`, and that character decodes as n |
| Hex.EncodeToSlice | ext/penguin_object_id/src/lib.rs:37-38 | fails with `InvalidStringLength` unless the buffer is twice the input, else fills it with the encoding |
| Hex.EncodeAt | ext/penguin_object_id/src/lib.rs:37 | byte j is encoded at positions 2j (high nibble) and 2j+1 (low nibble) |
| Hex.DecodeAppend | ext/bson_object_id/src/lib.rs:82-83 | decoding two valid pieces one after the other decodes each piece |
| BsonObjectId.FromTime | ext/bson_object_id/src/lib.rs:36-79 | needs a time at or after the epoch; the id holds its whole seconds mod 2^32, the process machine id, and the counter rule driven by the `unique:` keyword |
| BsonObjectId.New | ext/bson_object_id/src/lib.rs:28-34 | `from_time(now, unique: true)` |
| BsonObjectId.UniqueDefaults | ext/bson_object_id/src/lib.rs:38-50 | a missing `unique` key means false, as do `nil` and `false`; `new` passes true |
| BsonObjectId.UniqueFlag | ext/bson_object_id/src/lib.rs:38-50 | `unique` is set exactly when the key is present with a value other than `nil` or `false` |
| BsonObjectId.FromString | ext/bson_object_id/src/lib.rs:81-93 | needs input that fails to decode or has at least 24 characters; succeeds exactly on even-length hex; the id is the first 12 decoded bytes; errors are `ArgumentError` with the decoder's error |
| BsonObjectId.FromStringIgnoresExtra | ext/bson_object_id/src/lib.rs:82-92 | hex digits beyond the first 24 do not change the parsed id |
| BsonObjectId.FromStringRoundTrip | ext/bson_object_id/src/lib.rs:81-93 | for 24 lowercase hex digits, rendering the parsed id reproduces the text |
| BsonObjectId.ToStringFromString | ext/bson_object_id/src/lib.rs:81-93 | the rendering of an id has 24 characters and parses back to that id |
| BsonObjectId.ToBytes | ext/bson_object_id/src/lib.rs:99-105 | the same 12-byte packing as the main crate |
| BsonObjectId.ToString | ext/bson_object_id/src/lib.rs:133-141 | 24 lowercase hex characters: the encoding of exactly the `to_bytes` bytes |
| BsonObjectId.ToI | ext/bson_object_id/src/lib.rs:107-112 | the 12 bytes padded on the right to 16 read as `u128`: the 96-bit value times 2^32, below 2^128 |
| BsonObjectId.IntegerViewOrder | ext/bson_object_id/src/lib.rs:107-112 | the integer view is a multiple of 2^32 and orders ids exactly as `cmp` does |
| PenguinObjectId.Generate | ext/penguin_object_id/src/lib.rs:11-13 | the core's `new` |
| PenguinObjectId.GenerateFromTime | ext/penguin_object_id/src/lib.rs:20-25 | the core's `from_time` on the time's whole seconds, with `unique` passed through |
| PenguinObjectId.FromString | ext/penguin_object_id/src/lib.rs:28-32 | succeeds exactly when the core's `try_from` does, with its id; every core error becomes an `ArgumentError` carrying it |
| PenguinObjectId.ToS | ext/penguin_object_id/src/lib.rs:35-40 | 24 lowercase hex characters, the encoding of the core's `to_bytes`; the `expect` cannot fire |
| PenguinObjectId.ToSDigits | ext/penguin_object_id/src/lib.rs:35-40 | characters 2k and 2k+1 are the high and low digit of byte k, byte 0 first |
| PenguinObjectId.ToSFromString | ext/penguin_object_id/src/lib.rs:28-40 | for 24 lowercase hex digits, `to_s(from_string(s)) == s` |
| PenguinObjectId.FromStringToS | ext/penguin_object_id/src/lib.rs:28-40 | `from_string` of an id's rendering is that id |
| PenguinObjectId.Eq | ext/penguin_object_id/src/lib.rs:62-65 | true exactly when the ids are equal |
| PenguinObjectId.ConsecutiveUniqueIncrease | ext/penguin_object_id/src/lib.rs:20-25 | consecutive unique ids for one second have strictly increasing counters and `compare` gives -1, unless the 24-bit field wraps |
| PenguinObjectId.TwoUniqueSameSecond | ext/penguin_object_id/src/lib.rs:20-25 | two unique generations in one second share machine id and timestamp, the second is greater, and the counter advances twice |
| PenguinObjectId.TwoNonUniqueSameSecond | ext/penguin_object_id/src/lib.rs:20-25 | two non-unique generations in one second are equal, have counter 0, and leave the counter alone |

## Left out

- The clock: `clock_gettime` in `ObjectId::new`, its `assert_eq` on the
  return code, and `SystemTime::now`. The current time is a parameter.
- Randomness: `rand::random` and `rand::fill` seed the counter and the
  machine id. Both values are constructor parameters of `Layout.Process`.
- Atomics and `LazyLock`: the memory ordering of `fetch_add` and thread-safe
  once-initialisation are about concurrency. `fetch_add` is a sequential
  read-then-increment.
- Logging (`log::debug!`, `env_logger`).
- Ruby binding glue: the `#[magnus::init]` functions, `magnus::wrap`, and
  the conversion of Ruby strings and times. The `lib/*.rb` files are left
  out too, including the Ruby-side default `unique: true` of
  `Penguin::ObjectId.from_time`.
- BsonObjectId.FromTime, BsonObjectId.New: the `expect` panic on a time before the epoch (ext/bson_object_id/src/lib.rs:61-63) is a precondition, `tvSec >= 0`. The panic itself is not modelled.
- BsonObjectId.FromString: the indexing panic on fewer than 12 decoded bytes (ext/bson_object_id/src/lib.rs:85-87) is a precondition: the text must fail to decode or have at least 24 characters. The panic itself is not modelled.
- `Time#timespec` failing in `generate_from_time`: the `unwrap` is assumed
  to succeed.
- Error messages: `e.to_string()` becomes the message of an `ArgumentError`.
  The model keeps the error value instead of its text.
- The `hex` crate is not part of this model. `Hex` models the behaviour the
  engine relies on.
- `PenguinObjectId.machine_id` / `counter`: these are direct delegations to
  the core accessors and are modelled by `Layout.MachineId` and
  `Layout.Counter`.
- Benchmarks and the Ruby tests (used here only as evidence of intended
  behaviour).
