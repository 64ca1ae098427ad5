/** The older Ruby-extension copy, ext/bson_object_id. It keeps its own
    process cells and repeats the layout (module Layout), but takes a
    `SystemTime` and a keyword hash, parses without checking the length, and
    adds the `to_i` integer view. `timestamp` and `compare` are
    `Layout.ToTime` and `Layout.CompareI8`. */
module BsonObjectId {
  import opened Bytes
  import opened Time
  import Hex
  import opened Layout

  const TWO_128: nat := 0x1_0000_0000_0000_0000_0000_0000_0000_0000

  /** The Ruby values a keyword argument can hold, as far as truthiness goes. */
  datatype RubyValue = Nil | Bool(b: bool) | Other {
    /** Ruby truthiness (`Value::to_bool`): only `nil` and `false` are false. */
    predicate Truthy() {
      !(Nil? || this == Bool(false))
    }
  }

  /** A Ruby `ArgumentError` whose message is the decoder's diagnostic. */
  datatype RubyError = ArgumentError(cause: Hex.FromHexError)

  /** The `unique:` keyword: a missing key means false. The map key
      "unique" stands for the Ruby symbol `:unique`. */
  function UniqueFlag(kwargs: map<string, RubyValue>): (r: bool)
    ensures r <==> "unique" in kwargs && kwargs["unique"] !in {Nil, Bool(false)}
  {
    if "unique" in kwargs then kwargs["unique"].Truthy() else false
  }

  /** `ObjectId.from_time(t, kwargs)`. The time must not be before the epoch
      (`duration_since(UNIX_EPOCH).expect(...)` panics otherwise); its whole
      seconds are truncated to `u32`. */
  method FromTime(p: Process, t: Timespec, kwargs: map<string, RubyValue>) returns (id: ObjectId)
    requires t.tvSec >= 0
    modifies p
    ensures id == ObjectId(TimestampBytes(t.tvSec), p.machineId,
                           CounterField(UniqueFlag(kwargs), old(p.counter)))
    ensures p.counter == if UniqueFlag(kwargs) then NextCounter(old(p.counter)) else old(p.counter)
  {
    var unique := UniqueFlag(kwargs);
    var counter: Bytes3;
    if unique {
      var c := p.FetchAdd();
      counter := CounterBytes(c);
    } else {
      counter := [0, 0, 0];
    }
    var secs := t.tvSec;  // `as_secs()` of a non-negative offset
    var timestamp := TimestampBytes(secs);
    id := ObjectId(timestamp, p.machineId, counter);
  }

  /** `ObjectId.new`: `from_time(SystemTime::now(), unique: true)`. */
  method New(p: Process, now: Timespec) returns (id: ObjectId)
    requires now.tvSec >= 0
    modifies p
    ensures id == ObjectId(TimestampBytes(now.tvSec), p.machineId, CounterBytes(old(p.counter)))
    ensures p.counter == NextCounter(old(p.counter))
  {
    id := FromTime(p, now, map["unique" := Bool(true)]);
  }

  /** `ObjectId.from_string(s)`: refuses text that is not hex, but does not
      check the length. Fewer than 12 decoded bytes make the indexing panic,
      hence the precondition; bytes beyond the twelfth are ignored. */
  function FromString(s: seq<byte>): (r: Result<ObjectId, RubyError>)
    requires Hex.Decode(s).Err? || |s| >= 24
    ensures r.Ok? <==> |s| % 2 == 0 && Hex.AllHex(s)
    ensures r.Ok? ==> Hex.Decode(s).Ok? && Pack(r.value) == Hex.Decode(s).value[..12]
    ensures r.Err? ==> Hex.Decode(s).Err? && r.error == ArgumentError(Hex.Decode(s).error)
  {
    Hex.DecodeOkIff(s);
    match Hex.Decode(s)
    case Err(e) => Err(ArgumentError(e))
    case Ok(bs) =>
      Ok(Unpack(bs))
  }

  /** `to_bytes`, the same packing as the main crate. */
  method ToBytes(id: ObjectId) returns (r: Bytes12)
    ensures r == Pack(id)
  {
    r := Layout.ToBytes(id);
  }

  /** `to_string` / `to_s`: the lowercase hex of the packed bytes. */
  method ToString(id: ObjectId) returns (s: seq<byte>)
    ensures s == Hex.Encode(Pack(id))
    ensures |s| == 24 && Hex.AllLowerHex(s)
  {
    var bs := Layout.ToBytes(id);
    s := Hex.Encode(bs);
  }

  /** `to_i`: the 12 bytes copied into the front of a zeroed 16-byte buffer,
      read as a big-endian `u128`. */
  method ToI(id: ObjectId) returns (r: nat)
    ensures r == Value(id) * TWO_32
    ensures r < TWO_128
  {
    var bs := Layout.ToBytes(id);
    var padded := new byte[16](_ => 0);
    CopyFromSlice(padded, 0, bs);
    assert padded[..] == bs + Zeros(4);
    RightPadding(bs, 4);
    r := BeValue(padded[..]);
  }

  // ---------------------------------------------------------------------------
  // Properties

  /** `from_time` without a `unique` key is not unique; `new` is. */
  lemma UniqueDefaults(kwargs: map<string, RubyValue>)
    ensures "unique" !in kwargs ==> !UniqueFlag(kwargs)
    ensures UniqueFlag(map["unique" := Bool(true)])
    ensures !UniqueFlag(map["unique" := Nil]) && !UniqueFlag(map["unique" := Bool(false)])
  {
  }

  /** Hex digits beyond the first 24 do not change the result. */
  lemma FromStringIgnoresExtra(s: seq<byte>, extra: seq<byte>)
    requires |s| == 24 && Hex.AllHex(s)
    requires |extra| % 2 == 0 && Hex.AllHex(extra)
    ensures FromString(s + extra) == FromString(s)
  {
    var t := s + extra;
    assert Hex.AllHex(t) by {
      forall i | 0 <= i < |t| ensures Hex.IsHexDigit(t[i]) {
        if i >= |s| { assert t[i] == extra[i - |s|]; }
      }
    }
    Hex.DecodeOkIff(s);
    Hex.DecodeOkIff(t);
    Hex.DecodeOkIff(extra);
    var a, b := FromString(t).value, FromString(s).value;
    assert Pack(a) == Hex.Decode(t).value[..12];
    assert Pack(b) == Hex.Decode(s).value;
    Hex.DecodeAppend(s, extra);
    UnpackPack(a);
    UnpackPack(b);
  }

  /** Lowercase 24-digit text renders back to itself. */
  lemma FromStringRoundTrip(s: seq<byte>)
    requires |s| == 24 && Hex.AllLowerHex(s)
    ensures FromString(s).Ok? && Hex.Encode(Pack(FromString(s).value)) == s
  {
    Hex.EncodeDecode(s);
    assert Hex.Decode(s).value[..12] == Hex.Decode(s).value;
  }

  /** Parsing an id's rendering gives the id back. */
  lemma ToStringFromString(x: ObjectId)
    ensures |Hex.Encode(Pack(x))| == 24 && FromString(Hex.Encode(Pack(x))) == Ok(x)
  {
    Hex.DecodeEncode(Pack(x));
    UnpackPack(x);
    assert Hex.Decode(Hex.Encode(Pack(x))).value[..12] == Pack(x);
  }

  /** `to_i` is a multiple of 2^32 and orders ids as `cmp` does. */
  lemma IntegerViewOrder(a: ObjectId, b: ObjectId)
    ensures (Value(a) * TWO_32) % TWO_32 == 0
    ensures Layout.Compare(a, b) == IntCmp(Value(a) * TWO_32, Value(b) * TWO_32)
  {
    if Value(a) < Value(b) {
      BelowPowStep(Value(a), 0, TWO_32, Value(b));
    } else if Value(b) < Value(a) {
      BelowPowStep(Value(b), 0, TWO_32, Value(a));
    }
  }
}
