/** The Ruby-facing wrapper, ext/penguin_object_id: a thin layer over the
    main crate that adds the 24-character hex rendering and maps parse errors
    to `ArgumentError`. It uses the main crate's process cells; `timestamp`
    and `compare` are `Layout.ToTime` and `Layout.CompareI8`. */
module PenguinObjectId {
  import opened Bytes
  import opened Time
  import Hex
  import opened Layout
  import CoreObjectId

  /** A Ruby `ArgumentError` whose message is the core error. */
  datatype RubyError = ArgumentError(cause: CoreObjectId.Error)

  /** `generate` / `new`: the core's `ObjectId::new`. */
  method Generate(p: Process, now: i64) returns (id: ObjectId)
    modifies p
    ensures id == ObjectId(TimestampBytes(now), p.machineId, CounterBytes(old(p.counter)))
    ensures p.counter == NextCounter(old(p.counter))
  {
    id := CoreObjectId.New(p, now);
  }

  /** `generate_from_time(t, unique)`: the core's `from_time` on the time's
      whole seconds (`tv_sec`) with the flag unchanged. */
  method GenerateFromTime(p: Process, t: Timespec, unique: bool) returns (id: ObjectId)
    modifies p
    ensures id == ObjectId(TimestampBytes(t.tvSec), p.machineId, CounterField(unique, old(p.counter)))
    ensures p.counter == if unique then NextCounter(old(p.counter)) else old(p.counter)
  {
    id := CoreObjectId.FromTime(p, t.tvSec, unique);
  }

  /** `from_string`: the core's `try_from`, every error an `ArgumentError`. */
  function FromString(s: seq<byte>): (r: Result<ObjectId, RubyError>)
    ensures r.Ok? <==> CoreObjectId.TryFrom(s).Ok?
    ensures r.Ok? ==> r.value == CoreObjectId.TryFrom(s).value
    ensures r.Err? ==> CoreObjectId.TryFrom(s).Err? && r.error == ArgumentError(CoreObjectId.TryFrom(s).error)
  {
    match CoreObjectId.TryFrom(s)
    case Ok(id) => Ok(id)
    case Err(e) => Err(ArgumentError(e))
  }

  /** `to_s`: `hex::encode_to_slice` of the core's bytes into a 24-byte
      buffer; the `expect` on its result never fires. */
  method ToS(id: ObjectId) returns (s: seq<byte>)
    ensures s == Hex.Encode(Pack(id))
    ensures |s| == 24 && Hex.AllLowerHex(s)
  {
    var bytes := Layout.ToBytes(id);
    var buf := new byte[24](_ => 0);
    var res := Hex.EncodeToSlice(bytes, buf);
    assert res.Ok?;
    s := buf[..];
  }

  /** `eq` (`==`): the core's byte-wise equality. */
  function Eq(a: ObjectId, b: ObjectId): (r: bool)
    ensures r <==> a == b
  {
    Layout.Eq(a, b)
  }

  // ---------------------------------------------------------------------------
  // Properties

  /** The rendering has two lowercase digits per byte, byte 0 first. */
  lemma ToSDigits(id: ObjectId, k: nat)
    requires k < 12
    ensures Hex.Encode(Pack(id))[2 * k] == Hex.LowerDigit(Pack(id)[k] / 16)
    ensures Hex.Encode(Pack(id))[2 * k + 1] == Hex.LowerDigit(Pack(id)[k] % 16)
  {
    Hex.EncodeAt(Pack(id), k);
  }

  /** Lowercase 24-digit text parses and renders back unchanged. */
  lemma ToSFromString(s: seq<byte>)
    requires |s| == 24 && Hex.AllLowerHex(s)
    ensures FromString(s).Ok? && Hex.Encode(Pack(FromString(s).value)) == s
  {
    CoreObjectId.EncodeTryFrom(s);
  }

  /** Parsing an id's rendering gives the id back. */
  lemma FromStringToS(x: ObjectId)
    ensures FromString(Hex.Encode(Pack(x))) == Ok(x)
  {
    CoreObjectId.TryFromEncode(x);
  }

  /** Two consecutive unique ids for the same second: unless the 24-bit
      counter field wraps in between, the second has the larger counter and
      compares greater. */
  lemma ConsecutiveUniqueIncrease(t: i64, m: Bytes5, c: u32)
    requires c % TWO_24 != TWO_24 - 1
    ensures var a := ObjectId(TimestampBytes(t), m, CounterBytes(c));
            var b := ObjectId(TimestampBytes(t), m, CounterBytes(NextCounter(c)));
            Counter(a) < Counter(b) && CompareI8(a, b) == -1
  {
    var a := ObjectId(TimestampBytes(t), m, CounterBytes(c));
    var b := ObjectId(TimestampBytes(t), m, CounterBytes(NextCounter(c)));
    CounterWrapAgrees(a.timestamp, m, c);
    CounterOfFetched(a.timestamp, m, c);
    DivModUnique(Counter(a) + 1, TWO_24, 0, Counter(a) + 1);
    assert Counter(b) == Counter(a) + 1;
    CompareFieldwise(a, b);
    assert Compare(a, b) == Less;
  }

  /** Generating twice for the same second, uniquely: the same machine id,
      the same timestamp, and a strictly larger second id. */
  method TwoUniqueSameSecond(p: Process, t: Timespec) returns (a: ObjectId, b: ObjectId)
    requires p.counter % TWO_24 != TWO_24 - 1
    modifies p
    ensures a.machineId == b.machineId == p.machineId
    ensures Timestamp(a) == Timestamp(b)
    ensures Counter(a) < Counter(b) && CompareI8(a, b) == -1
    ensures p.counter == NextCounter(NextCounter(old(p.counter)))
  {
    ghost var c := p.counter;
    a := GenerateFromTime(p, t, true);
    b := GenerateFromTime(p, t, true);
    ConsecutiveUniqueIncrease(t.tvSec, p.machineId, c);
  }

  /** Generating twice for the same second without `unique`: equal ids with
      a zero counter, and the counter untouched. */
  method TwoNonUniqueSameSecond(p: Process, t: Timespec) returns (a: ObjectId, b: ObjectId)
    modifies p
    ensures Eq(a, b) && Counter(a) == 0
    ensures p.counter == old(p.counter)
  {
    a := GenerateFromTime(p, t, false);
    b := GenerateFromTime(p, t, false);
    CoreObjectId.NonUniqueIdsEqual(t.tvSec, t.tvSec, p.machineId, p.counter, p.counter);
  }
}
