/** The ObjectId value and everything about it that the main crate
    (crates/object_id) and the older Ruby-extension copy (ext/bson_object_id)
    define identically: the three packed fields, the 12-byte form, the field
    accessors, equality and ordering on the 12-byte form, the rules that build
    the timestamp and counter fields, and the two process-wide cells. Also
    the `timestamp` and `compare` that both Ruby classes expose in the same
    way. */
module Layout {
  import opened Bytes
  import opened Time

  type Bytes3 = s: seq<byte> | |s| == 3 witness [0, 0, 0]
  type Bytes4 = s: seq<byte> | |s| == 4 witness [0, 0, 0, 0]
  type Bytes5 = s: seq<byte> | |s| == 5 witness [0, 0, 0, 0, 0]
  type Bytes12 = s: seq<byte> | |s| == 12 witness [0, 0, 0, 0, 0, 0, 0, 0, 0, 0, 0, 0]

  const TWO_24: nat := 0x100_0000
  const TWO_32: nat := 0x1_0000_0000
  const TWO_40: nat := 0x100_0000_0000

  /** Big-endian seconds, the per-process machine id, and the counter. */
  datatype ObjectId = ObjectId(timestamp: Bytes4, machineId: Bytes5, counter: Bytes3)

  /** The 12-byte form: timestamp at 0..4, machine id at 4..9, counter at 9..12. */
  function Pack(id: ObjectId): (r: Bytes12)
    ensures r[0..4] == id.timestamp && r[4..9] == id.machineId && r[9..12] == id.counter
  {
    id.timestamp + id.machineId + id.counter
  }

  /** Splits the first 12 bytes at offsets 4 and 9. */
  function Unpack(bs: seq<byte>): (r: ObjectId)
    requires |bs| >= 12
    ensures Pack(r) == bs[..12]
  {
    ObjectId(bs[0..4], bs[4..9], bs[9..12])
  }

  /** The 96-bit unsigned number whose big-endian form is the 12-byte form. */
  function Value(id: ObjectId): nat {
    BeValue(Pack(id))
  }

  // ---------------------------------------------------------------------------
  // Building the fields

  /** Rust's `as u32` on a signed integer: keep the low 32 bits. */
  function TruncateU32(t: int): (r: u32)
    ensures (t - r) % TWO_32 == 0
  {
    t % TWO_32
  }

  /** `(t as u32).to_be_bytes()`. */
  function TimestampBytes(t: int): (r: Bytes4)
    ensures BeValue(r) == TruncateU32(t)
  {
    BeValueToBe(TruncateU32(t), 4);
    ToBe(TruncateU32(t), 4)
  }

  /** `counter.to_be_bytes()` with its leading byte dropped. */
  function CounterBytes(c: u32): (r: Bytes3)
    ensures BeValue(r) == c % TWO_24
  {
    ToBeSuffix(c, 4, 3);
    BeValueToBe(c, 3);
    ToBe(c, 4)[1..]
  }

  /** The counter field: the fetched counter when unique, zeros otherwise. */
  function CounterField(unique: bool, c: u32): (r: Bytes3)
    ensures BeValue(r) == if unique then c % TWO_24 else 0
  {
    BeValueZeros(3);
    assert Zeros(3) == [0, 0, 0];
    if unique then CounterBytes(c) else [0, 0, 0]
  }

  /** The counter after `fetch_add(1)`, which wraps around on overflow. */
  function NextCounter(c: u32): (r: u32)
    ensures r == if c == TWO_32 - 1 then 0 else c + 1
  {
    (c + 1) % TWO_32
  }

  // ---------------------------------------------------------------------------
  // Accessors

  /** `u32::from_be_bytes(timestamp)`. */
  function Timestamp(id: ObjectId): (r: nat)
    ensures r < TWO_32
  {
    BeValue(id.timestamp)
  }

  /** The machine id left-padded with three zero bytes into a `u64`. */
  function MachineId(id: ObjectId): (r: nat)
    ensures r < TWO_40
    ensures r == BeValue(id.machineId)
  {
    LeftPadding(3, id.machineId);
    BeValue(Zeros(3) + id.machineId)
  }

  /** The counter left-padded with one zero byte into a `u32`. */
  function Counter(id: ObjectId): (r: nat)
    ensures r < TWO_24
    ensures r == BeValue(id.counter)
  {
    LeftPadding(1, id.counter);
    BeValue(Zeros(1) + id.counter)
  }

  // ---------------------------------------------------------------------------
  // Equality and ordering, both on the 12-byte form

  /** `PartialEq::eq`: the 12-byte forms are equal, which holds exactly
      when the ids are. */
  function Eq(a: ObjectId, b: ObjectId): (r: bool)
    ensures r <==> a == b
  {
    UnpackPack(a);
    UnpackPack(b);
    Pack(a) == Pack(b)
  }

  /** `Ord::cmp`: the 12-byte forms compared lexicographically, which is the
      order of the 96-bit numbers. */
  function Compare(a: ObjectId, b: ObjectId): (r: Ordering)
    ensures r == IntCmp(Value(a), Value(b))
  {
    CmpIsValueOrder(Pack(a), Pack(b));
    Cmp(Pack(a), Pack(b))
  }

  // ---------------------------------------------------------------------------
  // What the two Ruby classes expose in the same way

  /** `timestamp` / `to_time`: the epoch plus the stored seconds. */
  function ToTime(id: ObjectId): (r: Timespec)
    ensures r.tvNsec == 0 && 0 <= r.tvSec < TWO_32
  {
    FromEpochSecs(Timestamp(id))
  }

  /** `compare` (`<=>`): the ordering as -1, 0 or 1 (`Ordering as i8`). */
  function CompareI8(a: ObjectId, b: ObjectId): (r: int)
    ensures -1 <= r <= 1
    ensures r == 0 <==> a == b
    ensures r < 0 <==> Value(a) < Value(b)
  {
    CompareEqualIff(a, b);
    Compare(a, b).AsI8()
  }

  // ---------------------------------------------------------------------------
  // In-place construction of the 12-byte form

  /** `dst[at..at + |src|].copy_from_slice(src)`. */
  method CopyFromSlice(dst: array<byte>, at: nat, src: seq<byte>)
    requires at + |src| <= dst.Length
    modifies dst
    ensures forall k :: 0 <= k < dst.Length ==>
      dst[k] == if at <= k < at + |src| then src[k - at] else old(dst[k])
  {
    var i := 0;
    while i < |src|
      invariant 0 <= i <= |src|
      invariant forall k :: 0 <= k < dst.Length ==>
        dst[k] == if at <= k < at + i then src[k - at] else old(dst[k])
    {
      dst[at + i] := src[i];
      i := i + 1;
    }
  }

  /** `to_bytes`: fills a zeroed 12-byte buffer field by field. */
  method ToBytes(id: ObjectId) returns (r: Bytes12)
    ensures r == Pack(id)
  {
    var bs := new byte[12](_ => 0);
    CopyFromSlice(bs, 0, id.timestamp);
    CopyFromSlice(bs, 4, id.machineId);
    CopyFromSlice(bs, 9, id.counter);
    assert bs[..] == Pack(id) by {
      forall k | 0 <= k < 12 ensures bs[k] == Pack(id)[k] {
        if k < 4 {
        } else if k < 9 {
          assert Pack(id)[k] == id.machineId[k - 4];
        } else {
          assert Pack(id)[k] == id.counter[k - 9];
        }
      }
    }
    r := bs[..];
  }

  // ---------------------------------------------------------------------------
  // The process-wide cells

  /** One crate's `MACHINE_ID` (written once, so a `const`) and `COUNTER`.
      Their random initial values are the constructor's parameters. */
  class Process {
    const machineId: Bytes5
    var counter: u32

    constructor (salt: Bytes5, seed: u32)
      ensures machineId == salt && counter == seed
    {
      machineId := salt;
      counter := seed;
    }

    /** `COUNTER.fetch_add(1)`: the value before the increment. */
    method FetchAdd() returns (prev: u32)
      modifies this
      ensures prev == old(counter)
      ensures counter == NextCounter(old(counter))
    {
      prev := counter;
      counter := NextCounter(counter);
    }
  }

  // ---------------------------------------------------------------------------
  // Properties of the layout

  /** Splitting an id's 12-byte form gives the id back. */
  lemma UnpackPack(id: ObjectId)
    ensures Unpack(Pack(id)) == id
  {
  }

  /** The stored timestamp is the given time modulo 2^32 (`t as u32`). */
  lemma TimestampOfTime(t: int, m: Bytes5, c: Bytes3)
    ensures Timestamp(ObjectId(TimestampBytes(t), m, c)) == t % TWO_32
  {
  }

  /** A unique id's counter is the fetched counter modulo 2^24. */
  lemma CounterOfFetched(ts: Bytes4, m: Bytes5, c: u32)
    ensures Counter(ObjectId(ts, m, CounterBytes(c))) == c % TWO_24
  {
  }

  /** Wrapping the 32-bit counter and wrapping the 24-bit field agree: the
      next counter's field is the current field plus one, modulo 2^24. */
  lemma CounterWrapAgrees(ts: Bytes4, m: Bytes5, c: u32)
    ensures Counter(ObjectId(ts, m, CounterBytes(NextCounter(c)))) ==
            (Counter(ObjectId(ts, m, CounterBytes(c))) + 1) % TWO_24
  {
    CounterOfFetched(ts, m, c);
    CounterOfFetched(ts, m, NextCounter(c));
    NextCounterMod(c);
  }

  /** The arithmetic behind `CounterWrapAgrees`. */
  lemma NextCounterMod(c: u32)
    ensures NextCounter(c) % TWO_24 == (c % TWO_24 + 1) % TWO_24
  {
    var q, r := c / TWO_24, c % TWO_24;
    if c + 1 == TWO_32 {
      DivModUnique(c, TWO_24, 255, TWO_24 - 1);
    } else if r + 1 < TWO_24 {
      DivModUnique(c + 1, TWO_24, q, r + 1);
    } else {
      DivModUnique(c + 1, TWO_24, q + 1, 0);
    }
  }

  /** `cmp` is consistent with `eq`. */
  lemma CompareEqualIff(a: ObjectId, b: ObjectId)
    ensures Compare(a, b) == Equal <==> a == b
  {
    if Value(a) == Value(b) {
      BeValueInjective(Pack(a), Pack(b));
    }
  }

  /** Swapping the operands reverses the ordering. */
  lemma CompareAntisymmetric(a: ObjectId, b: ObjectId)
    ensures Compare(b, a) == Compare(a, b).Reverse()
  {
  }

  lemma CompareTransitive(a: ObjectId, b: ObjectId, c: ObjectId)
    ensures Compare(a, b) != Greater && Compare(b, c) != Greater ==> Compare(a, c) != Greater
    ensures Compare(a, b) == Less && Compare(b, c) != Greater ==> Compare(a, c) == Less
  {
  }

  lemma FieldOrder(x: seq<byte>, y: seq<byte>)
    requires |x| == |y|
    ensures x == y <==> BeValue(x) == BeValue(y)
    ensures Cmp(x, y) == IntCmp(BeValue(x), BeValue(y))
  {
    CmpIsValueOrder(x, y);
    if BeValue(x) == BeValue(y) {
      BeValueInjective(x, y);
    }
  }

  /** The ordering is lexicographic on (timestamp, machine id, counter). */
  lemma CompareFieldwise(a: ObjectId, b: ObjectId)
    ensures Compare(a, b) ==
      if Timestamp(a) != Timestamp(b) then IntCmp(Timestamp(a), Timestamp(b))
      else if MachineId(a) != MachineId(b) then IntCmp(MachineId(a), MachineId(b))
      else IntCmp(Counter(a), Counter(b))
  {
    var ha, hb := a.timestamp + a.machineId, b.timestamp + b.machineId;
    CmpAppend(ha, a.counter, hb, b.counter);
    CmpAppend(a.timestamp, a.machineId, b.timestamp, b.machineId);
    if ha == hb {
      assert a.timestamp == ha[..4] == hb[..4] == b.timestamp;
      assert a.machineId == ha[4..] == hb[4..] == b.machineId;
    }
    FieldOrder(a.timestamp, b.timestamp);
    FieldOrder(a.machineId, b.machineId);
    FieldOrder(a.counter, b.counter);
  }

  /** The time of an id built from `t` is `t` rounded down to the second, as
      long as the seconds fit in 32 bits. */
  lemma ToTimeIsFloor(t: Timespec, m: Bytes5, c: Bytes3)
    requires 0 <= t.tvSec < TWO_32
    ensures ToTime(ObjectId(TimestampBytes(t.tvSec), m, c)) == Floor(t)
  {
    TimestampOfTime(t.tvSec, m, c);
  }

  /** A larger (truncated) timestamp always gives the larger id. */
  lemma LaterTimestampIsGreater(a: ObjectId, b: ObjectId)
    requires Timestamp(a) < Timestamp(b)
    ensures Compare(a, b) == Less
  {
    CompareFieldwise(a, b);
  }
}
