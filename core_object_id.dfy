/** The main crate, crates/object_id: building an id from a time and a
    `unique` flag, and parsing the hex form with typed errors. The layout,
    the accessors, equality and ordering are in module Layout. */
module CoreObjectId {
  import opened Bytes
  import Hex
  import opened Layout

  /** `object_id::Error`. */
  datatype Error =
    | InvalidHexString(cause: Hex.FromHexError)
    | InvalidHexIdLength(len: nat)

  /** `ObjectId::from_time(t, unique)`: a unique id takes the fetched counter
      and advances it; a non-unique id has a zero counter and leaves it. */
  method FromTime(p: Process, t: i64, unique: bool) returns (id: ObjectId)
    modifies p
    ensures id == ObjectId(TimestampBytes(t), p.machineId, CounterField(unique, old(p.counter)))
    ensures p.counter == if unique then NextCounter(old(p.counter)) else old(p.counter)
  {
    var counter: Bytes3;
    if unique {
      var c := p.FetchAdd();
      counter := CounterBytes(c);
    } else {
      counter := [0, 0, 0];
    }
    var timestamp := TimestampBytes(t);
    id := ObjectId(timestamp, p.machineId, counter);
  }

  /** `ObjectId::new()`; `now` is the `tv_sec` that `clock_gettime` reads. */
  method New(p: Process, now: i64) returns (id: ObjectId)
    modifies p
    ensures id == ObjectId(TimestampBytes(now), p.machineId, CounterBytes(old(p.counter)))
    ensures p.counter == NextCounter(old(p.counter))
  {
    id := FromTime(p, now, true);
  }

  /** `TryFrom<String>`: decode the hex text, then demand exactly 12 bytes. */
  function TryFrom(s: seq<byte>): (r: Result<ObjectId, Error>)
    ensures r.Ok? ==> |s| == 24 && Hex.Decode(s).Ok? && Pack(r.value) == Hex.Decode(s).value
  {
    match Hex.Decode(s)
    case Err(e) => Err(InvalidHexString(e))
    case Ok(bs) =>
      if |bs| != 12 then Err(InvalidHexIdLength(|bs|))
      else
        Ok(Unpack(bs))
  }

  // ---------------------------------------------------------------------------
  // Parsing

  /** Parsing succeeds exactly on 24 hex digits. */
  lemma TryFromOkIff(s: seq<byte>)
    ensures TryFrom(s).Ok? <==> |s| == 24 && Hex.AllHex(s)
  {
    Hex.DecodeOkIff(s);
  }

  /** A non-hex character or an odd length is `InvalidHexString`, carrying
      the decoder's diagnostic. */
  lemma TryFromHexError(s: seq<byte>)
    ensures (TryFrom(s).Err? && TryFrom(s).error.InvalidHexString?) <==>
            (|s| % 2 == 1 || !Hex.AllHex(s))
    ensures TryFrom(s) == Err(InvalidHexString(Hex.OddLength)) <==> |s| % 2 == 1
    ensures TryFrom(s).Err? && TryFrom(s).error.InvalidHexString? && |s| % 2 == 0 ==>
      var e := TryFrom(s).error.cause;
      e.InvalidHexCharacter? && e.index < |s| && s[e.index] == e.c && !Hex.IsHexDigit(e.c)
  {
    Hex.DecodeOkIff(s);
    Hex.DecodeError(s);
  }

  /** Well-formed hex of the wrong size is `InvalidHexIdLength` with the
      decoded byte count. */
  lemma TryFromLengthError(s: seq<byte>, n: nat)
    ensures TryFrom(s) == Err(InvalidHexIdLength(n)) <==>
            |s| % 2 == 0 && Hex.AllHex(s) && n == |s| / 2 && n != 12
  {
    Hex.DecodeOkIff(s);
  }

  /** 22 hex digits decode to 11 bytes and 26 to 13; both are refused. */
  lemma WrongLengthExamples(s22: seq<byte>, s26: seq<byte>)
    requires |s22| == 22 && Hex.AllHex(s22)
    requires |s26| == 26 && Hex.AllHex(s26)
    ensures TryFrom(s22) == Err(InvalidHexIdLength(11))
    ensures TryFrom(s26) == Err(InvalidHexIdLength(13))
  {
    TryFromLengthError(s22, 11);
    TryFromLengthError(s26, 13);
  }

  /** Parsing the hex of an id's bytes gives the id back. */
  lemma TryFromEncode(x: ObjectId)
    ensures TryFrom(Hex.Encode(Pack(x))) == Ok(x)
  {
    Hex.DecodeEncode(Pack(x));
    UnpackPack(x);
  }

  /** Rendering a parsed id reproduces lowercase input. */
  lemma EncodeTryFrom(s: seq<byte>)
    requires |s| == 24 && Hex.AllLowerHex(s)
    ensures TryFrom(s).Ok? && Hex.Encode(Pack(TryFrom(s).value)) == s
  {
    Hex.EncodeDecode(s);
  }

  /** The case of the digits is irrelevant: text parses exactly when its
      lowercase form does, to the same id, and that id renders as the
      lowercase form. */
  lemma TryFromIgnoresCase(s: seq<byte>)
    ensures TryFrom(Hex.AsciiLowerAll(s)).Ok? <==> TryFrom(s).Ok?
    ensures TryFrom(s).Ok? ==>
      TryFrom(Hex.AsciiLowerAll(s)) == TryFrom(s) &&
      Hex.Encode(Pack(TryFrom(s).value)) == Hex.AsciiLowerAll(s)
  {
    Hex.DecodeIgnoresCase(s);
    if TryFrom(s).Ok? {
      Hex.EncodeDecodeAnyCase(s);
    }
  }

  /** The bytes of `"507f1f77bcf86cd799439011"`. */
  const EXAMPLE_TEXT: seq<byte> :=
    ['5' as int, '0' as int, '7' as int, 'f' as int, '1' as int, 'f' as int,
     '7' as int, '7' as int, 'b' as int, 'c' as int, 'f' as int, '8' as int,
     '6' as int, 'c' as int, 'd' as int, '7' as int, '9' as int, '9' as int,
     '4' as int, '3' as int, '9' as int, '0' as int, '1' as int, '1' as int]

  /** `"507f1f77bcf86cd799439011"` parses and renders back unchanged. */
  lemma ParseExample()
    ensures TryFrom(EXAMPLE_TEXT).Ok?
    ensures Hex.Encode(Pack(TryFrom(EXAMPLE_TEXT).value)) == EXAMPLE_TEXT
  {
    assert Hex.AllLowerHex(EXAMPLE_TEXT);
    EncodeTryFrom(EXAMPLE_TEXT);
  }

  // ---------------------------------------------------------------------------
  // Construction

  /** `t = 2^63 - 1` truncates to `2^32 - 1`; `t = 0x12345678` is stored as
      the bytes 12 34 56 78. */
  lemma TimestampExamples(m: Bytes5, c: Bytes3)
    ensures Timestamp(ObjectId(TimestampBytes(0x7FFF_FFFF_FFFF_FFFF), m, c)) == 0xFFFF_FFFF
    ensures TimestampBytes(0x1234_5678) == [0x12, 0x34, 0x56, 0x78]
  {
    TimestampOfTime(0x7FFF_FFFF_FFFF_FFFF, m, c);
  }

  /** Non-unique ids for the same (truncated) second are equal and have a
      zero counter, whatever the counter state was. */
  lemma NonUniqueIdsEqual(t1: i64, t2: i64, m: Bytes5, c1: u32, c2: u32)
    requires t1 % TWO_32 == t2 % TWO_32
    ensures Eq(ObjectId(TimestampBytes(t1), m, CounterField(false, c1)),
               ObjectId(TimestampBytes(t2), m, CounterField(false, c2)))
    ensures Counter(ObjectId(TimestampBytes(t1), m, CounterField(false, c1))) == 0
  {
    assert CounterField(false, c1) == Zeros(3);
    BeValueZeros(3);
  }

  /** Starting at 0xFFFFFF, four unique ids get the counters 0xFFFFFF, 0, 1
      and 2, and all carry the process's machine id. */
  method CounterWrapScenario(salt: Bytes5, t: i64) returns (counters: seq<nat>, machineIds: seq<nat>)
    ensures counters == [0xFF_FFFF, 0, 1, 2]
    ensures machineIds == [BeValue(salt), BeValue(salt), BeValue(salt), BeValue(salt)]
  {
    var p := new Process(salt, 0xFF_FFFF);
    var a := FromTime(p, t, true);
    var b := FromTime(p, t, true);
    var c := FromTime(p, t, true);
    var d := FromTime(p, t, true);
    CounterOfFetched(a.timestamp, salt, 0xFF_FFFF);
    CounterOfFetched(b.timestamp, salt, 0x100_0000);
    CounterOfFetched(c.timestamp, salt, 0x100_0001);
    CounterOfFetched(d.timestamp, salt, 0x100_0002);
    counters := [Counter(a), Counter(b), Counter(c), Counter(d)];
    machineIds := [MachineId(a), MachineId(b), MachineId(c), MachineId(d)];
  }
}
