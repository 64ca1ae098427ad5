/** Base16 as the `hex` crate implements it: `encode` and `encode_to_slice`
    write the lowercase alphabet, `decode` accepts both cases. Text is the
    UTF-8 byte sequence of the string. */
module Hex {
  import opened Bytes

  /** `hex::FromHexError`. */
  datatype FromHexError =
    | InvalidHexCharacter(c: byte, index: nat)
    | OddLength
    | InvalidStringLength

  predicate IsHexDigit(c: byte) {
    '0' as int <= c <= '9' as int || 'A' as int <= c <= 'F' as int || 'a' as int <= c <= 'f' as int
  }

  predicate IsLowerHexDigit(c: byte) {
    '0' as int <= c <= '9' as int || 'a' as int <= c <= 'f' as int
  }

  predicate AllHex(s: seq<byte>) {
    forall i :: 0 <= i < |s| ==> IsHexDigit(s[i])
  }

  predicate AllLowerHex(s: seq<byte>) {
    forall i :: 0 <= i < |s| ==> IsLowerHexDigit(s[i])
  }

  /** The value of one hex digit, in either case. */
  function NibbleValue(c: byte): (r: Option<nat>)
    ensures r.Some? <==> IsHexDigit(c)
    ensures r.Some? ==> r.value < 16
  {
    if '0' as int <= c <= '9' as int then Some(c - '0' as int)
    else if 'A' as int <= c <= 'F' as int then Some(c - 'A' as int + 10)
    else if 'a' as int <= c <= 'f' as int then Some(c - 'a' as int + 10)
    else None
  }

  /** The lowercase alphabet of base16, digit n at position n. */
  const DIGITS: seq<byte> :=
    ['0' as int, '1' as int, '2' as int, '3' as int, '4' as int, '5' as int, '6' as int, '7' as int,
     '8' as int, '9' as int, 'a' as int, 'b' as int, 'c' as int, 'd' as int, 'e' as int, 'f' as int]

  /** `u8::to_ascii_lowercase`: 'A'..'Z' become 'a'..'z', other bytes stay. */
  function AsciiLower(c: byte): (r: byte)
    ensures 'A' as int <= c <= 'Z' as int ==> r == c + 32
    ensures !('A' as int <= c <= 'Z' as int) ==> r == c
  {
    if 'A' as int <= c <= 'Z' as int then c + 32 else c
  }

  /** `to_ascii_lowercase` on a whole byte string. */
  function AsciiLowerAll(s: seq<byte>): (r: seq<byte>)
    ensures |r| == |s| && forall i :: 0 <= i < |s| ==> r[i] == AsciiLower(s[i])
  {
    seq(|s|, i requires 0 <= i < |s| => AsciiLower(s[i]))
  }

  /** The lowercase digit of a nibble. */
  function LowerDigit(n: nat): (c: byte)
    requires n < 16
    ensures IsLowerHexDigit(c) && NibbleValue(c) == Some(n)
  {
    if n < 10 then '0' as int + n else 'a' as int + (n - 10)
  }

  /** `hex::encode`: two lowercase digits per byte, high nibble first. */
  function Encode(bs: seq<byte>): (r: seq<byte>)
    ensures |r| == 2 * |bs|
    ensures AllLowerHex(r)
  {
    if bs == [] then [] else [LowerDigit(bs[0] / 16), LowerDigit(bs[0] % 16)] + Encode(bs[1..])
  }

  /** `hex::decode`: odd length is refused first, then the first character
      that is not a hex digit, reported with its index. */
  function Decode(s: seq<byte>): (r: Result<seq<byte>, FromHexError>)
    ensures r.Ok? ==> 2 * |r.value| == |s|
  {
    if |s| % 2 != 0 then Err(OddLength) else DecodePairs(s, 0)
  }

  /** Decodes the digit pairs of `s`, which starts at index `base` of the input. */
  function DecodePairs(s: seq<byte>, base: nat): (r: Result<seq<byte>, FromHexError>)
    requires |s| % 2 == 0
    ensures r.Ok? ==> 2 * |r.value| == |s|
    decreases |s|
  {
    if s == [] then Ok([])
    else match (NibbleValue(s[0]), NibbleValue(s[1]))
      case (None, _) => Err(InvalidHexCharacter(s[0], base))
      case (Some(_), None) => Err(InvalidHexCharacter(s[1], base + 1))
      case (Some(hi), Some(lo)) =>
        // `hi << 4 | lo` with lo < 16
        match DecodePairs(s[2..], base + 2)
        case Err(e) => Err(e)
        case Ok(rest) => Ok([hi * 16 + lo] + rest)
  }

  /** `hex::encode_to_slice`: writes `Encode(input)` into `output` when it has
      exactly twice the input's length, and otherwise fails. */
  method EncodeToSlice(input: seq<byte>, output: array<byte>) returns (res: Result<(), FromHexError>)
    modifies output
    ensures res.Ok? <==> output.Length == 2 * |input|
    ensures res.Err? ==> res.error == InvalidStringLength && output[..] == old(output[..])
    ensures res.Ok? ==> output[..] == Encode(input)
  {
    if 2 * |input| != output.Length {
      return Err(InvalidStringLength);
    }
    var i := 0;
    while i < |input|
      invariant 0 <= i <= |input|
      invariant forall k :: 0 <= k < 2 * i ==> output[k] == Encode(input)[k]
    {
      EncodeAt(input, i);
      output[2 * i] := LowerDigit(input[i] / 16);
      output[2 * i + 1] := LowerDigit(input[i] % 16);
      i := i + 1;
    }
    res := Ok(());
  }

  // ---------------------------------------------------------------------------
  // Properties

  /** Byte `j` of the input is written at positions 2j and 2j+1. */
  lemma {:induction false} EncodeAt(bs: seq<byte>, j: nat)
    requires j < |bs|
    ensures Encode(bs)[2 * j] == LowerDigit(bs[j] / 16)
    ensures Encode(bs)[2 * j + 1] == LowerDigit(bs[j] % 16)
  {
    if j > 0 {
      EncodeAt(bs[1..], j - 1);
    }
  }

  /** Decoding succeeds exactly on even-length text made of hex digits. */
  lemma {:induction false} DecodePairsOkIff(s: seq<byte>, base: nat)
    requires |s| % 2 == 0
    ensures DecodePairs(s, base).Ok? <==> AllHex(s)
    decreases |s|
  {
    if s != [] {
      DecodePairsOkIff(s[2..], base + 2);
      if AllHex(s) {
        assert forall i :: 0 <= i < |s[2..]| ==> s[2..][i] == s[i + 2];
      } else if AllHex(s[2..]) {
        assert !IsHexDigit(s[0]) || !IsHexDigit(s[1]) by {
          forall i | 2 <= i < |s| ensures IsHexDigit(s[i]) {
            assert s[i] == s[2..][i - 2];
          }
        }
      }
    }
  }

  lemma DecodeOkIff(s: seq<byte>)
    ensures Decode(s).Ok? <==> |s| % 2 == 0 && AllHex(s)
  {
    if |s| % 2 == 0 {
      DecodePairsOkIff(s, 0);
    }
  }

  /** A reported bad character is the first one that is not a hex digit. */
  lemma {:induction false} DecodePairsError(s: seq<byte>, base: nat)
    requires |s| % 2 == 0
    ensures DecodePairs(s, base).Err? ==> DecodePairs(s, base).error.InvalidHexCharacter?
    ensures DecodePairs(s, base).Err? ==>
      var e := DecodePairs(s, base).error;
      base <= e.index < base + |s| && s[e.index - base] == e.c && !IsHexDigit(e.c) &&
      forall j :: 0 <= j < e.index - base ==> IsHexDigit(s[j])
    decreases |s|
  {
    if s != [] && IsHexDigit(s[0]) && IsHexDigit(s[1]) {
      DecodePairsError(s[2..], base + 2);
      if DecodePairs(s, base).Err? {
        var e := DecodePairs(s, base).error;
        assert e == DecodePairs(s[2..], base + 2).error;
        forall j | 2 <= j < e.index - base ensures IsHexDigit(s[j]) {
          assert s[j] == s[2..][j - 2];
        }
      }
    }
  }

  /** `decode` fails with `OddLength` exactly on odd-length text, and otherwise
      names the first character that is not a hex digit. */
  lemma DecodeError(s: seq<byte>)
    ensures Decode(s) == Err(OddLength) <==> |s| % 2 == 1
    ensures Decode(s).Err? && |s| % 2 == 0 ==>
      var e := Decode(s).error;
      e.InvalidHexCharacter? && e.index < |s| && s[e.index] == e.c && !IsHexDigit(e.c) &&
      forall j :: 0 <= j < e.index ==> IsHexDigit(s[j])
  {
    if |s| % 2 == 0 {
      DecodePairsError(s, 0);
    }
  }

  lemma {:induction false} DecodePairsEncode(bs: seq<byte>, base: nat)
    ensures DecodePairs(Encode(bs), base) == Ok(bs)
    decreases |bs|
  {
    if bs != [] {
      var s := Encode(bs);
      assert s[2..] == Encode(bs[1..]);
      DecodePairsEncode(bs[1..], base + 2);
      assert bs[0] / 16 * 16 + bs[0] % 16 == bs[0];
      assert bs == [bs[0]] + bs[1..];
    }
  }

  /** Decoding undoes encoding. */
  lemma DecodeEncode(bs: seq<byte>)
    ensures Decode(Encode(bs)) == Ok(bs)
  {
    var s := Encode(bs);
    assert |s| % 2 == 0;
    DecodePairsEncode(bs, 0);
    assert Decode(s) == DecodePairs(s, 0);
  }

  lemma {:induction false} EncodeDecodePairs(s: seq<byte>, base: nat)
    requires |s| % 2 == 0 && AllLowerHex(s)
    ensures DecodePairs(s, base).Ok? && Encode(DecodePairs(s, base).value) == s
    decreases |s|
  {
    if s != [] {
      assert AllLowerHex(s[2..]) by {
        forall i | 0 <= i < |s[2..]| ensures IsLowerHexDigit(s[2..][i]) {
          assert s[2..][i] == s[i + 2];
        }
      }
      EncodeDecodePairs(s[2..], base + 2);
      var hi, lo := NibbleValue(s[0]).value, NibbleValue(s[1]).value;
      var b := hi * 16 + lo;
      assert b / 16 == hi && b % 16 == lo;
      LowerDigitOfValue(s[0]);
      LowerDigitOfValue(s[1]);
      assert s == [s[0], s[1]] + s[2..];
    }
  }

  lemma LowerDigitOfValue(c: byte)
    requires IsLowerHexDigit(c)
    ensures LowerDigit(NibbleValue(c).value) == c
  {
  }

  /** Encoding undoes decoding on lowercase text (the decoder also accepts
      uppercase, which encoding does not reproduce). */
  lemma EncodeDecode(s: seq<byte>)
    requires |s| % 2 == 0 && AllLowerHex(s)
    ensures Decode(s).Ok? && Encode(Decode(s).value) == s
  {
    EncodeDecodePairs(s, 0);
  }

  /** Nibble n is written as the n-th digit of the alphabet, and that digit
      reads back as n. */
  lemma Alphabet(n: nat)
    requires n < 16
    ensures LowerDigit(n) == DIGITS[n]
    ensures NibbleValue(DIGITS[n]) == Some(n)
  {
  }

  /** An uppercase digit has the value of its lowercase form. */
  lemma NibbleCase(c: byte)
    requires 'A' as int <= c <= 'F' as int
    ensures NibbleValue(c) == NibbleValue(c + 32)
  {
  }

  /** Lowercasing a byte changes neither whether it is a hex digit nor its
      value. */
  lemma NibbleLower(c: byte)
    ensures IsHexDigit(AsciiLower(c)) <==> IsHexDigit(c)
    ensures NibbleValue(AsciiLower(c)) == NibbleValue(c)
  {
    if 'A' as int <= c <= 'F' as int {
      NibbleCase(c);
    }
  }

  /** Byte k of the decoding is the value of the digit pair at 2k and 2k+1. */
  lemma {:induction false} DecodePairsAt(s: seq<byte>, base: nat, k: nat)
    requires |s| % 2 == 0 && DecodePairs(s, base).Ok? && k < |DecodePairs(s, base).value|
    ensures IsHexDigit(s[2 * k]) && IsHexDigit(s[2 * k + 1])
    ensures DecodePairs(s, base).value[k] ==
            NibbleValue(s[2 * k]).value * 16 + NibbleValue(s[2 * k + 1]).value
    decreases |s|
  {
    if k > 0 {
      DecodePairsAt(s[2..], base + 2, k - 1);
      assert s[2..][2 * (k - 1)] == s[2 * k];
      assert s[2..][2 * (k - 1) + 1] == s[2 * k + 1];
    }
  }

  /** Byte k of a successful decoding is the value of characters 2k (high
      nibble) and 2k+1 (low nibble), whichever case they are written in. */
  lemma DecodeAt(s: seq<byte>, k: nat)
    requires Decode(s).Ok? && k < |Decode(s).value|
    ensures IsHexDigit(s[2 * k]) && IsHexDigit(s[2 * k + 1])
    ensures Decode(s).value[k] == NibbleValue(s[2 * k]).value * 16 + NibbleValue(s[2 * k + 1]).value
  {
    DecodePairsAt(s, 0, k);
  }

  /** Lowercasing the text changes nothing about a successful decoding. */
  lemma DecodeIgnoresCase(s: seq<byte>)
    ensures Decode(AsciiLowerAll(s)).Ok? <==> Decode(s).Ok?
    ensures Decode(s).Ok? ==> Decode(AsciiLowerAll(s)) == Decode(s)
  {
    var t := AsciiLowerAll(s);
    forall i | 0 <= i < |s| ensures IsHexDigit(t[i]) <==> IsHexDigit(s[i]) {
      NibbleLower(s[i]);
    }
    DecodeOkIff(s);
    DecodeOkIff(t);
    if Decode(s).Ok? {
      var a, b := Decode(s).value, Decode(t).value;
      assert |a| == |b|;
      forall k | 0 <= k < |a| ensures a[k] == b[k] {
        DecodeAt(s, k);
        DecodeAt(t, k);
        NibbleLower(s[2 * k]);
        NibbleLower(s[2 * k + 1]);
      }
      assert a == b;
    }
  }

  /** Encoding a decoding gives the lowercase form of the text. */
  lemma EncodeDecodeAnyCase(s: seq<byte>)
    requires Decode(s).Ok?
    ensures Encode(Decode(s).value) == AsciiLowerAll(s)
  {
    var t := AsciiLowerAll(s);
    DecodeIgnoresCase(s);
    DecodeOkIff(s);
    assert AllLowerHex(t) by {
      forall i | 0 <= i < |t| ensures IsLowerHexDigit(t[i]) {
        assert IsHexDigit(s[i]);
      }
    }
    EncodeDecode(t);
  }

  /** Decoding is compositional on even-length pieces. */
  lemma DecodeAppend(s: seq<byte>, t: seq<byte>)
    requires Decode(s).Ok? && Decode(t).Ok?
    ensures Decode(s + t) == Ok(Decode(s).value + Decode(t).value)
  {
    var u := s + t;
    DecodeOkIff(s);
    DecodeOkIff(t);
    assert AllHex(u) by {
      forall i | 0 <= i < |u| ensures IsHexDigit(u[i]) {
        if i >= |s| { assert u[i] == t[i - |s|]; }
      }
    }
    DecodeOkIff(u);
    var a, b, c := Decode(s).value, Decode(t).value, Decode(u).value;
    forall k | 0 <= k < |c| ensures c[k] == (a + b)[k] {
      DecodeAt(u, k);
      if k < |a| {
        DecodeAt(s, k);
      } else {
        DecodeAt(t, k - |a|);
        assert u[2 * k] == t[2 * (k - |a|)] && u[2 * k + 1] == t[2 * (k - |a|) + 1];
      }
    }
    assert c == a + b;
  }
}
