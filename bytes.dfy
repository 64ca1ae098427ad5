/** Rust's fixed-width integers, big-endian byte conversion (`to_be_bytes` /
    `from_be_bytes`) and the lexicographic order that `Ord` gives byte arrays. */
module Bytes {

  type byte = x: int | 0 <= x < 0x100
  type u32 = x: int | 0 <= x < 0x1_0000_0000
  type i64 = x: int | -0x8000_0000_0000_0000 <= x < 0x8000_0000_0000_0000

  datatype Option<T> = None | Some(value: T)

  datatype Result<T, E> = Ok(value: T) | Err(error: E)

  /** `std::cmp::Ordering`; `as i8` maps it to -1, 0 and 1. */
  datatype Ordering = Less | Equal | Greater {

    function AsI8(): (r: int)
      ensures -1 <= r <= 1
      ensures r < 0 <==> Less?
      ensures r == 0 <==> Equal?
    {
      match this
      case Less => -1
      case Equal => 0
      case Greater => 1
    }

    function Reverse(): Ordering {
      match this
      case Less => Greater
      case Equal => Equal
      case Greater => Less
    }
  }

  /** The order of two integers, as `Ord::cmp` on an unsigned type gives it. */
  function IntCmp(x: int, y: int): Ordering {
    if x < y then Less else if x == y then Equal else Greater
  }

  function Pow256(n: nat): (r: nat)
    ensures r > 0
  {
    if n == 0 then 1 else 256 * Pow256(n - 1)
  }

  /** `from_be_bytes`: the unsigned value of a big-endian byte string. */
  function BeValue(s: seq<byte>): (r: nat)
    ensures r < Pow256(|s|)
  {
    if s == [] then 0 else BeValue(s[..|s| - 1]) * 256 + s[|s| - 1]
  }

  /** `to_be_bytes`: the low `n` bytes of `v`, most significant first. */
  function ToBe(v: nat, n: nat): (r: seq<byte>)
    ensures |r| == n
  {
    if n == 0 then [] else ToBe(v / 256, n - 1) + [v % 256]
  }

  function Zeros(n: nat): (r: seq<byte>)
    ensures |r| == n && forall i :: 0 <= i < n ==> r[i] == 0
  {
    seq(n, _ => 0)
  }

  /** Rust's `Ord` on slices: lexicographic, a proper prefix first. */
  function Cmp(a: seq<byte>, b: seq<byte>): (r: Ordering)
    ensures r == Equal <==> a == b
    ensures |a| < |b| && a == b[..|a|] ==> r == Less
    ensures |b| < |a| && b == a[..|b|] ==> r == Greater
    decreases |a|
  {
    if a == [] then (if b == [] then Equal else Less)
    else if b == [] then Greater
    else if a[0] < b[0] then Less
    else if a[0] > b[0] then Greater
    else
      assert a == [a[0]] + a[1..] && b == [b[0]] + b[1..];
      PrefixTail(a, b);
      PrefixTail(b, a);
      Cmp(a[1..], b[1..])
  }

  /** Dropping the first byte keeps a prefix a prefix. */
  lemma PrefixTail(a: seq<byte>, b: seq<byte>)
    requires a != [] && b != []
    ensures |a| <= |b| && a == b[..|a|] ==> a[1..] == b[1..][..|a| - 1]
  {
    if |a| <= |b| && a == b[..|a|] {
      forall i | 0 <= i < |a| - 1 ensures a[1..][i] == b[1..][..|a| - 1][i] {
        assert a[1..][i] == a[i + 1] == b[..|a|][i + 1] == b[i + 1];
      }
    }
  }

  // ---------------------------------------------------------------------------
  // Arithmetic helpers

  lemma MulMonotone(m: nat, d: int)
    requires d >= 1
    ensures m * d >= m
  {
    var e := d - 1;
    assert m * d == m * e + m;
    assert m * e >= 0;
  }

  lemma DivModUnique(v: int, m: int, q: int, x: int)
    requires m > 0 && 0 <= x < m && v == m * q + x
    ensures v / m == q && v % m == x
  {
    var q', x' := v / m, v % m;
    assert v == m * q' + x';
    assert m * q - m * q' == x' - x;
    assert m * (q - q') == m * q - m * q';
    if q > q' {
      MulMonotone(m, q - q');
    } else if q < q' {
      MulMonotone(m, q' - q);
    }
  }

  lemma ModOfShift(v: nat, p: nat)
    requires p > 0
    ensures (v / 256) % p * 256 + v % 256 == v % (256 * p)
  {
    var q, r := v / 256, v % 256;
    var a, b := q / p, q % p;
    assert v == 256 * q + r;
    assert q == p * a + b;
    assert v == (256 * p) * a + (b * 256 + r) by {
      assert 256 * q == 256 * (p * a) + 256 * b;
      assert 256 * (p * a) == (256 * p) * a;
    }
    assert b * 256 + r < 256 * p by {
      assert b <= p - 1;
      assert b * 256 <= (p - 1) * 256;
    }
    DivModUnique(v, 256 * p, a, b * 256 + r);
  }

  lemma ShiftDistributes(va: int, p: int, vb: int, y: int)
    ensures (va * p + vb) * 256 + y == va * (256 * p) + (vb * 256 + y)
  {
  }

  lemma BelowPowStep(x: nat, rest: nat, p: nat, y: nat)
    requires x < y && rest < p
    ensures x * p + rest < y * p
  {
    MulMonotone(p, y - x);
    assert y * p - x * p == p * (y - x);
  }

  // ---------------------------------------------------------------------------
  // Big-endian conversion

  /** Big-endian values compose: the bytes of `a` are the high digits. */
  lemma {:induction false} BeValueAppend(a: seq<byte>, b: seq<byte>)
    ensures BeValue(a + b) == BeValue(a) * Pow256(|b|) + BeValue(b)
    decreases |b|
  {
    if b == [] {
      assert a + b == a;
    } else {
      var b', y := b[..|b| - 1], b[|b| - 1];
      assert (a + b)[..|a + b| - 1] == a + b';
      BeValueAppend(a, b');
      assert (a + b)[|a + b| - 1] == y;
      assert BeValue(a + b) == BeValue(a + b') * 256 + y;
      assert BeValue(b) == BeValue(b') * 256 + y;
      ShiftDistributes(BeValue(a), Pow256(|b'|), BeValue(b'), y);
    }
  }

  lemma {:induction false} BeValueZeros(n: nat)
    ensures BeValue(Zeros(n)) == 0
  {
    if n > 0 {
      assert Zeros(n)[..n - 1] == Zeros(n - 1);
      BeValueZeros(n - 1);
    }
  }

  /** Zero bytes on the left do not change the value (`padded[3..8]` in `machine_id`). */
  lemma LeftPadding(k: nat, s: seq<byte>)
    ensures BeValue(Zeros(k) + s) == BeValue(s)
  {
    BeValueAppend(Zeros(k), s);
    BeValueZeros(k);
  }

  /** Zero bytes on the right multiply by a power of 256 (`padded_bs[0..12]` in `to_i`). */
  lemma RightPadding(s: seq<byte>, k: nat)
    ensures BeValue(s + Zeros(k)) == BeValue(s) * Pow256(k)
  {
    BeValueAppend(s, Zeros(k));
    BeValueZeros(k);
  }

  /** `to_be_bytes` keeps exactly the value modulo 256^n. */
  lemma {:induction false} BeValueToBe(v: nat, n: nat)
    ensures BeValue(ToBe(v, n)) == v % Pow256(n)
  {
    if n > 0 {
      var s := ToBe(v, n);
      assert s[..n - 1] == ToBe(v / 256, n - 1);
      BeValueToBe(v / 256, n - 1);
      ModOfShift(v, Pow256(n - 1));
    }
  }

  /** The low `k` bytes of an `n`-byte big-endian form are the `k`-byte form. */
  lemma {:induction false} ToBeSuffix(v: nat, n: nat, k: nat)
    requires k <= n
    ensures ToBe(v, n)[n - k..] == ToBe(v, k)
  {
    if k > 0 {
      ToBeSuffix(v / 256, n - 1, k - 1);
      assert ToBe(v, n)[n - k..] == ToBe(v / 256, n - 1)[n - k..] + [v % 256];
    }
  }

  /** Equal-length byte strings with the same value are equal. */
  lemma {:induction false} BeValueInjective(a: seq<byte>, b: seq<byte>)
    requires |a| == |b| && BeValue(a) == BeValue(b)
    ensures a == b
    decreases |a|
  {
    if a != [] {
      var n := |a|;
      DivModUnique(BeValue(a), 256, BeValue(a[..n - 1]), a[n - 1]);
      DivModUnique(BeValue(a), 256, BeValue(b[..n - 1]), b[n - 1]);
      BeValueInjective(a[..n - 1], b[..n - 1]);
      assert a == a[..n - 1] + [a[n - 1]];
      assert b == b[..n - 1] + [b[n - 1]];
    }
  }

  // ---------------------------------------------------------------------------
  // Lexicographic order

  /** On equal-length byte strings the lexicographic order is the order of
      their big-endian values. */
  lemma {:induction false} CmpIsValueOrder(a: seq<byte>, b: seq<byte>)
    requires |a| == |b|
    ensures Cmp(a, b) == IntCmp(BeValue(a), BeValue(b))
    decreases |a|
  {
    if a != [] {
      var n := |a|;
      var p := Pow256(n - 1);
      assert a == [a[0]] + a[1..];
      assert b == [b[0]] + b[1..];
      BeValueAppend([a[0]], a[1..]);
      BeValueAppend([b[0]], b[1..]);
      assert BeValue([a[0]]) == a[0] by { assert [a[0]][..0] == []; }
      assert BeValue([b[0]]) == b[0] by { assert [b[0]][..0] == []; }
      assert BeValue(a) == a[0] * p + BeValue(a[1..]);
      assert BeValue(b) == b[0] * p + BeValue(b[1..]);
      if a[0] < b[0] {
        BelowPowStep(a[0], BeValue(a[1..]), p, b[0]);
      } else if a[0] > b[0] {
        BelowPowStep(b[0], BeValue(b[1..]), p, a[0]);
      } else {
        CmpIsValueOrder(a[1..], b[1..]);
      }
    }
  }

  /** Comparing concatenations field by field: the first fields decide unless
      they are equal. */
  lemma {:induction false} CmpAppend(a1: seq<byte>, a2: seq<byte>, b1: seq<byte>, b2: seq<byte>)
    requires |a1| == |b1|
    ensures Cmp(a1 + a2, b1 + b2) == if a1 == b1 then Cmp(a2, b2) else Cmp(a1, b1)
    decreases |a1|
  {
    if a1 == [] {
      assert a1 + a2 == a2 && b1 + b2 == b2;
    } else {
      assert (a1 + a2)[1..] == a1[1..] + a2;
      assert (b1 + b2)[1..] == b1[1..] + b2;
      CmpAppend(a1[1..], a2, b1[1..], b2);
      if a1[0] == b1[0] && a1[1..] == b1[1..] {
        assert a1 == b1 by { assert a1 == [a1[0]] + a1[1..] && b1 == [b1[0]] + b1[1..]; }
      }
    }
  }
}
