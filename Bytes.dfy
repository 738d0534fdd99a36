/** Byte-level helpers for the ZFM wire format: the byte type, big-endian
    16-bit fields, the unbounded byte sum used by the checksum, and Python's
    clamping slice. */
module Bytes {

  /** One element of a Python `bytes` object. */
  type byte = x: int | 0 <= x < 256

  /** `(v >> 8) & 0xFF` for a Python int `v` of any sign: an arithmetic shift
      right is a floor division, and Dafny's `/` by a positive divisor floors. */
  function HiByte(v: int): (b: byte)
    ensures b == (v % 0x1_0000) / 256
  {
    Mod65536Split(v);
    (v / 256) % 256
  }

  /** `v & 0xFF` for a Python int `v` of any sign. */
  function LoByte(v: int): (b: byte)
    ensures b == (v % 0x1_0000) % 256
  {
    Mod65536Split(v);
    v % 256
  }

  /** The two big-endian bytes the source writes for a 16-bit field. */
  function Pack16(v: int): (r: seq<byte>)
    ensures |r| == 2
    ensures Unpack16(r[0], r[1]) == v % 0x1_0000
  {
    Mod65536Split(v);
    [HiByte(v), LoByte(v)]
  }

  /** `(hi << 8) | lo` for two bytes. */
  function Unpack16(hi: byte, lo: byte): (v: int)
    ensures 0 <= v < 0x1_0000
    ensures v / 256 == hi && v % 256 == lo
  {
    hi * 256 + lo
  }

  /** Reducing modulo 65536 and then splitting into bytes is the same as
      splitting the floor quotient by 256: the fact both masks rest on. */
  lemma Mod65536Split(v: int)
    ensures (v % 0x1_0000) / 256 == (v / 256) % 256
    ensures (v % 0x1_0000) % 256 == v % 256
  {
    var q, r := v / 256, v % 256;
    var qq, qr := q / 256, q % 256;
    assert v == 0x1_0000 * qq + (256 * qr + r);
    assert v % 0x1_0000 == 256 * qr + r;
  }

  /** A page id outside 0..65535 is written exactly as its residue modulo
      65536: out-of-range values wrap silently. */
  lemma Pack16Wraps(v: int)
    ensures Pack16(v) == Pack16(v % 0x1_0000)
  {
    var w := v % 0x1_0000;
    assert w % 0x1_0000 == w;
    Unpack16Injective(Pack16(v), Pack16(w));
  }

  lemma Unpack16Injective(p: seq<byte>, q: seq<byte>)
    requires |p| == 2 && |q| == 2 && Unpack16(p[0], p[1]) == Unpack16(q[0], q[1])
    ensures p == q
  {
  }

  /** Reading two bytes and packing the value again gives the same two bytes. */
  lemma Unpack16RoundTrip(hi: byte, lo: byte)
    ensures Pack16(Unpack16(hi, lo)) == [hi, lo]
  {
    var v := Unpack16(hi, lo);
    assert v % 0x1_0000 == v;
  }

  /** Python's `sum` over a byte sequence. */
  function Sum(s: seq<byte>): (n: int)
    ensures 0 <= n <= 255 * |s|
  {
    if s == [] then 0 else s[0] + Sum(s[1..])
  }

  lemma {:induction false} SumConcat(a: seq<byte>, b: seq<byte>)
    ensures Sum(a + b) == Sum(a) + Sum(b)
  {
    if a == [] {
      assert a + b == b;
    } else {
      assert (a + b)[1..] == a[1..] + b;
      SumConcat(a[1..], b);
    }
  }

  /** The sum of a sequence does not depend on the order of its bytes. */
  lemma {:induction false} SumPermutation(a: seq<byte>, b: seq<byte>)
    requires multiset(a) == multiset(b)
    ensures Sum(a) == Sum(b)
    decreases |a|
  {
    if a != [] {
      var x := a[0];
      assert x in multiset(b);
      var i :| 0 <= i < |b| && b[i] == x;
      assert b == b[..i] + [x] + b[i + 1..];
      var rest := b[..i] + b[i + 1..];
      SumConcat(b[..i] + [x], b[i + 1..]);
      SumConcat(b[..i], [x]);
      SumConcat(b[..i], b[i + 1..]);
      assert Sum([x]) == x;
      assert a == [x] + a[1..];
      assert multiset(a) == multiset([x]) + multiset(a[1..]);
      assert multiset(b) == multiset(b[..i]) + multiset([x]) + multiset(b[i + 1..]);
      assert multiset(rest) == multiset(b[..i]) + multiset(b[i + 1..]);
      assert multiset(a[1..]) == multiset(a) - multiset([x]);
      assert multiset(rest) == multiset(b) - multiset([x]);
      SumPermutation(a[1..], rest);
    }
  }

  /** Python's `s[start:stop]` for non-negative bounds: both bounds are clamped
      to the length, and an empty range gives the empty sequence. */
  function Slice(s: seq<byte>, start: nat, stop: nat): (r: seq<byte>)
    ensures |r| == if start < stop && start < |s| then Min(stop, |s|) - start else 0
    ensures forall i :: 0 <= i < |r| ==> r[i] == s[start + i]
  {
    if start < stop && start < |s| then s[start..Min(stop, |s|)] else []
  }

  function Min(a: int, b: int): int
  {
    if a <= b then a else b
  }
}
