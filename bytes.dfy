/** Big-endian conversion between byte strings and naturals: what
    `int.from_bytes(bs, 'big')`, `struct.pack('>Q', …)`, `struct.pack('>I', …)`
    and `struct.unpack('>I', …)` do. */
module Bytes {
  import NumberTheory

  /** A byte, as an element of a Python `bytes` object. */
  type byte = b: int | 0 <= b < 256

  /** 256 to the power `n`. */
  function Pow256(n: nat): (r: nat)
    ensures r >= 1
  {
    if n == 0 then 1 else 256 * Pow256(n - 1)
  }

  /** The big-endian value of a byte string; it fits in `|bs|` bytes. */
  function ValueBE(bs: seq<byte>): (v: nat)
    ensures v < Pow256(|bs|)
  {
    if bs == [] then 0
    else
      var v' := ValueBE(bs[..|bs| - 1]);
      assert v' <= Pow256(|bs| - 1) - 1;
      assert v' * 256 <= Pow256(|bs|) - 256;
      v' * 256 + bs[|bs| - 1]
  }

  /** The `n`-byte big-endian encoding of `x` (only the low `n` bytes of `x`
      are kept). */
  function BytesBE(x: nat, n: nat): (bs: seq<byte>)
    ensures |bs| == n
  {
    if n == 0 then [] else BytesBE(x / 256, n - 1) + [x % 256]
  }

  /** Decoding an encoding gives back every value that fits. */
  lemma {:induction false} ValueOfBytes(x: nat, n: nat)
    requires x < Pow256(n)
    ensures ValueBE(BytesBE(x, n)) == x
  {
    if n > 0 {
      var bs := BytesBE(x, n);
      var q, r := x / 256, x % 256;
      assert q < Pow256(n - 1) by {
        assert x == 256 * q + r;
        NumberTheory.MulBounds(256, q - Pow256(n - 1));
      }
      ValueOfBytes(q, n - 1);
      calc {
        ValueBE(bs);
        ValueBE(bs[..n - 1]) * 256 + bs[n - 1];
        { assert bs[..n - 1] == BytesBE(q, n - 1); }
        q * 256 + r;
      }
    }
  }

  /** Encoding a decoded byte string gives back the byte string. */
  lemma {:induction false} BytesOfValue(bs: seq<byte>)
    ensures BytesBE(ValueBE(bs), |bs|) == bs
  {
    if bs != [] {
      var n := |bs|;
      var v' := ValueBE(bs[..n - 1]);
      var last := bs[n - 1];
      NumberTheory.DivModUnique(v' * 256 + last, 256, v', last);
      BytesOfValue(bs[..n - 1]);
      assert bs == bs[..n - 1] + [bs[n - 1]];
    }
  }
}
