/**
 * The `emb` column: an embedding of float32 values as the bytes
 * `ndarray.tobytes()` writes and `np.frombuffer(..., dtype="float32")` reads,
 * four little-endian bytes per element. An element is modelled by its 32-bit
 * IEEE-754 bit pattern; the float arithmetic itself is not modelled.
 */
module Blob {

  type Byte = bv8

  /** The bit pattern of one float32. */
  type F32 = bv32

  function EncodeF32(x: F32): (b: seq<Byte>)
    ensures |b| == 4
  {
    [(x & 0xFF) as Byte, ((x >> 8) & 0xFF) as Byte, ((x >> 16) & 0xFF) as Byte, (x >> 24) as Byte]
  }

  function DecodeF32(b0: Byte, b1: Byte, b2: Byte, b3: Byte): F32
  {
    (b0 as F32) | ((b1 as F32) << 8) | ((b2 as F32) << 16) | ((b3 as F32) << 24)
  }

  lemma DecodeEncodeF32(x: F32)
    ensures var b := EncodeF32(x); DecodeF32(b[0], b[1], b[2], b[3]) == x
  {
  }

  lemma EncodeDecodeF32(b0: Byte, b1: Byte, b2: Byte, b3: Byte)
    ensures EncodeF32(DecodeF32(b0, b1, b2, b3)) == [b0, b1, b2, b3]
  {
  }

  /** `vec.tobytes()` for a float32 vector. */
  function Encode(v: seq<F32>): (b: seq<Byte>)
    ensures |b| == 4 * |v|
  {
    if v == [] then [] else EncodeF32(v[0]) + Encode(v[1..])
  }

  /** `np.frombuffer(blob, dtype="float32")`; NumPy refuses a length that is not a multiple of 4. */
  function Decode(b: seq<Byte>): (v: seq<F32>)
    requires |b| % 4 == 0
    ensures 4 * |v| == |b|
  {
    if b == [] then [] else [DecodeF32(b[0], b[1], b[2], b[3])] + Decode(b[4..])
  }

  /** Reading back a stored embedding gives the vector that was written. */
  lemma {:induction false} DecodeEncode(v: seq<F32>)
    ensures Decode(Encode(v)) == v
  {
    if v != [] {
      var b := Encode(v);
      assert b[..4] == EncodeF32(v[0]);
      assert b[4..] == Encode(v[1..]);
      DecodeEncodeF32(v[0]);
      DecodeEncode(v[1..]);
      assert v == [v[0]] + v[1..];
    }
  }

  /** Every blob whose length is a multiple of 4 is the encoding of the vector read from it. */
  lemma {:induction false} EncodeDecode(b: seq<Byte>)
    requires |b| % 4 == 0
    ensures Encode(Decode(b)) == b
  {
    if b != [] {
      var v := Decode(b);
      assert v[0] == DecodeF32(b[0], b[1], b[2], b[3]);
      assert v[1..] == Decode(b[4..]);
      EncodeDecodeF32(b[0], b[1], b[2], b[3]);
      EncodeDecode(b[4..]);
      assert b == b[..4] + b[4..];
    }
  }
}
