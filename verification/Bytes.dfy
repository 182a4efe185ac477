/** Bytes and 32-bit words as the wire sees them: little-endian, with every
  * width written out, and the byte-sequence facts the codec proofs share. */
module Bytes {

  const U16_LIMIT := 0x1_0000
  const U32_LIMIT := 0x1_0000_0000

  type Byte = x: int | 0 <= x < 256
  type U32 = x: int | 0 <= x < 0x1_0000_0000
  type I32 = x: int | -0x8000_0000 <= x < 0x8000_0000

  /** The four bytes of a u32, least significant first. */
  function U32Bytes(v: U32): (bs: seq<Byte>)
    ensures |bs| == 4
  {
    [v % 256, v / 0x100 % 256, v / 0x1_0000 % 256, v / 0x100_0000 % 256]
  }

  /** The u32 stored at `pos`. */
  function U32At(bs: seq<Byte>, pos: nat): (v: U32)
    requires pos + 4 <= |bs|
  {
    var a: int, b: int, c: int, d: int := bs[pos], bs[pos + 1], bs[pos + 2], bs[pos + 3];
    a + b * 0x100 + c * 0x1_0000 + d * 0x100_0000
  }

  lemma U32AtOfBytes(bs: seq<Byte>, pos: nat, v: U32)
    requires pos + 4 <= |bs|
    requires bs[pos..pos + 4] == U32Bytes(v)
    ensures U32At(bs, pos) == v
  {
    var at := bs[pos..pos + 4];
    assert bs[pos] == at[0] && bs[pos + 1] == at[1] && bs[pos + 2] == at[2] && bs[pos + 3] == at[3];
    LittleEndian(v);
  }

  /** The first byte counts ones, the next 256s, and so on. */
  lemma LittleEndian(v: U32)
    ensures var a: int, b: int, c: int, d: int := U32Bytes(v)[0], U32Bytes(v)[1], U32Bytes(v)[2], U32Bytes(v)[3];
            v == a + 0x100 * b + 0x1_0000 * c + 0x100_0000 * d
  {
    assert v == v % 256 + 256 * (v / 256);
    assert v / 256 == v / 256 % 256 + 256 * (v / 0x1_0000);
    assert v / 0x1_0000 == v / 0x1_0000 % 256 + 256 * (v / 0x100_0000);
  }

  lemma BytesOfU32At(bs: seq<Byte>, pos: nat)
    requires pos + 4 <= |bs|
    ensures bs[pos..pos + 4] == U32Bytes(U32At(bs, pos))
  {
    var v := U32At(bs, pos);
    var a: int, b: int, c: int, d: int := bs[pos], bs[pos + 1], bs[pos + 2], bs[pos + 3];
    assert v == a + 256 * (b + 256 * (c + 256 * d));
    DivMod256(a, b + 256 * (c + 256 * d));
    DivMod256(b, c + 256 * d);
    DivMod256(c, d);
    assert v / 0x1_0000 == v / 256 / 256;
    assert v / 0x100_0000 == v / 256 / 256 / 256;
  }

  lemma DivMod256(low: Byte, high: nat)
    ensures (low + 256 * high) % 256 == low && (low + 256 * high) / 256 == high
  {
  }

  /** `(uint32_t)v` for a signed 32-bit value: two's complement. */
  function ToUnsigned(v: I32): (u: U32)
    ensures (u - v) % U32_LIMIT == 0
  {
    if v < 0 then v + U32_LIMIT else v
  }

  /** `(int32_t)u`: the inverse reinterpretation. */
  function ToSigned(u: U32): (v: I32)
    ensures ToUnsigned(v) == u
  {
    if u >= 0x8000_0000 then u - U32_LIMIT else u
  }

  /** `n` zero bytes. */
  function Zeros(n: nat): (bs: seq<Byte>)
    ensures |bs| == n && forall i | 0 <= i < n :: bs[i] == 0
  {
    seq(n, _ => 0)
  }

  /** `s` with `patch` written over it from `at`. */
  function Splice(s: seq<Byte>, at: nat, patch: seq<Byte>): (r: seq<Byte>)
    requires at + |patch| <= |s|
    ensures |r| == |s| && r[at..at + |patch|] == patch
  {
    s[..at] + patch + s[at + |patch|..]
  }

  lemma SliceWithin(bs: seq<Byte>, pos: nat, n: nat, from: nat, to: nat)
    requires pos + n <= |bs| && from <= to <= n
    ensures bs[pos..pos + n][from..to] == bs[pos + from..pos + to]
  {
    var whole := bs[pos..pos + n];
    forall i | 0 <= i < to - from ensures whole[from..to][i] == bs[pos + from..pos + to][i] {
      assert whole[from + i] == bs[pos + (from + i)];
    }
  }

  lemma SpliceAppend(s: seq<Byte>, at: nat, p: seq<Byte>, q: seq<Byte>)
    requires at + |p| + |q| <= |s|
    ensures Splice(Splice(s, at, p), at + |p|, q) == Splice(s, at, p + q)
  {
  }
}
