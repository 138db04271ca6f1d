/** Fixed-width integers and their big-endian byte form, as used by both wire formats. */
module Wire {

  datatype Option<+T> = None | Some(value: T)

  type byte = b: int | 0 <= b < 0x100
  type u16 = n: int | 0 <= n < 0x1_0000
  type u32 = n: int | 0 <= n < 0x1_0000_0000

  /** Big-endian bytes of a 16-bit number. */
  function U16Bytes(n: u16): (b: seq<byte>)
    ensures |b| == 2 && U16Value(b) == n
  {
    [n / 0x100, n % 0x100]
  }

  function U16Value(b: seq<byte>): (n: u16)
    requires |b| == 2
    ensures n / 0x100 == b[0] && n % 0x100 == b[1]
  {
    var hi: int := b[0];
    hi * 0x100 + b[1]
  }

  /** Big-endian bytes of a 32-bit number: the high half, then the low half. */
  function U32Bytes(n: u32): (b: seq<byte>)
    ensures |b| == 4 && U32Value(b) == n
  {
    var b := U16Bytes(n / 0x1_0000) + U16Bytes(n % 0x1_0000);
    assert b[..2] == U16Bytes(n / 0x1_0000) && b[2..] == U16Bytes(n % 0x1_0000);
    b
  }

  function U32Value(b: seq<byte>): (n: u32)
    requires |b| == 4
  {
    var hi: int := U16Value(b[..2]);
    hi * 0x1_0000 + U16Value(b[2..])
  }

  /** The bytes of a number given by its two halves. */
  lemma U32BytesFrom(hi: u16, lo: u16)
    ensures 0 <= hi * 0x1_0000 + lo < 0x1_0000_0000
    ensures U32Bytes(hi * 0x1_0000 + lo) == [hi / 0x100, hi % 0x100, lo / 0x100, lo % 0x100]
  {
  }

  /** Big-endian: the first byte weighs most. */
  lemma U16Weights(n: u16)
    ensures var b := U16Bytes(n); b[0] as int * 0x100 + b[1] as int == n
  {
  }

  lemma U32Weights(n: u32)
    ensures var b := U32Bytes(n);
            b[0] as int * 0x100_0000 + b[1] as int * 0x1_0000 + b[2] as int * 0x100 + b[3] as int == n
  {
    var hi, lo := U16Bytes(n / 0x1_0000), U16Bytes(n % 0x1_0000);
    U16Weights(n / 0x1_0000);
    U16Weights(n % 0x1_0000);
    assert U32Bytes(n) == hi + lo;
  }

  /** Decoding and encoding again gives the same bytes. */
  lemma U16BytesOfValue(b: seq<byte>)
    requires |b| == 2
    ensures U16Bytes(U16Value(b)) == b
  {
  }

  lemma U32BytesOfValue(b: seq<byte>)
    requires |b| == 4
    ensures U32Bytes(U32Value(b)) == b
  {
    var hi, lo := U16Value(b[..2]), U16Value(b[2..]);
    assert U32Value(b) / 0x1_0000 == hi && U32Value(b) % 0x1_0000 == lo;
    U16BytesOfValue(b[..2]);
    U16BytesOfValue(b[2..]);
  }

  /** `copy_from_slice` at an offset of a buffer. */
  method CopyInto(buf: array<byte>, offset: nat, data: seq<byte>)
    requires offset + |data| <= buf.Length
    modifies buf
    ensures buf[..] == old(buf[..offset]) + data + old(buf[offset + |data|..])
  {
    forall i | 0 <= i < |data| {
      buf[offset + i] := data[i];
    }
  }
}
