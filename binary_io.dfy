// The part of System.IO the loader relies on: a FileStream whose Position may
// be set anywhere at or after 0, read through a BinaryReader that decodes
// little-endian integers and raw 32-bit float words and fails with an
// end-of-stream error when too few bytes remain. Encoding.ASCII turns bytes
// into characters.
module BinaryIO {
  import opened Outcomes

  /** An unsigned 8-bit value. */
  type byte = b: int | 0 <= b < 0x100

  // ---------------------------------------------------------------------------
  // Little-endian decoders over a byte sequence.

  /** BinaryReader.ReadUInt16 at position p. */
  function U16(data: seq<byte>, p: nat): (v: int)
    requires p + 2 <= |data|
    ensures 0 <= v < 0x1_0000
  {
    data[p] as int + data[p + 1] as int * 0x100
  }

  /** BinaryReader.ReadUInt32 at position p. */
  function U32(data: seq<byte>, p: nat): (v: int)
    requires p + 4 <= |data|
    ensures 0 <= v < 0x1_0000_0000
  {
    U16(data, p) + U16(data, p + 2) * 0x1_0000
  }

  /** BinaryReader.ReadInt32 at position p: the unsigned word read as two's
      complement. */
  function I32(data: seq<byte>, p: nat): (v: int)
    requires p + 4 <= |data|
    ensures -0x8000_0000 <= v < 0x8000_0000
    ensures v == U32(data, p) || v == U32(data, p) - 0x1_0000_0000
  {
    var u := U32(data, p);
    if u < 0x8000_0000 then u else u - 0x1_0000_0000
  }

  /** The raw 32-bit word at position p: what ReadSingle reinterprets as a
      float. */
  function Word(data: seq<byte>, p: nat): (w: int)
    requires p + 4 <= |data|
    ensures 0 <= w < 0x1_0000_0000
  {
    U32(data, p)
  }

  /** The cast of an int32 to a flags enum: the same 32 bits. */
  function Bits(v: int): bv32
    requires -0x8000_0000 <= v < 0x8000_0000
  {
    (if v < 0 then v + 0x1_0000_0000 else v) as bv32
  }

  // ---------------------------------------------------------------------------
  // Encoders: the writer side of the same formats, used to state round trips.

  function EncodeU16(v: int): (b: seq<byte>)
    requires 0 <= v < 0x1_0000
    ensures |b| == 2
  {
    [v % 0x100, v / 0x100]
  }

  function EncodeU32(v: int): (b: seq<byte>)
    requires 0 <= v < 0x1_0000_0000
    ensures |b| == 4
  {
    EncodeU16(v % 0x1_0000) + EncodeU16(v / 0x1_0000)
  }

  function EncodeI32(v: int): (b: seq<byte>)
    requires -0x8000_0000 <= v < 0x8000_0000
    ensures |b| == 4
  {
    EncodeU32(if v < 0 then v + 0x1_0000_0000 else v)
  }

  /** Decoding what was encoded gives the value back. */
  lemma DecodeEncodeU16(v: int)
    requires 0 <= v < 0x1_0000
    ensures U16(EncodeU16(v), 0) == v
  {
  }

  /** Encoding what was decoded gives the bytes back. */
  lemma EncodeDecodeU16(data: seq<byte>, p: nat)
    requires p + 2 <= |data|
    ensures EncodeU16(U16(data, p)) == data[p..p + 2]
  {
  }

  lemma DecodeEncodeU32(v: int)
    requires 0 <= v < 0x1_0000_0000
    ensures U32(EncodeU32(v), 0) == v
  {
    var b := EncodeU32(v);
    DecodeEncodeU16(v % 0x1_0000);
    DecodeEncodeU16(v / 0x1_0000);
    assert b[2..] == EncodeU16(v / 0x1_0000);
    U16Window(b, 2);
  }

  lemma EncodeDecodeU32(data: seq<byte>, p: nat)
    requires p + 4 <= |data|
    ensures EncodeU32(U32(data, p)) == data[p..p + 4]
  {
    var lo, hi := U16(data, p), U16(data, p + 2);
    assert U32(data, p) % 0x1_0000 == lo;
    assert U32(data, p) / 0x1_0000 == hi;
    EncodeDecodeU16(data, p);
    EncodeDecodeU16(data, p + 2);
    assert data[p..p + 4] == data[p..p + 2] + data[p + 2..p + 4];
  }

  lemma DecodeEncodeI32(v: int)
    requires -0x8000_0000 <= v < 0x8000_0000
    ensures I32(EncodeI32(v), 0) == v
  {
    DecodeEncodeU32(if v < 0 then v + 0x1_0000_0000 else v);
  }

  lemma EncodeDecodeI32(data: seq<byte>, p: nat)
    requires p + 4 <= |data|
    ensures EncodeI32(I32(data, p)) == data[p..p + 4]
  {
    EncodeDecodeU32(data, p);
  }

  /** A value encoded at position q of a byte string reads back there. */
  lemma U16At(b: seq<byte>, q: nat, v: int)
    requires 0 <= v < 0x1_0000 && q + 2 <= |b| && b[q..q + 2] == EncodeU16(v)
    ensures U16(b, q) == v
  {
    assert b[q] == EncodeU16(v)[0] && b[q + 1] == EncodeU16(v)[1];
  }

  lemma U32At(b: seq<byte>, q: nat, v: int)
    requires 0 <= v < 0x1_0000_0000 && q + 4 <= |b| && b[q..q + 4] == EncodeU32(v)
    ensures U32(b, q) == v
  {
    assert b[q..q + 2] == b[q..q + 4][..2] == EncodeU16(v % 0x1_0000);
    assert b[q + 2..q + 4] == b[q..q + 4][2..] == EncodeU16(v / 0x1_0000);
    U16At(b, q, v % 0x1_0000);
    U16At(b, q + 2, v / 0x1_0000);
  }

  lemma I32At(b: seq<byte>, q: nat, v: int)
    requires -0x8000_0000 <= v < 0x8000_0000 && q + 4 <= |b| && b[q..q + 4] == EncodeI32(v)
    ensures I32(b, q) == v
  {
    U32At(b, q, if v < 0 then v + 0x1_0000_0000 else v);
  }

  /** A decoder reads only its own bytes: decoding at p + q in data is decoding
      at q in the window starting at p. */
  lemma U16Window(data: seq<byte>, p: nat)
    requires p + 2 <= |data|
    ensures U16(data[p..], 0) == U16(data, p)
  {
  }

  lemma I32Window(data: seq<byte>, p: nat, q: nat)
    requires p + q + 4 <= |data|
    ensures I32(data[p..], q) == I32(data, p + q)
  {
    var w := data[p..];
    assert w[q] == data[p + q] && w[q + 1] == data[p + q + 1];
    assert w[q + 2] == data[p + q + 2] && w[q + 3] == data[p + q + 3];
  }

  /** An int32 read depends on its four bytes alone. */
  lemma I32Equal(a: seq<byte>, p: nat, b: seq<byte>, q: nat)
    requires p + 4 <= |a| && q + 4 <= |b|
    requires a[p] == b[q] && a[p + 1] == b[q + 1] && a[p + 2] == b[q + 2] && a[p + 3] == b[q + 3]
    ensures I32(a, p) == I32(b, q)
  {
  }

  // ---------------------------------------------------------------------------
  // Short reads and text.

  /** The bytes Stream.Read / BinaryReader.ReadBytes(count) return at position
      p: up to count of them, fewer only when the data ends first, none at all
      when p lies at or past the end. */
  function Available(data: seq<byte>, p: nat, count: nat): (b: seq<byte>)
    ensures |b| <= count
    ensures |b| == count <==> p + count <= |data| || count == 0
    ensures p <= |data| ==> p + |b| <= |data| && b == data[p..p + |b|]
    ensures p < |data| && |b| < count ==> p + |b| == |data|
  {
    if |data| <= p then []
    else if p + count <= |data| then data[p..p + count]
    else data[p..]
  }

  /** Encoding.ASCII.GetString: bytes below 128 are their character, every
      other byte becomes '?'. */
  function AsciiString(bytes: seq<byte>): (s: string)
    ensures |s| == |bytes|
    ensures forall i :: 0 <= i < |s| ==> s[i] as int < 0x80
    ensures forall i :: 0 <= i < |s| ==> (s[i] as int == bytes[i] <==> bytes[i] < 0x80)
  {
    seq(|bytes|, i requires 0 <= i < |bytes| =>
      if bytes[i] < 0x80 then bytes[i] as char else '?')
  }

  /** An ASCII-only text is decoded from exactly one byte string: its own
      character codes. */
  lemma AsciiDecodesUniquely(bytes: seq<byte>, text: string)
    requires forall i :: 0 <= i < |text| ==> text[i] as int < 0x80 && text[i] != '?'
    ensures AsciiString(bytes) == text <==>
      |bytes| == |text| && forall i :: 0 <= i < |text| ==> bytes[i] == text[i] as int
  {
    if AsciiString(bytes) == text {
      forall i | 0 <= i < |text| ensures bytes[i] == text[i] as int {
        assert AsciiString(bytes)[i] == text[i];
      }
    }
  }

  /** Character code zero appears in the decoded text exactly where a zero byte
      was. */
  lemma AsciiNul(bytes: seq<byte>, i: nat)
    requires i < |bytes|
    ensures AsciiString(bytes)[i] == '\0' <==> bytes[i] == 0
  {
  }

  // ---------------------------------------------------------------------------
  // The stream.

  /** A FileStream over a file's bytes read through a BinaryReader. The
      position may be set past the end; reads then find nothing. */
  class ByteStream {
    const data: seq<byte>
    var pos: nat

    constructor(data: seq<byte>)
      ensures this.data == data && pos == 0
    {
      this.data := data;
      pos := 0;
    }

    /** FileStream.Position = offset: a negative offset is refused. */
    method Seek(offset: int) returns (r: Result<()>)
      modifies this`pos
      ensures offset < 0 ==> r == Err(NegativePosition) && pos == old(pos)
      ensures 0 <= offset ==> r == Ok(()) && pos == offset
    {
      if offset < 0 {
        return Err(NegativePosition);
      }
      pos := offset;
      return Ok(());
    }

    /** BinaryReader.ReadBytes(count): whatever is available, possibly short. */
    method ReadBytes(count: nat) returns (b: seq<byte>)
      modifies this`pos
      ensures b == Available(data, old(pos), count)
      ensures pos == old(pos) + |b|
    {
      b := Available(data, pos, count);
      pos := pos + |b|;
    }

    method ReadUInt16() returns (r: Result<int>)
      modifies this`pos
      ensures old(pos) + 2 <= |data| ==> r == Ok(U16(data, old(pos))) && pos == old(pos) + 2
      ensures |data| < old(pos) + 2 ==> r == Err(EndOfStream) && pos == old(pos)
    {
      if |data| < pos + 2 {
        return Err(EndOfStream);
      }
      r := Ok(U16(data, pos));
      pos := pos + 2;
    }

    method ReadInt32() returns (r: Result<int>)
      modifies this`pos
      ensures old(pos) + 4 <= |data| ==> r == Ok(I32(data, old(pos))) && pos == old(pos) + 4
      ensures |data| < old(pos) + 4 ==> r == Err(EndOfStream) && pos == old(pos)
    {
      if |data| < pos + 4 {
        return Err(EndOfStream);
      }
      r := Ok(I32(data, pos));
      pos := pos + 4;
    }

    /** BinaryReader.ReadSingle, keeping the float as its raw word. */
    method ReadSingle() returns (r: Result<int>)
      modifies this`pos
      ensures old(pos) + 4 <= |data| ==> r == Ok(Word(data, old(pos))) && pos == old(pos) + 4
      ensures |data| < old(pos) + 4 ==> r == Err(EndOfStream) && pos == old(pos)
    {
      if |data| < pos + 4 {
        return Err(EndOfStream);
      }
      r := Ok(Word(data, pos));
      pos := pos + 4;
    }
  }
}
