/** The replacement records of the executable's byte patches: the search
    patterns, the resolution encoders and the field-of-view table. */
module HexEdits {
  import opened Common

  /** `HexEdit` and `HexEdit3` of the source have the same shape: the bytes to
      write and their distance from the start of the matched pattern. */
  datatype HexEdit = HexEdit(modified: seq<byte>, offset: nat)

  /** The FOV constant searched for: the float 0x3C8EFA35 (about pi/180). */
  const FovPattern: seq<byte> := [0x35, 0xFA, 0x8E, 0x3C]

  /** 640, 480, 16 as three little-endian 32-bit words. */
  const ResolutionPattern1: seq<byte> :=
    [0x80, 0x02, 0x00, 0x00, 0xE0, 0x01, 0x00, 0x00, 0x10, 0x00, 0x00, 0x00]

  /** 640, 480, 800, 600 as four little-endian 32-bit words. */
  const ResolutionPattern2: seq<byte> :=
    [0x80, 0x02, 0x00, 0x00, 0xE0, 0x01, 0x00, 0x00, 0x20, 0x03, 0x00, 0x00, 0x58, 0x02, 0x00, 0x00]

  /** The first eight bytes both resolution edits share: width and height,
      each truncated to 16 bits and zero-extended to a 32-bit word. */
  function DimensionBytes(width: int32, height: int32): (b: seq<byte>)
    ensures |b| == 8
    ensures DecodeU32LE(b, 0) == width as int % 0x1_0000
    ensures DecodeU32LE(b, 4) == height as int % 0x1_0000
  {
    LowHalfWord(width as int);
    LowHalfWord(height as int);
    [ByteOf(width as int), ByteOf(width as int / 256), 0x00, 0x00,
     ByteOf(height as int), ByteOf(height as int / 256), 0x00, 0x00]
  }

  /** The 12-byte resolution record: width, height and the constant 16. */
  function CreateHexEdit1(width: int32, height: int32, offset: nat): (e: HexEdit)
    ensures |e.modified| == |ResolutionPattern1| == 12 && e.offset == offset
    ensures DecodeU32LE(e.modified, 0) == width as int % 0x1_0000
    ensures DecodeU32LE(e.modified, 4) == height as int % 0x1_0000
    ensures DecodeU32LE(e.modified, 8) == 16
  {
    HexEdit(DimensionBytes(width, height) + [0x10, 0x00, 0x00, 0x00], offset)
  }

  /** The 16-byte resolution record: width, height and the constants 800, 600. */
  function CreateHexEdit2(width: int32, height: int32, offset: nat): (e: HexEdit)
    ensures |e.modified| == |ResolutionPattern2| == 16 && e.offset == offset
    ensures DecodeU32LE(e.modified, 0) == width as int % 0x1_0000
    ensures DecodeU32LE(e.modified, 4) == height as int % 0x1_0000
    ensures DecodeU32LE(e.modified, 8) == 800
    ensures DecodeU32LE(e.modified, 12) == 600
  {
    HexEdit(DimensionBytes(width, height) + [0x20, 0x03, 0x00, 0x00, 0x58, 0x02, 0x00, 0x00], offset)
  }

  /** The bytes written over the FOV constant for a valid index 1..4, and the
      empty edit (after an error message) for anything else. */
  function CreateHexEditFromFOV(aspectIndex: int32): (e: HexEdit)
    ensures e.offset == 0
    ensures 1 <= aspectIndex <= 4 <==> |e.modified| == |FovPattern|
    ensures !(1 <= aspectIndex <= 4) ==> e.modified == []
    ensures 1 <= aspectIndex <= 4 ==>
      e.modified[0] == 0 && e.modified[1] == 0 && DecodeU32LE(e.modified, 0) > DecodeU32LE(FovPattern, 0)
  {
    var m: seq<byte> :=
      match aspectIndex
      case 1 => [0x00, 0x00, 0xAB, 0x3C]
      case 2 => [0x00, 0x00, 0xBE, 0x3C]
      case 3 => [0x00, 0x00, 0xFF, 0x3C]
      case 4 => [0x00, 0x00, 0x3F, 0x3D]
      case _ => [];
    HexEdit(m, 0)
  }

  /** A base-256 digit and the rest of the number are determined by the number. */
  lemma DigitUnique(a0: int, ar: int, b0: int, br: int)
    requires 0 <= a0 < 256 && 0 <= b0 < 256
    requires a0 + 256 * ar == b0 + 256 * br
    ensures a0 == b0 && ar == br
  {
  }

  /** Decoding a little-endian word reads back exactly the four stored bytes:
      two records whose words all agree are the same record. */
  lemma WordsDetermineBytes(a: seq<byte>, b: seq<byte>, i: nat)
    requires i + 4 <= |a| && i + 4 <= |b|
    requires DecodeU32LE(a, i) == DecodeU32LE(b, i)
    ensures a[i..i + 4] == b[i..i + 4]
  {
    var a0, a1, a2, a3 := a[i] as int, a[i + 1] as int, a[i + 2] as int, a[i + 3] as int;
    var b0, b1, b2, b3 := b[i] as int, b[i + 1] as int, b[i + 2] as int, b[i + 3] as int;
    assert DecodeU32LE(a, i) == a0 + 256 * (a1 + 256 * (a2 + 256 * a3));
    assert DecodeU32LE(b, i) == b0 + 256 * (b1 + 256 * (b2 + 256 * b3));
    DigitUnique(a0, a1 + 256 * (a2 + 256 * a3), b0, b1 + 256 * (b2 + 256 * b3));
    DigitUnique(a1, a2 + 256 * a3, b1, b2 + 256 * b3);
    DigitUnique(a2, a3, b2, b3);
    assert a[i..i + 4] == [a[i], a[i + 1], a[i + 2], a[i + 3]];
    assert b[i..i + 4] == [b[i], b[i + 1], b[i + 2], b[i + 3]];
  }

  /** Round trip over the whole 16-bit range: a width and height that fit in
      16 bits are read back from the patched words unchanged. */
  lemma ResolutionRoundTrip(width: int32, height: int32, offset: nat)
    requires 0 <= width < 0x1_0000 && 0 <= height < 0x1_0000
    ensures DecodeU32LE(CreateHexEdit1(width, height, offset).modified, 0) == width as int
    ensures DecodeU32LE(CreateHexEdit1(width, height, offset).modified, 4) == height as int
    ensures DecodeU32LE(CreateHexEdit2(width, height, offset).modified, 0) == width as int
    ensures DecodeU32LE(CreateHexEdit2(width, height, offset).modified, 4) == height as int
  {
    assert width as int % 0x1_0000 == width as int;
    assert height as int % 0x1_0000 == height as int;
  }

  /** A generated record differs from its search pattern only in bytes 0, 1, 4 and 5. */
  lemma EditsDifferOnlyInDimensionBytes(width: int32, height: int32, offset: nat)
    ensures forall k :: 0 <= k < 12 && k !in {0, 1, 4, 5} ==>
      CreateHexEdit1(width, height, offset).modified[k] == ResolutionPattern1[k]
    ensures forall k :: 0 <= k < 16 && k !in {0, 1, 4, 5} ==>
      CreateHexEdit2(width, height, offset).modified[k] == ResolutionPattern2[k]
  {
  }

  /** 640 and 480 as two little-endian 32-bit words: the part of both
      search patterns the resolution edits rewrite. */
  const DefaultDimensions: seq<byte> := [0x80, 0x02, 0x00, 0x00, 0xE0, 0x01, 0x00, 0x00]

  /** The dimension bytes are the default ones exactly for 640x480 modulo 2^16. */
  lemma DimensionBytesDefaultIff(width: int32, height: int32)
    ensures DimensionBytes(width, height) == DefaultDimensions
      <==> width as int % 0x1_0000 == 640 && height as int % 0x1_0000 == 480
  {
    var d := DimensionBytes(width, height);
    var p := DefaultDimensions;
    assert DecodeU32LE(p, 0) == 640 && DecodeU32LE(p, 4) == 480;
    if width as int % 0x1_0000 == 640 && height as int % 0x1_0000 == 480 {
      WordsDetermineBytes(d, p, 0);
      WordsDetermineBytes(d, p, 4);
      assert d == d[0..4] + d[4..8];
      assert p == p[0..4] + p[4..8];
    }
  }

  /** Equal-length heads followed by one common tail: the sequences are equal
      exactly when the heads are. */
  lemma SameTail(a: seq<byte>, b: seq<byte>, t: seq<byte>)
    requires |a| == |b|
    ensures a + t == b + t <==> a == b
  {
    if a + t == b + t {
      assert a == (a + t)[..|a|] && b == (b + t)[..|b|];
    }
  }

  /** The generated record equals its search pattern exactly when the
      requested resolution is 640x480 modulo 2^16. */
  lemma Edit1IsPatternIff(width: int32, height: int32, offset: nat)
    ensures CreateHexEdit1(width, height, offset).modified == ResolutionPattern1
      <==> width as int % 0x1_0000 == 640 && height as int % 0x1_0000 == 480
  {
    var tail: seq<byte> := [0x10, 0x00, 0x00, 0x00];
    assert ResolutionPattern1 == DefaultDimensions + tail;
    SameTail(DimensionBytes(width, height), DefaultDimensions, tail);
    DimensionBytesDefaultIff(width, height);
  }

  lemma Edit2IsPatternIff(width: int32, height: int32, offset: nat)
    ensures CreateHexEdit2(width, height, offset).modified == ResolutionPattern2
      <==> width as int % 0x1_0000 == 640 && height as int % 0x1_0000 == 480
  {
    var tail: seq<byte> := [0x20, 0x03, 0x00, 0x00, 0x58, 0x02, 0x00, 0x00];
    assert ResolutionPattern2 == DefaultDimensions + tail;
    SameTail(DimensionBytes(width, height), DefaultDimensions, tail);
    DimensionBytesDefaultIff(width, height);
  }

  /** The FOV table is monotone: a larger index writes a larger float
      (for positive IEEE-754 singles the order of the bit patterns is the
      order of the values). */
  lemma FovWordsIncrease(j: int32, k: int32)
    requires 1 <= j < k <= 4
    ensures DecodeU32LE(CreateHexEditFromFOV(j).modified, 0) < DecodeU32LE(CreateHexEditFromFOV(k).modified, 0)
  {
  }
}
