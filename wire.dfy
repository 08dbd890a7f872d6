/** Byte-level layout of the HLK-LD2450 serial protocol: the fixed frame
    delimiters, the decoding of one 8-byte target record of a target-update
    frame, and the layout of an outbound configuration frame. */
module Wire {

  /** One octet of the serial stream. */
  type byte = x: int | 0 <= x < 0x100

  datatype Option<T> = None | Some(value: T)

  const UpdateHeader: seq<byte> := [0xAA, 0xFF, 0x03, 0x00]
  const ConfigHeader: seq<byte> := [0xFD, 0xFC, 0xFB, 0xFA]
  const UpdateTrailer: seq<byte> := [0x55, 0xCC]
  const ConfigTrailer: seq<byte> := [0x04, 0x03, 0x02, 0x01]

  /** The little-endian word `hi << 8 | lo` (the two bytes never overlap). */
  function Word(lo: byte, hi: byte): (w: int)
    ensures 0 <= w < 0x1_0000
    ensures w % 0x100 == lo && w / 0x100 == hi
  {
    hi * 0x100 + lo
  }

  /** Narrowing of an `int` to `int16_t`: the value congruent modulo 2^16
      that lies in the signed 16-bit range. */
  function Int16(v: int): (r: int)
    ensures -0x8000 <= r < 0x8000
    ensures (v - r) % 0x1_0000 == 0
    ensures -0x8000 <= v < 0x8000 ==> r == v
  {
    var m := v % 0x1_0000;
    if m < 0x8000 then m else m - 0x1_0000
  }

  /** Bit 7 of a byte (`b & 0x80`), the sign flag of a sign-magnitude high byte. */
  predicate SignBit(b: byte) {
    b >= 0x80
  }

  /** The x coordinate of a record, computed as the driver does in an `int16_t`
      (the word, and `-x + 0x8000` on it when the sign bit is set). Whatever
      the wrapping, the result is sign-magnitude: minus the low 15 bits when
      the sign bit is set, the word itself otherwise. */
  function DecodeX(lo: byte, hi: byte): (x: int)
    ensures -0x7FFF <= x <= 0x7FFF
    ensures SignBit(hi) ==> x == -(Word(lo, hi) - 0x8000)
    ensures !SignBit(hi) ==> x == Word(lo, hi)
  {
    var x := Int16(Word(lo, hi));
    if SignBit(hi) then Int16(-x + 0x8000) else x
  }

  /** The y coordinate, computed in an `int16_t`: the word, shifted down by
      0x8000 unless it is zero. A zero word is the "no data" sentinel. */
  function DecodeY(lo: byte, hi: byte): (y: int)
    ensures -0x7FFF <= y <= 0x7FFF
    ensures Word(lo, hi) == 0 ==> y == 0
    ensures Word(lo, hi) != 0 ==> y == Word(lo, hi) - 0x8000
  {
    var y := Int16(Word(lo, hi));
    if y != 0 then Int16(y - 0x8000) else y
  }

  /** The speed, computed in a plain `int` (no narrowing); it nevertheless
      agrees with the `int16_t` computation of x on every input. */
  function DecodeSpeed(lo: byte, hi: byte): (s: int)
    ensures s == DecodeX(lo, hi)
  {
    var s := Word(lo, hi);
    if SignBit(hi) then -s + 0x8000 else s
  }

  /** The four values of one target record. */
  datatype Reading = Reading(x: int, y: int, speed: int, resolution: int)

  /** The values a decoded record can take. */
  predicate InRange(r: Reading) {
    -0x7FFF <= r.x <= 0x7FFF && -0x7FFF <= r.y <= 0x7FFF &&
    -0x7FFF <= r.speed <= 0x7FFF && 0 <= r.resolution < 0x1_0000
  }

  /** The record at `msg[offset..offset + 8]`: x, y, speed and the distance
      resolution (the plain word), each a little-endian pair. */
  function DecodeRecord(msg: seq<byte>, offset: nat): (r: Reading)
    requires offset + 8 <= |msg|
    ensures InRange(r)
    ensures r.resolution == Word(msg[offset + 6], msg[offset + 7])
  {
    Reading(DecodeX(msg[offset], msg[offset + 1]),
            DecodeY(msg[offset + 2], msg[offset + 3]),
            DecodeSpeed(msg[offset + 4], msg[offset + 5]),
            Word(msg[offset + 6], msg[offset + 7]))
  }

  /** The three records of a 24-byte target-update payload. */
  function DecodePayload(p: seq<byte>): (rs: seq<Reading>)
    requires |p| >= 24
    ensures |rs| == 3
    ensures forall i :: 0 <= i < 3 ==> rs[i] == DecodeRecord(p, 8 * i)
  {
    [DecodeRecord(p, 0), DecodeRecord(p, 8), DecodeRecord(p, 16)]
  }

  // ---- Encoding, the partner of the decoding above ----

  /** A word as its little-endian byte pair. */
  function EncodeWord(w: int): (b: seq<byte>)
    requires 0 <= w < 0x1_0000
    ensures |b| == 2 && Word(b[0], b[1]) == w
  {
    [w % 0x100, w / 0x100]
  }

  /** Sign-magnitude: the magnitude, with bit 15 set for a negative value. */
  function EncodeSignMagnitude(v: int): (b: seq<byte>)
    requires -0x7FFF <= v <= 0x7FFF
    ensures |b| == 2
  {
    EncodeWord(if v < 0 then 0x8000 - v else v)
  }

  /** The y encoding: zero stays zero, anything else is offset by 0x8000. */
  function EncodeOffset(v: int): (b: seq<byte>)
    requires -0x7FFF <= v <= 0x7FFF
    ensures |b| == 2
  {
    EncodeWord(if v == 0 then 0 else v + 0x8000)
  }

  function EncodeRecord(r: Reading): (b: seq<byte>)
    requires InRange(r)
    ensures |b| == 8
  {
    EncodeSignMagnitude(r.x) + EncodeOffset(r.y) + EncodeSignMagnitude(r.speed) + EncodeWord(r.resolution)
  }

  function EncodePayload(rs: seq<Reading>): (p: seq<byte>)
    requires |rs| == 3 && InRange(rs[0]) && InRange(rs[1]) && InRange(rs[2])
    ensures |p| == 24
  {
    EncodeRecord(rs[0]) + EncodeRecord(rs[1]) + EncodeRecord(rs[2])
  }

  /** Encoding then decoding a record gives back its values. */
  lemma RecordRoundTrip(r: Reading)
    requires InRange(r)
    ensures DecodeRecord(EncodeRecord(r), 0) == r
  {
    var b := EncodeRecord(r);
    assert b[0..2] == EncodeSignMagnitude(r.x);
    assert b[2..4] == EncodeOffset(r.y);
    assert b[4..6] == EncodeSignMagnitude(r.speed);
    assert b[6..8] == EncodeWord(r.resolution);
  }

  /** The two words that decode alike: 0x0000 and 0x8000, both zero (for y,
      0x8000 is the offset zero and 0x0000 the sentinel). */
  predicate NegativeZero(lo: byte, hi: byte) {
    Word(lo, hi) == 0x8000
  }

  /** A payload none of whose x, y or speed words is 0x8000. */
  predicate Canonical(p: seq<byte>)
    requires |p| >= 24
  {
    forall i, k :: 0 <= i < 3 && 0 <= k < 3 ==> !NegativeZero(p[8 * i + 2 * k], p[8 * i + 2 * k + 1])
  }

  /** Decoding then encoding a record gives back its bytes, unless one of its
      signed words is the second spelling 0x8000 of zero. */
  lemma RecordBytesRoundTrip(p: seq<byte>, offset: nat)
    requires offset + 8 <= |p|
    requires !NegativeZero(p[offset], p[offset + 1])
    requires !NegativeZero(p[offset + 2], p[offset + 3])
    requires !NegativeZero(p[offset + 4], p[offset + 5])
    ensures EncodeRecord(DecodeRecord(p, offset)) == p[offset..offset + 8]
  {
    var r := DecodeRecord(p, offset);
    var b := EncodeRecord(r);
    assert b[0..2] == p[offset..offset + 2] by { PairFromWord(b[0..2], p[offset], p[offset + 1]); }
    assert b[2..4] == p[offset + 2..offset + 4] by { PairFromWord(b[2..4], p[offset + 2], p[offset + 3]); }
    assert b[4..6] == p[offset + 4..offset + 6] by { PairFromWord(b[4..6], p[offset + 4], p[offset + 5]); }
    assert b[6..8] == p[offset + 6..offset + 8] by { PairFromWord(b[6..8], p[offset + 6], p[offset + 7]); }
    assert b == b[0..2] + b[2..4] + b[4..6] + b[6..8];
    assert p[offset..offset + 8] == p[offset..offset + 2] + p[offset + 2..offset + 4] + p[offset + 4..offset + 6] + p[offset + 6..offset + 8];
  }

  /** A byte pair is determined by its word. */
  lemma PairFromWord(b: seq<byte>, lo: byte, hi: byte)
    requires |b| == 2 && Word(b[0], b[1]) == Word(lo, hi)
    ensures b == [lo, hi]
  {
  }

  /** Decoding a canonical 24-byte payload and encoding the three records
      reproduces the payload. */
  lemma PayloadRoundTrip(p: seq<byte>)
    requires |p| == 24 && Canonical(p)
    ensures EncodePayload(DecodePayload(p)) == p
  {
    forall i | 0 <= i < 3
      ensures EncodeRecord(DecodeRecord(p, 8 * i)) == p[8 * i..8 * i + 8]
    {
      assert !NegativeZero(p[8 * i + 2 * 0], p[8 * i + 2 * 0 + 1]);
      assert !NegativeZero(p[8 * i + 2 * 1], p[8 * i + 2 * 1 + 1]);
      assert !NegativeZero(p[8 * i + 2 * 2], p[8 * i + 2 * 2 + 1]);
      RecordBytesRoundTrip(p, 8 * i);
    }
    assert EncodeRecord(DecodeRecord(p, 8 * 0)) == p[0..8];
    assert EncodeRecord(DecodeRecord(p, 8 * 1)) == p[8..16];
    assert EncodeRecord(DecodeRecord(p, 8 * 2)) == p[16..24];
    assert p == p[0..8] + p[8..16] + p[16..24];
  }

  // ---- Outbound configuration frame ----

  /** The high length byte as `write_command` writes it:
      `static_cast<uint8_t>(len << 8)`, which is always zero. */
  function LengthHighAsWritten(len: nat): (b: byte)
    ensures b == 0
  {
    (len * 0x100) % 0x100
  }

  /** The bytes `write_command(msg, len)` appends to the serial line: the
      config header, the length as two bytes (the high one as written, so
      zero), the command and the config trailer. */
  function CommandFrame(msg: seq<byte>): (f: seq<byte>)
    ensures |f| == |msg| + 10
    ensures f[..4] == ConfigHeader
    ensures f[4] == |msg| % 0x100 && f[5] == 0
    ensures f[6..|msg| + 6] == msg
    ensures f[|msg| + 6..] == ConfigTrailer
  {
    ConfigHeader + [|msg| % 0x100, LengthHighAsWritten(|msg|)] + msg + ConfigTrailer
  }
}
