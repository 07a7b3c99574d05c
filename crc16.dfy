/** CRC-16/MODBUS as described in sections 2.5.1.2 and 6.2.2 of the
    "MODBUS over Serial Line Specification and Implementation Guide V1.02":
    register preset to 0xFFFF, each byte XORed into the low half, eight
    right shifts per byte with the reflected polynomial 0xA001 XORed in
    whenever a 1 is shifted out, and the result appended low byte first.
    The driver signs every outgoing frame with it (signMessage). */
module Crc16 {

  /** Go's byte and uint16. */
  type Byte = bv8
  type Word = bv16

  const Preset: Word := 0xFFFF
  const Poly: Word := 0xA001

  /** One shift of the register: shift right, XOR the polynomial in when
      the bit shifted out was 1. */
  function Shift(c: Word): Word {
    if c & 1 == 1 then (c >> 1) ^ Poly else c >> 1
  }

  /** The eight shifts of one byte step. */
  function Shift8(x: Word): Word {
    Shift(Shift(Shift(Shift(Shift(Shift(Shift(Shift(x))))))))
  }

  /** Processing one byte: XOR it into the low byte, then shift eight times. */
  function UpdateByte(c: Word, b: Byte): Word {
    Shift8(c ^ (b as Word))
  }

  /** The register after feeding `data` to a register holding `c`. */
  function Feed(c: Word, data: seq<Byte>): Word
    decreases |data|
  {
    if data == [] then c else Feed(UpdateByte(c, data[0]), data[1..])
  }

  /** The CRC-16/MODBUS checksum of `data`. */
  function Crc(data: seq<Byte>): Word {
    Feed(Preset, data)
  }

  /** The two checksum bytes as they travel on the wire: low byte first. */
  function CrcBytes(data: seq<Byte>): (r: seq<Byte>)
    ensures |r| == 2 && ((r[1] as Word) << 8) | (r[0] as Word) == Crc(data)
  {
    [(Crc(data) & 0xFF) as Byte, (Crc(data) >> 8) as Byte]
  }

  /** signMessage: the payload followed by its checksum. */
  function Sign(payload: seq<Byte>): (frame: seq<Byte>)
    ensures |frame| == |payload| + 2
    ensures frame[..|payload|] == payload
    ensures ((frame[|payload| + 1] as Word) << 8) | (frame[|payload|] as Word) == Crc(payload)
  {
    payload + CrcBytes(payload)
  }

  /** The check the receiver makes: the trailing two bytes equal the
      checksum of everything before them. */
  predicate Verify(frame: seq<Byte>) {
    |frame| >= 2 && frame[|frame| - 2..] == CrcBytes(frame[..|frame| - 2])
  }

  /** A frame verifies exactly when it is the signature of its own payload;
      in particular every signed frame verifies. */
  lemma VerifyIffSigned(frame: seq<Byte>)
    ensures Verify(frame) <==> |frame| >= 2 && frame == Sign(frame[..|frame| - 2])
  {
    if |frame| >= 2 {
      var p := frame[..|frame| - 2];
      assert frame == p + frame[|frame| - 2..];
      if frame == Sign(p) {
        assert frame[|frame| - 2..] == CrcBytes(p);
      }
    }
  }

  lemma SignVerifies(payload: seq<Byte>)
    ensures Verify(Sign(payload))
  {
    VerifyIffSigned(Sign(payload));
    assert Sign(payload)[..|payload|] == payload;
  }

  /** Test vector of the driver's unit test: the stop payload 01 03 01 08
      signs to trailing bytes F1 8E. */
  lemma StopVector()
    ensures Sign([0x01, 0x03, 0x01, 0x08]) == [0x01, 0x03, 0x01, 0x08, 0xF1, 0x8E]
  {
    var c1 := UpdateByte(Preset, 0x01);
    var c2 := UpdateByte(c1, 0x03);
    var c3 := UpdateByte(c2, 0x01);
    var c4 := UpdateByte(c3, 0x08);
    assert c4 == 0x8EF1;
    FeedAppend(Preset, [0x01], [0x03, 0x01, 0x08]);
    FeedAppend(c1, [0x03], [0x01, 0x08]);
    FeedAppend(c2, [0x01], [0x08]);
  }

  /** The query frame documented in parseModbusRTU: 01 04 03 01 00 00 signs
      to trailing bytes A1 8E. */
  lemma QueryVector()
    ensures Sign([0x01, 0x04, 0x03, 0x01, 0x00, 0x00])
         == [0x01, 0x04, 0x03, 0x01, 0x00, 0x00, 0xA1, 0x8E]
  {
    var c1 := UpdateByte(Preset, 0x01);
    var c2 := UpdateByte(c1, 0x04);
    var c3 := UpdateByte(c2, 0x03);
    var c4 := UpdateByte(c3, 0x01);
    var c5 := UpdateByte(c4, 0x00);
    var c6 := UpdateByte(c5, 0x00);
    assert c6 == 0x8EA1;
    FeedAppend(Preset, [0x01], [0x04, 0x03, 0x01, 0x00, 0x00]);
    FeedAppend(c1, [0x04], [0x03, 0x01, 0x00, 0x00]);
    FeedAppend(c2, [0x03], [0x01, 0x00, 0x00]);
    FeedAppend(c3, [0x01], [0x00, 0x00]);
    FeedAppend(c4, [0x00], [0x00]);
  }

  /** Feeding a concatenation is feeding its parts in turn. */
  lemma {:induction false} FeedAppend(c: Word, a: seq<Byte>, b: seq<Byte>)
    decreases |a|
    ensures Feed(c, a + b) == Feed(Feed(c, a), b)
  {
    if a != [] {
      assert (a + b)[1..] == a[1..] + b;
      FeedAppend(UpdateByte(c, a[0]), a[1..], b);
    } else {
      assert a + b == b;
    }
  }

  /** Feeding a register its own value, low byte first, clears it ... */
  lemma ResidueZero(c: Word)
    ensures UpdateByte(UpdateByte(c, (c & 0xFF) as Byte), (c >> 8) as Byte) == 0
  {
  }

  /** ... and no other two bytes clear it. */
  lemma ResidueUnique(c: Word, lo: Byte, hi: Byte)
    ensures UpdateByte(UpdateByte(c, lo), hi) == 0 <==> lo == (c & 0xFF) as Byte && hi == (c >> 8) as Byte
  {
    if lo == (c & 0xFF) as Byte && hi == (c >> 8) as Byte {
      ResidueZero(c);
    }
  }

  /** The register after a payload and a two-byte trailer. */
  lemma CrcWithTrailer(p: seq<Byte>, lo: Byte, hi: Byte)
    ensures Crc(p + [lo, hi]) == UpdateByte(UpdateByte(Crc(p), lo), hi)
  {
    FeedAppend(Preset, p, [lo, hi]);
    var c := Crc(p);
    assert [lo, hi][1..] == [hi] && [hi][1..] == [];
    assert Feed(c, [lo, hi]) == Feed(UpdateByte(c, lo), [hi]);
    assert Feed(UpdateByte(c, lo), [hi]) == Feed(UpdateByte(UpdateByte(c, lo), hi), []);
  }

  /** The receiver's check on a frame split into payload and trailer. */
  lemma VerifySplit(p: seq<Byte>, lo: Byte, hi: Byte)
    ensures Verify(p + [lo, hi]) <==> lo == (Crc(p) & 0xFF) as Byte && hi == (Crc(p) >> 8) as Byte
  {
    var f := p + [lo, hi];
    assert f[..|f| - 2] == p && f[|f| - 2..] == [lo, hi];
  }

  /** The receiver's check is the same as asking that the checksum of the
      whole frame, trailer included, be zero (the MODBUS residue property). */
  lemma VerifyIffZeroResidue(p: seq<Byte>, lo: Byte, hi: Byte)
    ensures Verify(p + [lo, hi]) <==> Crc(p + [lo, hi]) == 0
  {
    VerifySplit(p, lo, hi);
    CrcWithTrailer(p, lo, hi);
    ResidueUnique(Crc(p), lo, hi);
  }
}
