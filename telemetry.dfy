// The inverter's answer to the status request, and how the driver picks it
// out of the byte stream it reads from the port (parseModbusRTU and the body
// of the parser loop).

module Telemetry {
  import opened Crc16
  import opened Commands

  /** Slave 1, function 4 (read), 3 data bytes, register 1: the head of
      every answer to the status request. */
  const Header: seq<Byte> := [0x01, 0x04, 0x03, 0x01]

  /** Length of an answer: header, two frequency bytes, two checksum bytes. */
  const ResponseLength := 8

  /** parseModbusRTU's test, with the checksum computed afresh: exactly eight
      bytes, the expected header, and bytes 6 and 7 equal to the trailer of
      the signature of bytes 0 to 5. */
  predicate Accepts(msg: seq<Byte>) {
    && |msg| == ResponseLength
    && msg[0] == 0x01 && msg[1] == 0x04 && msg[2] == 0x03 && msg[3] == 0x01
    && var signTest := Crc16.Sign(msg[..6]);
       signTest[6] == msg[6] && signTest[7] == msg[7]
  }

  /** binary.BigEndian.Uint16 of bytes 4 and 5. */
  function ReadFrequency(msg: seq<Byte>): Word
    requires |msg| == ResponseLength
  {
    ((msg[4] as Word) << 8) | (msg[5] as Word)
  }

  /** The answer an inverter running at frequency `f` sends. */
  function Response(f: Word): seq<Byte> {
    Crc16.Sign(Header + BigEndian(f))
  }

  /** Every answer is accepted, and the frequency read back is the one sent. */
  lemma ResponseAccepted(f: Word)
    ensures Accepts(Response(f))
    ensures ReadFrequency(Response(f)) == f
  {
    var p := Header + BigEndian(f);
    var r := Response(f);
    assert r[..6] == p;
    assert r[4] == BigEndian(f)[0] && r[5] == BigEndian(f)[1];
  }

  /** Splitting a word joined from two bytes gives the bytes back. */
  lemma JoinSplit(hi: Byte, lo: Byte)
    ensures BigEndian(((hi as Word) << 8) | (lo as Word)) == [hi, lo]
  {
  }

  /** The two bytes of a frequency read from a message are bytes 4 and 5. */
  lemma BigEndianOfRead(msg: seq<Byte>)
    requires |msg| == ResponseLength
    ensures BigEndian(ReadFrequency(msg)) == msg[4..6]
  {
    JoinSplit(msg[4], msg[5]);
  }

  /** A message is accepted exactly when it is the answer for the frequency
      it carries: nothing but a well-formed answer passes. */
  lemma AcceptsIffResponse(msg: seq<Byte>)
    ensures Accepts(msg) <==> |msg| == ResponseLength && msg == Response(ReadFrequency(msg))
  {
    if |msg| == ResponseLength {
      BigEndianOfRead(msg);
      var p := msg[..6];
      assert Header + BigEndian(ReadFrequency(msg)) == p <==>
        msg[0] == 0x01 && msg[1] == 0x04 && msg[2] == 0x03 && msg[3] == 0x01
      by {
        assert p == msg[..4] + msg[4..6];
      }
      assert msg == p + msg[6..];
    }
  }

  /** Acceptance is the Modbus check on the whole frame plus the header. */
  lemma AcceptsIffVerify(msg: seq<Byte>)
    ensures Accepts(msg) <==> |msg| == ResponseLength && msg[..4] == Header && Crc16.Verify(msg)
  {
    if |msg| == ResponseLength {
      assert msg[..4] == Header <==>
        msg[0] == 0x01 && msg[1] == 0x04 && msg[2] == 0x03 && msg[3] == 0x01;
      assert msg[|msg| - 2..] == [msg[6], msg[7]];
    }
  }

  /** Changing one checksum byte of an accepted message makes it rejected. */
  lemma CorruptTrailerRejected(msg: seq<Byte>, i: int, b: Byte)
    requires Accepts(msg) && 6 <= i < 8 && b != msg[i]
    ensures !Accepts(msg[i := b])
  {
    assert msg[i := b][..6] == msg[..6];
  }

  // ---------------------------------------------------------------------
  // The checksum test as the code runs it

  /** signMessage on a slice of `buf` of length `n`, when the slice has room
      for two more bytes: the checksum is appended in place, into buf[n] and
      buf[n + 1], and the returned slice is the first n + 2 bytes of the same
      array. */
  method SignInPlace(buf: array<Byte>, n: nat) returns (len: nat)
    requires n + 2 <= buf.Length
    modifies buf
    ensures len == n + 2
    ensures buf[..len] == Crc16.Sign(old(buf[..n]))
    ensures buf[len..] == old(buf[len..])
  {
    var crc := CrcBytes(buf[..n]);
    ghost var payload := buf[..n];
    buf[n] := crc[0];
    buf[n + 1] := crc[1];
    len := n + 2;
    assert buf[..len] == payload + crc;
  }

  /** parseModbusRTU's test as written: `signTest` is a slice of the very
      array that holds `msg`, so the comparison reads the bytes the signing
      has just written, and any trailer passes. */
  method AcceptsAsWritten(msg: array<Byte>) returns (accepted: bool)
    modifies msg
    ensures accepted <==> msg.Length == ResponseLength && old(msg[..4]) == Header
  {
    accepted := false;
    if msg.Length == ResponseLength {
      if msg[0] == 0x01 && msg[1] == 0x04 && msg[2] == 0x03 && msg[3] == 0x01 {
        var signTest := msg;
        var _ := SignInPlace(signTest, 6);
        if signTest[6] == msg[6] && signTest[7] == msg[7] {
          accepted := true;
        }
      }
      assert old(msg[..4]) == Header <==>
        old(msg[0]) == 0x01 && old(msg[1]) == 0x04 && old(msg[2]) == 0x03 && old(msg[3]) == 0x01;
    }
  }

  /** A status answer with a zero trailer: the code as written accepts it,
      the fresh checksum test does not (its trailer must be A1 8E). */
  method ZeroTrailerAccepted() returns (frame: seq<Byte>, accepted: bool)
    ensures frame == [0x01, 0x04, 0x03, 0x01, 0x00, 0x00, 0x00, 0x00]
    ensures accepted && !Accepts(frame)
  {
    var msg := new Byte[8] [0x01, 0x04, 0x03, 0x01, 0x00, 0x00, 0x00, 0x00];
    frame := msg[..];
    assert frame[..4] == Header;
    accepted := AcceptsAsWritten(msg);
    QueryVector();
    assert frame[..6] == [0x01, 0x04, 0x03, 0x01, 0x00, 0x00];
  }

  // ---------------------------------------------------------------------
  // Reassembly of the byte stream

  /** The silence, in milliseconds, after which the buffer starts afresh. */
  const Gap := 50

  /** The buffer after one read: cleared when more than Gap ms passed since
      the previous read, then extended by the bytes read unless the read
      failed or returned nothing. */
  function Gather(buffer: seq<Byte>, lastRead: int, now: int, read: seq<Byte>, failed: bool): (r: seq<Byte>)
    ensures |read| > 0 && !failed ==> |r| >= |read| && r[|r| - |read|..] == read
    ensures now - lastRead <= Gap ==> buffer <= r
    ensures now - lastRead > Gap ==> |r| <= |read|
    ensures now - lastRead > Gap ==> r == (if |read| > 0 && !failed then read else [])
    ensures now - lastRead <= Gap ==> r == buffer + (if |read| > 0 && !failed then read else [])
  {
    var kept := if now - lastRead > Gap then [] else buffer;
    if |read| > 0 && !failed then kept + read else kept
  }

  /** Whether a read leads to an accepted answer: the test only runs after
      bytes were appended. */
  predicate Delivers(buffer: seq<Byte>, lastRead: int, now: int, read: seq<Byte>, failed: bool) {
    |read| > 0 && !failed && Accepts(Gather(buffer, lastRead, now, read, failed))
  }

  /** Once the buffer holds more than an answer's length, reads that follow
      without a pause never deliver: only a gap can revive the parser. */
  lemma OverlongStaysDead(buffer: seq<Byte>, lastRead: int, now: int, read: seq<Byte>, failed: bool)
    requires |buffer| > ResponseLength && now - lastRead <= Gap
    ensures |Gather(buffer, lastRead, now, read, failed)| > ResponseLength
    ensures !Delivers(buffer, lastRead, now, read, failed)
  {
  }

  /** An answer split across two reads, the first after a pause and the
      second within Gap ms, is delivered by the second read whatever the
      buffer held before. */
  lemma SplitAnswerDelivered(f: Word, k: nat, buffer: seq<Byte>, t0: int, t1: int, t2: int)
    requires 0 < k < ResponseLength
    requires t1 - t0 > Gap && t2 - t1 <= Gap
    ensures Response(f)[..k] + Response(f)[k..] == Response(f)
    ensures Delivers(Gather(buffer, t0, t1, Response(f)[..k], false), t1, t2, Response(f)[k..], false)
    ensures Gather(Gather(buffer, t0, t1, Response(f)[..k], false), t1, t2, Response(f)[k..], false) == Response(f)
  {
    ResponseAccepted(f);
    var r := Response(f);
    assert r[..k] + r[k..] == r;
    var first := Gather(buffer, t0, t1, r[..k], false);
    assert first == r[..k];
    assert Gather(first, t1, t2, r[k..], false) == r;
  }
}
