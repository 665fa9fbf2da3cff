/**
 * The decoder for the meter's 8-byte response frame.
 *
 * Bytes 0 and 1 hold the sound level in tenths of a decibel, big-endian.
 * Byte 2 is a bit field: bits 7-6 the measurement speed, bit 4 the weighting
 * curve, bits 2-0 the range code. Bytes 3-7 and bits 5 and 3 are not read.
 */
module Frame {
  import opened Common

  /** Length of an inbound frame (PACKET_INT_IN_LEN). */
  const FRAME_LENGTH: nat := 8

  /**
   * One decoded response, as the bit fields of the frame: `curve` is the raw
   * selector bit, which `Weight` maps to a character.
   */
  datatype Reading = Reading(level: bv16, speed: bv8, curve: bv8, range: bv8)

  /** The range every decoder output lies in. */
  predicate WellFormed(r: Reading)
  {
    r.speed < 4 && r.curve < 2 && r.range < 8
  }

  /** The weighting character handed to the aggregation: 'A' for curve 0, 'Z' otherwise. */
  function Weight(curve: bv8): (c: char)
    ensures c == 'A' <==> curve == 0
    ensures c == 'A' || c == 'Z'
  {
    if curve == 0 then 'A' else 'Z'
  }

  /** `(((uint16_t)answer[0]) << 8) | answer[1]` */
  function LevelBits(hi: Byte, lo: Byte): bv16
  {
    ((hi as bv16) << 8) | (lo as bv16)
  }

  /** Decodes a received frame; anything but exactly 8 bytes is rejected. */
  function Decode(frame: seq<Byte>): (r: Option<Reading>)
    ensures r.Some? <==> |frame| == FRAME_LENGTH
    ensures r.Some? ==> WellFormed(r.value)
  {
    if |frame| != FRAME_LENGTH then None
    else
      var status := frame[2];
      Some(Reading(LevelBits(frame[0], frame[1]), status >> 6, (status >> 4) & 1, status & 7))
  }

  /** The shift-and-or of the level is the big-endian value of the two bytes. */
  lemma LevelIsBigEndian(hi: Byte, lo: Byte)
    ensures LevelBits(hi, lo) as int == (hi as int) * 256 + (lo as int)
  {
    var h, l := hi as bv16, lo as bv16;
    ShiftOrIsSum(h, l);
    WideSum(h, l);
    Widen(hi);
    Widen(lo);
  }

  lemma Widen(b: Byte)
    ensures (b as bv16) as int == b as int
  {
  }

  lemma ShiftOrIsSum(h: bv16, l: bv16)
    requires h < 256 && l < 256
    ensures (h << 8) | l == h * 256 + l
  {
  }

  lemma WideSum(h: bv16, l: bv16)
    requires h < 256 && l < 256
    ensures (h * 256 + l) as int == (h as int) * 256 + l as int
  {
  }

  /** The shifts and masks on the status byte, stated with integer division. */
  lemma StatusFields(b: Byte)
    ensures (b >> 6) as int == (b as int) / 64
    ensures ((b >> 4) & 1) as int == ((b as int) / 16) % 2
    ensures (b & 7) as int == (b as int) % 8
  {
  }

  /** The decoder, written with arithmetic on the byte values instead of bit operations. */
  lemma {:induction false} DecodeArithmetic(frame: seq<Byte>)
    requires |frame| == FRAME_LENGTH
    ensures Decode(frame).Some?
    ensures Decode(frame).value.level as int == (frame[0] as int) * 256 + (frame[1] as int)
    ensures Decode(frame).value.speed as int == (frame[2] as int) / 64
    ensures Decode(frame).value.curve as int == ((frame[2] as int) / 16) % 2
    ensures Decode(frame).value.range as int == (frame[2] as int) % 8
    ensures Weight(Decode(frame).value.curve) == 'A' <==> (frame[2] & 0x10) == 0
  {
    LevelIsBigEndian(frame[0], frame[1]);
    StatusFields(frame[2]);
  }

  /** 0x05DC is 1500 tenths (150.0 dB); status 0x10 is slow, curve 1 (weighting 'Z'), range 0. */
  lemma DecodeExample()
    ensures Decode([0x05, 0xDC, 0x10, 0, 0, 0, 0, 0]) == Some(Reading(1500, 0, 1, 0))
    ensures Weight(1) == 'Z'
    ensures Decode([0x05, 0xDC, 0x10, 0, 0, 0, 0]) == None
  {
  }

  /**
   * A frame that carries a given reading (an independent reference for the
   * layout); the bytes and bits the decoder does not read are zero.
   */
  function Encode(r: Reading): (frame: seq<Byte>)
    ensures |frame| == FRAME_LENGTH
  {
    [(r.level >> 8) as bv8, (r.level & 0xFF) as bv8, (r.speed << 6) | (r.curve << 4) | r.range, 0, 0, 0, 0, 0]
  }

  /** Decoding an encoded reading gives the reading back: the layout loses nothing. */
  lemma {:induction false} DecodeEncode(r: Reading)
    requires WellFormed(r)
    ensures Decode(Encode(r)) == Some(r)
  {
    var frame := Encode(r);
    assert LevelBits(frame[0], frame[1]) == r.level;
    var status := frame[2];
    assert status >> 6 == r.speed;
    assert (status >> 4) & 1 == r.curve;
    assert status & 7 == r.range;
  }

  /** Only bytes 0-2, and of byte 2 only bits 7, 6, 4 and 2-0, reach the reading. */
  lemma {:induction false} DecodeIgnoresUnusedBits(f: seq<Byte>, g: seq<Byte>)
    requires |f| == FRAME_LENGTH && |g| == FRAME_LENGTH
    requires f[0] == g[0] && f[1] == g[1] && (f[2] & 0xD7) == (g[2] & 0xD7)
    ensures Decode(f) == Decode(g)
  {
    assert f[2] >> 6 == g[2] >> 6 by {
      assert f[2] >> 6 == (f[2] & 0xD7) >> 6;
      assert g[2] >> 6 == (g[2] & 0xD7) >> 6;
    }
    assert (f[2] >> 4) & 1 == (g[2] >> 4) & 1 by {
      assert (f[2] >> 4) & 1 == ((f[2] & 0xD7) >> 4) & 1;
      assert (g[2] >> 4) & 1 == ((g[2] & 0xD7) >> 4) & 1;
    }
    assert f[2] & 7 == g[2] & 7 by {
      assert f[2] & 7 == (f[2] & 0xD7) & 7;
      assert g[2] & 7 == (g[2] & 0xD7) & 7;
    }
  }
}
