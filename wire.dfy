/**
  The wire vocabulary of the thermometer's vendor protocol: bytes and the C
  conversions onto them, the setup packets the driver sends, what one control
  transfer hands back, and the packed reply records (usbtemp.c lines 19-51).
  Multi-byte fields of the packed records are read in the host's order; the
  model takes the host to be little-endian.
 */
module Wire {

  newtype byte = x: int | 0 <= x < 256

  type u32 = x: int | 0 <= x < 0x1_0000_0000

  /** C's conversion of an `int` to `uint8_t`: reduction modulo 256, so `(uint8_t)-1` is 255. */
  function U8(x: int): (b: byte)
    ensures 0 <= x < 256 ==> b as int == x
  {
    (x % 256) as byte
  }

  /** The value every `usb_message_*` returns when it has nothing better: `(uint8_t)-1`. */
  const NO_VALUE: byte := U8(-1)

  // ---------------------------------------------------------------------------
  // Setup packets (section 9.3 of the USB 2.0 specification)

  /** The fields of a control request the driver chooses; `length` is wLength, the
      number of bytes the driver asks for and allocates. */
  datatype Setup = Setup(requestType: byte, request: byte, value: nat, index: nat, length: nat, timeoutMs: nat)

  /** bmRequestType 0xC0: device-to-host, vendor request, device recipient. */
  const VENDOR_IN: byte := 0xC0

  /** Bit 7 of bmRequestType: 1 for device-to-host. */
  function Direction(requestType: byte): nat { requestType as int / 128 }

  /** Bits 6..5 of bmRequestType: 0 standard, 1 class, 2 vendor. */
  function RequestKind(requestType: byte): nat { (requestType as int / 32) % 4 }

  /** Bits 4..0 of bmRequestType: 0 for the device itself. */
  function Recipient(requestType: byte): nat { requestType as int % 32 }

  const SHORT_STATUS_SIZE: nat := 8
  const PROBE_STATUS_SIZE: nat := 16
  const RESCAN_REPLY_SIZE: nat := 1

  /** The rescan-status answer that means "rescan complete". */
  const RESCAN_DONE: byte := 23

  /** Request 1: short status, one `short_status` record (usb_message_short). */
  const ShortQuery: Setup := Setup(VENDOR_IN, 1, 0, 0, SHORT_STATUS_SIZE, 1000)

  /** Request 2, value 0: start a rescan (usb_message_rescan). */
  const RescanTrigger: Setup := Setup(VENDOR_IN, 2, 0, 0, RESCAN_REPLY_SIZE, 1000)

  /** Request 2, value 1: is the rescan done? Short 10 ms timeout (usb_message_rescan_status). */
  const RescanStatusQuery: Setup := Setup(VENDOR_IN, 2, 1, 0, RESCAN_REPLY_SIZE, 10)

  /** Request 4: reset; the buffer is `sizeof(struct short_status)` (usb_message_reset). */
  const ResetCommand: Setup := Setup(VENDOR_IN, 4, 0, 0, SHORT_STATUS_SIZE, 1000)

  /** Request 3: long status, one `probe_status` record per possible probe (usb_message_long). */
  function LongQuery(possible: byte): (s: Setup)
    ensures s.length < 0x1_0000   // wLength is a __u16 and never wraps
  {
    Setup(VENDOR_IN, 3, 0, 0, PROBE_STATUS_SIZE * possible as int, 1000)
  }

  /** Every request the driver sends is a vendor request read from the device itself. */
  lemma QueriesAreVendorIn(s: Setup)
    requires s in {ShortQuery, RescanTrigger, RescanStatusQuery, ResetCommand} || exists n: byte :: s == LongQuery(n)
    ensures Direction(s.requestType) == 1 && RequestKind(s.requestType) == 2 && Recipient(s.requestType) == 0
  {
  }

  // ---------------------------------------------------------------------------
  // What one control transfer hands back

  /** A negative status of usb_control_msg. */
  type ErrStatus = x: int | x < 0 witness -1

  /** The outcome of one usb_control_msg as the driver sees it: a negative status, or
      the receive buffer afterwards. A successful transfer yields a buffer of exactly
      the requested length: the device's bytes, and where the device sent fewer,
      whatever the freshly allocated buffer held. */
  datatype Transfer = Failed(status: ErrStatus) | Received(buffer: seq<byte>)

  /** What any transfer for `s` can deliver. */
  predicate Delivered(s: Setup, t: Transfer) {
    t.Received? ==> |t.buffer| == s.length
  }

  /** One request sent and the transfer it produced. */
  datatype Exchange = Exchange(setup: Setup, reply: Transfer)

  // ---------------------------------------------------------------------------
  // Little-endian 32-bit fields

  function Le32(b: seq<byte>): u32
    requires |b| == 4
  {
    b[0] as int + 256 * (b[1] as int + 256 * (b[2] as int + 256 * b[3] as int))
  }

  function Le32Bytes(x: u32): (b: seq<byte>)
    ensures |b| == 4
  {
    var q1 := x / 256;
    var q2 := q1 / 256;
    var q3 := q2 / 256;
    [U8(x), U8(q1), U8(q2), U8(q3)]
  }

  lemma Le32RoundTrip(x: u32)
    ensures Le32(Le32Bytes(x)) == x
  {
    var q1 := x / 256;
    var q2 := q1 / 256;
    var q3 := q2 / 256;
    assert x == x % 256 + 256 * q1;
    assert q1 == q1 % 256 + 256 * q2;
    assert q2 == q2 % 256 + 256 * q3;
    assert q3 < 256;
  }

  lemma Le32BytesRoundTrip(b: seq<byte>)
    requires |b| == 4
    ensures Le32Bytes(Le32(b)) == b
  {
    var x := Le32(b);
    var r2 := b[2] as int + 256 * b[3] as int;
    var r1 := b[1] as int + 256 * r2;
    assert x == b[0] as int + 256 * r1;
    assert x / 256 == r1 && x % 256 == b[0] as int;
    assert r1 / 256 == r2 && r1 % 256 == b[1] as int;
    assert r2 / 256 == b[3] as int && r2 % 256 == b[2] as int;
  }

  // ---------------------------------------------------------------------------
  // struct short_status (usbtemp.c lines 40-46), 8 packed bytes

  datatype ShortStatus = ShortStatus(versionHigh: byte, versionLow: byte, timestamp: u32,
                                     supportedProbes: byte, padding: byte)

  function EncodeShortStatus(s: ShortStatus): (b: seq<byte>)
    ensures |b| == SHORT_STATUS_SIZE
  {
    [s.versionHigh, s.versionLow] + Le32Bytes(s.timestamp) + [s.supportedProbes, s.padding]
  }

  function DecodeShortStatus(b: seq<byte>): (s: ShortStatus)
    requires |b| == SHORT_STATUS_SIZE
    ensures s.supportedProbes == b[6]
  {
    ShortStatus(b[0], b[1], Le32(b[2..6]), b[6], b[7])
  }

  /** Decoding an encoded record gives it back; `supported_probes` travels at offset 6. */
  lemma ShortStatusRoundTrip(s: ShortStatus)
    ensures DecodeShortStatus(EncodeShortStatus(s)) == s
    ensures EncodeShortStatus(s)[6] == s.supportedProbes
  {
    var b := EncodeShortStatus(s);
    assert b[2..6] == Le32Bytes(s.timestamp);
    Le32RoundTrip(s.timestamp);
  }

  /** Every 8-byte buffer is the encoding of the record decoded from it. */
  lemma ShortStatusBytesRoundTrip(b: seq<byte>)
    requires |b| == SHORT_STATUS_SIZE
    ensures EncodeShortStatus(DecodeShortStatus(b)) == b
  {
    Le32BytesRoundTrip(b[2..6]);
    assert b == [b[0], b[1]] + b[2..6] + [b[6], b[7]];
  }

  // ---------------------------------------------------------------------------
  // struct probe_status (usbtemp.c lines 30-37), 16 packed bytes

  type Serial = s: seq<byte> | |s| == 6 witness [0, 0, 0, 0, 0, 0]
  type Pad2 = s: seq<byte> | |s| == 2 witness [0, 0]

  datatype ProbeStatus = ProbeStatus(serial: Serial, kind: byte, flags: byte,
                                     tempLow: byte, tempHigh: byte, timestamp: u32, padding: Pad2)

  /** The flags value of a populated slot. */
  const POPULATED: byte := 0x01

  function EncodeProbeStatus(p: ProbeStatus): (b: seq<byte>)
    ensures |b| == PROBE_STATUS_SIZE
  {
    p.serial + [p.kind, p.flags, p.tempLow, p.tempHigh] + Le32Bytes(p.timestamp) + p.padding
  }

  function DecodeProbeStatus(b: seq<byte>): (p: ProbeStatus)
    requires |b| == PROBE_STATUS_SIZE
    ensures p.flags == b[7] && p.tempLow == b[8] && p.tempHigh == b[9]
  {
    ProbeStatus(b[..6], b[6], b[7], b[8], b[9], Le32(b[10..14]), b[14..])
  }

  /** Decoding an encoded record gives it back; flags travel at offset 7 and the
      temperature bytes at offsets 8 and 9. */
  lemma ProbeStatusRoundTrip(p: ProbeStatus)
    ensures DecodeProbeStatus(EncodeProbeStatus(p)) == p
    ensures var b := EncodeProbeStatus(p); b[7] == p.flags && b[8] == p.tempLow && b[9] == p.tempHigh
  {
    var b := EncodeProbeStatus(p);
    assert b[..6] == p.serial;
    assert b[10..14] == Le32Bytes(p.timestamp);
    assert b[14..] == p.padding;
    Le32RoundTrip(p.timestamp);
  }

  /** Every 16-byte buffer is the encoding of the record decoded from it. */
  lemma ProbeStatusBytesRoundTrip(b: seq<byte>)
    requires |b| == PROBE_STATUS_SIZE
    ensures EncodeProbeStatus(DecodeProbeStatus(b)) == b
  {
    Le32BytesRoundTrip(b[10..14]);
    assert b == b[..6] + [b[6], b[7], b[8], b[9]] + b[10..14] + b[14..];
  }

  /** Record `i` of a long-status buffer, `data[i]` in the driver. */
  function Record(buf: seq<byte>, i: nat): (p: ProbeStatus)
    requires PROBE_STATUS_SIZE * (i + 1) <= |buf|
    ensures var base := PROBE_STATUS_SIZE * i;
            p.flags == buf[base + 7] && p.tempLow == buf[base + 8] && p.tempHigh == buf[base + 9]
  {
    DecodeProbeStatus(buf[PROBE_STATUS_SIZE * i .. PROBE_STATUS_SIZE * (i + 1)])
  }
}
