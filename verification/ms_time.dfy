/**
 * The SNTP client: the 48-byte client request of section 4 of RFC 2030, the decoding
 * of the 64-bit transmit timestamp (section 3 of RFC 2030: 32 bits of seconds since
 * 1900-01-01 and 32 bits of binary fraction, both big-endian) into whole milliseconds,
 * the fallbacks to the system clock, and the initialisation that stores the result.
 */
module MSTime {
  import opened Wrappers
  import opened Calendar
  import opened Anchor

  newtype byte = x: int | 0 <= x < 256

  const PacketSize: nat := 48
  const TransmitOffset: nat := 40

  /** 2^32, one second in units of the timestamp fraction. */
  const FractionScale: nat := 0x1_0000_0000

  const U64Limit: nat := 0x1_0000_0000_0000_0000
  const I64Limit: nat := 0x8000_0000_0000_0000
  const TicksPerMillisecond: nat := 10000

  function Pow256(n: nat): (r: nat)
    ensures r >= 1
  {
    if n == 0 then 1 else 256 * Pow256(n - 1)
  }

  /** The header fields of the first byte of an NTP packet. */
  function LeapIndicator(b: byte): nat { b as int / 64 }
  function VersionNumber(b: byte): nat { (b as int / 8) % 8 }
  function Mode(b: byte): nat { b as int % 8 }

  /** The client request: first byte 0x1B, the other 47 bytes zero. */
  function RequestPacket(): seq<byte> {
    [0x1B] + seq(PacketSize - 1, _ => 0)
  }

  /** The request is a version-3 client packet with no leap warning and nothing else set. */
  lemma RequestIsVersion3Client()
    ensures |RequestPacket()| == PacketSize
    ensures LeapIndicator(RequestPacket()[0]) == 0
    ensures VersionNumber(RequestPacket()[0]) == 3
    ensures Mode(RequestPacket()[0]) == 3
    ensures forall i :: 1 <= i < PacketSize ==> RequestPacket()[i] == 0
  {
  }

  /** The unsigned value of bytes read most significant first, as the accumulator loops compute it. */
  function BigEndian(s: seq<byte>): (v: nat)
    ensures v < Pow256(|s|)
  {
    if s == [] then 0
    else
      var p := BigEndian(s[..|s| - 1]);
      assert 256 * p + s[|s| - 1] as int < 256 * (p + 1) <= 256 * Pow256(|s| - 1);
      256 * p + s[|s| - 1] as int
  }

  /** The `n` low-order bytes of `v`, most significant first. */
  function ToBigEndian(v: nat, n: nat): (s: seq<byte>)
    ensures |s| == n
  {
    if n == 0 then [] else ToBigEndian(v / 256, n - 1) + [(v % 256) as byte]
  }

  lemma {:induction false} BigEndianOfBytes(v: nat, n: nat)
    requires v < Pow256(n)
    ensures BigEndian(ToBigEndian(v, n)) == v
  {
    if n > 0 {
      var s := ToBigEndian(v, n);
      assert s[..n - 1] == ToBigEndian(v / 256, n - 1);
      BigEndianOfBytes(v / 256, n - 1);
    }
  }

  lemma {:induction false} BytesOfBigEndian(s: seq<byte>)
    ensures ToBigEndian(BigEndian(s), |s|) == s
  {
    if s != [] {
      var p := BigEndian(s[..|s| - 1]);
      var b := s[|s| - 1] as int;
      assert (256 * p + b) / 256 == p && (256 * p + b) % 256 == b;
      BytesOfBigEndian(s[..|s| - 1]);
      assert s == s[..|s| - 1] + [s[|s| - 1]];
    }
  }

  /** `intpart * 1000 + (fractpart * 1000) / 0x100000000`. */
  function TimestampMillis(intpart: nat, fractpart: nat): nat {
    intpart * 1000 + (fractpart * 1000) / FractionScale
  }

  /**
   * The fraction contributes less than a second, so the whole seconds are exactly
   * `intpart`, and for 32-bit parts neither the ulong result nor the tick count
   * (`(long)milliseconds * 10000`) overflows.
   */
  lemma TimestampMillisParts(intpart: nat, fractpart: nat)
    requires intpart < FractionScale && fractpart < FractionScale
    ensures (fractpart * 1000) / FractionScale < 1000
    ensures TimestampMillis(intpart, fractpart) / 1000 == intpart
    ensures TimestampMillis(intpart, fractpart) % 1000 == (fractpart * 1000) / FractionScale
    ensures fractpart * 1000 < U64Limit && TimestampMillis(intpart, fractpart) < U64Limit
    ensures TimestampMillis(intpart, fractpart) * TicksPerMillisecond < I64Limit
  {
    var f := (fractpart * 1000) / FractionScale;
    assert f < 1000 by {
      assert fractpart * 1000 < FractionScale * 1000;
    }
    assert TimestampMillis(intpart, fractpart) < FractionScale * 1000;
  }

  /** A lexicographically later (seconds, fraction) pair never decodes to an earlier instant. */
  lemma TimestampMonotone(int1: nat, frac1: nat, int2: nat, frac2: nat)
    requires frac1 < FractionScale && frac2 < FractionScale
    requires int1 < int2 || (int1 == int2 && frac1 <= frac2)
    ensures TimestampMillis(int1, frac1) <= TimestampMillis(int2, frac2)
  {
    TimestampMillisParts(0, frac1);
    if int1 < int2 {
      assert int1 * 1000 + 1000 <= int2 * 1000;
    } else {
      DivMonotone(frac1 * 1000, frac2 * 1000, FractionScale);
    }
  }

  lemma DivMonotone(a: nat, b: nat, d: nat)
    requires a <= b && d > 0
    ensures a / d <= b / d
  {
    var qa, qb := a / d, b / d;
    assert d * qa <= a && b < d * (qb + 1);
    MulCancel(qa, qb + 1, d);
  }

  lemma MulCancel(x: int, y: int, d: nat)
    requires d > 0 && d * x < d * y
    ensures x < y
  {
  }

  /** `s.Receive(ntpData)`: the datagram overwrites the front of the buffer, the rest stays. */
  function ReceiveInto(buffer: seq<byte>, datagram: seq<byte>): (r: seq<byte>)
    requires |datagram| <= |buffer|
    ensures |r| == |buffer| && r[..|datagram|] == datagram && r[|datagram|..] == buffer[|datagram|..]
  {
    datagram + buffer[|datagram|..]
  }

  /** 1900-01-01 plus the transmit timestamp of a 48-byte packet, in whole milliseconds. */
  function TransmitTime(packet: seq<byte>): Instant
    requires |packet| == PacketSize
  {
    Epoch1900 + TimestampMillis(BigEndian(packet[40..44]), BigEndian(packet[44..48]))
  }

  /**
   * GetNetworkTime once the socket has been connected: `sent` is the buffer as handed
   * to Send, `datagram` the bytes Receive placed in it (never more than its 48).
   */
  method GetNetworkTime(datagram: seq<byte>) returns (sent: seq<byte>, t: Instant)
    requires |datagram| <= PacketSize
    ensures sent == RequestPacket()
    ensures t == TransmitTime(ReceiveInto(RequestPacket(), datagram))
    ensures Epoch1900 <= t < Epoch1900 + FractionScale * 1000
  {
    var ntpData := NewRequest();
    sent := ntpData[..];

    forall j | 0 <= j < |datagram| {
      ntpData[j] := datagram[j];
    }
    assert ntpData[..] == ReceiveInto(sent, datagram);

    var offsetTransmitTime := TransmitOffset;
    var intpart := ReadWord(ntpData, offsetTransmitTime);
    var fractpart := ReadWord(ntpData, offsetTransmitTime + 4);
    TimestampMillisParts(intpart, fractpart);
    var milliseconds := intpart * 1000 + (fractpart * 1000) / FractionScale;
    t := Epoch1900 + milliseconds;
  }

  /** The request buffer: 48 bytes, the first 0x1B and the rest zero. */
  method NewRequest() returns (ntpData: array<byte>)
    ensures fresh(ntpData)
    ensures ntpData[..] == RequestPacket()
  {
    ntpData := new byte[PacketSize];
    ntpData[0] := 0x1B;
    for i := 1 to PacketSize
      invariant ntpData[0] == 0x1B
      invariant forall j :: 1 <= j < i ==> ntpData[j] == 0
    {
      ntpData[i] := 0;
    }
  }

  /** The four-byte accumulation `x = x * 256 + data[offset + i]` over one half of the timestamp. */
  method ReadWord(data: array<byte>, offset: nat) returns (x: nat)
    requires offset + 4 <= data.Length
    ensures x == BigEndian(data[offset..offset + 4])
    ensures x < FractionScale
  {
    x := 0;
    for i := 0 to 4
      invariant x == BigEndian(data[offset..offset + i])
    {
      assert data[offset..offset + i + 1][..i] == data[offset..offset + i];
      x := 256 * x + data[offset + i] as int;
    }
  }

  /** Decoding reads back the timestamp a server wrote at bytes 40 to 47. */
  lemma DecodeEncodedTimestamp(packet: seq<byte>, seconds: nat, fraction: nat)
    requires |packet| == PacketSize && seconds < FractionScale && fraction < FractionScale
    requires packet[40..44] == ToBigEndian(seconds, 4) && packet[44..48] == ToBigEndian(fraction, 4)
    ensures TransmitTime(packet) == Epoch1900 + TimestampMillis(seconds, fraction)
  {
    BigEndianOfBytes(seconds, 4);
    BigEndianOfBytes(fraction, 4);
  }

  /** An all-zero transmit timestamp decodes to 1900-01-01T00:00:00 exactly. */
  lemma ZeroTimestampIsEpoch(packet: seq<byte>)
    requires |packet| == PacketSize
    requires forall i :: TransmitOffset <= i < PacketSize ==> packet[i] == 0
    ensures TransmitTime(packet) == Epoch1900
  {
    assert ToBigEndian(0, 4) == [0, 0, 0, 0];
    assert packet[40..44] == [0, 0, 0, 0] && packet[44..48] == [0, 0, 0, 0];
    DecodeEncodedTimestamp(packet, 0, 0);
  }

  /**
   * A reply shorter than 41 bytes leaves the zero bytes of the request in place at
   * 40 to 47, so it decodes to 1900-01-01 rather than failing.
   */
  lemma ShortReplyDecodesToEpoch(datagram: seq<byte>)
    requires |datagram| <= TransmitOffset
    ensures TransmitTime(ReceiveInto(RequestPacket(), datagram)) == Epoch1900
  {
    var packet := ReceiveInto(RequestPacket(), datagram);
    forall i | TransmitOffset <= i < PacketSize ensures packet[i] == 0 {
      assert packet[i] == RequestPacket()[i];
    }
    ZeroTimestampIsEpoch(packet);
  }

  /** 3786825600 seconds with no fraction is 2020-01-01T00:00:00. */
  lemma Timestamp2020(packet: seq<byte>)
    requires |packet| == PacketSize
    requires packet[40..44] == ToBigEndian(3786825600, 4) && packet[44..48] == ToBigEndian(0, 4)
    ensures TransmitTime(packet) == YearStart(2020)
  {
    DecodeEncodedTimestamp(packet, 3786825600, 0);
    assert DaysBeforeYear(2020) == 737424;
    EpochValues();
  }

  /**
   * _GetMSTime for one host name. `resolution` is the address list DNS returns, or
   * None when the lookup throws (outside the try, so the exception escapes and the
   * result is None). `reply` is the datagram received, or None when a socket call
   * throws.
   */
  method GetMSTime(resolution: Option<seq<string>>, reply: Option<seq<byte>>, utcNow: Instant)
    returns (r: Option<Instant>)
    requires reply.Some? ==> |reply.value| <= PacketSize
    ensures resolution.None? <==> r.None?
    ensures resolution.Some? && (|resolution.value| == 0 || reply.None?) ==> r == Some(utcNow)
    ensures resolution.Some? && |resolution.value| > 0 && reply.Some? ==>
      r == Some(TransmitTime(ReceiveInto(RequestPacket(), reply.value)))
  {
    if resolution.None? {
      return None;
    }
    var address := resolution.value;
    if |address| == 0 {
      return Some(utcNow);
    }
    if reply.Some? {
      var sent, t := GetNetworkTime(reply.value);
      return Some(t);
    }
    // Every other failure falls back to the local UTC time.
    return Some(utcNow);
  }

  /**
   * _AsyncInit of the SNTP client, run as one step. When the lookup throws, the
   * exception ends it after the flag was cleared, so reads stay on the system clock.
   */
  method AsyncInit(anchor: SyncAnchor, resolution: Option<seq<string>>, reply: Option<seq<byte>>,
                   utcNow: Instant, localReading: nat)
    requires reply.Some? ==> |reply.value| <= PacketSize
    modifies anchor
    ensures anchor.inited <==> resolution.Some?
    ensures resolution.None? ==>
      anchor.networkUtcStamp == old(anchor.networkUtcStamp) && anchor.syncLocalGameTime == old(anchor.syncLocalGameTime)
    ensures resolution.Some? ==> anchor.syncLocalGameTime == localReading
    ensures resolution.Some? && (|resolution.value| == 0 || reply.None?) ==> anchor.networkUtcStamp == StampOf(utcNow)
    ensures resolution.Some? && |resolution.value| > 0 && reply.Some? ==>
      anchor.networkUtcStamp == StampOf(TransmitTime(ReceiveInto(RequestPacket(), reply.value)))
  {
    anchor.BeginInit();
    var serverUtcTime := GetMSTime(resolution, reply, utcNow);
    if serverUtcTime.None? {
      return;
    }
    anchor.CompleteInit(StampOf(serverUtcTime.value), localReading);
  }
}
