/** The KiNET packet codec of network/KinetPacket.kt: two packet variants,
    each serialised to a fixed little-endian layout followed by the DMX
    payload. KiNET is a vendor protocol; the layout here is the one the
    Kotlin encoder writes. */
module KinetPacket {
  import opened Numeric
  import opened Results

  /** The magic number every KiNET packet starts with. */
  const MAGIC: i32 := 0x0401_DC4A

  /** The four bytes the magic number occupies on the wire. */
  const MagicBytes: seq<byte> := [0x4A, 0xDC, 0x01, 0x04]

  /** Header sizes: V1 writes 24 header bytes; V2 allocates 26 but writes 22,
      so its payload starts at 22 and four zero bytes trail it. */
  const V1_HEADER: nat := 24
  const V2_HEADER: nat := 22
  const V2_TRAILER: nat := 4

  /** KinetV1Packet (DMX out, type 0x0101) and KinetV2Packet (port out,
      type 0x0108). Kotlin's `type` field is called `packetType` here. The
      payload is a Kotlin ByteArray; its bytes are kept as unsigned bit
      patterns. Datatype equality is the structural `equals` both classes
      override, payload compared by content. */
  datatype Packet =
    | V1(version: i16, packetType: i16, sequence: i32, port: i8, padding: i8,
         flags: i16, timer: i32, universe: i32, data: seq<byte>)
    | V2(version: i16, packetType: i16, sequence: i32, universe: i32, port: i8,
         padding: i8, flags: i16, data: seq<byte>)
  {
    /** `toBytes()`: the datagram payload the sender transmits. */
    function ToBytes(): (r: seq<byte>)
      ensures V1? ==> |r| == V1_HEADER + |data|
      ensures V2? ==> |r| == V2_HEADER + |data| + V2_TRAILER
    {
      match this
      case V1(_, _, _, _, _, _, _, _, _) => Header() + data
      case V2(_, _, _, _, _, _, _, _) =>
        // The buffer is allocated at 26 + |data| bytes but only 22 + |data|
        // are written; the rest keeps the allocation's zeros.
        Header() + data + [0, 0, 0, 0]
    }

    /** The header fields, in the order the encoder puts them. */
    function Header(): (r: seq<byte>)
      ensures V1? ==> |r| == V1_HEADER
      ensures V2? ==> |r| == V2_HEADER
    {
      match this
      case V1(_, _, _, _, _, _, _, _, _) =>
        LE32(MAGIC) + LE16(version) + LE16(packetType) + LE32(sequence)
        + LE8(port) + LE8(padding) + LE16(flags) + LE32(timer) + LE32(universe)
      case V2(_, _, _, _, _, _, _, _) =>
        LE32(MAGIC) + LE16(version) + LE16(packetType) + LE32(sequence)
        + LE32(universe) + LE8(port) + LE8(padding) + LE16(flags)
        + LE16(Wrap16(|data|))
    }
  }

  /** Where each field of a V1 packet sits in its header. */
  lemma V1HeaderLayout(p: Packet)
    requires p.V1?
    ensures var h := p.Header();
            && h[0..4] == MagicBytes
            && h[4..6] == LE16(p.version) && h[6..8] == LE16(p.packetType)
            && h[8..12] == LE32(p.sequence)
            && h[12] == p.port % 0x100 && h[13] == p.padding % 0x100
            && h[14..16] == LE16(p.flags) && h[16..20] == LE32(p.timer)
            && h[20..24] == LE32(p.universe)
  {
    var a := LE32(MAGIC) + LE16(p.version) + LE16(p.packetType) + LE32(p.sequence);
    var b := LE8(p.port) + LE8(p.padding) + LE16(p.flags) + LE32(p.timer) + LE32(p.universe);
    assert p.Header() == a + b;
    assert a[0..4] == MagicBytes;
  }

  /** Where each field of a V1 packet sits in its encoding. */
  lemma V1Layout(p: Packet)
    requires p.V1?
    ensures var r := p.ToBytes();
            && r[0..4] == MagicBytes
            && r[4..6] == LE16(p.version) && r[6..8] == LE16(p.packetType)
            && r[8..12] == LE32(p.sequence)
            && r[12] == p.port % 0x100 && r[13] == p.padding % 0x100
            && r[14..16] == LE16(p.flags) && r[16..20] == LE32(p.timer)
            && r[20..24] == LE32(p.universe) && r[24..] == p.data
  {
    var r := p.ToBytes();
    var h := p.Header();
    V1HeaderLayout(p);
    assert r[..24] == h;
    assert forall i, j :: 0 <= i <= j <= 24 ==> r[i..j] == h[i..j];
  }

  /** Where each field of a V2 packet sits in its header. */
  lemma V2HeaderLayout(p: Packet)
    requires p.V2?
    ensures var h := p.Header();
            && h[0..4] == MagicBytes
            && h[4..6] == LE16(p.version) && h[6..8] == LE16(p.packetType)
            && h[8..12] == LE32(p.sequence)
            && h[12..16] == LE32(p.universe)
            && h[16] == p.port % 0x100 && h[17] == p.padding % 0x100
            && h[18..20] == LE16(p.flags)
            && h[20..22] == LE16(Wrap16(|p.data|))
  {
    var a := LE32(MAGIC) + LE16(p.version) + LE16(p.packetType) + LE32(p.sequence);
    var b := LE32(p.universe) + LE8(p.port) + LE8(p.padding) + LE16(p.flags) + LE16(Wrap16(|p.data|));
    assert p.Header() == a + b;
    assert a[0..4] == MagicBytes;
  }

  /** Where each field of a V2 packet sits in its encoding: the 22-byte
      header, the payload, then four bytes that are never written. */
  lemma V2Layout(p: Packet)
    requires p.V2?
    ensures var r := p.ToBytes();
            && r[0..4] == MagicBytes
            && r[4..6] == LE16(p.version) && r[6..8] == LE16(p.packetType)
            && r[8..12] == LE32(p.sequence)
            && r[12..16] == LE32(p.universe)
            && r[16] == p.port % 0x100 && r[17] == p.padding % 0x100
            && r[18..20] == LE16(p.flags)
            && U16(r[20..22]) == |p.data| % 0x10000
            && r[22..22 + |p.data|] == p.data
            && r[22 + |p.data|..] == [0, 0, 0, 0]
  {
    var r := p.ToBytes();
    var h := p.Header();
    V2HeaderLayout(p);
    LengthFieldLemma(|p.data|);
    assert r[..22] == h;
    assert forall i, j :: 0 <= i <= j <= 22 ==> r[i..j] == h[i..j];
  }

  /** `data.size.toShort()` written little-endian reads back as the payload
      length modulo 2^16. */
  lemma LengthFieldLemma(n: nat)
    ensures U16(LE16(Wrap16(n))) == n % 0x10000
  {
    var w: int := Wrap16(n);
    assert w % 0x10000 == n % 0x10000;
  }

  /** A V1 packet built with the constructor's defaults. */
  function DefaultV1(universe: i32, data: seq<byte>): Packet
  {
    V1(0x0001, 0x0101, 0, 0, 0, 0, 0, universe, data)
  }

  /** A V2 packet built with the constructor's defaults. */
  function DefaultV2(universe: i32, data: seq<byte>): Packet
  {
    V2(0x0002, 0x0108, 0, universe, 0, 0, 0, data)
  }

  /** The bytes of a default V1 packet: version 1, type 0x0101, zero
      sequence, port, padding, flags and timer, then the universe. */
  lemma DefaultV1Bytes(universe: i32, data: seq<byte>)
    ensures var b := DefaultV1(universe, data).ToBytes();
            && |b| == 24 + |data|
            && b[..8] == [0x4A, 0xDC, 0x01, 0x04, 0x01, 0x00, 0x01, 0x01]
            && (forall i :: 8 <= i < 20 ==> b[i] == 0)
            && S32(U32(b[20..24])) == universe
            && b[24..] == data
  {
    var b := DefaultV1(universe, data).ToBytes();
    V1Layout(DefaultV1(universe, data));
    assert b[..8] == b[0..4] + b[4..6] + b[6..8];
    assert forall i :: 8 <= i < 12 ==> b[i] == b[8..12][i - 8];
    assert forall i :: 14 <= i < 16 ==> b[i] == b[14..16][i - 14];
    assert forall i :: 16 <= i < 20 ==> b[i] == b[16..20][i - 16];
    LE32RoundTrip(universe);
  }

  /** The bytes of a default V2 packet: version 2, type 0x0108, zero
      sequence, the universe, zero port, padding and flags, the length. */
  lemma DefaultV2Bytes(universe: i32, data: seq<byte>)
    ensures var b := DefaultV2(universe, data).ToBytes();
            && |b| == 26 + |data|
            && b[..8] == [0x4A, 0xDC, 0x01, 0x04, 0x02, 0x00, 0x08, 0x01]
            && (forall i :: 8 <= i < 12 ==> b[i] == 0)
            && S32(U32(b[12..16])) == universe
            && (forall i :: 16 <= i < 20 ==> b[i] == 0)
            && U16(b[20..22]) == |data| % 0x10000
            && b[22..22 + |data|] == data
            && b[22 + |data|..] == [0, 0, 0, 0]
  {
    var b := DefaultV2(universe, data).ToBytes();
    V2Layout(DefaultV2(universe, data));
    assert b[..8] == b[0..4] + b[4..6] + b[6..8];
    assert forall i :: 8 <= i < 12 ==> b[i] == b[8..12][i - 8];
    assert forall i :: 18 <= i < 20 ==> b[i] == b[18..20][i - 18];
    LE32RoundTrip(universe);
  }

  /** A receiver's view of a V1 datagram: the inverse of V1 encoding.
      (The Kotlin code has no decoder; this is the reference the encoder
      is checked against.) */
  function DecodeV1(b: seq<byte>): Option<Packet>
  {
    if |b| < V1_HEADER || b[..4] != MagicBytes then None
    else Some(V1(S16(U16(b[4..6])), S16(U16(b[6..8])), S32(U32(b[8..12])),
                 S8(b[12]), S8(b[13]), S16(U16(b[14..16])), S32(U32(b[16..20])),
                 S32(U32(b[20..24])), b[24..]))
  }

  /** A receiver's view of a V2 datagram: header, a length field that must
      agree with the datagram size, the payload, and four trailing zeros. */
  function DecodeV2(b: seq<byte>): Option<Packet>
  {
    if |b| < V2_HEADER + V2_TRAILER || b[..4] != MagicBytes
       || b[|b| - 4..] != [0, 0, 0, 0]
       || U16(b[20..22]) != (|b| - 26) % 0x10000
    then None
    else Some(V2(S16(U16(b[4..6])), S16(U16(b[6..8])), S32(U32(b[8..12])),
                 S32(U32(b[12..16])), S8(b[16]), S8(b[17]), S16(U16(b[18..20])),
                 b[22..|b| - 4]))
  }

  lemma V1RoundTrip(p: Packet)
    requires p.V1?
    ensures DecodeV1(p.ToBytes()) == Some(p)
  {
    V1Layout(p);
    LE16RoundTrip(p.version);
    LE16RoundTrip(p.packetType);
    LE32RoundTrip(p.sequence);
    LE8RoundTrip(p.port);
    LE8RoundTrip(p.padding);
    LE16RoundTrip(p.flags);
    LE32RoundTrip(p.timer);
    LE32RoundTrip(p.universe);
  }

  /** A 24-byte header that agrees with a byte string on every field of
      the V1 layout is that string's first 24 bytes. */
  lemma V1SameHeader(h: seq<byte>, b: seq<byte>)
    requires |h| == V1_HEADER <= |b|
    requires h[0..4] == b[0..4] && h[4..6] == b[4..6] && h[6..8] == b[6..8] && h[8..12] == b[8..12]
    requires h[12] == b[12] && h[13] == b[13]
    requires h[14..16] == b[14..16] && h[16..20] == b[16..20] && h[20..24] == b[20..24]
    ensures h == b[..V1_HEADER]
  {
    forall k | 0 <= k < V1_HEADER ensures h[k] == b[k] {
      if k < 4 { assert h[0..4][k] == b[0..4][k]; }
      else if k < 6 { assert h[4..6][k - 4] == b[4..6][k - 4]; }
      else if k < 8 { assert h[6..8][k - 6] == b[6..8][k - 6]; }
      else if k < 12 { assert h[8..12][k - 8] == b[8..12][k - 8]; }
      else if k < 14 { }
      else if k < 16 { assert h[14..16][k - 14] == b[14..16][k - 14]; }
      else if k < 20 { assert h[16..20][k - 16] == b[16..20][k - 16]; }
      else { assert h[20..24][k - 20] == b[20..24][k - 20]; }
    }
  }

  /** A V1 packet whose fields are the ones read from `b` re-encodes to
      the first 24 bytes of `b`. */
  lemma V1HeaderOf(p: Packet, b: seq<byte>)
    requires p.V1? && |b| >= V1_HEADER && b[..4] == MagicBytes
    requires p.version == S16(U16(b[4..6])) && p.packetType == S16(U16(b[6..8]))
    requires p.sequence == S32(U32(b[8..12])) && p.port == S8(b[12]) && p.padding == S8(b[13])
    requires p.flags == S16(U16(b[14..16])) && p.timer == S32(U32(b[16..20]))
    requires p.universe == S32(U32(b[20..24]))
    ensures p.Header() == b[..V1_HEADER]
  {
    V1HeaderLayout(p);
    V1FieldsMatch(p, p.Header(), b);
  }

  /** The field-by-field step of V1HeaderOf, for any 24 bytes `h` laid
      out as p's header. */
  lemma V1FieldsMatch(p: Packet, h: seq<byte>, b: seq<byte>)
    requires p.V1? && |h| == V1_HEADER && |b| >= V1_HEADER && b[..4] == MagicBytes
    requires && h[0..4] == MagicBytes
             && h[4..6] == LE16(p.version) && h[6..8] == LE16(p.packetType)
             && h[8..12] == LE32(p.sequence)
             && h[12] == p.port % 0x100 && h[13] == p.padding % 0x100
             && h[14..16] == LE16(p.flags) && h[16..20] == LE32(p.timer)
             && h[20..24] == LE32(p.universe)
    requires p.version == S16(U16(b[4..6])) && p.packetType == S16(U16(b[6..8]))
    requires p.sequence == S32(U32(b[8..12])) && p.port == S8(b[12]) && p.padding == S8(b[13])
    requires p.flags == S16(U16(b[14..16])) && p.timer == S32(U32(b[16..20]))
    requires p.universe == S32(U32(b[20..24]))
    ensures h == b[..V1_HEADER]
  {
    assert h[0..4] == b[0..4] by { assert b[0..4] == b[..4]; }
    assert h[4..6] == b[4..6] by { U16Inverse(b[4..6]); }
    assert h[6..8] == b[6..8] by { U16Inverse(b[6..8]); }
    assert h[8..12] == b[8..12] by { U32Inverse(b[8..12]); }
    assert h[14..16] == b[14..16] by { U16Inverse(b[14..16]); }
    assert h[16..20] == b[16..20] by { U32Inverse(b[16..20]); }
    assert h[20..24] == b[20..24] by { U32Inverse(b[20..24]); }
    V1SameHeader(h, b);
  }

  lemma V1EncodeDecode(b: seq<byte>)
    requires DecodeV1(b).Some?
    ensures DecodeV1(b).value.V1? && DecodeV1(b).value.ToBytes() == b
  {
    var p := DecodeV1(b).value;
    V1HeaderOf(p, b);
    assert b == b[..V1_HEADER] + b[V1_HEADER..];
  }

  lemma V2RoundTrip(p: Packet)
    requires p.V2?
    ensures DecodeV2(p.ToBytes()) == Some(p)
  {
    V2Layout(p);
    var b := p.ToBytes();
    assert b[|b| - 4..] == b[22 + |p.data|..];
    assert b[22..|b| - 4] == b[22..22 + |p.data|];
    LE16RoundTrip(p.version);
    LE16RoundTrip(p.packetType);
    LE32RoundTrip(p.sequence);
    LE32RoundTrip(p.universe);
    LE8RoundTrip(p.port);
    LE8RoundTrip(p.padding);
    LE16RoundTrip(p.flags);
  }

  /** Two byte strings that agree on every field of the V2 header agree
      on the header. */
  lemma V2SameFields(e: seq<byte>, b: seq<byte>)
    requires |e| >= V2_HEADER && |b| >= V2_HEADER
    requires e[0..4] == b[0..4] && e[4..6] == b[4..6] && e[6..8] == b[6..8] && e[8..12] == b[8..12]
    requires e[12..16] == b[12..16] && e[16] == b[16] && e[17] == b[17]
    requires e[18..20] == b[18..20] && e[20..22] == b[20..22]
    ensures e[..V2_HEADER] == b[..V2_HEADER]
  {
    forall k | 0 <= k < V2_HEADER ensures e[k] == b[k] {
      if k < 4 { assert e[0..4][k] == b[0..4][k]; }
      else if k < 6 { assert e[4..6][k - 4] == b[4..6][k - 4]; }
      else if k < 8 { assert e[6..8][k - 6] == b[6..8][k - 6]; }
      else if k < 12 { assert e[8..12][k - 8] == b[8..12][k - 8]; }
      else if k < 16 { assert e[12..16][k - 12] == b[12..16][k - 12]; }
      else if k < 18 { }
      else if k < 20 { assert e[18..20][k - 18] == b[18..20][k - 18]; }
      else { assert e[20..22][k - 20] == b[20..22][k - 20]; }
    }
  }

  /** A V2 packet whose fields are the ones read from `b`, and whose
      payload length agrees with the length field, re-encodes its header
      to the first 22 bytes of `b`. */
  lemma V2HeaderOf(p: Packet, b: seq<byte>)
    requires p.V2? && |b| >= V2_HEADER && b[..4] == MagicBytes
    requires p.version == S16(U16(b[4..6])) && p.packetType == S16(U16(b[6..8]))
    requires p.sequence == S32(U32(b[8..12])) && p.universe == S32(U32(b[12..16]))
    requires p.port == S8(b[16]) && p.padding == S8(b[17]) && p.flags == S16(U16(b[18..20]))
    requires U16(b[20..22]) == |p.data| % 0x10000
    ensures p.Header() == b[..V2_HEADER]
  {
    var h := p.Header();
    V2HeaderLayout(p);
    assert h[0..4] == b[0..4] by { assert b[0..4] == b[..4]; }
    assert h[4..6] == b[4..6] by { U16Inverse(b[4..6]); }
    assert h[6..8] == b[6..8] by { U16Inverse(b[6..8]); }
    assert h[8..12] == b[8..12] by { U32Inverse(b[8..12]); }
    assert h[12..16] == b[12..16] by { U32Inverse(b[12..16]); }
    assert h[18..20] == b[18..20] by { U16Inverse(b[18..20]); }
    assert h[20..22] == b[20..22] by {
      LengthFieldLemma(|p.data|);
      U16Injective(h[20..22], b[20..22]);
    }
    V2SameFields(h, b);
  }

  /** The 22 header bytes of a decoded V2 datagram re-encode to themselves. */
  lemma V2HeaderReencodes(b: seq<byte>)
    requires DecodeV2(b).Some?
    ensures |DecodeV2(b).value.ToBytes()| == |b|
    ensures DecodeV2(b).value.ToBytes()[..22] == b[..22]
  {
    var p := DecodeV2(b).value;
    V2HeaderOf(p, b);
    assert p.ToBytes()[..22] == p.Header();
  }

  lemma V2EncodeDecode(b: seq<byte>)
    requires DecodeV2(b).Some?
    ensures DecodeV2(b).value.V2? && DecodeV2(b).value.ToBytes() == b
  {
    var p := DecodeV2(b).value;
    var e := p.ToBytes();
    var n := |p.data|;
    V2Layout(p);
    V2HeaderReencodes(b);
    assert n == |b| - 26;
    assert e[22..22 + n] == b[22..22 + n];
    assert e[22 + n..] == b[22 + n..];
    assert e == e[..22] + e[22..22 + n] + e[22 + n..];
    assert b == b[..22] + b[22..22 + n] + b[22 + n..];
  }

  /** Structural equality of V1 packets is equality of their encodings:
      `equals` and `toBytes` agree. */
  lemma V1EncodingInjective(p: Packet, q: Packet)
    requires p.V1? && q.V1?
    ensures p.ToBytes() == q.ToBytes() <==> p == q
  {
    if p.ToBytes() == q.ToBytes() {
      V1RoundTrip(p);
      V1RoundTrip(q);
    }
  }

  /** The same for V2 packets. */
  lemma V2EncodingInjective(p: Packet, q: Packet)
    requires p.V2? && q.V2?
    ensures p.ToBytes() == q.ToBytes() <==> p == q
  {
    if p.ToBytes() == q.ToBytes() {
      V2RoundTrip(p);
      V2RoundTrip(q);
    }
  }
}
