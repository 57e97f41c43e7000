/** The IPv4 side of the simulator: building a UDP packet with a patterned
    payload, and splitting it into fragments no larger than a link's MTU, as
    in section 3.2 of RFC 791 (the Fragment Offset field counts 8-octet units
    and More-Fragments is bit 13 of the flags/offset word). */
module Ipv4 {

  const IPV4_HEADER_SIZE: int := 20
  const MAX_IPV4_PACKET_SIZE: int := 65535
  const MAX_PAYLOAD_SIZE: int := MAX_IPV4_PACKET_SIZE - IPV4_HEADER_SIZE

  /** The identifier the first packet gets. */
  const FIRST_PACKET_ID: uint16 := 1000

  /** The only value the header checksum routine ever produces. */
  const CHECKSUM_STUB: uint16 := 0xABCD

  /** The flags/offset word: three flag bits above a 13-bit offset. The
      word is kept as a number; OffsetField, FlagBits and the lemmas
      FlagFieldBits and SetMoreFragments relate the arithmetic used here to
      the masks and shifts of the bit-level encoding. */
  const DONT_FRAGMENT: uint16 := 0x4000
  const MORE_FRAGMENTS: uint16 := 0x2000
  const OFFSET_LIMIT: int := 0x2000

  newtype uint8 = x: int | 0 <= x < 0x100
  newtype uint16 = x: int | 0 <= x < 0x1_0000
  newtype uint32 = x: int | 0 <= x < 0x1_0000_0000

  datatype Header = Header(
    versionIhl: uint8,
    tos: uint8,
    totalLen: uint16,
    identifier: uint16,
    flagsFragOffset: uint16,
    ttl: uint8,
    protocol: uint8,
    checksum: uint16,
    sourceIp: uint32,
    destIp: uint32)

  /** A packet; its payload size is the length of the payload. */
  datatype Packet = Packet(header: Header, payload: seq<uint8>)

  /** A fragment and the route it is given later (none yet: an empty path of
      length 0). */
  datatype Fragment = Fragment(header: Header, data: seq<uint8>, path: seq<int>, pathLength: int)

  /** The header checksum routine is a stub that ignores the header. */
  function CalculateChecksum(header: Header): (checksum: uint16)
    ensures checksum == CHECKSUM_STUB
  {
    CHECKSUM_STUB
  }

  /** A packet as the packet builder makes it: the total length counts the
      header and the payload, and the payload fits in one IPv4 datagram. */
  predicate ValidPacket(p: Packet)
  {
    |p.payload| <= MAX_PAYLOAD_SIZE && p.header.totalLen as int == IPV4_HEADER_SIZE + |p.payload|
  }

  // ---------------------------------------------------------------------
  // Building a packet.

  /** A requested payload size that is not positive or too large for one
      datagram is replaced by the largest size (not by 1). */
  function ClampPayloadSize(requested: int): (size: int)
    ensures 1 <= size <= MAX_PAYLOAD_SIZE
    ensures 1 <= requested <= MAX_PAYLOAD_SIZE ==> size == requested
    ensures !(1 <= requested <= MAX_PAYLOAD_SIZE) ==> size == MAX_PAYLOAD_SIZE
  {
    if requested <= 0 || requested > MAX_PAYLOAD_SIZE then MAX_PAYLOAD_SIZE else requested
  }

  /** An int stored into a 32-bit unsigned address field keeps its value
      modulo 2^32. */
  function ToUint32(x: int): (r: uint32)
    ensures 0 <= x < 0x1_0000_0000 ==> r as int == x
    ensures r as int % 0x1_0000_0000 == x % 0x1_0000_0000
  {
    (x % 0x1_0000_0000) as uint32
  }

  /** The header of a fresh packet before its checksum is filled in: version 4
      with a five-word header, DF set, TTL 64, protocol 17 (UDP). */
  function FreshHeader(id: uint16, source: int, destination: int, size: int): Header
    requires 1 <= size <= MAX_PAYLOAD_SIZE
  {
    Header(0x45, 0, (size + IPV4_HEADER_SIZE) as uint16, id, DONT_FRAGMENT, 64, 17, 0,
           ToUint32(source), ToUint32(destination))
  }

  /** The payload pattern: byte i holds i mod 256. */
  method FillPayload(size: int) returns (payload: seq<uint8>)
    requires 0 <= size
    ensures |payload| == size
    ensures forall i :: 0 <= i < size ==> payload[i] as int == i % 256
  {
    var buffer := new uint8[size];
    for i := 0 to size
      invariant forall k :: 0 <= k < i ==> buffer[k] as int == k % 256
    {
      buffer[i] := (i % 256) as uint8;
    }
    payload := buffer[..];
  }

  /** The packet builder, holding the identifier counter shared by every
      packet it makes. */
  class PacketBuilder {
    var packetId: uint16

    constructor ()
      ensures packetId == FIRST_PACKET_ID
    {
      packetId := FIRST_PACKET_ID;
    }

    /** Makes a packet from source to destination. The identifier is the
        counter's value, which then moves on by one (wrapping at 2^16). */
    method CreatePacket(source: int, destination: int, payloadSize: int) returns (packet: Packet)
      modifies this
      ensures packetId as int == (old(packetId) as int + 1) % 0x1_0000
      ensures var size := ClampPayloadSize(payloadSize);
        var h := FreshHeader(old(packetId), source, destination, size);
        packet.header == h.(checksum := CalculateChecksum(h))
      ensures |packet.payload| == ClampPayloadSize(payloadSize)
      ensures forall i :: 0 <= i < |packet.payload| ==> packet.payload[i] as int == i % 256
      ensures ValidPacket(packet)
    {
      var size := ClampPayloadSize(payloadSize);
      var header := FreshHeader(packetId, source, destination, size);
      packetId := ((packetId as int + 1) % 0x1_0000) as uint16;
      var payload := FillPayload(size);
      header := header.(checksum := CalculateChecksum(header));
      packet := Packet(header, payload);
    }
  }

  /** What the builder promises of every packet: the fixed header fields, a
      total length of payload plus 20, and the byte pattern. */
  lemma CreatedPacketShape(id: uint16, source: int, destination: int, requested: int, packet: Packet)
    requires var size := ClampPayloadSize(requested);
      var h := FreshHeader(id, source, destination, size);
      packet.header == h.(checksum := CalculateChecksum(h)) && |packet.payload| == size
    ensures packet.header.versionIhl == 0x45 && packet.header.tos == 0 && packet.header.ttl == 64
    ensures packet.header.protocol == 17 && packet.header.flagsFragOffset == DONT_FRAGMENT
    ensures packet.header.identifier == id && packet.header.checksum == CHECKSUM_STUB
    ensures packet.header.totalLen as int == ClampPayloadSize(requested) + IPV4_HEADER_SIZE
    ensures 0 <= source < 0x1_0000_0000 ==> packet.header.sourceIp as int == source
    ensures 0 <= destination < 0x1_0000_0000 ==> packet.header.destIp as int == destination
    ensures ValidPacket(packet)
  {
  }

  // ---------------------------------------------------------------------
  // Fragmentation, as a specification.

  /** Bytes of data per fragment: what the MTU leaves after the header,
      rounded down to a multiple of 8 (the two's-complement "& ~7"). */
  function MaxPerFragment(mtu: int): (max: int)
    ensures max % 8 == 0 && max <= mtu - IPV4_HEADER_SIZE < max + 8
  {
    (mtu - IPV4_HEADER_SIZE) - (mtu - IPV4_HEADER_SIZE) % 8
  }

  /** Number of fragments: the payload size divided by max, rounded up. */
  function FragmentCount(size: int, max: int): int
    requires max > 0 && size >= 0
  {
    (size + max - 1) / max
  }

  /** What the fragmenter needs: a well-formed packet, and an MTU that leaves
      room for at least 8 bytes of data whenever the packet must be split. */
  predicate CanFragment(p: Packet, mtu: int)
  {
    ValidPacket(p) && (p.header.totalLen as int <= mtu || mtu >= IPV4_HEADER_SIZE + 8)
  }

  /** The offset field of fragment i: (offset / 8) with More-Fragments set on
      every fragment but the last; the original flags (DF) are dropped. */
  function FlagsAndOffset(offset: int, last: bool): uint16
    requires 0 <= offset < OFFSET_LIMIT * 8
  {
    (if last then 0 else MORE_FRAGMENTS) + (offset / 8) as uint16
  }

  /** Fragment i of a packet that has to be split: max bytes from offset
      i * max, or what remains for the last one, under a copy of the packet's
      header with its own length, flags/offset word and checksum. */
  function FragmentAt(p: Packet, max: int, count: int, i: int): Fragment
    requires ValidPacket(p) && max >= 8 && count == FragmentCount(|p.payload|, max)
    requires 0 <= i < count
  {
    CeilBounds(|p.payload|, max);
    MulMonotone(i, count - 1, max);
    var offset := i * max;
    var size := if |p.payload| - offset < max then |p.payload| - offset else max;
    var h := p.header.(totalLen := (IPV4_HEADER_SIZE + size) as uint16,
                       flagsFragOffset := FlagsAndOffset(offset, i == count - 1));
    Fragment(h.(checksum := CalculateChecksum(h.(checksum := 0))), p.payload[offset..offset + size], [], 0)
  }

  /** The fragments of a packet for a given MTU: the packet whole when it
      fits, otherwise FragmentCount pieces. */
  function Fragmentation(p: Packet, mtu: int): seq<Fragment>
    requires CanFragment(p, mtu)
  {
    if p.header.totalLen as int <= mtu then
      [Fragment(p.header, p.payload, [], 0)]
    else
      var max := MaxPerFragment(mtu);
      var count := FragmentCount(|p.payload|, max);
      seq(count, i requires 0 <= i < count => FragmentAt(p, max, count, i))
  }

  /** A split packet's fragment i is FragmentAt's piece i. */
  lemma SplitPiece(p: Packet, mtu: int, i: int)
    requires CanFragment(p, mtu) && p.header.totalLen as int > mtu
    requires 0 <= i < FragmentCount(|p.payload|, MaxPerFragment(mtu))
    ensures |Fragmentation(p, mtu)| == FragmentCount(|p.payload|, MaxPerFragment(mtu))
    ensures Fragmentation(p, mtu)[i] == FragmentAt(p, MaxPerFragment(mtu), |Fragmentation(p, mtu)|, i)
  {
  }

  /** The data of the fragments, concatenated in order. */
  function ConcatData(fs: seq<Fragment>): seq<uint8>
  {
    if fs == [] then [] else ConcatData(fs[..|fs| - 1]) + fs[|fs| - 1].data
  }

  /** The offset field decoded: the 13 low bits, in 8-octet units. */
  function OffsetField(w: uint16): int
  {
    w as int % OFFSET_LIMIT
  }

  /** The three flag bits, shifted down. */
  function FlagBits(w: uint16): int
  {
    w as int / OFFSET_LIMIT
  }

  /** Whether the More-Fragments bit (the lowest flag bit) is set. */
  predicate MoreFragmentsSet(w: uint16)
  {
    FlagBits(w) % 2 == 1
  }

  /** Whether the Don't-Fragment bit (the middle flag bit) is set. */
  predicate DontFragmentSet(w: uint16)
  {
    FlagBits(w) / 2 % 2 == 1
  }

  // ---------------------------------------------------------------------
  // Arithmetic facts.

  /** count = ceil(size / max): count - 1 whole pieces fall short of size
      and count pieces cover it. */
  lemma CeilBounds(size: int, max: int)
    requires size >= 0 && max > 0
    ensures var count := FragmentCount(size, max);
      count >= 0 && (count - 1) * max < size <= count * max && (size > 0 ==> count >= 1)
  {
    var count := FragmentCount(size, max);
    var r := (size + max - 1) % max;
    assert size + max - 1 == count * max + r;
    assert (count - 1) * max == count * max - max;
    if count < 0 {
      assert count * max <= -max by {
        MulMonotone(count, -1, max);
      }
    }
  }

  lemma MulMonotone(a: int, b: int, m: int)
    requires a <= b && m >= 0
    ensures a * m <= b * m
  {
    assert b * m - a * m == (b - a) * m;
  }

  lemma MulEight(i: int, max: int)
    requires i >= 0 && max % 8 == 0
    ensures (i * max) % 8 == 0 && (i * max) / 8 * 8 == i * max
  {
    var k := max / 8;
    assert max == 8 * k;
    assert i * max == 8 * (i * k);
  }

  /** The masks and shifts that read the flags/offset word are the
      arithmetic OffsetField, FlagBits, MoreFragmentsSet and DontFragmentSet
      use: "& 0x1FFF" is the remainder by 2^13, "(& 0xE000) >> 13" the
      quotient, "& 0x2000" and "& 0x4000" its two low bits. */
  lemma FlagFieldBits(w: bv16)
    ensures w & 0x1FFF == w % 0x2000
    ensures (w & 0xE000) >> 13 == w / 0x2000
    ensures (w & 0x2000 != 0) <==> (w / 0x2000) % 2 == 1
    ensures (w & 0x4000 != 0) <==> (w / 0x2000) / 2 % 2 == 1
  {
  }

  /** Or-ing More-Fragments into an offset below 2^13 adds 0x2000, as
      FlagsAndOffset does. */
  lemma SetMoreFragments(x: bv16)
    requires x < 0x2000
    ensures 0x2000 | x == 0x2000 + x
  {
  }

  /** Decoding what FlagsAndOffset encodes: the offset in 8-octet units and
      the More-Fragments bit come back out, and no other flag is set. */
  lemma DecodeFlagsAndOffset(units: int, last: bool)
    requires 0 <= units < OFFSET_LIMIT
    ensures var w := FlagsAndOffset(units * 8, last);
      && OffsetField(w) == units
      && FlagBits(w) == (if last then 0 else 1)
      && (MoreFragmentsSet(w) <==> !last)
      && !DontFragmentSet(w)
  {
    assert (units * 8) / 8 == units;
  }

  // ---------------------------------------------------------------------
  // What fragmentation promises.

  /** A packet that fits the MTU is sent as one fragment: the original header
      (DF included), the whole payload, and no route yet. */
  lemma FitsInOneFragment(p: Packet, mtu: int)
    requires CanFragment(p, mtu) && p.header.totalLen as int <= mtu
    ensures Fragmentation(p, mtu) == [Fragment(p.header, p.payload, [], 0)]
    ensures |Fragmentation(p, mtu)| == 1
  {
  }

  /** A packet that does not fit is split into ceil(size / max) fragments of
      max bytes each, max a positive multiple of 8, except the last, which
      carries the rest: between 1 and max bytes. */
  lemma {:induction false} FragmentSizes(p: Packet, mtu: int)
    requires CanFragment(p, mtu) && p.header.totalLen as int > mtu
    ensures var fs := Fragmentation(p, mtu);
      var max := MaxPerFragment(mtu);
      && max >= 8 && max % 8 == 0
      && |fs| == FragmentCount(|p.payload|, max) >= 1
      && (|fs| - 1) * max < |p.payload| <= |fs| * max
      && (forall i :: 0 <= i < |fs| - 1 ==> |fs[i].data| == max)
      && 0 < |fs[|fs| - 1].data| <= max
  {
    var fs := Fragmentation(p, mtu);
    var max := MaxPerFragment(mtu);
    CeilBounds(|p.payload|, max);
    forall i | 0 <= i < |fs| - 1
      ensures |fs[i].data| == max
    {
      MulMonotone(i + 1, |fs| - 1, max);
      assert (i + 1) * max == i * max + max;
    }
    var last := |fs| - 1;
    assert last * max < |p.payload|;
  }

  function Min(a: int, b: int): int
  {
    if a < b then a else b
  }

  /** Fragment i of a split packet holds the payload bytes from i * max up to
      (i + 1) * max or the end of the payload, whichever comes first. */
  lemma FragmentStart(p: Packet, mtu: int, i: int)
    requires CanFragment(p, mtu) && p.header.totalLen as int > mtu
    requires 0 <= i < |Fragmentation(p, mtu)|
    ensures var fs := Fragmentation(p, mtu);
      var max := MaxPerFragment(mtu);
      i * max < |p.payload| &&
      fs[i].data == p.payload[i * max..Min(i * max + max, |p.payload|)]
  {
    var fs := Fragmentation(p, mtu);
    var max := MaxPerFragment(mtu);
    CeilBounds(|p.payload|, max);
    MulMonotone(i, |fs| - 1, max);
    assert fs[i] == FragmentAt(p, max, |fs|, i);
  }

  /** The first k fragments carry exactly the first k * max payload bytes,
      or the whole payload once k * max passes its end. */
  lemma {:induction false} PrefixData(p: Packet, mtu: int, k: int)
    requires CanFragment(p, mtu) && p.header.totalLen as int > mtu
    requires 0 <= k <= |Fragmentation(p, mtu)|
    ensures var fs := Fragmentation(p, mtu);
      var end := Min(k * MaxPerFragment(mtu), |p.payload|);
      0 <= end && ConcatData(fs[..k]) == p.payload[..end]
  {
    var fs := Fragmentation(p, mtu);
    var max := MaxPerFragment(mtu);
    hide Fragmentation;
    if k == 0 {
      assert fs[..0] == [];
    } else {
      PrefixData(p, mtu, k - 1);
      FragmentStart(p, mtu, k - 1);
      assert fs[..k][..k - 1] == fs[..k - 1];
      var start := (k - 1) * max;
      var end := k * max;
      assert end == start + max;
      assert ConcatData(fs[..k]) == p.payload[..start] + p.payload[start..Min(end, |p.payload|)];
    }
  }

  /** Reassembly: the fragments' data, concatenated in order, is the payload,
      so their sizes add up to the payload size. */
  lemma Reassembly(p: Packet, mtu: int)
    requires CanFragment(p, mtu)
    ensures ConcatData(Fragmentation(p, mtu)) == p.payload
    ensures |ConcatData(Fragmentation(p, mtu))| == |p.payload|
  {
    var fs := Fragmentation(p, mtu);
    if p.header.totalLen as int <= mtu {
      assert fs[..0] == [];
    } else {
      PrefixData(p, mtu, |fs|);
      FragmentSizes(p, mtu);
      assert fs[..|fs|] == fs;
    }
  }

  /** What every fragment of p keeps: a total length of 20 plus its data,
      within the MTU; the identifier, TTL, protocol, version, type of service
      and addresses of the packet; no route yet. */
  ghost predicate KeepsHeader(p: Packet, mtu: int, f: Fragment)
  {
    && f.header.totalLen as int == IPV4_HEADER_SIZE + |f.data| <= mtu
    && f.header.identifier == p.header.identifier && f.header.ttl == p.header.ttl
    && f.header.protocol == p.header.protocol && f.header.versionIhl == p.header.versionIhl
    && f.header.tos == p.header.tos
    && f.header.sourceIp == p.header.sourceIp && f.header.destIp == p.header.destIp
    && f.path == [] && f.pathLength == 0
  }

  /** Fragment i of a split packet keeps the header fields and carries the
      stub checksum. */
  lemma FragmentHeaderAt(p: Packet, mtu: int, i: int)
    requires CanFragment(p, mtu) && p.header.totalLen as int > mtu
    requires 0 <= i < |Fragmentation(p, mtu)|
    ensures KeepsHeader(p, mtu, Fragmentation(p, mtu)[i])
    ensures Fragmentation(p, mtu)[i].header.checksum == CHECKSUM_STUB
  {
    var fs := Fragmentation(p, mtu);
    var max := MaxPerFragment(mtu);
    CeilBounds(|p.payload|, max);
    MulMonotone(i, |fs| - 1, max);
    assert fs[i] == FragmentAt(p, max, |fs|, i);
  }

  /** Every fragment keeps the packet's header fields as KeepsHeader says;
      fragments of a split packet carry the stub checksum. */
  lemma FragmentHeaders(p: Packet, mtu: int)
    requires CanFragment(p, mtu)
    ensures forall i :: 0 <= i < |Fragmentation(p, mtu)| ==> KeepsHeader(p, mtu, Fragmentation(p, mtu)[i])
    ensures p.header.totalLen as int > mtu ==>
      forall i :: 0 <= i < |Fragmentation(p, mtu)| ==> Fragmentation(p, mtu)[i].header.checksum == CHECKSUM_STUB
  {
    if p.header.totalLen as int > mtu {
      forall i | 0 <= i < |Fragmentation(p, mtu)|
        ensures KeepsHeader(p, mtu, Fragmentation(p, mtu)[i])
        ensures Fragmentation(p, mtu)[i].header.checksum == CHECKSUM_STUB
      {
        FragmentHeaderAt(p, mtu, i);
      }
    }
  }

  /** The flags/offset word of fragment i of a split packet: its offset field
      is the number of payload bytes before it divided by 8, More-Fragments is
      set exactly on the fragments before the last, and the last has no flag
      bit at all, so the packet's DF bit is dropped. */
  lemma FragmentOffsets(p: Packet, mtu: int, i: int)
    requires CanFragment(p, mtu) && p.header.totalLen as int > mtu
    requires 0 <= i < |Fragmentation(p, mtu)|
    ensures var fs := Fragmentation(p, mtu);
      && OffsetField(fs[i].header.flagsFragOffset) * 8 == |ConcatData(fs[..i])|
      && |ConcatData(fs[..i])| % 8 == 0 && |ConcatData(fs[..i])| / 8 < OFFSET_LIMIT
      && (MoreFragmentsSet(fs[i].header.flagsFragOffset) <==> i < |fs| - 1)
      && !DontFragmentSet(fs[i].header.flagsFragOffset)
      && (i == |fs| - 1 ==> FlagBits(fs[i].header.flagsFragOffset) == 0)
  {
    var fs := Fragmentation(p, mtu);
    var max := MaxPerFragment(mtu);
    FragmentSizes(p, mtu);
    PrefixData(p, mtu, i);
    MulMonotone(i, |fs| - 1, max);
    MulEight(i, max);
    var units := i * max / 8;
    assert units * 8 == i * max;
    DecodeFlagsAndOffset(units, i == |fs| - 1);
  }

  // ---------------------------------------------------------------------
  // Fragmentation, as the source runs it.

  /** Splits the packet for the MTU, filling the fragment array in order
      while the running offset and the remaining byte count advance by each
      fragment's size; returns the number of fragments and the fragments. */
  method FragmentPacket(packet: Packet, mtu: int) returns (count: int, fragments: seq<Fragment>)
    requires CanFragment(packet, mtu)
    ensures fragments == Fragmentation(packet, mtu) && count == |fragments|
  {
    if packet.header.totalLen as int <= mtu {
      return 1, [Fragment(packet.header, packet.payload, [], 0)];
    }
    var max := MaxPerFragment(mtu);
    var num := (|packet.payload| + max - 1) / max;
    CeilBounds(|packet.payload|, max);
    var frags := new Fragment[num];
    var remaining := |packet.payload|;
    var offset := 0;
    ghost var spec := Fragmentation(packet, mtu);
    hide Fragmentation;
    for i := 0 to num
      invariant offset == (if i == num then |packet.payload| else i * max)
      invariant remaining == |packet.payload| - offset
      invariant forall k :: 0 <= k < i ==> frags[k] == spec[k]
    {
      MulMonotone(i, num - 1, max);
      if i < num - 1 {
        MulMonotone(i + 1, num - 1, max);
      }
      var size := if remaining < max then remaining else max;
      var header := packet.header.(totalLen := (IPV4_HEADER_SIZE + size) as uint16);
      var fragOffset := offset / 8;
      if i < num - 1 {
        header := header.(flagsFragOffset := MORE_FRAGMENTS + fragOffset as uint16);
      } else {
        header := header.(flagsFragOffset := fragOffset as uint16);
      }
      var data := packet.payload[offset..offset + size];
      header := header.(checksum := 0);
      header := header.(checksum := CalculateChecksum(header));
      frags[i] := Fragment(header, data, [], 0);
      SplitPiece(packet, mtu, i);
      offset := offset + size;
      remaining := remaining - size;
      assert (i + 1) * max == i * max + max;
    }
    if num > 0 {
      SplitPiece(packet, mtu, 0);
    }
    count, fragments := num, frags[..];
  }
}
