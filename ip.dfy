/**
 * The fixed-format IPv4 and IPv6 headers of `include/net/ip.h`, as a decoder from the
 * bytes in memory to a record of named fields and the encoder back.
 *
 * The C header overlays unions and bitfields on the packet bytes. Here that overlay is
 * fixed to one convention: a little-endian host whose compiler allocates bitfields
 * starting at the least significant bit of their storage unit. Multi-byte members
 * are the values a plain load produces on that host; the header applies no
 * byte-order conversion, and neither does this model.
 */
module Ip {
  import opened Bitfields
  import opened Memory

  /** Protocol numbers for the IPv4 `Protocol` and IPv6 `NextHeader` fields. */
  const IPPROTO_IPV4: uint8 := 4
  const IPPROTO_TCP: uint8 := 6
  const IPPROTO_UDP: uint8 := 17
  const IPPROTO_IPV6: uint8 := 41

  type Bit = x: int | 0 <= x < 2
  type uint2 = x: int | 0 <= x < 4
  type uint4 = x: int | 0 <= x < 0x10
  type uint5 = x: int | 0 <= x < 0x20
  type uint6 = x: int | 0 <= x < 0x40

  // Bitfield widths in declaration order; the first is the least significant.

  /** `HeaderLength : 4`, `Version : 4` in `VersionAndHeaderLength`. */
  const VERSION_AND_HEADER_LENGTH_BITS: seq<nat> := [4, 4]
  /** `EcnField : 2`, `TypeOfService : 6` in `TypeOfServiceAndEcnField`. */
  const TYPE_OF_SERVICE_AND_ECN_BITS: seq<nat> := [2, 6]
  /** `DontUse1 : 5`, `MoreFragments : 1`, `DontFragment : 1`, `Reserved : 1`, `DontUse2 : 8`. */
  const FLAGS_AND_OFFSET_BITS: seq<nat> := [5, 1, 1, 1, 8]
  /** An unnamed `: 4`, `Version : 4`, an unnamed `: 24` in `VersionClassFlow`. */
  const VERSION_CLASS_FLOW_BITS: seq<nat> := [4, 4, 24]

  /** The members of `IPV4_HEADER` in declaration order, each union taken as a whole. */
  const IPV4_MEMBERS: seq<Member> := [
    Member(1, 1),  // VersionAndHeaderLength
    Member(1, 1),  // TypeOfServiceAndEcnField
    Member(2, 2),  // TotalLength
    Member(2, 2),  // Identification
    Member(2, 2),  // FlagsAndOffset
    Member(1, 1),  // TimeToLive
    Member(1, 1),  // Protocol
    Member(2, 2),  // HeaderChecksum
    Member(4, 4),  // SourceAddress
    Member(4, 4)   // DestinationAddress
  ]
  const IPV4_HEADER_SIZE: nat := 20

  const IPV6_ADDRESS_SIZE: nat := 16

  /** The members of `IPV6_HEADER` in declaration order. */
  const IPV6_MEMBERS: seq<Member> := [
    Member(4, 4),                  // VersionClassFlow
    Member(2, 2),                  // PayloadLength
    Member(1, 1),                  // NextHeader
    Member(1, 1),                  // HopLimit
    Member(IPV6_ADDRESS_SIZE, 1),  // SourceAddress
    Member(IPV6_ADDRESS_SIZE, 1)   // DestinationAddress
  ]
  const IPV6_HEADER_SIZE: nat := 40

  /** `ipv6_address_t`: sixteen bytes, kept in memory order. */
  type Ipv6Address = s: seq<uint8> | |s| == IPV6_ADDRESS_SIZE
    witness seq(16, _ => 0)

  /** `IPV4_HEADER` with every named bitfield as a field of its own. */
  datatype Ipv4Header = Ipv4Header(
    headerLength: uint4,
    version: uint4,
    ecnField: uint2,
    typeOfService: uint6,
    totalLength: uint16,
    identification: uint16,
    dontUse1: uint5,
    moreFragments: Bit,
    dontFragment: Bit,
    reserved: Bit,
    dontUse2: uint8,
    timeToLive: uint8,
    protocol: uint8,
    headerChecksum: uint16,
    sourceAddress: uint32,
    destinationAddress: uint32)
  {
    /** The `VersionAndHeaderLength` byte that holds `headerLength` and `version`. */
    function VersionAndHeaderLength(): (b: uint8)
      ensures Field(b, VERSION_AND_HEADER_LENGTH_BITS, 0) == headerLength
      ensures Field(b, VERSION_AND_HEADER_LENGTH_BITS, 1) == version
    {
      var fields: seq<nat> := [headerLength, version];
      assert Width(VERSION_AND_HEADER_LENGTH_BITS) == 8 && Pow2(8) == 0x100;
      FieldOfPack(fields, VERSION_AND_HEADER_LENGTH_BITS, 0);
      FieldOfPack(fields, VERSION_AND_HEADER_LENGTH_BITS, 1);
      Pack(fields, VERSION_AND_HEADER_LENGTH_BITS)
    }

    /** The `TypeOfServiceAndEcnField` byte that holds `ecnField` and `typeOfService`. */
    function TypeOfServiceAndEcnField(): (b: uint8)
      ensures Field(b, TYPE_OF_SERVICE_AND_ECN_BITS, 0) == ecnField
      ensures Field(b, TYPE_OF_SERVICE_AND_ECN_BITS, 1) == typeOfService
    {
      var fields: seq<nat> := [ecnField, typeOfService];
      assert Width(TYPE_OF_SERVICE_AND_ECN_BITS) == 8 && Pow2(8) == 0x100;
      FieldOfPack(fields, TYPE_OF_SERVICE_AND_ECN_BITS, 0);
      FieldOfPack(fields, TYPE_OF_SERVICE_AND_ECN_BITS, 1);
      Pack(fields, TYPE_OF_SERVICE_AND_ECN_BITS)
    }

    /** The `FlagsAndOffset` word that holds the two offset parts and the three flags. */
    function FlagsAndOffset(): (w: uint16)
      ensures Field(w, FLAGS_AND_OFFSET_BITS, 0) == dontUse1
      ensures Field(w, FLAGS_AND_OFFSET_BITS, 1) == moreFragments
      ensures Field(w, FLAGS_AND_OFFSET_BITS, 2) == dontFragment
      ensures Field(w, FLAGS_AND_OFFSET_BITS, 3) == reserved
      ensures Field(w, FLAGS_AND_OFFSET_BITS, 4) == dontUse2
    {
      var fields: seq<nat> := [dontUse1, moreFragments, dontFragment, reserved, dontUse2];
      assert Width(FLAGS_AND_OFFSET_BITS) == 16;
      Pow2Widths();
      FieldOfPack(fields, FLAGS_AND_OFFSET_BITS, 0);
      FieldOfPack(fields, FLAGS_AND_OFFSET_BITS, 1);
      FieldOfPack(fields, FLAGS_AND_OFFSET_BITS, 2);
      FieldOfPack(fields, FLAGS_AND_OFFSET_BITS, 3);
      FieldOfPack(fields, FLAGS_AND_OFFSET_BITS, 4);
      Pack(fields, FLAGS_AND_OFFSET_BITS)
    }

    /** The fragment offset, `dontUse1` being its high bits and `dontUse2` its low byte. */
    function FragmentOffset(): (offset: nat)
      ensures offset < 0x2000
      ensures offset / 0x100 == dontUse1 && offset % 0x100 == dontUse2
    {
      dontUse1 * 0x100 + dontUse2
    }
  }

  /** `IPV6_HEADER`: only `Version` is named inside `VersionClassFlow`. */
  datatype Ipv6Header = Ipv6Header(
    versionClassFlow: uint32,
    payloadLength: uint16,
    nextHeader: uint8,
    hopLimit: uint8,
    sourceAddress: Ipv6Address,
    destinationAddress: Ipv6Address)
  {
    /** The `Version` bitfield of `VersionClassFlow`. */
    function Version(): (v: uint4)
      ensures v == Shr(versionClassFlow, 4) % 0x10
    {
      Field(versionClassFlow, VERSION_CLASS_FLOW_BITS, 1)
    }

    /**
     * Assigning `v` to the `Version` bitfield, which keeps `v` modulo 16: the 28 other
     * bits and every other field stay.
     */
    function WithVersion(v: nat): (h: Ipv6Header)
      ensures h.Version() == v % 0x10
      ensures Field(h.versionClassFlow, VERSION_CLASS_FLOW_BITS, 0)
              == Field(versionClassFlow, VERSION_CLASS_FLOW_BITS, 0)
      ensures Field(h.versionClassFlow, VERSION_CLASS_FLOW_BITS, 2)
              == Field(versionClassFlow, VERSION_CLASS_FLOW_BITS, 2)
      ensures h.(versionClassFlow := versionClassFlow) == this
    {
      VersionClassFlowWidth();
      Pow2Widths();
      assert Pow2(4) == 0x10;
      FieldOfSetField(versionClassFlow, VERSION_CLASS_FLOW_BITS, 1, v, 0);
      FieldOfSetField(versionClassFlow, VERSION_CLASS_FLOW_BITS, 1, v, 1);
      FieldOfSetField(versionClassFlow, VERSION_CLASS_FLOW_BITS, 1, v, 2);
      this.(versionClassFlow := SetField(versionClassFlow, VERSION_CLASS_FLOW_BITS, 1, v))
    }
  }

  /**
   * Reads an `IPV4_HEADER` from the first 20 bytes of `bytes`. Each union read as a
   * whole gives back the memory it overlays: bytes 0 and 1, and the word at byte 6.
   */
  function DecodeIpv4(bytes: seq<uint8>): (h: Ipv4Header)
    requires |bytes| >= IPV4_HEADER_SIZE
    ensures h.VersionAndHeaderLength() == bytes[0]
    ensures h.TypeOfServiceAndEcnField() == bytes[1]
    ensures h.FlagsAndOffset() == Load16(bytes, 6)
  {
    var flagsAndOffset := Load16(bytes, 6);
    var h := Ipv4Header(
      headerLength := Field(bytes[0], VERSION_AND_HEADER_LENGTH_BITS, 0),
      version := Field(bytes[0], VERSION_AND_HEADER_LENGTH_BITS, 1),
      ecnField := Field(bytes[1], TYPE_OF_SERVICE_AND_ECN_BITS, 0),
      typeOfService := Field(bytes[1], TYPE_OF_SERVICE_AND_ECN_BITS, 1),
      totalLength := Load16(bytes, 2),
      identification := Load16(bytes, 4),
      dontUse1 := Field(flagsAndOffset, FLAGS_AND_OFFSET_BITS, 0),
      moreFragments := Field(flagsAndOffset, FLAGS_AND_OFFSET_BITS, 1),
      dontFragment := Field(flagsAndOffset, FLAGS_AND_OFFSET_BITS, 2),
      reserved := Field(flagsAndOffset, FLAGS_AND_OFFSET_BITS, 3),
      dontUse2 := Field(flagsAndOffset, FLAGS_AND_OFFSET_BITS, 4),
      timeToLive := bytes[8],
      protocol := bytes[9],
      headerChecksum := Load16(bytes, 10),
      sourceAddress := Load32(bytes, 12),
      destinationAddress := Load32(bytes, 16));
    RepackVersionAndHeaderLength(bytes[0]);
    RepackTypeOfServiceAndEcn(bytes[1]);
    RepackFlagsAndOffset(flagsAndOffset);
    h
  }

  /** The two nibbles of a byte pack back into the byte. */
  lemma RepackVersionAndHeaderLength(b: uint8)
    ensures var bits := VERSION_AND_HEADER_LENGTH_BITS;
      && Fits([Field(b, bits, 0), Field(b, bits, 1)], bits)
      && Pack([Field(b, bits, 0), Field(b, bits, 1)], bits) == b
  {
    BitfieldLayouts();
    Pow2Widths();
    var bits := VERSION_AND_HEADER_LENGTH_BITS;
    RepackFields(b, bits, [Field(b, bits, 0), Field(b, bits, 1)]);
  }

  /** The ECN and type-of-service parts of a byte pack back into the byte. */
  lemma RepackTypeOfServiceAndEcn(b: uint8)
    ensures var bits := TYPE_OF_SERVICE_AND_ECN_BITS;
      && Fits([Field(b, bits, 0), Field(b, bits, 1)], bits)
      && Pack([Field(b, bits, 0), Field(b, bits, 1)], bits) == b
  {
    BitfieldLayouts();
    Pow2Widths();
    var bits := TYPE_OF_SERVICE_AND_ECN_BITS;
    RepackFields(b, bits, [Field(b, bits, 0), Field(b, bits, 1)]);
  }

  /** The five flags-and-offset fields of a 16-bit word pack back into the word. */
  lemma RepackFlagsAndOffset(w: uint16)
    ensures var bits := FLAGS_AND_OFFSET_BITS;
      var fields := [Field(w, bits, 0), Field(w, bits, 1), Field(w, bits, 2), Field(w, bits, 3), Field(w, bits, 4)];
      Fits(fields, bits) && Pack(fields, bits) == w
  {
    BitfieldLayouts();
    Pow2Widths();
    var bits := FLAGS_AND_OFFSET_BITS;
    RepackFields(w, bits, [Field(w, bits, 0), Field(w, bits, 1), Field(w, bits, 2), Field(w, bits, 3), Field(w, bits, 4)]);
  }

  /** The 20 bytes an `IPV4_HEADER` holding `h` occupies in memory. */
  function EncodeIpv4(h: Ipv4Header): (bytes: seq<uint8>)
    ensures |bytes| == IPV4_HEADER_SIZE
  {
    Ipv4Front(h) + Ipv4Back(h)
  }

  /** Bytes 0 to 8 of an `IPV4_HEADER`: the members up to `FlagsAndOffset`. */
  function Ipv4Front(h: Ipv4Header): (bytes: seq<uint8>)
    ensures |bytes| == 8
  {
    [h.VersionAndHeaderLength(), h.TypeOfServiceAndEcnField()]
    + Store16(h.totalLength)
    + Store16(h.identification)
    + Store16(h.FlagsAndOffset())
  }

  /** Bytes 8 to 20 of an `IPV4_HEADER`: the members from `TimeToLive` on. */
  function Ipv4Back(h: Ipv4Header): (bytes: seq<uint8>)
    ensures |bytes| == 12
  {
    [h.timeToLive, h.protocol]
    + Store16(h.headerChecksum)
    + Store32(h.sourceAddress)
    + Store32(h.destinationAddress)
  }

  /**
   * Reads an `IPV6_HEADER` from the first 40 bytes of `bytes`. Its `Version` is the high
   * nibble of the first byte, the first four bits on the wire.
   */
  function DecodeIpv6(bytes: seq<uint8>): (h: Ipv6Header)
    requires |bytes| >= IPV6_HEADER_SIZE
    ensures h.Version() == bytes[0] / 0x10
  {
    VersionIsFirstNibble(bytes);
    Ipv6Header(
      versionClassFlow := Load32(bytes, 0),
      payloadLength := Load16(bytes, 4),
      nextHeader := bytes[6],
      hopLimit := bytes[7],
      sourceAddress := bytes[8..24],
      destinationAddress := bytes[24..40])
  }

  /** The 40 bytes an `IPV6_HEADER` holding `h` occupies in memory. */
  function EncodeIpv6(h: Ipv6Header): (bytes: seq<uint8>)
    ensures |bytes| == IPV6_HEADER_SIZE
  {
    Store32(h.versionClassFlow)
    + Store16(h.payloadLength)
    + [h.nextHeader, h.hopLimit]
    + h.sourceAddress
    + h.destinationAddress
  }

  lemma VersionClassFlowWidth()
    ensures Width(VERSION_CLASS_FLOW_BITS) == 32
  {
    var bits := VERSION_CLASS_FLOW_BITS;
    assert bits[1..] == [4, 24] && bits[1..][1..] == [24] && bits[1..][1..][1..] == [];
    assert Offset(bits[1..][1..], 1) == 24;
    assert Offset(bits[1..], 2) == 28;
  }

  // ----- Layout of the structs and of their bitfields -----

  /** `IPV4_HEADER` under natural alignment: no padding, 20 bytes. */
  lemma Ipv4Layout()
    ensures Offsets(IPV4_MEMBERS, 0) == [0, 1, 2, 4, 6, 8, 9, 10, 12, 16]
    ensures Packed(IPV4_MEMBERS, Offsets(IPV4_MEMBERS, 0))
    ensures End(IPV4_MEMBERS, 0) == SizeOf(IPV4_MEMBERS) == IPV4_HEADER_SIZE
  {
    Ipv4Offsets();
    Ipv4Packed();
    Ipv4Alignment();
    assert AlignUp(20, 4) == 20;
  }

  /** Each `IPV4_HEADER` member starts where the one before it ends. */
  lemma Ipv4Packed()
    ensures Packed(IPV4_MEMBERS, [0, 1, 2, 4, 6, 8, 9, 10, 12, 16])
  {
    var o: seq<nat> := [0, 1, 2, 4, 6, 8, 9, 10, 12, 16];
    forall i | 0 < i < 10
      ensures o[i] == o[i - 1] + IPV4_MEMBERS[i - 1].size
    {
    }
  }

  /** Member offsets of `IPV4_HEADER`: the two halves laid out one after the other. */
  lemma Ipv4Offsets()
    ensures Offsets(IPV4_MEMBERS, 0) == [0, 1, 2, 4, 6, 8, 9, 10, 12, 16]
    ensures End(IPV4_MEMBERS, 0) == 20
  {
    var front := IPV4_MEMBERS[..5];
    var back := IPV4_MEMBERS[5..];
    assert IPV4_MEMBERS == front + back;
    Ipv4FrontLayout();
    Ipv4BackLayout();
    LayoutAppend(front, back, 0);
  }

  /** The first five `IPV4_HEADER` members, up to `FlagsAndOffset`, fill bytes 0 to 8. */
  lemma Ipv4FrontLayout()
    ensures Offsets(IPV4_MEMBERS[..5], 0) == [0, 1, 2, 4, 6]
    ensures End(IPV4_MEMBERS[..5], 0) == 8
  {
    var m := IPV4_MEMBERS;
    assert Offsets(m[4..5], 6) == [6] && End(m[4..5], 6) == 8;
    assert Offsets(m[3..5], 4) == [4, 6] && End(m[3..5], 4) == 8 by { assert m[3..5][1..] == m[4..5]; }
    assert Offsets(m[2..5], 2) == [2, 4, 6] && End(m[2..5], 2) == 8 by { assert m[2..5][1..] == m[3..5]; }
    assert Offsets(m[1..5], 1) == [1, 2, 4, 6] && End(m[1..5], 1) == 8 by { assert m[1..5][1..] == m[2..5]; }
    assert m[..5][1..] == m[1..5];
  }

  /** The last five `IPV4_HEADER` members, from `TimeToLive` on, fill bytes 8 to 20. */
  lemma Ipv4BackLayout()
    ensures Offsets(IPV4_MEMBERS[5..], 8) == [8, 9, 10, 12, 16]
    ensures End(IPV4_MEMBERS[5..], 8) == 20
  {
    var m := IPV4_MEMBERS;
    assert Offsets(m[9..], 16) == [16] && End(m[9..], 16) == 20;
    assert Offsets(m[8..], 12) == [12, 16] && End(m[8..], 12) == 20 by { assert m[8..][1..] == m[9..]; }
    assert Offsets(m[7..], 10) == [10, 12, 16] && End(m[7..], 10) == 20 by { assert m[7..][1..] == m[8..]; }
    assert Offsets(m[6..], 9) == [9, 10, 12, 16] && End(m[6..], 9) == 20 by { assert m[6..][1..] == m[7..]; }
    assert m[5..][1..] == m[6..];
  }

  /** The widest `IPV4_HEADER` member is a 4-byte address. */
  lemma Ipv4Alignment()
    ensures MaxAlign(IPV4_MEMBERS) == 4
  {
    var m := IPV4_MEMBERS;
    assert MaxAlign(m[9..]) == 4;
    assert MaxAlign(m[8..]) == 4 by { assert m[8..][1..] == m[9..]; }
    assert MaxAlign(m[7..]) == 4 by { assert m[7..][1..] == m[8..]; }
    assert MaxAlign(m[6..]) == 4 by { assert m[6..][1..] == m[7..]; }
    assert MaxAlign(m[5..]) == 4 by { assert m[5..][1..] == m[6..]; }
    assert MaxAlign(m[4..]) == 4 by { assert m[4..][1..] == m[5..]; }
    assert MaxAlign(m[3..]) == 4 by { assert m[3..][1..] == m[4..]; }
    assert MaxAlign(m[2..]) == 4 by { assert m[2..][1..] == m[3..]; }
    assert MaxAlign(m[1..]) == 4 by { assert m[1..][1..] == m[2..]; }
  }

  /** `IPV6_HEADER` under natural alignment: no padding, 40 bytes. */
  lemma Ipv6Layout()
    ensures Offsets(IPV6_MEMBERS, 0) == [0, 4, 6, 7, 8, 24]
    ensures Packed(IPV6_MEMBERS, Offsets(IPV6_MEMBERS, 0))
    ensures End(IPV6_MEMBERS, 0) == SizeOf(IPV6_MEMBERS) == IPV6_HEADER_SIZE
  {
    var m := IPV6_MEMBERS;
    Ipv6Offsets();
    assert MaxAlign(m) == 4 by {
      assert MaxAlign(m[5..]) == 1;
      assert MaxAlign(m[4..]) == 1 by { assert m[4..][1..] == m[5..]; }
      assert MaxAlign(m[3..]) == 1 by { assert m[3..][1..] == m[4..]; }
      assert MaxAlign(m[2..]) == 1 by { assert m[2..][1..] == m[3..]; }
      assert MaxAlign(m[1..]) == 2 by { assert m[1..][1..] == m[2..]; }
    }
  }

  /** Member offsets of `IPV6_HEADER`, and its last member ends at byte 40. */
  lemma Ipv6Offsets()
    ensures Offsets(IPV6_MEMBERS, 0) == [0, 4, 6, 7, 8, 24]
    ensures End(IPV6_MEMBERS, 0) == 40
  {
    var m := IPV6_MEMBERS;
    assert Offsets(m[5..], 24) == [24] && End(m[5..], 24) == 40;
    assert Offsets(m[4..], 8) == [8, 24] && End(m[4..], 8) == 40 by { assert m[4..][1..] == m[5..]; }
    assert Offsets(m[3..], 7) == [7, 8, 24] && End(m[3..], 7) == 40 by { assert m[3..][1..] == m[4..]; }
    assert Offsets(m[2..], 6) == [6, 7, 8, 24] && End(m[2..], 6) == 40 by { assert m[2..][1..] == m[3..]; }
    assert Offsets(m[1..], 4) == [4, 6, 7, 8, 24] && End(m[1..], 4) == 40 by { assert m[1..][1..] == m[2..]; }
  }

  /** Each bitfield struct spans exactly its storage word, field after field. */
  lemma BitfieldLayouts()
    ensures Width(VERSION_AND_HEADER_LENGTH_BITS) == 8
    ensures Width(TYPE_OF_SERVICE_AND_ECN_BITS) == 8
    ensures Width(FLAGS_AND_OFFSET_BITS) == 16
    ensures Width(VERSION_CLASS_FLOW_BITS) == 32
    ensures forall i :: 0 <= i < 5 ==> Offset(FLAGS_AND_OFFSET_BITS, i) == [0, 5, 6, 7, 8][i]
    ensures Offset(VERSION_CLASS_FLOW_BITS, 1) == 4 && Offset(VERSION_CLASS_FLOW_BITS, 2) == 8
  {
    VersionClassFlowWidth();
  }

  // ----- The sub-byte fields of IPv4 -----

  /** `HeaderLength` is the low nibble and `Version` the high nibble of the first byte. */
  lemma Ipv4VersionAndHeaderLength(bytes: seq<uint8>)
    requires |bytes| >= IPV4_HEADER_SIZE
    ensures DecodeIpv4(bytes).headerLength == bytes[0] % 0x10
    ensures DecodeIpv4(bytes).version == bytes[0] / 0x10
    ensures DecodeIpv4(bytes).VersionAndHeaderLength() == bytes[0]
  {
    NibbleFields(bytes[0]);
  }

  /** The two nibbles of a `VersionAndHeaderLength` byte. */
  lemma NibbleFields(b: uint8)
    ensures Width(VERSION_AND_HEADER_LENGTH_BITS) == 8
    ensures Field(b, VERSION_AND_HEADER_LENGTH_BITS, 0) == b % 0x10
    ensures Field(b, VERSION_AND_HEADER_LENGTH_BITS, 1) == b / 0x10
  {
    var bits := VERSION_AND_HEADER_LENGTH_BITS;
    assert Pow2(4) == 0x10 && Offset(bits, 1) == 4;
    assert Shr(b, 4) == b / 0x10;
  }

  /** `EcnField` is the low two bits and `TypeOfService` the high six bits of the second byte. */
  lemma Ipv4TypeOfServiceAndEcnField(bytes: seq<uint8>)
    requires |bytes| >= IPV4_HEADER_SIZE
    ensures DecodeIpv4(bytes).ecnField == bytes[1] % 4
    ensures DecodeIpv4(bytes).typeOfService == bytes[1] / 4
    ensures DecodeIpv4(bytes).TypeOfServiceAndEcnField() == bytes[1]
  {
    EcnFields(bytes[1]);
  }

  /** The two parts of a `TypeOfServiceAndEcnField` byte. */
  lemma EcnFields(b: uint8)
    ensures Width(TYPE_OF_SERVICE_AND_ECN_BITS) == 8
    ensures Field(b, TYPE_OF_SERVICE_AND_ECN_BITS, 0) == b % 4
    ensures Field(b, TYPE_OF_SERVICE_AND_ECN_BITS, 1) == b / 4
  {
    var bits := TYPE_OF_SERVICE_AND_ECN_BITS;
    assert Pow2(2) == 4 && Pow2(6) == 0x40 && Offset(bits, 1) == 2;
    assert Shr(b, 2) == b / 4;
  }

  /**
   * Read through the little-endian `FlagsAndOffset` word, the flags are bits 0x20, 0x40
   * and 0x80 of byte 6, and the fragment offset has the low five bits of byte 6 as its
   * high bits and byte 7 as its low byte.
   */
  lemma Ipv4FlagsAndOffset(bytes: seq<uint8>)
    requires |bytes| >= IPV4_HEADER_SIZE
    ensures DecodeIpv4(bytes).dontUse1 == bytes[6] % 0x20
    ensures DecodeIpv4(bytes).moreFragments == (bytes[6] / 0x20) % 2
    ensures DecodeIpv4(bytes).dontFragment == (bytes[6] / 0x40) % 2
    ensures DecodeIpv4(bytes).reserved == bytes[6] / 0x80
    ensures DecodeIpv4(bytes).dontUse2 == bytes[7]
    ensures DecodeIpv4(bytes).FragmentOffset() == (bytes[6] as int % 0x20) * 0x100 + bytes[7] as int
  {
    FlagsWordBytes(bytes);
  }

  /** The five fields of the word loaded from bytes 6 and 7, in terms of those bytes. */
  lemma FlagsWordBytes(bytes: seq<uint8>)
    requires |bytes| >= IPV4_HEADER_SIZE
    ensures var w := Load16(bytes, 6);
      && Field(w, FLAGS_AND_OFFSET_BITS, 0) == bytes[6] % 0x20
      && Field(w, FLAGS_AND_OFFSET_BITS, 1) == bytes[6] / 0x20 % 2
      && Field(w, FLAGS_AND_OFFSET_BITS, 2) == bytes[6] / 0x40 % 2
      && Field(w, FLAGS_AND_OFFSET_BITS, 3) == bytes[6] / 0x80
      && Field(w, FLAGS_AND_OFFSET_BITS, 4) == bytes[7]
  {
    FlagsAndOffsetBytes(bytes[6], bytes[7]);
  }

  /**
   * The fragment offset as the flags and offset fields split it is the low 13 bits of
   * bytes 6 and 7 read most significant first, as they travel on the wire.
   */
  lemma FragmentOffsetBytes(b6: uint8, b7: uint8)
    ensures (0x100 * b6 as int + b7 as int) % 0x2000 == (b6 % 0x20) * 0x100 + b7
  {
    var b6, b7 := b6 as int, b7 as int;
    assert 0x100 * b6 + b7 == 0x2000 * (b6 / 0x20) + (0x100 * (b6 % 0x20) + b7);
    DivModUnique(0x100 * b6 + b7, 0x2000, b6 / 0x20, 0x100 * (b6 % 0x20) + b7);
  }

  /** The five fields of the `FlagsAndOffset` word stored as bytes `b6`, `b7`. */
  lemma FlagsAndOffsetBytes(b6: uint8, b7: uint8)
    ensures Width(FLAGS_AND_OFFSET_BITS) == 16
    ensures var w := b6 as int + 0x100 * b7 as int;
      && Field(w, FLAGS_AND_OFFSET_BITS, 0) == b6 % 0x20
      && Field(w, FLAGS_AND_OFFSET_BITS, 1) == b6 / 0x20 % 2
      && Field(w, FLAGS_AND_OFFSET_BITS, 2) == b6 / 0x40 % 2
      && Field(w, FLAGS_AND_OFFSET_BITS, 3) == b6 / 0x80
      && Field(w, FLAGS_AND_OFFSET_BITS, 4) == b7
  {
    FlagsAndOffsetFields(b6 as int + 0x100 * b7 as int);
    OffsetHighBits(b6, b7);
    FlagBits(b6, b7);
    ReservedBit(b6, b7);
    DivModUnique(b6 as int + 0x100 * b7 as int, 0x100, b7 as int, b6 as int);
  }

  /** Bits 0 to 4 of a little-endian word are bits 0 to 4 of its first byte. */
  lemma OffsetHighBits(b6: uint8, b7: uint8)
    ensures (b6 as int + 0x100 * b7 as int) % 0x20 == b6 % 0x20
  {
    DivModUnique(b6 as int + 0x100 * b7 as int, 0x20, b6 / 0x20 + 8 * b7, b6 % 0x20);
  }

  /** Bits 5 and 6 of a little-endian word are bits 5 and 6 of its first byte. */
  lemma FlagBits(b6: uint8, b7: uint8)
    ensures (b6 as int + 0x100 * b7 as int) / 0x20 % 2 == b6 / 0x20 % 2
    ensures (b6 as int + 0x100 * b7 as int) / 0x40 % 2 == b6 / 0x40 % 2
  {
    var w := b6 as int + 0x100 * b7 as int;
    DivModUnique(w, 0x20, b6 / 0x20 + 8 * b7, b6 % 0x20);
    DivModUnique(b6 / 0x20 + 8 * b7, 2, b6 / 0x20 / 2 + 4 * b7, b6 / 0x20 % 2);
    DivModUnique(w, 0x40, b6 / 0x40 + 4 * b7, b6 % 0x40);
    DivModUnique(b6 / 0x40 + 4 * b7, 2, b6 / 0x40 / 2 + 2 * b7, b6 / 0x40 % 2);
  }

  /** Bit 7 of a little-endian word is the top bit of its first byte. */
  lemma ReservedBit(b6: uint8, b7: uint8)
    ensures (b6 as int + 0x100 * b7 as int) / 0x80 % 2 == b6 / 0x80
  {
    var w := b6 as int + 0x100 * b7 as int;
    DivModUnique(w, 0x80, b6 / 0x80 + 2 * b7, b6 % 0x80);
    DivModUnique(b6 / 0x80 + 2 * b7, 2, b7 as int, b6 / 0x80);
  }

  /** The five fields of a `FlagsAndOffset` word, as shifts and masks with constants. */
  lemma FlagsAndOffsetFields(w: nat)
    ensures Width(FLAGS_AND_OFFSET_BITS) == 16
    ensures Field(w, FLAGS_AND_OFFSET_BITS, 0) == w % 0x20
    ensures Field(w, FLAGS_AND_OFFSET_BITS, 1) == w / 0x20 % 2
    ensures Field(w, FLAGS_AND_OFFSET_BITS, 2) == w / 0x40 % 2
    ensures Field(w, FLAGS_AND_OFFSET_BITS, 3) == w / 0x80 % 2
    ensures Field(w, FLAGS_AND_OFFSET_BITS, 4) == w / 0x100 % 0x100
  {
    var bits := FLAGS_AND_OFFSET_BITS;
    assert Offset(bits, 1) == 5 && Offset(bits, 2) == 6 && Offset(bits, 3) == 7 && Offset(bits, 4) == 8;
    assert Pow2(5) == 0x20 && Pow2(6) == 0x40 && Pow2(7) == 0x80 && Pow2(8) == 0x100;
    assert Shr(w, 5) == w / 0x20 && Shr(w, 6) == w / 0x40 && Shr(w, 7) == w / 0x80;
    assert Shr(w, 8) == w / 0x100;
  }

  /** The five fields of `FlagsAndOffset` describe the whole word: re-packing them reproduces it. */
  lemma FlagsAndOffsetRoundTrip(w: uint16)
    ensures Fits(Unpack(w, FLAGS_AND_OFFSET_BITS), FLAGS_AND_OFFSET_BITS)
    ensures Pack(Unpack(w, FLAGS_AND_OFFSET_BITS), FLAGS_AND_OFFSET_BITS) == w
  {
    assert Width(FLAGS_AND_OFFSET_BITS) == 16;
    Pow2Widths();
    PackOfUnpack(w, FLAGS_AND_OFFSET_BITS);
  }

  /**
   * Assigning `v` to bitfield `i` of the in-memory `FlagsAndOffset` (one of
   * `MoreFragments`, `DontFragment`, `Reserved`) stores the updated word back over
   * bytes 6 and 7; that sets the flag to `v` modulo 2 and leaves the other flags and
   * the fragment offset as they were.
   */
  lemma FlagWriteKeepsFragmentOffset(bytes: seq<uint8>, i: nat, v: nat)
    requires |bytes| >= IPV4_HEADER_SIZE && 1 <= i <= 3
    ensures
      var word := SetField(Load16(bytes, 6), FLAGS_AND_OFFSET_BITS, i, v);
      && word < 0x1_0000
      && var (h, h') := (DecodeIpv4(bytes), DecodeIpv4(bytes[..6] + Store16(word) + bytes[8..]));
      && h' == (if i == 1 then h.(moreFragments := v % 2)
                else if i == 2 then h.(dontFragment := v % 2)
                else h.(reserved := v % 2))
      && h'.FragmentOffset() == h.FragmentOffset()
  {
    var h := DecodeIpv4(bytes);
    var word := SetField(Load16(bytes, 6), FLAGS_AND_OFFSET_BITS, i, v);
    assert Width(FLAGS_AND_OFFSET_BITS) == 16;
    Pow2Widths();
    FlagWriteFields(Load16(bytes, 6), i, v);
    assert Field(word, FLAGS_AND_OFFSET_BITS, 0) == h.dontUse1;
    assert Field(word, FLAGS_AND_OFFSET_BITS, 4) == h.dontUse2;
    StoreFlagsWord(bytes, word);
  }

  /**
   * Storing `word` over bytes 6 and 7: the decoded header takes its five flag and offset
   * fields from `word` and keeps every other field.
   */
  lemma StoreFlagsWord(bytes: seq<uint8>, word: uint16)
    requires |bytes| >= IPV4_HEADER_SIZE
    ensures DecodeIpv4(bytes[..6] + Store16(word) + bytes[8..])
         == DecodeIpv4(bytes).(
              dontUse1 := Field(word, FLAGS_AND_OFFSET_BITS, 0),
              moreFragments := Field(word, FLAGS_AND_OFFSET_BITS, 1),
              dontFragment := Field(word, FLAGS_AND_OFFSET_BITS, 2),
              reserved := Field(word, FLAGS_AND_OFFSET_BITS, 3),
              dontUse2 := Field(word, FLAGS_AND_OFFSET_BITS, 4))
  {
    var written := bytes[..6] + Store16(word) + bytes[8..];
    assert written[6..8] == Store16(word);
    assert Load16(written, 6) == word;
    assert written[0] == bytes[0] && written[1] == bytes[1];
    assert written[8] == bytes[8] && written[9] == bytes[9];
    assert written[2..4] == bytes[2..4] && written[4..6] == bytes[4..6];
    assert written[10..12] == bytes[10..12];
    assert written[12..16] == bytes[12..16] && written[16..20] == bytes[16..20];
    Load16Same(written, bytes, 2);
    Load16Same(written, bytes, 4);
    Load16Same(written, bytes, 10);
    Load32Same(written, bytes, 12);
    Load32Same(written, bytes, 16);
  }

  /** Writing flag `i` of a `FlagsAndOffset` word: the flag becomes `v` modulo 2, all other fields stay. */
  lemma FlagWriteFields(w: nat, i: nat, v: nat)
    requires 1 <= i <= 3
    ensures forall k :: 0 <= k < 5 ==>
      Field(SetField(w, FLAGS_AND_OFFSET_BITS, i, v), FLAGS_AND_OFFSET_BITS, k)
      == if k == i then v % 2 else Field(w, FLAGS_AND_OFFSET_BITS, k)
  {
    assert Pow2(1) == 2;
    forall k | 0 <= k < 5
      ensures Field(SetField(w, FLAGS_AND_OFFSET_BITS, i, v), FLAGS_AND_OFFSET_BITS, k)
              == if k == i then v % 2 else Field(w, FLAGS_AND_OFFSET_BITS, k)
    {
      FieldOfSetField(w, FLAGS_AND_OFFSET_BITS, i, v, k);
    }
  }

  // ----- Where the IPv4 fields sit, and the round trips -----

  /**
   * Every member of `IPV4_HEADER` is written at the offset the struct layout gives it;
   * `protocol` is the one byte both `protocol` and `Protocol` name.
   */
  lemma Ipv4FieldOffsets(h: Ipv4Header)
    ensures Offsets(IPV4_MEMBERS, 0) == [0, 1, 2, 4, 6, 8, 9, 10, 12, 16]
    ensures EncodeIpv4(h)[0] == h.VersionAndHeaderLength()
    ensures EncodeIpv4(h)[1] == h.TypeOfServiceAndEcnField()
    ensures Load16(EncodeIpv4(h), 2) == h.totalLength
    ensures Load16(EncodeIpv4(h), 4) == h.identification
    ensures Load16(EncodeIpv4(h), 6) == h.FlagsAndOffset()
    ensures EncodeIpv4(h)[8] == h.timeToLive
    ensures EncodeIpv4(h)[9] == h.protocol
    ensures Load16(EncodeIpv4(h), 10) == h.headerChecksum
    ensures Load32(EncodeIpv4(h), 12) == h.sourceAddress
    ensures Load32(EncodeIpv4(h), 16) == h.destinationAddress
  {
    Ipv4Offsets();
    var (front, back) := (Ipv4Front(h), Ipv4Back(h));
    Ipv4FrontPlacement(h.VersionAndHeaderLength(), h.TypeOfServiceAndEcnField(),
                       h.totalLength, h.identification, h.FlagsAndOffset());
    Ipv4BackPlacement(h.timeToLive, h.protocol, h.headerChecksum, h.sourceAddress, h.destinationAddress);
    Load16OfFront(front, back, 2);
    Load16OfFront(front, back, 4);
    Load16OfFront(front, back, 6);
    Load16OfBack(front, back, 2);
    Load32OfBack(front, back, 4);
    Load32OfBack(front, back, 8);
  }

  /** Where the members up to `FlagsAndOffset` sit: two bytes, then three 16-bit words. */
  lemma Ipv4FrontPlacement(b0: uint8, b1: uint8, total: uint16, id: uint16, flags: uint16)
    ensures var front := [b0, b1] + Store16(total) + Store16(id) + Store16(flags);
      && front[0] == b0 && front[1] == b1
      && Load16(front, 2) == total && Load16(front, 4) == id && Load16(front, 6) == flags
  {
    var (st, si, sf) := (Store16(total), Store16(id), Store16(flags));
    Load16OfBack([b0, b1], st, 0);
    Load16OfFront([b0, b1] + st, si, 2);
    Load16OfBack([b0, b1] + st, si, 0);
    Load16OfFront([b0, b1] + st + si, sf, 2);
    Load16OfFront([b0, b1] + st + si, sf, 4);
    Load16OfBack([b0, b1] + st + si, sf, 0);
  }

  /** Where the members from `TimeToLive` on sit: two bytes, a 16-bit and two 32-bit words. */
  lemma Ipv4BackPlacement(b8: uint8, b9: uint8, checksum: uint16, source: uint32, destination: uint32)
    ensures var back := [b8, b9] + Store16(checksum) + Store32(source) + Store32(destination);
      && back[0] == b8 && back[1] == b9
      && Load16(back, 2) == checksum && Load32(back, 4) == source && Load32(back, 8) == destination
  {
    var (sc, ss, sd) := (Store16(checksum), Store32(source), Store32(destination));
    Load16OfBack([b8, b9], sc, 0);
    Load16OfFront([b8, b9] + sc, ss, 2);
    Load32OfBack([b8, b9] + sc, ss, 0);
    Load16OfFront([b8, b9] + sc + ss, sd, 2);
    Load32OfFront([b8, b9] + sc + ss, sd, 4);
    Load32OfBack([b8, b9] + sc + ss, sd, 0);
  }

  /** Decoding an encoded IPv4 header gives back every field. */
  lemma Ipv4DecodeOfEncode(h: Ipv4Header)
    ensures DecodeIpv4(EncodeIpv4(h)) == h
  {
    Ipv4FieldOffsets(h);
  }

  /** Encoding a decoded IPv4 header reproduces the 20 bytes it was read from. */
  lemma Ipv4EncodeOfDecode(bytes: seq<uint8>)
    requires |bytes| >= IPV4_HEADER_SIZE
    ensures EncodeIpv4(DecodeIpv4(bytes)) == bytes[..IPV4_HEADER_SIZE]
  {
    Store16OfLoad16(bytes, 2);
    Store16OfLoad16(bytes, 4);
    Store16OfLoad16(bytes, 6);
    Store16OfLoad16(bytes, 10);
    Store32OfLoad32(bytes, 12);
    Store32OfLoad32(bytes, 16);
    Ipv4Pieces(bytes);
  }

  /** The first 20 bytes, cut at the `IPV4_HEADER` member boundaries. */
  lemma Ipv4Pieces(bytes: seq<uint8>)
    requires |bytes| >= IPV4_HEADER_SIZE
    ensures bytes[..IPV4_HEADER_SIZE]
         == [bytes[0], bytes[1]] + bytes[2..4] + bytes[4..6] + bytes[6..8]
            + [bytes[8], bytes[9]] + bytes[10..12] + bytes[12..16] + bytes[16..20]
  {
  }

  // ----- IPv6 -----

  /** The `Version` bits of the little-endian word at the start are the high nibble of its first byte. */
  lemma VersionIsFirstNibble(bytes: seq<uint8>)
    requires |bytes| >= 4
    ensures Field(Load32(bytes, 0), VERSION_CLASS_FLOW_BITS, 1) == bytes[0] / 0x10
  {
    var w := Load32(bytes, 0);
    var above := bytes[1] as int + 0x100 * bytes[2] as int + 0x1_0000 * bytes[3] as int;
    var q := bytes[0] / 0x10 + 0x10 * above;
    assert w == 0x10 * q + bytes[0] % 0x10;
    assert Pow2(4) == 0x10;
    DivModUnique(w, 0x10, q, bytes[0] % 0x10);
    DivModUnique(q, 0x10, above, bytes[0] / 0x10);
  }

  /** Every member of `IPV6_HEADER` is written at the offset the struct layout gives it. */
  lemma Ipv6FieldOffsets(h: Ipv6Header)
    ensures Offsets(IPV6_MEMBERS, 0) == [0, 4, 6, 7, 8, 24]
    ensures Load32(EncodeIpv6(h), 0) == h.versionClassFlow
    ensures Load16(EncodeIpv6(h), 4) == h.payloadLength
    ensures EncodeIpv6(h)[6] == h.nextHeader
    ensures EncodeIpv6(h)[7] == h.hopLimit
    ensures EncodeIpv6(h)[8..8 + IPV6_ADDRESS_SIZE] == h.sourceAddress
    ensures EncodeIpv6(h)[24..24 + IPV6_ADDRESS_SIZE] == h.destinationAddress
  {
    Ipv6Offsets();
    var (word, length) := (Store32(h.versionClassFlow), Store16(h.payloadLength));
    var rest := [h.nextHeader, h.hopLimit] + h.sourceAddress + h.destinationAddress;
    assert EncodeIpv6(h) == word + length + rest;
    Load32OfFront(word, length + rest, 0);
    Load16OfBack(word, length + rest, 0);
    Load16OfFront(length, rest, 0);
  }

  /** Decoding an encoded IPv6 header gives back every field. */
  lemma Ipv6DecodeOfEncode(h: Ipv6Header)
    ensures DecodeIpv6(EncodeIpv6(h)) == h
  {
    Ipv6FieldOffsets(h);
  }

  /** Encoding a decoded IPv6 header reproduces the 40 bytes it was read from. */
  lemma Ipv6EncodeOfDecode(bytes: seq<uint8>)
    requires |bytes| >= IPV6_HEADER_SIZE
    ensures EncodeIpv6(DecodeIpv6(bytes)) == bytes[..IPV6_HEADER_SIZE]
  {
    var h := DecodeIpv6(bytes);
    assert EncodeIpv6(h)
        == Store32(Load32(bytes, 0)) + Store16(Load16(bytes, 4)) + [bytes[6], bytes[7]]
           + bytes[8..24] + bytes[24..40];
    Store32OfLoad32(bytes, 0);
    Store16OfLoad16(bytes, 4);
    Ipv6Pieces(bytes);
  }

  /** The first 40 bytes, cut at the `IPV6_HEADER` member boundaries. */
  lemma Ipv6Pieces(bytes: seq<uint8>)
    requires |bytes| >= IPV6_HEADER_SIZE
    ensures bytes[..IPV6_HEADER_SIZE]
         == bytes[0..4] + bytes[4..6] + [bytes[6], bytes[7]] + bytes[8..24] + bytes[24..40]
  {
  }
}
