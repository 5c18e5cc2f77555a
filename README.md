# IPv4 and IPv6 header layouts

This project models the packet-header definitions of `include/net/ip.h`: the
`IPV4_HEADER` struct (20 bytes), the `IPV6_HEADER` struct (40 bytes), the
`ipv6_address_t` 16-byte address type and the `IPPROTO_*` protocol numbers.

The C header overlays unions and bitfields on the bytes of a packet in memory. A C
program that reads `header->Version` or writes `header->FlagsAndOffset.DontFragment`
is, in effect, running a decoder or an encoder over those bytes. The model makes that
codec explicit:

- `Ip.DecodeIpv4` and `Ip.DecodeIpv6` read a header from bytes into a record. The record
  has one field per bitfield and per plain member. The union-wide members
  (`VersionAndHeaderLength`, `TypeOfServiceAndEcnField`, `FlagsAndOffset`) and the IPv6
  `Version` are functions of the record. `protocol` and `Protocol` are one field.
- `Ip.EncodeIpv4` and `Ip.EncodeIpv6` write such a record back to bytes.

Bitfield allocation and byte order depend on the compiler and the host. The model fixes
one convention. The host is little-endian, and bitfields are allocated from the least
significant bit of their storage unit upwards, as the Windows compilers this code
targets do. Multi-byte members (`TotalLength`, `Identification`, `HeaderChecksum`, the
IPv4 addresses, `VersionClassFlow`, `PayloadLength`) hold the value a plain
little-endian load gives. The header applies no byte-order conversion, and neither does
the model.

The model has three modules:

- `Bitfields` (`bitfields.dfy`): a bitfield struct is a list of widths in declaration
  order. Reading a field is shift-and-mask, `Pack`/`Unpack` convert between a word and
  its fields, and `SetField` is a C assignment to one unsigned bitfield: the value is
  stored modulo 2 to the power of the field's width. All of this is
  arithmetic on unbounded naturals with powers of two.
- `Memory` (`memory.dfy`): 8/16/32-bit unsigned integers, little-endian loads and
  stores, and C's natural-alignment rule for laying out struct members.
- `Ip` (`ip.dfy`): the two headers, their layouts, the decoders and encoders, and the
  properties the header's comments and the IP standards promise. Those standards are
  RFC 791 section 3.1, RFC 3168 section 5 and RFC 8200 section 3.

## Model

| member | source | states |
|---|---|---|
| Bitfields.Field | include/net/ip.h:39-46 | each bitfield read from a word is below 2 to the power of its width |
| Bitfields.Pack | include/net/ip.h:39-46 | packing fields that fit their widths gives a word within the bits the layout spans |
| Bitfields.FieldOfPack | include/net/ip.h:39-46 | each field read back from a packed word is the value that was packed into it |
| Bitfields.PackOfUnpack | include/net/ip.h:36-47 | a word's fields fit their widths, and repacking them gives back the word |
| Bitfields.FieldsDetermineWord | include/net/ip.h:36-47 | two words of the layout's width with equal fields are equal, so the fields cover every bit |
| Bitfields.SetField | include/net/ip.h:39-46 | assigning any value to one bitfield of a word that fits the layout leaves a word that still fits |
| Bitfields.FieldOfSetField | include/net/ip.h:39-46 | after assigning v to field i, field i holds v modulo 2 to the power of its width, and every other field is unchanged |
| Bitfields.UnpackIsFields | include/net/ip.h:39-46 | unpacking gives each field exactly as it is read one at a time |
| Bitfields.UnpackFits | include/net/ip.h:39-46 | every unpacked field is within its width |
| Bitfields.RepackFields | include/net/ip.h:16-47 | the fields read from a word that fits its layout pack back into that word, so a union read as a whole is the memory it overlays |
| Memory.ByteLanes | include/net/ip.h:34-35 | an n-byte integer has n lanes of 8 bits, 8n bits in all |
| Memory.LoadLE | include/net/ip.h:34-35 | a little-endian load of n bytes is below 2 to the power 8n |
| Memory.StoreLE | include/net/ip.h:34-35 | a little-endian store writes n bytes, and loading them gives back the stored value |
| Memory.StoreOfLoad | include/net/ip.h:34-35 | storing a loaded value writes back the same bytes |
| Memory.LoadLEFirst | include/net/ip.h:34-35 | a load takes the first byte as the low byte and the rest, shifted up by 8 bits, above it |
| Memory.Load16 | include/net/ip.h:34 | a `uint16_t` in memory is its first byte plus 256 times its second byte |
| Memory.Load32 | include/net/ip.h:55-56 | a `uint32_t` in memory weighs byte k by 256 to the power k |
| Memory.Store16 | include/net/ip.h:34 | a stored `uint16_t` is two bytes that load back to it |
| Memory.Store32 | include/net/ip.h:55-56 | a stored `uint32_t` is four bytes that load back to it |
| Memory.Store16OfLoad16 | include/net/ip.h:34 | storing a loaded `uint16_t` reproduces the two bytes it came from |
| Memory.Store32OfLoad32 | include/net/ip.h:55-56 | storing a loaded `uint32_t` reproduces the four bytes it came from |
| Memory.Load16Same | include/net/ip.h:34 | a 16-bit load depends only on the two bytes it covers |
| Memory.Load32Same | include/net/ip.h:55-56 | a 32-bit load depends only on the four bytes it covers |
| Memory.Load16OfFront | include/net/ip.h:34 | a 16-bit load from the front part of a concatenation reads the front part |
| Memory.Load16OfBack | include/net/ip.h:34 | a 16-bit load from the back part of a concatenation reads the back part |
| Memory.Load32OfFront | include/net/ip.h:55-56 | a 32-bit load from the front part of a concatenation reads the front part |
| Memory.Load32OfBack | include/net/ip.h:55-56 | a 32-bit load from the back part of a concatenation reads the back part |
| Memory.AlignUpIsAligned | include/net/ip.h:14-57 | rounding n up to alignment a gives the least multiple of a at or above n |
| Memory.OffsetPlacement | include/net/ip.h:14-57 | for every layout, member i sits at the previous member's end (or the start) rounded up to its alignment: at or after that end, less than one alignment past it, and a multiple of its alignment |
| Memory.EndOfLast | include/net/ip.h:14-57 | a layout ends right after its last member, or where it started when it has none |
| Memory.MaxAlign | include/net/ip.h:14-57 | the struct's alignment is 1 for no members, and otherwise the alignment of some member and at least every member's alignment |
| Memory.SizeOf | include/net/ip.h:14-57 | sizeof is the end of the last member rounded up to the struct's alignment: a multiple of it, at or after that end and less than one alignment past it |
| Memory.LayoutAppend | include/net/ip.h:14-57 | laying out two member lists in a row places the second where the first ends |
| Ip.Ipv4Header.VersionAndHeaderLength | include/net/ip.h:16-24 | the byte of the union holds `HeaderLength` in bitfield 0 and `Version` in bitfield 1 |
| Ip.Ipv4Header.TypeOfServiceAndEcnField | include/net/ip.h:25-33 | the byte of the union holds `EcnField` in bitfield 0 and `TypeOfService` in bitfield 1 |
| Ip.Ipv4Header.FlagsAndOffset | include/net/ip.h:36-47 | the 16-bit word of the union holds `DontUse1`, the three flags and `DontUse2` in its five bitfields |
| Ip.Ipv4Header.FragmentOffset | include/net/ip.h:41-45 | the fragment offset is below 8192, with `DontUse1` as its high bits and `DontUse2` as its low byte |
| Ip.Ipv6Header.Version | include/net/ip.h:73-78 | `Version` is the 4 bits of `VersionClassFlow` above its lowest 4 bits |
| Ip.Ipv6Header.WithVersion | include/net/ip.h:70-79 | assigning v to `Version` sets it to v modulo 16 and keeps the two unnamed bitfields and every other member |
| Ip.DecodeIpv4 | include/net/ip.h:14-57 | each union read as a whole is the memory it overlays: `VersionAndHeaderLength` is byte 0, `TypeOfServiceAndEcnField` byte 1, `FlagsAndOffset` the word at byte 6 (its fields are pinned by the per-field lemmas and both round trips below) |
| Ip.DecodeIpv6 | include/net/ip.h:68-85 | the decoded `Version` is the high nibble of byte 0, the first four bits on the wire (the other fields are pinned by both round trips below) |
| Ip.RepackVersionAndHeaderLength | include/net/ip.h:16-24 | the two nibble fields of a byte pack back into the byte |
| Ip.RepackTypeOfServiceAndEcn | include/net/ip.h:25-33 | the ECN and type-of-service fields of a byte pack back into the byte |
| Ip.RepackFlagsAndOffset | include/net/ip.h:36-47 | the five flags-and-offset fields of a 16-bit word pack back into the word |
| Ip.EncodeIpv4 | include/net/ip.h:14-57 | an IPv4 header occupies 20 bytes |
| Ip.Ipv4Front | include/net/ip.h:16-47 | the members up to `FlagsAndOffset` occupy 8 bytes |
| Ip.Ipv4Back | include/net/ip.h:48-56 | the members from `TimeToLive` on occupy 12 bytes |
| Ip.EncodeIpv6 | include/net/ip.h:68-85 | an IPv6 header occupies 40 bytes |
| Ip.VersionClassFlowWidth | include/net/ip.h:73-78 | the unnamed 4-bit, `Version` 4-bit and unnamed 24-bit bitfields total 32 bits |
| Ip.BitfieldLayouts | include/net/ip.h:16-47 | the nibble, ECN and flags bitfields fill 8, 8 and 16 bits; the flags fields start at bits 0, 5, 6, 7, 8 |
| Ip.Ipv4Layout | include/net/ip.h:14-57 | `IPV4_HEADER` members sit at offsets 0, 1, 2, 4, 6, 8, 9, 10, 12, 16 with no padding, and sizeof is 20 |
| Ip.Ipv4Offsets | include/net/ip.h:14-57 | the member offsets of `IPV4_HEADER`, and its last member ends at byte 20 |
| Ip.Ipv4Packed | include/net/ip.h:14-57 | every `IPV4_HEADER` member starts where the one before it ends |
| Ip.Ipv4FrontLayout | include/net/ip.h:16-47 | the members up to `FlagsAndOffset` sit at 0, 1, 2, 4, 6 and end at byte 8 |
| Ip.Ipv4BackLayout | include/net/ip.h:48-56 | the members from `TimeToLive` on sit at 8, 9, 10, 12, 16 and end at byte 20 |
| Ip.Ipv4Alignment | include/net/ip.h:14-57 | the widest alignment in `IPV4_HEADER` is 4, from the addresses |
| Ip.Ipv6Layout | include/net/ip.h:62-85 | `IPV6_HEADER` members sit at 0, 4, 6, 7, 8, 24 with no padding, addresses are 16 bytes, and sizeof is 40 |
| Ip.Ipv6Offsets | include/net/ip.h:68-85 | the member offsets of `IPV6_HEADER`, and its last member ends at byte 40 |
| Ip.Ipv4VersionAndHeaderLength | include/net/ip.h:16-24 | `HeaderLength` is the low nibble and `Version` the high nibble of byte 0, and recombined they give byte 0 back |
| Ip.NibbleFields | include/net/ip.h:19-23 | the two bitfields of a byte are the byte mod 16 and the byte divided by 16 |
| Ip.Ipv4TypeOfServiceAndEcnField | include/net/ip.h:25-33 | `EcnField` is the low 2 bits and `TypeOfService` the high 6 bits of byte 1, and recombined they give byte 1 back |
| Ip.EcnFields | include/net/ip.h:28-32 | the two bitfields of a byte are the byte mod 4 and the byte divided by 4 |
| Ip.Ipv4FlagsAndOffset | include/net/ip.h:36-47 | `DontUse1` is the low 5 bits of byte 6; `MoreFragments`, `DontFragment`, `Reserved` are bits 0x20, 0x40, 0x80 of byte 6; `DontUse2` is byte 7; the fragment offset is (byte 6 mod 32) times 256 plus byte 7 |
| Ip.FlagsWordBytes | include/net/ip.h:38-46 | the five bitfields of the word loaded from bytes 6 and 7, in terms of those two bytes |
| Ip.FragmentOffsetBytes | include/net/ip.h:41-45 | that fragment offset is the low 13 bits of bytes 6 and 7 read most significant first, the wire order |
| Ip.FlagsAndOffsetBytes | include/net/ip.h:39-46 | the five bitfields of a little-endian word made of bytes b6 and b7, in terms of b6 and b7 |
| Ip.OffsetHighBits | include/net/ip.h:41 | the low 5 bits of the word are the low 5 bits of its first byte |
| Ip.FlagBits | include/net/ip.h:42-43 | bits 5 and 6 of the word are bits 5 and 6 of its first byte |
| Ip.ReservedBit | include/net/ip.h:44 | bit 7 of the word is the top bit of its first byte |
| Ip.FlagsAndOffsetFields | include/net/ip.h:39-46 | the five bitfields as divisions and remainders by 32, 64, 128 and 256 |
| Ip.FlagsAndOffsetRoundTrip | include/net/ip.h:36-47 | unpacking a `FlagsAndOffset` word into its five fields and packing them again gives back the word |
| Ip.FlagWriteKeepsFragmentOffset | include/net/ip.h:39-46 | assigning v to `MoreFragments`, `DontFragment` or `Reserved` in memory sets that flag of the decoded header to v modulo 2 and changes nothing else, so the fragment offset stays the same |
| Ip.StoreFlagsWord | include/net/ip.h:36-47 | storing a new `FlagsAndOffset` word changes only the five flags-and-offset fields of the decoded header |
| Ip.FlagWriteFields | include/net/ip.h:41-45 | assigning v to a flag of the word sets that flag to v modulo 2 and keeps the other four fields |
| Ip.Ipv4FieldOffsets | include/net/ip.h:14-57 | the computed layout's offsets are 0, 1, 2, 4, 6, 8, 9, 10, 12, 16, and the encoder writes each member at its own: the two bitfield bytes at 0 and 1, TotalLength 2, Identification 4, FlagsAndOffset 6, TimeToLive 8, `protocol` 9, HeaderChecksum 10, SourceAddress 12, DestinationAddress 16 |
| Ip.Ipv4FrontPlacement | include/net/ip.h:16-47 | two bytes followed by three stored 16-bit words put the words at offsets 2, 4 and 6 |
| Ip.Ipv4BackPlacement | include/net/ip.h:48-56 | two bytes followed by a stored 16-bit word and two 32-bit words put them at offsets 2, 4 and 8 |
| Ip.Ipv4DecodeOfEncode | include/net/ip.h:14-57 | decoding an encoded IPv4 header gives back every field |
| Ip.Ipv4EncodeOfDecode | include/net/ip.h:14-57 | encoding a decoded IPv4 header gives back the 20 bytes it was read from |
| Ip.VersionIsFirstNibble | include/net/ip.h:70-79 | the `Version` bits of the little-endian word at the start of the header are the high nibble of byte 0 |
| Ip.Ipv6FieldOffsets | include/net/ip.h:68-85 | the computed layout's offsets are 0, 4, 6, 7, 8, 24, and the encoder writes each member at its own: VersionClassFlow at 0, PayloadLength at 4, NextHeader at 6, HopLimit at 7, the 16-byte addresses at 8 and 24 |
| Ip.Ipv6DecodeOfEncode | include/net/ip.h:68-85 | decoding an encoded IPv6 header gives back every field |
| Ip.Ipv6EncodeOfDecode | include/net/ip.h:68-85 | encoding a decoded IPv6 header gives back the 40 bytes it was read from |

## Left out

- `tests/fuzz/execution_context.cpp` is not part of this model. It is a fuzzing harness whose work is done by calls into runtime code that is not available.
- `tests/sample/divide_by_zero.c` is not part of this model. It is a sample program whose outcome depends on a runtime helper and on the runtime's handling of a division by zero.
- The `_MSC_VER` and `#pragma warning` blocks, and compiler-specific bitfield allocation, are not modelled. One convention is fixed instead: little-endian host, bitfields from the least significant bit.
- Byte-order conversion is not modelled, because the header performs none. Multi-byte members are the values a little-endian load gives.
- Traffic class and flow label accessors, and any meaning of a zero `PayloadLength` (jumbo payload), are not modelled. The header names only `Version` inside `VersionClassFlow` and describes the rest only in comments.
- The `iphdr` alias (include/net/ip.h:91) is a name mapping only.
- The `protocol`/`Protocol` union is one record field, `protocol`. Both names denote the same byte at offset 9, which `Ip.Ipv4FieldOffsets` states.
- The `IPPROTO_*` numbers are declared as constants with the header's values. The header defines them and nothing else in it uses them, so there is nothing to prove about them.
- Ip.DecodeIpv4 and Ip.DecodeIpv6 require at least a header's worth of bytes. The C code casts a pointer to the struct and has no error path for a short buffer; reading past the buffer is undefined behaviour.
- Bit masks and shifts are written as remainders and quotients by powers of two on unbounded naturals, not as bit-vector operations.
