/**
 * Fixed-width unsigned integers and how a little-endian host lays them out in memory.
 *
 * A `uint16_t` or `uint32_t` member of a header struct is read with a plain load:
 * the byte at the lowest address is the least significant. That is the packing of
 * 8-bit lanes, least significant first, so it is expressed with `Bitfields`.
 * Struct members are placed in declaration order, each at the next offset that is
 * a multiple of its alignment, and the struct's size is rounded up to its largest
 * alignment.
 */
module Memory {
  import opened Bitfields

  type uint8 = x: int | 0 <= x < 0x100
  type uint16 = x: int | 0 <= x < 0x1_0000
  type uint32 = x: int | 0 <= x < 0x1_0000_0000

  /** The layout of an `n`-byte integer: `n` lanes of 8 bits. */
  function ByteLanes(n: nat): (widths: seq<nat>)
    ensures |widths| == n && Width(widths) == 8 * n
    ensures forall i :: 0 <= i < n ==> widths[i] == 8
  {
    if n == 0 then [] else
      var rest := ByteLanes(n - 1);
      assert ([8] + rest)[1..] == rest;
      [8] + rest
  }

  /** The value a little-endian load of `bytes` produces. */
  function LoadLE(bytes: seq<uint8>): (v: nat)
    ensures v < Pow2(8 * |bytes|)
  {
    assert Pow2(8) == 256;
    Pack(bytes, ByteLanes(|bytes|))
  }

  /** The `n` bytes a little-endian store of `v` writes, low byte first; loading them gives `v` back. */
  function StoreLE(v: nat, n: nat): (bytes: seq<uint8>)
    requires v < Pow2(8 * n)
    ensures |bytes| == n
    ensures LoadLE(bytes) == v
  {
    if n == 0 then
      assert v == 0;
      []
    else
      Pow2Add(8, 8 * (n - 1));
      assert Pow2(8) == 0x100;
      DivBound(v, 0x100, Pow2(8 * (n - 1)));
      var rest := StoreLE(v / 0x100, n - 1);
      var bytes := [(v % 0x100) as uint8] + rest;
      LoadLEFirst(bytes);
      assert bytes[1..] == rest;
      bytes
  }

  /** Storing what was loaded writes the same bytes back. */
  lemma {:induction false} StoreOfLoad(bytes: seq<uint8>)
    ensures StoreLE(LoadLE(bytes), |bytes|) == bytes
    decreases |bytes|
  {
    if |bytes| > 0 {
      var v := LoadLE(bytes);
      var rest := bytes[1..];
      LoadLEFirst(bytes);
      DivModUnique(v, 0x100, LoadLE(rest), bytes[0] as int);
      StoreOfLoad(rest);
    }
  }

  /** A load reads the first byte as the low byte and the rest as the bytes above it. */
  lemma LoadLEFirst(bytes: seq<uint8>)
    requires |bytes| > 0
    ensures LoadLE(bytes) == bytes[0] as int + 0x100 * LoadLE(bytes[1..])
  {
    assert ByteLanes(|bytes|)[1..] == ByteLanes(|bytes| - 1);
    assert Pow2(8) == 256;
  }

  /** A two-byte load: the byte at the higher address is the high byte. */
  lemma LoadLE2(bytes: seq<uint8>)
    requires |bytes| == 2
    ensures LoadLE(bytes) == bytes[0] as int + 0x100 * bytes[1] as int
  {
    LoadLEFirst(bytes);
    LoadLEFirst(bytes[1..]);
  }

  /** A four-byte load: byte `k` carries weight 256 to the power `k`. */
  lemma LoadLE4(bytes: seq<uint8>)
    requires |bytes| == 4
    ensures LoadLE(bytes)
            == bytes[0] as int + 0x100 * bytes[1] as int
               + 0x1_0000 * bytes[2] as int + 0x100_0000 * bytes[3] as int
  {
    LoadLEFirst(bytes);
    LoadLEFirst(bytes[1..]);
    LoadLEFirst(bytes[2..]);
    LoadLEFirst(bytes[3..]);
    assert bytes[1..][1..] == bytes[2..];
    assert bytes[2..][1..] == bytes[3..];
  }

  /** The `uint16_t` stored at `bytes[at..at + 2]`. */
  function Load16(bytes: seq<uint8>, at: nat): (v: uint16)
    requires at + 2 <= |bytes|
    ensures v == bytes[at] as int + 0x100 * bytes[at + 1] as int
  {
    Pow2Widths();
    LoadLE2(bytes[at..at + 2]);
    LoadLE(bytes[at..at + 2])
  }

  /** The `uint32_t` stored at `bytes[at..at + 4]`. */
  function Load32(bytes: seq<uint8>, at: nat): (v: uint32)
    requires at + 4 <= |bytes|
    ensures v == bytes[at] as int + 0x100 * bytes[at + 1] as int
                 + 0x1_0000 * bytes[at + 2] as int + 0x100_0000 * bytes[at + 3] as int
  {
    Pow2Widths();
    LoadLE4(bytes[at..at + 4]);
    LoadLE(bytes[at..at + 4])
  }

  /** The two bytes a `uint16_t` occupies in memory. */
  function Store16(v: uint16): (bytes: seq<uint8>)
    ensures |bytes| == 2 && Load16(bytes, 0) == v
  {
    Pow2Widths();
    var bytes := StoreLE(v, 2);
    assert bytes[0..2] == bytes;
    bytes
  }

  /** The four bytes a `uint32_t` occupies in memory. */
  function Store32(v: uint32): (bytes: seq<uint8>)
    ensures |bytes| == 4 && Load32(bytes, 0) == v
  {
    Pow2Widths();
    var bytes := StoreLE(v, 4);
    assert bytes[0..4] == bytes;
    bytes
  }

  /** Storing a loaded `uint16_t` writes back the bytes it was loaded from. */
  lemma Store16OfLoad16(bytes: seq<uint8>, at: nat)
    requires at + 2 <= |bytes|
    ensures Store16(Load16(bytes, at)) == bytes[at..at + 2]
  {
    StoreOfLoad(bytes[at..at + 2]);
  }

  /** Storing a loaded `uint32_t` writes back the bytes it was loaded from. */
  lemma Store32OfLoad32(bytes: seq<uint8>, at: nat)
    requires at + 4 <= |bytes|
    ensures Store32(Load32(bytes, at)) == bytes[at..at + 4]
  {
    StoreOfLoad(bytes[at..at + 4]);
  }

  /** A load reads only the bytes it covers. */
  lemma Load16Same(a: seq<uint8>, b: seq<uint8>, at: nat)
    requires at + 2 <= |a| && at + 2 <= |b| && a[at..at + 2] == b[at..at + 2]
    ensures Load16(a, at) == Load16(b, at)
  {
    assert a[at] == a[at..at + 2][0] && a[at + 1] == a[at..at + 2][1];
    assert b[at] == b[at..at + 2][0] && b[at + 1] == b[at..at + 2][1];
  }

  /** A load reads only the bytes it covers. */
  lemma Load32Same(a: seq<uint8>, b: seq<uint8>, at: nat)
    requires at + 4 <= |a| && at + 4 <= |b| && a[at..at + 4] == b[at..at + 4]
    ensures Load32(a, at) == Load32(b, at)
  {
    var s := a[at..at + 4];
    assert a[at] == s[0] && a[at + 1] == s[1] && a[at + 2] == s[2] && a[at + 3] == s[3];
    assert b[at] == s[0] && b[at + 1] == s[1] && b[at + 2] == s[2] && b[at + 3] == s[3];
  }

  /** A 16-bit load from the front part of a concatenation reads the front part. */
  lemma Load16OfFront(a: seq<uint8>, b: seq<uint8>, at: nat)
    requires at + 2 <= |a|
    ensures Load16(a + b, at) == Load16(a, at)
  {
  }

  /** A 16-bit load from the back part of a concatenation reads the back part. */
  lemma Load16OfBack(a: seq<uint8>, b: seq<uint8>, at: nat)
    requires at + 2 <= |b|
    ensures Load16(a + b, |a| + at) == Load16(b, at)
  {
  }

  /** A 32-bit load from the front part of a concatenation reads the front part. */
  lemma Load32OfFront(a: seq<uint8>, b: seq<uint8>, at: nat)
    requires at + 4 <= |a|
    ensures Load32(a + b, at) == Load32(a, at)
  {
  }

  /** A 32-bit load from the back part of a concatenation reads the back part. */
  lemma Load32OfBack(a: seq<uint8>, b: seq<uint8>, at: nat)
    requires at + 4 <= |b|
    ensures Load32(a + b, |a| + at) == Load32(b, at)
  {
  }

  /** The ranges of 8-, 16- and 32-bit words. */
  lemma Pow2Widths()
    ensures Pow2(8) == 0x100 && Pow2(16) == 0x1_0000 && Pow2(32) == 0x1_0000_0000
  {
    Pow2Add(8, 8);
    Pow2Add(16, 16);
  }

  /** A positive number: every alignment is. */
  type pos = x: nat | x > 0 witness 1

  /** One struct member: its size in bytes and its alignment requirement. */
  datatype Member = Member(size: nat, align: pos)

  /** `n` rounded up to a multiple of `a`. */
  function AlignUp(n: nat, a: pos): nat
  {
    (n + a - 1) / a * a
  }

  /** The rounded-up offset is the least multiple of `a` at or above `n`. */
  lemma AlignUpIsAligned(n: nat, a: pos)
    ensures n <= AlignUp(n, a) < n + a && AlignUp(n, a) % a == 0
  {
    var m := n + a - 1;
    var q := m / a;
    assert m == a * q + m % a;
    assert AlignUp(n, a) == a * q;
    DivModUnique(a * q, a, q, 0);
  }

  /** Offsets of `members` laid out one after another starting at byte `at`. */
  function Offsets(members: seq<Member>, at: nat): (offsets: seq<nat>)
    ensures |offsets| == |members|
  {
    if members == [] then []
    else
      var o := AlignUp(at, members[0].align);
      [o] + Offsets(members[1..], o + members[0].size)
  }

  /**
   * C's placement rule: each member sits at the first multiple of its alignment at or
   * after the end of the member before it (or after `at`, for the first one).
   */
  lemma {:induction false} OffsetPlacement(members: seq<Member>, at: nat, i: nat)
    requires i < |members|
    ensures var offsets := Offsets(members, at);
      var previousEnd := if i == 0 then at else offsets[i - 1] + members[i - 1].size;
      && offsets[i] == AlignUp(previousEnd, members[i].align)
      && previousEnd <= offsets[i] < previousEnd + members[i].align
      && offsets[i] % members[i].align == 0
    decreases i
  {
    var offsets := Offsets(members, at);
    var next := AlignUp(at, members[0].align) + members[0].size;
    assert offsets[1..] == Offsets(members[1..], next);
    if i > 0 {
      OffsetPlacement(members[1..], next, i - 1);
      assert members[1..][i - 1] == members[i];
      if i > 1 {
        assert members[1..][i - 2] == members[i - 1];
      }
    }
    AlignUpIsAligned(if i == 0 then at else offsets[i - 1] + members[i - 1].size, members[i].align);
  }

  /** The first byte after the last member, when laying out starts at `at`. */
  function End(members: seq<Member>, at: nat): nat
  {
    if members == [] then at
    else End(members[1..], AlignUp(at, members[0].align) + members[0].size)
  }

  /** The layout ends right after its last member (where it started, when there is none). */
  lemma {:induction false} EndOfLast(members: seq<Member>, at: nat)
    ensures members == [] ==> End(members, at) == at
    ensures members != [] ==>
      End(members, at) == Offsets(members, at)[|members| - 1] + members[|members| - 1].size
    decreases |members|
  {
    if |members| > 1 {
      var next := AlignUp(at, members[0].align) + members[0].size;
      EndOfLast(members[1..], next);
      assert members[1..][|members| - 2] == members[|members| - 1];
    }
  }

  /** The largest alignment of any member (1 for an empty struct). */
  function MaxAlign(members: seq<Member>): (a: pos)
    ensures members == [] ==> a == 1
    ensures forall i :: 0 <= i < |members| ==> members[i].align <= a
    ensures members != [] ==> exists i :: 0 <= i < |members| && members[i].align == a
  {
    if members == [] then 1
    else
      var rest := MaxAlign(members[1..]);
      if members[0].align >= rest then members[0].align
      else
        assert |members| > 1;
        rest
  }

  /** `sizeof` the struct: the end of the last member, rounded up to the struct's alignment. */
  function SizeOf(members: seq<Member>): (size: nat)
    ensures End(members, 0) <= size < End(members, 0) + MaxAlign(members)
    ensures size % MaxAlign(members) == 0
  {
    AlignUpIsAligned(End(members, 0), MaxAlign(members));
    AlignUp(End(members, 0), MaxAlign(members))
  }

  /** No padding byte anywhere: each member starts where the previous one ends. */
  predicate Packed(members: seq<Member>, offsets: seq<nat>)
  {
    && |offsets| == |members|
    && (|members| > 0 ==> offsets[0] == 0)
    && forall i :: 0 < i < |members| ==> offsets[i] == offsets[i - 1] + members[i - 1].size
  }

  /** Laying out two member lists one after the other: the second starts where the first ends. */
  lemma {:induction false} LayoutAppend(front: seq<Member>, back: seq<Member>, at: nat)
    ensures Offsets(front + back, at) == Offsets(front, at) + Offsets(back, End(front, at))
    ensures End(front + back, at) == End(back, End(front, at))
    decreases |front|
  {
    if front == [] {
      assert front + back == back;
    } else {
      var all := front + back;
      var o := AlignUp(at, front[0].align);
      var next := o + front[0].size;
      assert all[0] == front[0];
      assert all[1..] == front[1..] + back;
      LayoutAppend(front[1..], back, next);
      assert Offsets(all, at) == [o] + Offsets(all[1..], next);
      assert Offsets(front, at) == [o] + Offsets(front[1..], next);
      assert End(front, at) == End(front[1..], next);
    }
  }
}
