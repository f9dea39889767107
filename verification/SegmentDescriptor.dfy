/** Segment descriptors of the global descriptor table (src/gdt.cpp).

  A descriptor is eight bytes laid out as in section 3.4.5 of the Intel Software Developer's
  Manual, Volume 3A. Shifts, masks and the final bitwise-or of the source act on disjoint bit
  ranges of unsigned values, and are written here as the divisions, remainders and sums that
  they compute. */
module SegmentDescriptors {
  import opened Bytes

  type Descriptor = d: seq<byte> | |d| == 8 witness [0, 0, 0, 0, 0, 0, 0, 0]

  /** Base address: bytes 7, 4, 3, 2 from the most significant down. */
  function BaseField(d: Descriptor): uint32 {
    FromBytes([d[2], d[3], d[4], d[7]])
  }

  /** The 20-bit limit field: the low nibble of byte 6, then bytes 1 and 0. */
  function LimitField(d: Descriptor): (r: uint32)
    ensures r < 0x10_0000
  {
    FromBytes([d[0], d[1], d[6] % 16, 0])
  }

  /** The G flag (bit 7 of byte 6): the limit counts 4 KiB units. */
  predicate Granular(d: Descriptor) {
    d[6] / 128 == 1
  }

  /** The D/B flag (bit 6 of byte 6): a 32-bit segment. */
  predicate Is32Bit(d: Descriptor) {
    d[6] / 64 % 2 == 1
  }

  /** The highest offset that the processor accepts in the segment. */
  function EffectiveLimit(d: Descriptor): uint32 {
    if Granular(d) then LimitField(d) * 4096 + 4095 else LimitField(d)
  }

  /** What the kernel's `Limit` reports: it scales only when G and D/B are both set. */
  function ReportedLimit(d: Descriptor): uint32 {
    if d[6] / 64 == 3 then LimitField(d) * 4096 + 4095 else LimitField(d)
  }

  /** What the eight bytes say after encoding `base`, `limit` and `access`. */
  ghost predicate Encodes(d: Descriptor, base: uint32, limit: uint32, access: byte) {
    && BaseField(d) == base
    && d[5] == access
    && Is32Bit(d)
    && d[6] / 16 % 4 == 0
    && (Granular(d) <==> limit > 65536)
    && LimitField(d) == (if limit <= 65536 then limit else (limit + 1) / 4096 - 1)
  }

  /** The eight bytes that the constructor stores encode its arguments. */
  lemma PackedFields(d: Descriptor, base: uint32, limit: uint32, field: uint32, access: byte)
    requires field == if limit <= 65536 then limit else (limit + 1) / 0x1000 - 1
    requires d[0] == field % 0x100 && d[1] == field / 0x100 % 0x100
    requires d[6] == (if limit <= 65536 then 0x40 else 0xC0) + field / 0x1_0000 % 0x10
    requires d[2] == base % 0x100 && d[3] == base / 0x100 % 0x100
    requires d[4] == base / 0x1_0000 % 0x100 && d[7] == base / 0x100_0000 % 0x100
    requires d[5] == access
    ensures Encodes(d, base, limit, access)
  {
    PackedBase(d, base);
    assert field < 0x10_0000;
    PackedLimit(d, if limit <= 65536 then 4 else 12, field);
  }

  lemma PackedBase(d: Descriptor, base: uint32)
    requires d[2] == base % 0x100 && d[3] == base / 0x100 % 0x100
    requires d[4] == base / 0x1_0000 % 0x100 && d[7] == base / 0x100_0000 % 0x100
    ensures BaseField(d) == base
  {
    assert [d[2], d[3], d[4], d[7]] == ToBytes(base);
    ToFromBytes(base);
  }

  lemma PackedLimit(d: Descriptor, flags: nat, field: uint32)
    requires field < 0x10_0000 && flags < 16
    requires d[0] == field % 0x100 && d[1] == field / 0x100 % 0x100
    requires d[6] == 0x10 * flags + field / 0x1_0000 % 0x10
    ensures LimitField(d) == field && d[6] / 16 == flags
  {
    assert d[6] % 16 == field / 0x1_0000 % 0x10 == field / 0x1_0000;
    assert [d[0], d[1], d[6] % 16, 0] == ToBytes(field);
    ToFromBytes(field);
  }

  class SegmentDescriptor {
    const target: array<byte>

    ghost predicate Valid() {
      target.Length == 8
    }

    constructor (base: uint32, limit: uint32, access: byte)
      ensures Valid() && fresh(target)
      ensures Encodes(target[..], base, limit, access)
    {
      target := new byte[8];
      new;
      var field: uint32 := limit;
      if limit <= 65536 {
        target[6] := 0x40;
      } else {
        if limit % 0x1000 != 0xFFF {
          field := limit / 0x1000 - 1;
        } else {
          field := limit / 0x1000;
        }
        target[6] := 0xC0;
      }

      target[0] := field % 0x100;
      target[1] := field / 0x100 % 0x100;
      target[6] := target[6] + field / 0x1_0000 % 0x10;

      target[2] := base % 0x100;
      target[3] := base / 0x100 % 0x100;
      target[4] := base / 0x1_0000 % 0x100;
      target[7] := base / 0x100_0000 % 0x100;

      target[5] := access;
      PackedFields(target[..], base, limit, field, access);
    }

    method Base() returns (result: uint32)
      requires Valid()
      ensures result == BaseField(target[..])
    {
      result := target[7];
      result := result * 0x100 + target[4];
      result := result * 0x100 + target[3];
      result := result * 0x100 + target[2];
    }

    method Limit() returns (result: uint32)
      requires Valid()
      ensures result == ReportedLimit(target[..])
    {
      result := target[6] % 0x10;
      result := result * 0x100 + target[1];
      result := result * 0x100 + target[0];
      if target[6] / 64 == 3 {
        result := result * 0x1000 + 0xFFF;
      }
    }
  }

  /** The encoding, byte by byte. */
  lemma DescriptorBytes(d: Descriptor, base: uint32, limit: uint32, access: byte)
    requires Encodes(d, base, limit, access)
    ensures d[2] as int + 256 * d[3] as int + 65536 * d[4] as int + 16777216 * d[7] as int == base
    ensures d[5] == access
    ensures d[6] / 16 == if limit <= 65536 then 4 else 12
    ensures d[0] as int + 256 * d[1] as int + 65536 * (d[6] as int % 16) == if limit <= 65536 then limit else (limit + 1) / 4096 - 1
  {
    assert FromBytes([d[0], d[1], d[6] % 16, 0]) == d[0] as int + 256 * d[1] as int + 65536 * (d[6] as int % 16);
    assert d[6] / 64 == 2 * (d[6] / 128) + d[6] / 64 % 2;
    assert d[6] / 16 == 4 * (d[6] / 64) + d[6] / 16 % 4;
  }

  /** Decoding what was encoded gives back the base, and a limit that is never larger, smaller
      by less than one 4 KiB unit, and exact just for the small limits and those that end a
      unit. Kernel and processor read the same limit. */
  lemma RoundTrip(d: Descriptor, base: uint32, limit: uint32, access: byte)
    requires Encodes(d, base, limit, access)
    ensures BaseField(d) == base
    ensures ReportedLimit(d) == EffectiveLimit(d)
    ensures limit - 4096 < ReportedLimit(d) <= limit
    ensures ReportedLimit(d) == limit <==> limit <= 65536 || limit % 4096 == 4095
  {
    if limit > 65536 {
      assert d[6] / 64 == 3;
    }
  }

  /** For a large limit the decoded one is the largest 4096k-1 that does not exceed it. */
  lemma RoundTripIsTight(d: Descriptor, base: uint32, limit: uint32, access: byte, k: nat)
    requires Encodes(d, base, limit, access) && limit > 65536
    ensures 4096 * k - 1 <= limit <==> 4096 * k - 1 <= ReportedLimit(d)
    ensures ReportedLimit(d) % 4096 == 4095
  {
    assert d[6] / 64 == 3;
    assert ReportedLimit(d) + 1 == 4096 * ((limit + 1) / 4096);
  }

  /** Encoding a decoded limit again loses nothing more. */
  lemma ReencodingIsStable(d: Descriptor, e: Descriptor, base: uint32, limit: uint32, access: byte)
    requires Encodes(d, base, limit, access)
    requires Encodes(e, base, ReportedLimit(d), access)
    ensures ReportedLimit(e) == ReportedLimit(d)
  {
    RoundTrip(d, base, limit, access);
    RoundTrip(e, base, ReportedLimit(d), access);
    if limit > 65536 {
      assert d[6] / 64 == 3;
    }
  }

  /** On arbitrary bytes the kernel's `Limit` agrees with the processor exactly when a granular
      descriptor is also a 32-bit one. */
  lemma ReportedLimitIsEffective(d: Descriptor)
    ensures ReportedLimit(d) == EffectiveLimit(d) <==> (Granular(d) ==> Is32Bit(d))
  {
    assert d[6] / 64 == d[6] / 128 * 2 + d[6] / 64 % 2;
  }
}
