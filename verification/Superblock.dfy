/** The superblock and the sizes of the areas at the front of an arena file. */
module Superblocks {
  import opened Bytes
  import Allocators

  const SUPERBLOCK_SIZE := 4096
  const MAGIC: seq<Byte> := [0x48, 0x4F, 0x52, 0x52, 0x45, 0x55, 0x4D, 0x00]
  const VERSION := 1
  const USED := 56

  datatype Superblock = Superblock(
    version: U32, regionSize: U64, indexOffset: U64, indexLen: U64, walOffset: U64, flags: U32, checkpointCount: U64)

  function Encode(sb: Superblock): (b: seq<Byte>)
    ensures |b| == SUPERBLOCK_SIZE
  {
    Front(sb) + Back(sb) + seq(SUPERBLOCK_SIZE - USED, _ => 0)
  }

  function Front(sb: Superblock): (b: seq<Byte>)
    ensures |b| == 28
  {
    MAGIC + Le32(sb.version) + Le64(sb.regionSize) + Le64(sb.indexOffset)
  }

  function Back(sb: Superblock): (b: seq<Byte>)
    ensures |b| == 28
  {
    Le64(sb.indexLen) + Le64(sb.walOffset) + Le32(sb.flags) + Le64(sb.checkpointCount)
  }

  datatype Read = Ok(sb: Superblock) | TooSmall | BadMagic | BadVersion

  function Decode(b: seq<Byte>): Read {
    if |b| < SUPERBLOCK_SIZE then TooSmall
    else if b[..8] != MAGIC then BadMagic
    else if Get32(b[8..12]) != VERSION then BadVersion
    else Ok(Superblock(Get32(b[8..12]), Get64(b[12..20]), Get64(b[20..28]), Get64(b[28..36]),
                       Get64(b[36..44]), Get32(b[44..48]), Get64(b[48..56])))
  }

  /** Which error comes when. */
  lemma DecodeExactly(b: seq<Byte>)
    ensures Decode(b) == TooSmall <==> |b| < 4096
    ensures Decode(b) == BadMagic <==> |b| >= 4096 && b[..8] != [0x48, 0x4F, 0x52, 0x52, 0x45, 0x55, 0x4D, 0x00]
    ensures Decode(b) == BadVersion <==>
              |b| >= 4096 && b[..8] == [0x48, 0x4F, 0x52, 0x52, 0x45, 0x55, 0x4D, 0x00] && Get32(b[8..12]) != 1
  {
    hide Get32, Get64;
  }

  lemma FrontBytes(sb: Superblock)
    ensures var f := Front(sb);
            && f[..8] == MAGIC && f[8..12] == Le32(sb.version)
            && f[12..20] == Le64(sb.regionSize) && f[20..28] == Le64(sb.indexOffset)
  {
    hide Le64, Le32;
    var a, b, c := Le32(sb.version), Le64(sb.regionSize), Le64(sb.indexOffset);
    assert Front(sb) == MAGIC + a + b + c;
  }

  lemma BackBytes(sb: Superblock)
    ensures var f := Back(sb);
            && f[..8] == Le64(sb.indexLen) && f[8..16] == Le64(sb.walOffset)
            && f[16..20] == Le32(sb.flags) && f[20..28] == Le64(sb.checkpointCount)
  {
    hide Le64, Le32;
    var a, b, c, d := Le64(sb.indexLen), Le64(sb.walOffset), Le32(sb.flags), Le64(sb.checkpointCount);
    assert Back(sb) == a + b + c + d;
  }

  /** A superblock reads back exactly when it has the supported version. */
  lemma RoundTrip(sb: Superblock)
    ensures Decode(Encode(sb)) == Ok(sb) <==> sb.version == VERSION
  {
    FrontBytes(sb);
    BackBytes(sb);
    hide Le64, Le32, Get64, Get32, Front, Back;
    var f, g, b := Front(sb), Back(sb), Encode(sb);
    var z: seq<Byte> := seq(SUPERBLOCK_SIZE - USED, _ => 0);
    assert b == f + (g + z) && b[28..] == g + z;
    SliceFront(f, g + z, 0, 8);
    SliceFront(f, g + z, 8, 12);
    SliceFront(f, g + z, 12, 20);
    SliceFront(f, g + z, 20, 28);
    BackSlices(b, g, z);
  }

  lemma BackSlices(b: seq<Byte>, g: seq<Byte>, z: seq<Byte>)
    requires |g| == 28 && |b| >= 56 && b[28..] == g + z
    ensures b[28..36] == g[..8] && b[36..44] == g[8..16] && b[44..48] == g[16..20] && b[48..56] == g[20..28]
  {
    SubsliceFrom(b, 28, 0, 8);
    SubsliceFrom(b, 28, 8, 16);
    SubsliceFrom(b, 28, 16, 20);
    SubsliceFrom(b, 28, 20, 28);
  }

  // ----- Sizes -----

  const ONE_MIB := 0x10_0000

  /** Room for the index checkpoint, as the persistence layer computes it. */
  function CheckpointMax(regionSize: nat): (n: nat)
    ensures 4096 <= n <= ONE_MIB
  {
    var v := regionSize / 8;
    var capped := if v > ONE_MIB then ONE_MIB else v;
    if capped < 4096 then 4096 else capped
  }

  /** The prefix no object is placed in, as the arena computes it. */
  function ReservedBytes(regionSize: nat): (n: nat)
    ensures n <= regionSize / 2
  {
    var ck := regionSize / 8;
    var ck1 := if ck > 0x10_0000 then 0x10_0000 else ck;
    var ck2 := if ck1 < 4096 then 4096 else ck1;
    var reserved := 4096 + ck2;
    if reserved > regionSize / 2 then regionSize / 2 else reserved
  }

  /** The two packages agree, and the persistence areas fit the prefix, exactly
      for regions of 16 KiB or more. */
  lemma PrefixCovers(regionSize: nat)
    ensures SUPERBLOCK_SIZE + CheckpointMax(regionSize) <= ReservedBytes(regionSize) <==> regionSize >= 0x4000
    ensures regionSize >= 0x4000 ==> ReservedBytes(regionSize) == SUPERBLOCK_SIZE + CheckpointMax(regionSize)
  {
  }

  /** A checkpoint has an eighth of the region, from 32 KiB up to 8 MiB regions; less
      is rounded up to 4 KiB, and more cut off at 1 MiB.  The prefix is that and 4 KiB. */
  lemma AreaSizes(regionSize: nat)
    ensures regionSize <= 32768 ==> CheckpointMax(regionSize) == 4096
    ensures 32768 <= regionSize <= 8388608 ==> CheckpointMax(regionSize) == regionSize / 8
    ensures 8388608 <= regionSize ==> CheckpointMax(regionSize) == 1048576
    ensures regionSize < 16384 ==> ReservedBytes(regionSize) == regionSize / 2
    ensures 16384 <= regionSize ==> ReservedBytes(regionSize) == 4096 + CheckpointMax(regionSize)
  {
  }

  const CLEAR_FROM := 0x3FF2

  /** Objects start at the prefix rounded up to eight bytes.  That clears superblock
      and checkpoint exactly from 14 bytes below 16 KiB on. */
  lemma ObjectsClear(regionSize: nat)
    ensures SUPERBLOCK_SIZE + CheckpointMax(regionSize) <= Allocators.Align8(ReservedBytes(regionSize))
            <==> regionSize >= CLEAR_FROM
  {
  }
}
