/** The byte formats, spelled out on one example each. */
module Formats {
  import opened Bytes
  import opened Lz4Format
  import Checkpoint
  import Lz4Codec
  import Lz4Encoder
  import Lz4Greedy
  import Packed
  import Protocol
  import Superblocks
  import Wal

  /** A number of two bytes, as two, four and eight bytes. */
  lemma TwoBytes(n: nat, low: Byte, high: Byte)
    requires n == low + 256 * (high as int)
    ensures Le16(n) == [low, high] && Le32(n) == [low, high, 0, 0] && Le64(n) == [low, high, 0, 0] + [0, 0, 0, 0]
  {
    hide Le16, Le32, Le64;
    assert n % 256 == low && n / 256 == high && n / 65536 == n / 16777216 == n / 4294967296 == 0;
    LowFirst(n);
    LowFirst(0);
  }

  /** Records of the write-ahead log: magic, operation, lengths, place, expiry time, key
      and value. */
  lemma LogBytes()
    ensures Wal.Encode(Wal.Set([7], [8, 9], Wal.Location(4112, 2, 3)))
         == [0x57, 0x41, 0x4C, 0] + [1] + [1, 0] + [2, 0, 0, 0] + ([16, 16, 0, 0] + [2, 0, 0, 0] + [3]) + [7] + [8, 9]
    ensures Wal.Encode(Wal.SetEx([7], [8, 9], Wal.Location(4112, 2, 3), 258))
         == [0x57, 0x41, 0x4C, 0] + [3] + [1, 0] + [2, 0, 0, 0]
            + ([16, 16, 0, 0] + [2, 0, 0, 0] + [3] + [2, 1, 0, 0]) + [7] + [8, 9]
    ensures Wal.Encode(Wal.Del([7])) == [0x57, 0x41, 0x4C, 0] + [2] + [1, 0] + [0, 0, 0, 0] + [] + [7] + []
  {
    hide Le16, Le32;
    TwoBytes(0, 0, 0);
    TwoBytes(1, 1, 0);
    TwoBytes(2, 2, 0);
    TwoBytes(258, 2, 1);
    TwoBytes(4112, 16, 16);
  }

  /** A checkpoint of one entry: magic, version and count; hash, length of the key,
      place, and the key, padded to four bytes. */
  lemma CheckpointBytes()
    ensures Checkpoint.EncodeSnapshot([Checkpoint.SnapEntry(5, [7], Handle(4112, 2, 0, 3), 0)])
         == ([0x49, 0x44, 0x58, 0] + [1, 0, 0, 0] + [1, 0, 0, 0])
            + (([5, 0, 0, 0] + [0, 0, 0, 0] + [1, 0] + [16, 16, 0, 0] + [2, 0, 0, 0] + [3, 0]) + [7, 0, 0, 0])
  {
    hide Le16, Le32, Le64;
    TwoBytes(1, 1, 0);
    TwoBytes(2, 2, 0);
    TwoBytes(5, 5, 0);
    TwoBytes(4112, 16, 16);
    var e := Checkpoint.SnapEntry(5, [7], Handle(4112, 2, 0, 3), 0);
    assert Checkpoint.Padded([7]) == [7, 0, 0, 0];
    assert Checkpoint.EncodeEntries([e]) == Checkpoint.EncodeEntry(e) + Checkpoint.EncodeEntries([e][1..]);
  }

  /** The used part of a superblock: magic, version, region size; offset and length of the
      checkpoint, log offset, flags, and how many entries the checkpoint has. */
  lemma SuperblockBytes()
    ensures var sb := Superblocks.Superblock(1, 32768, 4096, 4097, 8192, 2, 3);
            Superblocks.Encode(sb)[..28] == [0x48, 0x4F, 0x52, 0x52, 0x45, 0x55, 0x4D, 0] + [1, 0, 0, 0]
              + ([0, 128, 0, 0] + [0, 0, 0, 0]) + ([0, 16, 0, 0] + [0, 0, 0, 0])
    ensures var sb := Superblocks.Superblock(1, 32768, 4096, 4097, 8192, 2, 3);
            Superblocks.Encode(sb)[28..56] == ([1, 16, 0, 0] + [0, 0, 0, 0]) + ([0, 32, 0, 0] + [0, 0, 0, 0])
              + [2, 0, 0, 0] + ([3, 0, 0, 0] + [0, 0, 0, 0])
  {
    hide Le32, Le64;
    TwoBytes(1, 1, 0);
    TwoBytes(2, 2, 0);
    TwoBytes(3, 3, 0);
    TwoBytes(32768, 0, 128);
    TwoBytes(4096, 0, 16);
    TwoBytes(4097, 1, 16);
    TwoBytes(8192, 0, 32);
    var sb := Superblocks.Superblock(1, 32768, 4096, 4097, 8192, 2, 3);
    HalvesOf(Superblocks.Front(sb), Superblocks.Back(sb), seq(4040, _ => 0));
  }

  lemma HalvesOf(f: seq<Byte>, g: seq<Byte>, z: seq<Byte>)
    requires |f| == |g| == 28
    ensures (f + g + z)[..28] == f && (f + g + z)[28..56] == g
  {
  }

  /** A request. */
  lemma RequestBytes()
    ensures Protocol.EncodeRequest(2, [7], [8, 9]) == [0x48, 0x48, 2, 0, 1, 0, 2, 0, 0, 0, 7, 8, 9]
  {
    assert Le16(1) == [1, 0] && Le32(2) == [2, 0, 0, 0] && Le16(0x4848) == [0x48, 0x48];
  }

  /** Packed hashes, sets and lists. */
  lemma PackedBytes()
    ensures Packed.Encode(Packed.Fields, [Packed.Item([7], [8, 9])]) == [1, 0, 0, 0, 1, 0, 7, 2, 0, 0, 0, 8, 9]
    ensures Packed.Encode(Packed.Members, [Packed.Item([7], [])]) == [1, 0, 0, 0, 1, 0, 7]
    ensures Packed.Encode(Packed.Elements, [Packed.Item([], [8, 9])]) == [1, 0, 0, 0, 2, 0, 0, 0, 8, 9]
  {
    assert Le16(1) == [1, 0] && Le32(1) == [1, 0, 0, 0] && Le32(2) == [2, 0, 0, 0];
    hide Le16, Le32;
    Packed.BodyOne(Packed.Fields, Packed.Item([7], [8, 9]));
    Packed.BodyOne(Packed.Members, Packed.Item([7], []));
    Packed.BodyOne(Packed.Elements, Packed.Item([], [8, 9]));
  }

  /** The two bytes "ab", 32 times. */
  function Abab(): (src: seq<Byte>)
    ensures |src| == 64 && forall i :: 0 <= i < 64 ==> src[i] == if i % 2 == 0 then 97 else 98
  {
    seq(64, i => if i % 2 == 0 then 97 else 98)
  }

  /** They compress to twelve bytes: the length, three literals, a match of 61 bytes two
      back, and an empty end. */
  lemma AbabBytes()
    ensures Lz4Codec.Compressed(Abab()) == [64, 0, 0, 0, 0x3F, 97, 98, 97, 2, 0, 42, 0]
  {
    var src := Abab();
    AbabSlots();
    Lz4Greedy.PeriodIsOneMatch(src, Lz4Codec.HashU32, 2);
    hide Abab, Lz4Encoder.ParseAll, Lz4Codec.HashU32;
    var s := Sequence(src[..3], 2, 57);
    assert src[..3] == [97, 98, 97];
    assert Extension(42) == [42];
    assert Le16(2) == [2, 0] && Le32(64) == [64, 0, 0, 0];
    assert EncodeAll([s]) == EncodeSequence(s) + EncodeAll([s][1..]);
  }

  /** The hash of two windows: the upper half of a product modulo 2^32. */
  lemma HashExamples()
    ensures Lz4Codec.HashU32(1) == 40503 && Lz4Codec.HashU32(0x61626162) == 15642
  {
  }

  lemma AbabSlots()
    ensures Lz4Greedy.HasPeriod(Abab(), 2) && Lz4Greedy.OwnSlots(Abab(), Lz4Codec.HashU32, 2)
  {
    hide Abab;
    var src := Abab();
    assert src[1..5] == [98, 97, 98, 97] && src[2..6] == [97, 98, 97, 98];
    assert Get32([98, 97, 98, 97]) == 0x61626162 && Get32([97, 98, 97, 98]) == 0x62616261 by {
      assert [98, 97, 98, 97][..2] == [98, 97] && [98, 97, 98, 97][2..4] == [98, 97];
      assert [97, 98, 97, 98][..2] == [97, 98] && [97, 98, 97, 98][2..4] == [97, 98];
    }
    assert Lz4Codec.HashU32(0x61626162) != Lz4Codec.HashU32(0x62616261);
  }
}
