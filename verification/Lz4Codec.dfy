/** The value compressor: a length prefix in front of an LZ4 block. */
module Lz4Codec {
  import opened Bytes
  import opened Lz4Format
  import opened Lz4Encoder
  import Lz4Greedy
  import Lz4Accept
  import Lz4Decoder

  const SIZE_PREFIX := 4

  function HashU32(v: nat): (h: nat)
    ensures h < HASH_SIZE
  {
    v * 2654435761 % TWO32 / 0x1_0000
  }

  datatype Outcome = Value(bytes: seq<Byte>) | Corrupt | TooLarge | WrongLength(got: nat, want: nat)

  /** What a stored payload decompresses to. */
  function Decompressed(src: seq<Byte>): Outcome {
    if |src| < SIZE_PREFIX then Corrupt
    else
      var size := Get32(src[..SIZE_PREFIX]);
      if size > MAX_INPUT then TooLarge
      else match Lz4Decoder.DecodeFrom(src[SIZE_PREFIX..], 0, size, [])
        case Ok(bytes) => if |bytes| == size then Value(bytes) else WrongLength(|bytes|, size)
        case Corrupt => Corrupt
  }

  function Compressed(src: seq<Byte>): seq<Byte> {
    Le32(|src|) + EncodeBlock(ParseAll(src, HashU32))
  }

  /** Decompressing a compressed value gives the value back, for every value
      within the size limit. */
  lemma RoundTrips(src: seq<Byte>)
    requires |src| <= MAX_INPUT
    ensures Decompressed(Compressed(src)) == Value(src)
  {
    hide ParseAll, EncodeBlock, Lz4Decoder.DecodeFrom, Get32, Le32, HashU32;
    RoundTrip(src, HashU32);
    var c := Compressed(src);
    assert c[..SIZE_PREFIX] == Le32(|src|) && c[SIZE_PREFIX..] == EncodeBlock(ParseAll(src, HashU32));
  }

  /** Every input of at least 64 bytes that repeats itself, twice or more, with a period
      below 64 KiB whose windows have hash slots of their own gets shorter. */
  lemma RepetitionShrinks(src: seq<Byte>, p: nat)
    requires 64 <= |src| && 0 < p < 65536 && 2 * p <= |src|
    requires Lz4Greedy.HasPeriod(src, p) && Lz4Greedy.OwnSlots(src, HashU32, p)
    ensures |Compressed(src)| < |src|
  {
    hide ParseAll, EncodeBlock, Lz4Greedy.HasPeriod, Lz4Greedy.OwnSlots, HashU32;
    Lz4Greedy.PeriodSize(src, HashU32, p);
  }

  /** What is refused before decoding, and what after: too short for the prefix, a
      length above the limit, bytes that are no block of at most that length, and
      blocks of another length. */
  lemma DecompressExactly(src: seq<Byte>)
    ensures |src| < 4 ==> Decompressed(src) == Corrupt
    ensures |src| >= 4 ==>
              var size := Get32(src[..4]);
              && (Decompressed(src) == TooLarge <==> size > 2113929216)
              && (size <= 2113929216 ==> (forall r :: Decompressed(src) == Value(r) <==>
                    |r| == size && exists ss, e :: Lz4Accept.Spells(src[4..], ss, e, [], r)))
  {
    hide Lz4Decoder.DecodeFrom, Get32, Lz4Accept.Spells;
    if |src| >= 4 {
      forall r: seq<Byte>
        ensures Lz4Decoder.DecodeFrom(src[4..], 0, Get32(src[..4]), []) == Lz4Decoder.Ok(r)
                <==> |r| <= Get32(src[..4]) && exists ss, e :: Lz4Accept.Spells(src[4..], ss, e, [], r)
      {
        Lz4Accept.AcceptsExactly(src[4..], Get32(src[..4]), r);
      }
    }
  }

  /** A pooled buffer: long enough, with whatever bytes its last user left. */
  method GetBuffer(n: nat) returns (buf: array<Byte>)
    ensures fresh(buf) && buf.Length == n
  {
    buf := new Byte[n];
  }

  class Lz4 {
    const minSize: nat

    constructor (minSize: int)
      ensures this.minSize == if minSize <= 0 then 64 else minSize
    {
      this.minSize := if minSize <= 0 then 64 else minSize;
    }

    /** Compresses, unless the value is too small, too large or would not get
        shorter. */
    method Compress(src: seq<Byte>) returns (out: seq<Byte>, ok: bool)
      ensures ok <==> && minSize <= |src| <= 2113929216 && 9 <= |src|
                      && |Compressed(src)| < |src|
      ensures ok ==> out == Compressed(src) && Decompressed(out) == Value(src)
      ensures !ok ==> out == []
    {
      hide ParseAll, EncodeBlock, Lz4Decoder.DecodeFrom, Le32, Get32, Decompressed;
      var n := |src|;
      if n < minSize || n > MAX_INPUT { return [], false; }
      var dst := GetBuffer(SIZE_PREFIX + n + n / 255 + 16);
      CopyInto(dst, 0, Le32(n));
      var compLen := CompressBlock(dst, SIZE_PREFIX, src, HashU32);
      if compLen <= 0 || SIZE_PREFIX + compLen >= n { return [], false; }
      RoundTrips(src);
      return dst[..SIZE_PREFIX + compLen], true;
    }

    /** Decompresses into a pooled buffer; the outcome does not depend on what
        that buffer held. */
    method Decompress(src: seq<Byte>) returns (r: Outcome)
      ensures r == Decompressed(src)
    {
      if |src| < SIZE_PREFIX { return Corrupt; }
      var size := Get32(src[..SIZE_PREFIX]);
      if size > MAX_INPUT { return TooLarge; }
      var dst := GetBuffer(size);
      var n := Lz4Decoder.DecompressBlock(dst, size, src[SIZE_PREFIX..]);
      if n.Corrupt? { return Corrupt; }
      if n.value != size { return WrongLength(n.value, size); }
      return Value(dst[..size]);
    }
  }
}
