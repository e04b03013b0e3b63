/** Keys, and the fixed-width little-endian integers that every on-disk and
    on-wire format of the store is built from.  The writers truncate exactly as
    the unsigned conversions of the program do. */
module Bytes {

  type Byte = x: int | 0 <= x < 256

  type Key = seq<Byte>

  datatype Option<+T> = None | Some(value: T)

  const TWO16: int := 0x1_0000
  const TWO32: int := 0x1_0000_0000
  const TWO48: int := 0x1_0000_0000_0000
  const TWO64: int := 0x1_0000_0000_0000_0000

  type U16 = x: int | 0 <= x < 0x1_0000
  type U32 = x: int | 0 <= x < 0x1_0000_0000
  type U64 = x: int | 0 <= x < 0x1_0000_0000_0000_0000

  function Le16(n: nat): (b: seq<Byte>)
    ensures |b| == 2
    ensures Get16(b) == n % TWO16
  {
    [n % 256, n / 256 % 256]
  }

  function Le32(n: nat): (b: seq<Byte>)
    ensures |b| == 4
    ensures Get32(b) == n % TWO32
  {
    var lo, hi := Le16(n), Le16(n / TWO16);
    assert (lo + hi)[..2] == lo && (lo + hi)[2..4] == hi;
    lo + hi
  }

  function Le64(n: nat): (b: seq<Byte>)
    ensures |b| == 8
    ensures Get64(b) == n % TWO64
  {
    hide Le32, Get32;
    var lo, hi := Le32(n), Le32(n / TWO32);
    assert (lo + hi)[..4] == lo && (lo + hi)[4..8] == hi;
    SplitAt32(n);
    lo + hi
  }

  lemma SplitAt32(n: nat)
    ensures n % TWO64 == n % TWO32 + TWO32 * (n / TWO32 % TWO32)
  {
  }

  function Get16(b: seq<Byte>): (n: nat)
    requires |b| >= 2
    ensures n < TWO16
  {
    b[0] as int + 256 * (b[1] as int)
  }

  function Get32(b: seq<Byte>): (n: nat)
    requires |b| >= 4
    ensures n < TWO32
  {
    Get16(b[..2]) + TWO16 * Get16(b[2..4])
  }

  function Get64(b: seq<Byte>): (n: nat)
    requires |b| >= 8
    ensures n < TWO64
  {
    Get32(b[..4]) + TWO32 * Get32(b[4..8])
  }

  /** The bytes, low ones first. */
  lemma LowFirst(n: nat)
    ensures Le16(n) == [n % 256, n / 256 % 256]
    ensures Le32(n) == [n % 256, n / 256 % 256, n / 65536 % 256, n / 16777216 % 256]
    ensures Le64(n) == Le32(n) + Le32(n / 4294967296)
  {
    assert n / 65536 / 256 == n / 16777216;
  }

  /** A reference to a blob in the arena. */
  datatype Handle = Handle(offset: U32, size: U32, meta: U16, region: Byte)

  const NO_HANDLE := Handle(0, 0, 0, 0)

  /** Reading four bytes as a number loses nothing. */
  lemma Get32Injective(a: seq<Byte>, b: seq<Byte>)
    requires |a| == |b| == 4
    ensures Get32(a) == Get32(b) <==> a == b
  {
    if Get32(a) == Get32(b) {
      assert Get16(a[..2]) == Get16(b[..2]) && Get16(a[2..4]) == Get16(b[2..4]);
      assert a == [a[0], a[1], a[2], a[3]] && b == [b[0], b[1], b[2], b[3]];
    }
  }

  /** Copies `b` into `dst` at `at`. */
  method CopyInto(dst: array<Byte>, at: nat, b: seq<Byte>)
    requires at + |b| <= dst.Length
    modifies dst
    ensures dst[..at + |b|] == old(dst[..at]) + b
  {
    forall i | 0 <= i < |b| { dst[at + i] := b[i]; }
  }

  // ----- Slices -----

  lemma Subslice(d: seq<Byte>, a: nat, b: nat, i: nat, j: nat)
    requires a <= b <= |d| && i <= j <= b - a
    ensures d[a..b][i..j] == d[a + i..a + j]
  {
    var x, y := d[a..b][i..j], d[a + i..a + j];
    assert forall t :: 0 <= t < |x| ==> x[t] == d[a..b][i + t] == y[t];
  }

  lemma SubsliceFrom(d: seq<Byte>, a: nat, i: nat, j: nat)
    requires a + i <= a + j <= |d|
    ensures d[a..][i..j] == d[a + i..a + j]
  {
    assert d[a..] == d[a..|d|];
    Subslice(d, a, |d|, i, j);
  }

  lemma SliceFront(a: seq<Byte>, b: seq<Byte>, i: nat, j: nat)
    requires i <= j <= |a|
    ensures (a + b)[i..j] == a[i..j]
  {
  }

  lemma CutAppend(a: seq<Byte>, b: seq<Byte>, p: nat)
    requires p <= |a + b|
    ensures (a + b)[..p] == if p <= |a| then a[..p] else a + b[..p - |a|]
  {
  }

  /** The bytes `a` with `b` written at `at`. */
  function Overwrite(a: seq<Byte>, at: nat, b: seq<Byte>): (r: seq<Byte>)
    requires at + |b| <= |a|
    ensures |r| == |a| && r[..at] == a[..at] && r[at + |b|..] == a[at + |b|..]
  {
    a[..at] + b + a[at + |b|..]
  }

  lemma OverwriteInside(a: seq<Byte>, i: nat, j: nat, at: nat, b: seq<Byte>)
    requires i <= at && at + |b| <= j <= |a|
    ensures Overwrite(a, at, b)[i..j] == Overwrite(a[i..j], at - i, b)
  {
    var r := Overwrite(a, at, b);
    assert r[i..at] == a[i..j][..at - i];
    assert r[at + |b|..j] == a[i..j][at - i + |b|..];
    assert r[i..j] == r[i..at] + r[at..at + |b|] + r[at + |b|..j];
  }

  lemma OverwriteElsewhere(a: seq<Byte>, at: nat, b: seq<Byte>, i: nat, j: nat)
    requires at + |b| <= |a| && i <= j <= |a| && (j <= at || at + |b| <= i)
    ensures Overwrite(a, at, b)[i..j] == a[i..j]
  {
  }
}
