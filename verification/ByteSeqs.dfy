/**
 Bytes, little-endian integers and the three file operations the cache uses:
 read a slice, write at an offset (filling any gap with zeros) and set the length.
 */
module ByteSeqs {

  type byte = b: int | 0 <= b < 256
  type Bytes = seq<byte>

  const U32_LIMIT: nat := 0x1_0000_0000
  const U64_LIMIT: nat := 0x1_0000_0000_0000_0000
  const INT_MAX: nat := 0x7fff_ffff

  type u32 = x: int | 0 <= x < 0x1_0000_0000
  type u64 = x: int | 0 <= x < 0x1_0000_0000_0000_0000

  datatype Option<+T> = None | Some(value: T)

  function Min(a: int, b: int): (m: int)
    ensures m <= a && m <= b && (m == a || m == b)
  {
    if a < b then a else b
  }

  function Max(a: int, b: int): (m: int)
    ensures m >= a && m >= b && (m == a || m == b)
  {
    if a < b then b else a
  }

  /** The low `n` bytes of `x`, least significant first. */
  function LE(n: nat, x: nat): (bs: Bytes)
    ensures |bs| == n
  {
    if n == 0 then [] else [x % 256] + LE(n - 1, x / 256)
  }

  /** The number whose little-endian form is `bs`. */
  function FromLE(bs: Bytes): nat {
    if bs == [] then 0 else bs[0] + 256 * FromLE(bs[1..])
  }

  lemma {:induction false} LEOfFromLE(bs: Bytes)
    ensures LE(|bs|, FromLE(bs)) == bs
  {
    if bs != [] {
      LEOfFromLE(bs[1..]);
      LowByte(bs[0], FromLE(bs[1..]));
      assert bs == [bs[0]] + bs[1..];
    }
  }

  lemma LowByte(b: byte, x: nat)
    ensures (b + 256 * x) % 256 == b
    ensures (b + 256 * x) / 256 == x
  {
  }

  function Pow256(n: nat): (p: nat)
    ensures p > 0
  {
    if n == 0 then 1 else 256 * Pow256(n - 1)
  }

  lemma {:induction false} FromLEOfLE(n: nat, x: nat)
    requires x < Pow256(n)
    ensures FromLE(LE(n, x)) == x
  {
    if n == 0 {
    } else {
      FromLEOfLE(n - 1, x / 256);
      assert LE(n, x)[1..] == LE(n - 1, x / 256);
    }
  }

  lemma {:induction false} FromLEBound(bs: Bytes)
    ensures FromLE(bs) < Pow256(|bs|)
  {
    if bs == [] {
    } else {
      FromLEBound(bs[1..]);
    }
  }

  lemma Pow256Values()
    ensures Pow256(4) == U32_LIMIT
    ensures Pow256(8) == U64_LIMIT
  {
    assert Pow256(2) == 65536;
    assert Pow256(4) == 256 * (256 * Pow256(2));
    assert Pow256(6) == 256 * (256 * Pow256(4));
  }

  /** A 32-bit field read back is the value that was written. */
  lemma RoundTrip32(x: nat)
    requires x < U32_LIMIT
    ensures FromLE(LE(4, x)) == x
  {
    Pow256Values();
    FromLEOfLE(4, x);
  }

  /** A 64-bit field read back is the value that was written. */
  lemma RoundTrip64(x: nat)
    requires x < U64_LIMIT
    ensures FromLE(LE(8, x)) == x
  {
    Pow256Values();
    FromLEOfLE(8, x);
  }

  /** The least significant byte comes first. */
  lemma FieldBytes(b: Bytes)
    ensures |b| == 4 ==>
              FromLE(b) == b[0] as int + 0x100 * b[1] as int + 0x1_0000 * b[2] as int + 0x100_0000 * b[3] as int
    ensures |b| == 8 ==> FromLE(b) == FromLE(b[0..4]) + 0x1_0000_0000 * FromLE(b[4..8])
  {
    if |b| == 4 {
      FourBytes(b);
    } else if |b| == 8 {
      var c := b[4..8];
      FourBytes(b[0..4]);
      assert FromLE(b) == b[0] + 256 * FromLE(b[1..]);
      assert b[1..][1..] == b[2..] && b[2..][1..] == b[3..] && b[3..][1..] == c;
      assert FromLE(b[1..]) == b[1] + 256 * FromLE(b[2..]);
      assert FromLE(b[2..]) == b[2] + 256 * FromLE(b[3..]);
      assert FromLE(b[3..]) == b[3] + 256 * FromLE(c);
    }
  }

  lemma FourBytes(b: Bytes)
    requires |b| == 4
    ensures FromLE(b) == b[0] as int + 0x100 * b[1] as int + 0x1_0000 * b[2] as int + 0x100_0000 * b[3] as int
  {
    assert b[1..][1..] == b[2..] && b[2..][1..] == b[3..] && b[3..][1..] == [];
    assert FromLE(b[3..]) == b[3] && FromLE(b[2..]) == b[2] + 256 * FromLE(b[3..]);
    assert FromLE(b[1..]) == b[1] + 256 * FromLE(b[2..]);
  }

  function Zeros(n: nat): (z: Bytes)
    ensures |z| == n && forall i | 0 <= i < n :: z[i] == 0
  {
    seq(n, _ => 0)
  }

  /** The byte at position `k`, or 0 outside the file. */
  function Peek(f: Bytes, k: int): byte {
    if 0 <= k < |f| then f[k] else 0
  }

  /** File contents after writing `d` at `off`; an empty write does nothing. */
  function WriteAt(f: Bytes, off: nat, d: Bytes): (r: Bytes)
    ensures d == [] ==> r == f
    ensures d != [] ==> |r| == Max(|f|, off + |d|)
    ensures forall i | 0 <= i < |r| :: r[i] == if off <= i < off + |d| then d[i - off] else Peek(f, i)
  {
    if d == [] then f
    else
      seq(Max(|f|, off + |d|), i requires i >= 0 => if off <= i < off + |d| then d[i - off] else Peek(f, i))
  }

  /** File contents after the length is set to `n`. */
  function SetLength(f: Bytes, n: nat): (r: Bytes)
    ensures |r| == n && forall i | 0 <= i < n :: r[i] == Peek(f, i)
  {
    seq(n, i requires i >= 0 => Peek(f, i))
  }

  /** A slice of a slice is a slice. */
  lemma SliceOfSlice(f: Bytes, lo: nat, hi: nat, a: nat, b: nat)
    requires lo <= a <= b <= hi <= |f|
    ensures f[lo..hi][a - lo..b - lo] == f[a..b]
  {
    var x, y := f[lo..hi][a - lo..b - lo], f[a..b];
    assert |x| == |y| && forall i | 0 <= i < |y| :: x[i] == y[i];
  }

  /** The bytes a positioned read of at most `n` bytes returns. */
  function ReadUpTo(f: Bytes, off: nat, n: nat): (r: Bytes)
    ensures |r| <= n
    ensures off + n <= |f| ==> r == f[off..off + n]
    ensures off <= |f| < off + n ==> r == f[off..]
    ensures off >= |f| ==> r == []
  {
    if off >= |f| then [] else f[off..Min(off + n, |f|)]
  }

  /** The value of a 32-bit pattern as a signed `int`. */
  function Signed(x: int): int {
    var m := x % U32_LIMIT;
    if m > INT_MAX then m - U32_LIMIT else m
  }

  /** It is in the range of a signed 32-bit number, and differs from `x` by a multiple of 2^32. */
  lemma SignedMeans(x: int)
    ensures -0x8000_0000 <= Signed(x) < 0x8000_0000 && (x - Signed(x)) % 0x1_0000_0000 == 0
  {
  }

  /** Little-endian fields of a file. */
  function U32At(f: Bytes, off: nat): u32
    requires off + 4 <= |f|
  {
    Pow256Values();
    FromLEBound(f[off..off + 4]);
    FromLE(f[off..off + 4])
  }

  function U64At(f: Bytes, off: nat): u64
    requires off + 8 <= |f|
  {
    Pow256Values();
    FromLEBound(f[off..off + 8]);
    FromLE(f[off..off + 8])
  }
}
