/** Byte buffers, machine integers and their little-endian encoding. */
module Bytes {

  type byte = x: nat | x < 0x100
  type u16 = x: nat | x < 0x1_0000
  type u32 = x: nat | x < 0x1_0000_0000
  type u64 = x: nat | x < 0x1_0000_0000_0000_0000

  /** The program errors the farm code returns. */
  datatype Error =
    | AccountDataTooSmall
    | AccountAlreadyInitialized
    | InvalidAccountData
    | InvalidArgument
    | UninitializedAccount
    | Custom(code: nat)

  datatype Result<+T> = Ok(value: T) | Err(error: Error) {
    predicate IsFailure() { Err? }

    function PropagateFailure<U>(): Result<U>
      requires Err?
    {
      Err(error)
    }

    function Extract(): T
      requires Ok?
    {
      value
    }
  }

  function Pow256(w: nat): (p: nat)
    ensures p > 0
  {
    if w == 0 then 1 else 0x100 * Pow256(w - 1)
  }

  lemma Pow256Values()
    ensures Pow256(1) == 0x100
    ensures Pow256(2) == 0x1_0000
    ensures Pow256(4) == 0x1_0000_0000
    ensures Pow256(8) == 0x1_0000_0000_0000_0000
  {
    assert Pow256(3) == 0x100_0000;
    assert Pow256(5) == 0x100 * Pow256(4);
    assert Pow256(6) == 0x100 * Pow256(5);
    assert Pow256(7) == 0x100 * Pow256(6);
  }

  /** `to_le_bytes` of an integer of `w` bytes; higher bytes are cut off. */
  function LeBytes(n: nat, w: nat): (b: seq<byte>)
    ensures |b| == w
  {
    if w == 0 then [] else [n % 0x100] + LeBytes(n / 0x100, w - 1)
  }

  /** `from_le_bytes`. */
  function LeNat(b: seq<byte>): (n: nat)
  {
    if b == [] then 0 else b[0] + 0x100 * LeNat(b[1..])
  }

  lemma {:induction false} LeNatOfBytes(n: nat, w: nat)
    requires n < Pow256(w)
    ensures LeNat(LeBytes(n, w)) == n
  {
    if w > 0 {
      LeNatOfBytes(n / 0x100, w - 1);
      assert LeBytes(n, w)[1..] == LeBytes(n / 0x100, w - 1);
    }
  }

  lemma LowByte(low: byte, rest: nat)
    ensures (low + 0x100 * rest) % 0x100 == low && (low + 0x100 * rest) / 0x100 == rest
  {
  }

  lemma {:induction false} LeBytesOfNat(b: seq<byte>)
    ensures LeNat(b) < Pow256(|b|)
    ensures LeBytes(LeNat(b), |b|) == b
  {
    if b != [] {
      LeBytesOfNat(b[1..]);
      LowByte(b[0], LeNat(b[1..]));
      assert b == [b[0]] + b[1..];
    }
  }

  /** Dividing by 256 and then by `b` is dividing by the product. */
  lemma DivideTwice(n: nat, b: nat)
    requires b > 0
    ensures n / 0x100 / b == n / (0x100 * b)
  {
    var q := n / 0x100;
    var p, r := q / b, q % b;
    assert q == b * p + r;
    assert (0x100 * b) * p == 0x100 * (b * p);
    UniqueQuotient(n, 0x100 * b, p, 0x100 * r + n % 0x100);
  }

  lemma UniqueQuotient(n: nat, d: nat, q: nat, r: nat)
    requires r < d && n == d * q + r
    ensures n / d == q
  {
    if n / d < q {
      MultiplesApart(d, n / d, q);
    } else if q < n / d {
      MultiplesApart(d, q, n / d);
    }
  }

  lemma MultiplesApart(d: nat, p: nat, q: nat)
    requires p < q
    ensures d * p + d <= d * q
  {
    assert d * q == d * (p + 1) + d * (q - (p + 1));
  }

  /** Which byte is where: byte `k` is the `k`-th digit of the number in base 256, the lowest first. */
  lemma {:induction false} LeByteAt(n: nat, w: nat, k: nat)
    requires k < w
    ensures LeBytes(n, w)[k] == n / Pow256(k) % 0x100
  {
    if k > 0 {
      LeByteAt(n / 0x100, w - 1, k - 1);
      DivideTwice(n, Pow256(k - 1));
    }
  }

  lemma LeNatOfTwo(b: seq<byte>)
    requires |b| == 2
    ensures LeNat(b) == b[0] as int + 0x100 * b[1] as int
  {
    assert b[1..] == [b[1]] && [b[1]][1..] == [];
    assert LeNat([b[1]]) == b[1];
  }

  function Zeros(n: nat): (b: seq<byte>)
    ensures |b| == n
    ensures forall i :: 0 <= i < n ==> b[i] == 0
  {
    seq(n, i => 0)
  }

  lemma {:induction false} LeNatZeros(n: nat)
    ensures LeNat(Zeros(n)) == 0
  {
    if n > 0 {
      LeNatZeros(n - 1);
      assert Zeros(n)[1..] == Zeros(n - 1);
    }
  }

  /** The buffer `d` with the bytes from `offset` on replaced by `b`. */
  function Splice(d: seq<byte>, offset: nat, b: seq<byte>): (r: seq<byte>)
    requires offset + |b| <= |d|
    ensures |r| == |d|
    ensures forall i {:trigger r[i]} :: 0 <= i < |d| ==> r[i] == if offset <= i < offset + |b| then b[i - offset] else d[i]
  {
    d[..offset] + b + d[offset + |b|..]
  }

  /** A slice of a spliced buffer that the splice did not touch. */
  lemma SpliceElsewhere(d: seq<byte>, offset: nat, b: seq<byte>, lo: nat, hi: nat)
    requires offset + |b| <= |d| && lo <= hi <= |d|
    requires hi <= offset || offset + |b| <= lo
    ensures Splice(d, offset, b)[lo..hi] == d[lo..hi]
  {
  }

  lemma SpliceHere(d: seq<byte>, offset: nat, b: seq<byte>)
    requires offset + |b| <= |d|
    ensures Splice(d, offset, b)[offset..offset + |b|] == b
  {
  }

  lemma SliceInside(d: seq<byte>, o: nat, lo: nat, hi: nat)
    requires lo <= hi && o + hi <= |d|
    ensures d[o..][lo..hi] == d[o + lo..o + hi]
  {
    var rest := d[o..];
    var a, b := rest[lo..hi], d[o + lo..o + hi];
    forall k | 0 <= k < hi - lo ensures a[k] == b[k] {
      assert a[k] == rest[lo + k] == d[o + (lo + k)];
    }
  }

  lemma SliceTail(d: seq<byte>, o: nat, k: nat, n: nat)
    requires k <= n && o + n <= |d|
    ensures d[o..o + n][k..] == d[o + k..o + n]
  {
  }

  /** A slice that starts where the splice does. */
  lemma SpliceThrough(d: seq<byte>, offset: nat, b: seq<byte>, hi: nat)
    requires offset + |b| <= hi <= |d|
    ensures Splice(d, offset, b)[offset..hi] == b + d[offset..hi][|b|..]
  {
  }

  /** Writing a piece together with the bytes that already follow it writes the piece. */
  lemma SplicePadded(d: seq<byte>, offset: nat, b: seq<byte>, hi: nat)
    requires offset + |b| <= hi <= |d|
    ensures Splice(d, offset, b + d[offset + |b|..hi]) == Splice(d, offset, b)
  {
  }

  /** Writing two adjacent pieces one after the other writes their concatenation. */
  lemma SpliceAdjacent(d: seq<byte>, offset: nat, a: seq<byte>, b: seq<byte>)
    requires offset + |a| + |b| <= |d|
    ensures Splice(Splice(d, offset, a), offset + |a|, b) == Splice(d, offset, a + b)
  {
  }

  /** Writing back what is there changes nothing. */
  lemma SpliceSame(d: seq<byte>, lo: nat, hi: nat)
    requires lo <= hi <= |d|
    ensures Splice(d, lo, d[lo..hi]) == d
  {
  }

  /** A second write at the same place replaces the start of the first. */
  lemma SpliceOver(d: seq<byte>, offset: nat, b: seq<byte>, c: seq<byte>)
    requires |c| <= |b| && offset + |b| <= |d|
    ensures Splice(Splice(d, offset, b), offset, c) == Splice(d, offset, c + b[|c|..])
  {
  }

  /** Copies `b` into the buffer, as `copy_from_slice` does. */
  method CopyInto(data: array<byte>, offset: nat, b: seq<byte>)
    requires offset + |b| <= data.Length
    modifies data
    ensures data[..] == Splice(old(data[..]), offset, b)
  {
    forall i | 0 <= i < |b| {
      data[offset + i] := b[i];
    }
  }
}
