/**
 * Byte buffers as the decoders see them: fixed-width unsigned integers, the `bytes::Bytes`
 * handle (a view of part of a larger buffer) and little-endian integer values.
 */
module Buffers {

  type uint8 = x: int | 0 <= x < 0x100
  type uint16 = x: int | 0 <= x < 0x1_0000
  type uint32 = x: int | 0 <= x < 0x1_0000_0000
  type uint64 = x: int | 0 <= x < 0x1_0000_0000_0000_0000

  /** `usize` on a 64-bit target. */
  type usize = uint64

  const USIZE_MAX: nat := 0xFFFF_FFFF_FFFF_FFFF

  /**
   * A `Bytes` handle. `data` are the bytes it views and `pos` is where they start in the buffer
   * the handle was cut from, so pointer differences `a.as_ptr() - b.as_ptr()` between handles of
   * one buffer are `a.pos - b.pos`. Equality of handles compares both view and position;
   * the Rust code compares contents only, which the model writes as `a.data == s`.
   */
  datatype Bytes = Bytes(pos: nat, data: seq<uint8>)

  /** The first `n` bytes of `b` (`b.slice(..n)`, `truncate(n)`). */
  function Prefix(b: Bytes, n: nat): Bytes
    requires n <= |b.data|
  {
    Bytes(b.pos, b.data[..n])
  }

  /** `b` without its first `n` bytes (`b.slice(n..)`). */
  function Drop(b: Bytes, n: nat): Bytes
    requires n <= |b.data|
  {
    Bytes(b.pos + n, b.data[n..])
  }

  /** `b.slice(lo..hi)`. */
  function Slice(b: Bytes, lo: nat, hi: nat): Bytes
    requires lo <= hi <= |b.data|
  {
    Bytes(b.pos + lo, b.data[lo..hi])
  }

  /** `b` starts right where `a` ends in the common buffer. */
  predicate Adjacent(a: Bytes, b: Bytes)
  {
    b.pos == a.pos + |a.data|
  }

  /** The view covering two adjacent views. */
  function Concat(a: Bytes, b: Bytes): Bytes
    requires Adjacent(a, b)
  {
    Bytes(a.pos, a.data + b.data)
  }

  /** `s` is what remains of the cursor `b` after it has been advanced from the front. */
  predicate SuffixOf(s: Bytes, b: Bytes)
  {
    |s.data| <= |b.data| && s == Drop(b, |b.data| - |s.data|)
  }

  /** `<[u8]>::starts_with`. */
  predicate StartsWith(d: seq<uint8>, s: seq<uint8>)
  {
    |s| <= |d| && d[..|s|] == s
  }

  lemma PrefixDropJoin(b: Bytes, n: nat)
    requires n <= |b.data|
    ensures Adjacent(Prefix(b, n), Drop(b, n))
    ensures Concat(Prefix(b, n), Drop(b, n)) == b
  {
    assert b.data[..n] + b.data[n..] == b.data;
  }

  lemma DropDrop(b: Bytes, i: nat, j: nat)
    requires i + j <= |b.data|
    ensures Drop(Drop(b, i), j) == Drop(b, i + j)
  {
    assert b.data[i..][j..] == b.data[i + j..];
  }

  /** The first `w` bytes after the first `k` are the slice `k..k + w`. */
  lemma PrefixOfDrop(b: Bytes, k: nat, w: nat)
    requires k <= |b.data|
    ensures k + w <= |b.data| ==> Drop(b, k).data[..w] == b.data[k..k + w]
    ensures k + w <= |b.data| ==> Prefix(Drop(b, k), w) == Slice(b, k, k + w)
  {
  }

  /** Cutting the first `m` bytes and then the first `n` of those, or dropping `n` of them. */
  lemma PrefixOfPrefix(b: Bytes, n: nat, m: nat)
    requires n <= m <= |b.data|
    ensures Prefix(Prefix(b, m), n) == Prefix(b, n)
    ensures Drop(Prefix(b, m), n) == Prefix(Drop(b, n), m - n)
  {
    assert b.data[..m][..n] == b.data[..n];
    assert b.data[..m][n..] == b.data[n..][..m - n];
  }

  lemma SuffixOfTrans(a: Bytes, b: Bytes, c: Bytes)
    requires SuffixOf(a, b) && SuffixOf(b, c)
    ensures SuffixOf(a, c)
  {
    DropDrop(c, |c.data| - |b.data|, |b.data| - |a.data|);
  }

  lemma SuffixOfRefl(b: Bytes)
    ensures SuffixOf(b, b)
  {
    assert b.data[0..] == b.data;
  }

  lemma DropIsSuffix(b: Bytes, n: nat)
    requires n <= |b.data|
    ensures SuffixOf(Drop(b, n), b)
  {
  }

  function Pow256(n: nat): (r: nat)
    ensures r > 0
  {
    if n == 0 then 1 else 256 * Pow256(n - 1)
  }

  /** `uN::from_le_bytes`: the value of a little-endian byte string. */
  function LittleEndian(s: seq<uint8>): nat
  {
    if s == [] then 0 else s[0] + 256 * LittleEndian(s[1..])
  }

  /** The little-endian value of the `w` bytes of `d` at offset `off`. */
  function LeAt(d: seq<uint8>, off: nat, w: nat): nat
    requires off + w <= |d|
  {
    LittleEndian(d[off..off + w])
  }

  /** An independent reading of little-endian: the sum of `s[i] * 256^i`, taken from the top byte down. */
  function PositionalSum(s: seq<uint8>): nat
  {
    if s == [] then 0 else PositionalSum(s[..|s| - 1]) + s[|s| - 1] * Pow256(|s| - 1)
  }

  /** A string of `w` bytes read little-endian fits in `w` bytes: it is below 256^w. */
  lemma {:induction false} LittleEndianBound(s: seq<uint8>)
    ensures LittleEndian(s) < Pow256(|s|)
  {
    if s != [] {
      LittleEndianBound(s[1..]);
      var rest := LittleEndian(s[1..]);
      assert rest + 1 <= Pow256(|s| - 1);
      assert 256 * (rest + 1) <= 256 * Pow256(|s| - 1);
    }
  }

  lemma {:induction false} PositionalSumCons(s: seq<uint8>)
    requires s != []
    ensures PositionalSum(s) == s[0] + 256 * PositionalSum(s[1..])
  {
    var n := |s|;
    if n > 1 {
      var init, tail := s[..n - 1], s[1..];
      PositionalSumCons(init);
      assert init[0] == s[0];
      assert init[1..] == tail[..n - 2];
      assert tail[n - 2] == s[n - 1];
      PositionalSumStep(s[0], PositionalSum(tail[..n - 2]), s[n - 1], Pow256(n - 2));
    }
  }

  lemma PositionalSumStep(first: nat, x: nat, a: nat, p: nat)
    ensures first + 256 * x + a * (256 * p) == first + 256 * (x + a * p)
  {
  }

  /** `from_le_bytes` agrees with the positional sum definition, byte for byte. */
  lemma {:induction false} LittleEndianIsPositionalSum(s: seq<uint8>)
    ensures LittleEndian(s) == PositionalSum(s)
  {
    if s != [] {
      LittleEndianIsPositionalSum(s[1..]);
      PositionalSumCons(s);
    }
  }

  // ---------------------------------------------------------------------------------------------
  // Sequences built by appending
  // ---------------------------------------------------------------------------------------------

  // The decoders append entries one at a time; these let a proof regroup the appends without
  // having the solver compare the sequences element by element in a large context.

  /** Appending keeps what was there. */
  lemma AppendKeepsPrefix<T>(o: seq<T>, es: seq<T>)
    ensures |o| <= |o + es| && (o + es)[..|o|] == o
  {
  }

  /** Appending is associative. */
  lemma AppendAssoc<T>(a: seq<T>, b: seq<T>, c: seq<T>)
    ensures a + (b + c) == (a + b) + c
  {
  }

  /** Three entries appended one by one to `o` extend it by the three. */
  lemma AppendThree<T>(o: seq<T>, a: T, b: T, c: T)
    ensures o + [a] + [b] + [c] == o + [a, b, c]
  {
  }

  /** Five entries appended one by one form the sequence of the five. */
  lemma AppendFive<T>(a: T, b: T, c: T, d: T, e: T)
    ensures [] + [a] + [b] + [c] + [d] + [e] == [a, b, c, d, e]
  {
  }

  /** Seven entries appended one by one form the sequence of the seven. */
  lemma AppendSeven<T>(a: T, b: T, c: T, d: T, e: T, f: T, g: T)
    ensures [] + [a] + [b] + [c] + [d] + [e] + [f] + [g] == [a, b, c, d, e, f, g]
  {
  }

  /** Nine entries appended one by one form the sequence of the nine. */
  lemma AppendNine<T>(a: T, b: T, c: T, d: T, e: T, f: T, g: T, h: T, i: T)
    ensures [] + [a] + [b] + [c] + [d] + [e] + [f] + [g] + [h] + [i] == [a, b, c, d, e, f, g, h, i]
  {
  }
}
