/** Byte strings, little-endian words, and overwriting a stretch of memory. */
module Bytes {

  type byte = b: int | 0 <= b < 256

  /** The eight bytes of a 64-bit word (a type hash, a timestamp). */
  type Image8 = s: seq<byte> | |s| == 8 witness [0, 0, 0, 0, 0, 0, 0, 0]

  const LIMIT32: nat := 0x1_0000_0000

  function Le32(n: nat): (s: seq<byte>)
    ensures |s| == 4
  {
    [n % 256, n / 0x100 % 256, n / 0x1_0000 % 256, n / 0x100_0000 % 256]
  }

  /** The 32-bit word read at a position. */
  function Word32(data: seq<byte>, at: nat): (n: nat)
    requires at + 4 <= |data|
    ensures n < LIMIT32
  {
    var b0: nat, b1: nat, b2: nat, b3: nat := data[at], data[at + 1], data[at + 2], data[at + 3];
    b0 + 0x100 * b1 + 0x1_0000 * b2 + 0x100_0000 * b3
  }

  /** The lowest byte comes first. */
  lemma LowByteFirst(b0: byte, b1: byte, b2: byte, b3: byte)
    ensures Le32(b0 + 0x100 * b1 + 0x1_0000 * b2 + 0x100_0000 * b3) == [b0, b1, b2, b3]
  {
    DigitsOfSum(b0, b1, b2, b3);
  }

  lemma Digits(n: nat)
    requires n < LIMIT32
    ensures n == n % 256 + 0x100 * (n / 0x100 % 256) + 0x1_0000 * (n / 0x1_0000 % 256)
                 + 0x100_0000 * (n / 0x100_0000 % 256)
  {
    assert n / 0x1_0000 == n / 0x100 / 0x100;
    assert n / 0x100_0000 == n / 0x1_0000 / 0x100;
  }

  lemma DigitsOfSum(b0: nat, b1: nat, b2: nat, b3: nat)
    requires b0 < 256 && b1 < 256 && b2 < 256 && b3 < 256
    ensures Le32(b0 + 0x100 * b1 + 0x1_0000 * b2 + 0x100_0000 * b3) == [b0, b1, b2, b3]
  {
    var u2 := b2 + 0x100 * b3;
    var u1 := b1 + 0x100 * u2;
    var u := b0 + 0x100 * u1;
    assert u == b0 + 0x100 * b1 + 0x1_0000 * b2 + 0x100_0000 * b3;
    assert u / 0x100 == u1 && u1 / 0x100 == u2 && u2 / 0x100 == b3;
    assert u / 0x1_0000 == u2 && u / 0x100_0000 == b3;
    assert u1 % 0x100 == b1 && u2 % 0x100 == b2;
  }

  lemma Le32Inverse(data: seq<byte>, at: nat, n: nat)
    requires at + 4 <= |data|
    ensures n < LIMIT32 && data[at..at + 4] == Le32(n) ==> Word32(data, at) == n
    ensures Le32(Word32(data, at)) == data[at..at + 4]
  {
    var s := data[at..at + 4];
    assert s == [data[at], data[at + 1], data[at + 2], data[at + 3]];
    DigitsOfSum(s[0], s[1], s[2], s[3]);
    if n < LIMIT32 && s == Le32(n) {
      Digits(n);
    }
  }

  /** The bytes from a position on begin with the given ones. */
  predicate StartsWith(data: seq<byte>, at: nat, bytes: seq<byte>) {
    at + |bytes| <= |data| && data[at..at + |bytes|] == bytes
  }

  lemma StartsWithParts(data: seq<byte>, at: nat, a: seq<byte>, b: seq<byte>)
    ensures StartsWith(data, at, a + b) <==> StartsWith(data, at, a) && StartsWith(data, at + |a|, b)
  {
    if at + |a| + |b| <= |data| {
      var mid := at + |a|;
      assert data[at..mid + |b|] == data[at..mid] + data[mid..mid + |b|];
      if StartsWith(data, at, a + b) {
        assert data[at..mid] == (a + b)[..|a|] == a;
        assert data[mid..mid + |b|] == (a + b)[|a|..] == b;
      }
    }
  }

  /** `after` is `before` with `patch` written at a position and nothing else changed. */
  ghost predicate Patched<T>(before: seq<T>, after: seq<T>, at: nat, patch: seq<T>) {
    && at + |patch| <= |before|
    && after == before[..at] + patch + before[at + |patch|..]
  }

  lemma PatchTwice<T>(a: seq<T>, b: seq<T>, c: seq<T>, at: nat, x: seq<T>, y: seq<T>)
    requires Patched(a, b, at, x) && Patched(b, c, at + |x|, y)
    ensures Patched(a, c, at, x + y)
  {
    assert b[..at + |x|] == a[..at] + x;
    assert b[at + |x| + |y|..] == a[at + |x| + |y|..];
    assert c == a[..at] + (x + y) + a[at + |x + y|..];
  }

  lemma PatchNothing<T>(a: seq<T>, at: nat)
    requires at <= |a|
    ensures Patched(a, a, at, [])
  {
  }

  /** Patching inside a patch. */
  lemma PatchInside<T>(a: seq<T>, b: seq<T>, c: seq<T>, base: nat, p: seq<T>, q: seq<T>, at: nat, x: seq<T>)
    requires Patched(a, b, base, p) && Patched(p, q, at, x) && Patched(b, c, base + at, x)
    ensures Patched(a, c, base, q)
  {
    assert b[..base + at] == a[..base] + p[..at];
    assert b[base + at + |x|..] == p[at + |x|..] + a[base + |p|..];
  }

  lemma SliceOfSlice<T>(s: seq<T>, at: nat, n: nat, i: nat, j: nat)
    requires at + n <= |s| && i <= j <= n
    ensures s[at..at + n][i..j] == s[at + i..at + j]
  {
    var whole, part := s[at..at + n][i..j], s[at + i..at + j];
    assert |whole| == |part| && forall k :: 0 <= k < |part| ==> whole[k] == part[k];
  }

  lemma PatchSame<T>(a: seq<T>, at: nat, x: seq<T>)
    requires at + |x| <= |a| && a[at..at + |x|] == x
    ensures Patched(a, a, at, x)
  {
  }

  /** Patching the same stretch again. */
  lemma PatchOver<T>(a: seq<T>, b: seq<T>, c: seq<T>, at: nat, x: seq<T>, y: seq<T>)
    requires Patched(a, b, at, x) && Patched(b, c, at, y) && |x| == |y|
    ensures Patched(a, c, at, y)
  {
    assert b[..at] == a[..at] && b[at + |x|..] == a[at + |x|..];
  }

  /** memcpy into a buffer. */
  method Put<T>(data: array<T>, at: nat, patch: seq<T>)
    requires at + |patch| <= data.Length
    modifies data
    ensures Patched(old(data[..]), data[..], at, patch)
  {
    forall k | 0 <= k < |patch| {
      data[at + k] := patch[k];
    }
    assert data[..] == old(data[..])[..at] + patch + old(data[..])[at + |patch|..];
  }
}
