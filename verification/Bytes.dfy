/** Byte sequences and big-endian numbers, as the wire formats use them. */
module Bytes {
  type Byte = x: int | 0 <= x < 256
  type Bytes = seq<Byte>

  /** The bytes taken as characters. */
  function Chars(b: Bytes): string {
    seq(|b|, i requires 0 <= i < |b| => b[i] as char)
  }

  function Be16(n: int): (r: Bytes)
    requires 0 <= n < 0x1_0000
    ensures |r| == 2
  {
    [n / 256, n % 256]
  }

  function Be32(n: int): (r: Bytes)
    requires 0 <= n < 0x1_0000_0000
    ensures |r| == 4
  {
    Be16(n / 0x1_0000) + Be16(n % 0x1_0000)
  }

  function U16(b: Bytes): (n: int)
    requires |b| >= 2
    ensures 0 <= n < 0x1_0000
  {
    (b[0] as int) * 256 + b[1]
  }

  function U32(b: Bytes): (n: int)
    requires |b| >= 4
    ensures 0 <= n < 0x1_0000_0000
  {
    U16(b) * 0x1_0000 + U16(b[2..])
  }

  lemma U16OfBe16(n: int, rest: Bytes)
    requires 0 <= n < 0x1_0000
    ensures U16(Be16(n) + rest) == n
  {
  }

  lemma U32OfBe32(n: int, rest: Bytes)
    requires 0 <= n < 0x1_0000_0000
    ensures U32(Be32(n) + rest) == n
  {
    var b := Be32(n) + rest;
    assert b == Be16(n / 0x1_0000) + (Be16(n % 0x1_0000) + rest);
    U16OfBe16(n / 0x1_0000, Be16(n % 0x1_0000) + rest);
    assert b[2..] == Be16(n % 0x1_0000) + rest;
    U16OfBe16(n % 0x1_0000, rest);
  }

  lemma Be32OfU32(b: Bytes)
    requires |b| == 4
    ensures Be32(U32(b)) == b
  {
    var hi, lo := U16(b), U16(b[2..]);
    assert U32(b) / 0x1_0000 == hi && U32(b) % 0x1_0000 == lo;
    assert Be16(hi) == [b[0], b[1]] && Be16(lo) == [b[2], b[3]];
  }

  /** `s` occurs in `b` without a gap. */
  ghost predicate IsSlice(s: Bytes, b: Bytes) {
    exists i, j :: 0 <= i <= j <= |b| && b[i..j] == s
  }

  lemma SliceOfSlice(s: Bytes, t: Bytes, b: Bytes)
    requires IsSlice(s, t) && IsSlice(t, b)
    ensures IsSlice(s, b)
  {
    var i, j :| 0 <= i <= j <= |t| && t[i..j] == s;
    var k, l :| 0 <= k <= l <= |b| && b[k..l] == t;
    SliceTwice(b, k, l, i, j);
  }

  lemma SliceTwice<T>(b: seq<T>, k: nat, l: nat, i: nat, j: nat)
    requires k <= l <= |b| && i <= j <= l - k
    ensures b[k..l][i..j] == b[k + i..k + j]
  {
    var x, y := b[k..l][i..j], b[k + i..k + j];
    assert |x| == |y|;
    forall m | 0 <= m < |x| ensures x[m] == y[m] {
      assert x[m] == b[k..l][i + m];
    }
  }

  lemma SliceAt(b: Bytes, i: nat, j: nat)
    requires i <= j <= |b|
    ensures IsSlice(b[i..j], b)
  {
  }

  lemma DropHead<T>(head: seq<T>, rest: seq<T>)
    ensures (head + rest)[|head|..] == rest
    ensures (head + rest)[..|head|] == head
  {
  }
}
