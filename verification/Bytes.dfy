/** Bytes, 2048-byte blocks and the little-endian readers of src/ecma167.h.

    A byte is an integer below 256; the fixed-width arithmetic of the C code is
    written out with `Wrap32`, `Low32` and `ToInt64` wherever it can wrap. */
module Bytes {

  newtype u8 = x: int | 0 <= x < 0x100

  datatype Option<+T> = None | Some(value: T)

  const BLOCK_SIZE: int := 2048
  const TWO_32: int := 0x1_0000_0000

  function Zeros(n: nat): (z: seq<u8>)
    ensures |z| == n && forall k :: 0 <= k < n ==> z[k] == 0
  {
    seq(n, _ => 0)
  }

  type Block = b: seq<u8> | |b| == 2048 witness Zeros(2048)

  /** Unsigned 32-bit arithmetic. */
  function Wrap32(x: int): (r: int)
    ensures 0 <= r < TWO_32
    ensures 0 <= x < TWO_32 ==> r == x
  {
    x % TWO_32
  }

  /** Conversion to int64_t; signed overflow is taken as two's complement. */
  function ToInt64(x: int): (r: int)
    ensures -0x8000_0000_0000_0000 <= r < 0x8000_0000_0000_0000
    ensures -0x8000_0000_0000_0000 <= x < 0x8000_0000_0000_0000 ==> r == x
  {
    (x + 0x8000_0000_0000_0000) % 0x1_0000_0000_0000_0000 - 0x8000_0000_0000_0000
  }

  function U16(s: seq<u8>, at: nat): (r: int)
    requires at + 2 <= |s|
    ensures 0 <= r < 0x1_0000
  {
    s[at] as int + s[at + 1] as int * 0x100
  }

  function U32(s: seq<u8>, at: nat): (r: int)
    requires at + 4 <= |s|
    ensures 0 <= r < 0x1_0000_0000
  {
    U16(s, at) + 0x1_0000 * U16(s, at + 2)
  }

  function U64(s: seq<u8>, at: nat): (r: int)
    requires at + 8 <= |s|
    ensures 0 <= r < 0x1_0000_0000_0000_0000
  {
    U32(s, at) + 0x1_0000_0000 * U32(s, at + 4)
  }

  /** Byte by byte, least significant first. */
  lemma LittleEndian(s: seq<u8>, at: nat)
    ensures at + 2 <= |s| ==> U16(s, at) == s[at] as int + 0x100 * s[at + 1] as int
    ensures at + 4 <= |s| ==>
      U32(s, at) == s[at] as int + 0x100 * s[at + 1] as int + 0x1_0000 * s[at + 2] as int
                    + 0x100_0000 * s[at + 3] as int
    ensures at + 8 <= |s| ==>
      U64(s, at) == s[at] as int + 0x100 * s[at + 1] as int + 0x1_0000 * s[at + 2] as int
                    + 0x100_0000 * s[at + 3] as int + 0x1_0000_0000 * s[at + 4] as int
                    + 0x100_0000_0000 * s[at + 5] as int
                    + 0x1_0000_0000_0000 * s[at + 6] as int + 0x100_0000_0000_0000 * s[at + 7] as int
  {}

  lemma Assoc<T>(a: seq<T>, b: seq<T>, c: seq<T>)
    ensures (a + b) + c == a + (b + c)
  {}

  lemma SliceAppend<T>(s: seq<T>, i: nat, j: nat, k: nat)
    requires i <= j <= k <= |s|
    ensures s[i..j] + s[j..k] == s[i..k]
  {}

  lemma MiddlePart<T>(a: seq<T>, b: seq<T>, c: seq<T>)
    ensures (a + b + c)[|a|..|a| + |b|] == b
  {}

  lemma SliceOfSlice<T>(s: seq<T>, lo: nat, hi: nat, i: nat, j: nat)
    requires i <= j <= hi - lo && hi <= |s|
    ensures s[lo..hi][i..j] == s[lo + i..lo + j]
  {
    var a, b := s[lo..hi][i..j], s[lo + i..lo + j];
    assert forall k :: 0 <= k < |a| ==> a[k] == s[lo..hi][i + k] == b[k];
  }

  lemma SliceOfSum<T>(s: seq<T>, rest: seq<T>, i: nat, j: nat)
    requires i <= j <= |s|
    ensures (s + rest)[i..j] == s[i..j]
  {}

  lemma SliceOfPrefix<T>(s: seq<T>, n: nat, i: nat, j: nat)
    requires i <= j <= n <= |s|
    ensures s[..n][i..j] == s[i..j]
  {}

  /** The recording order of ECMA-167, section 7.1 of part 1: least significant byte first. */
  function Put16(v: int): (s: seq<u8>)
    requires 0 <= v < 0x1_0000
    ensures |s| == 2
  {
    [(v % 0x100) as u8, (v / 0x100) as u8]
  }

  function Put32(v: int): (s: seq<u8>)
    requires 0 <= v < 0x1_0000_0000
    ensures |s| == 4
  {
    Put16(v % 0x1_0000) + Put16(v / 0x1_0000)
  }

  function Put64(v: int): (s: seq<u8>)
    requires 0 <= v < 0x1_0000_0000_0000_0000
    ensures |s| == 8
  {
    Put32(v % 0x1_0000_0000) + Put32(v / 0x1_0000_0000)
  }

  /** Every reader inverts its writer, wherever in the data the value stands. */
  lemma ReadBack16(pre: seq<u8>, v: int, post: seq<u8>)
    requires 0 <= v < 0x1_0000
    ensures U16(pre + Put16(v) + post, |pre|) == v
  {
    var s := pre + Put16(v) + post;
    assert s[|pre|] as int == v % 0x100 && s[|pre| + 1] as int == v / 0x100;
  }

  lemma ReadBack32(pre: seq<u8>, v: int, post: seq<u8>)
    requires 0 <= v < 0x1_0000_0000
    ensures U32(pre + Put32(v) + post, |pre|) == v
  {
    var lo, hi := Put16(v % 0x1_0000), Put16(v / 0x1_0000);
    var s := pre + Put32(v) + post;
    assert s == pre + lo + (hi + post);
    ReadBack16(pre, v % 0x1_0000, hi + post);
    assert s == (pre + lo) + hi + post;
    ReadBack16(pre + lo, v / 0x1_0000, post);
  }

  lemma ReadBack64(pre: seq<u8>, v: int, post: seq<u8>)
    requires 0 <= v < 0x1_0000_0000_0000_0000
    ensures U64(pre + Put64(v) + post, |pre|) == v
  {
    var lo, hi := Put32(v % 0x1_0000_0000), Put32(v / 0x1_0000_0000);
    var s := pre + Put64(v) + post;
    assert s == pre + lo + (hi + post);
    ReadBack32(pre, v % 0x1_0000_0000, hi + post);
    assert s == (pre + lo) + hi + post;
    ReadBack32(pre + lo, v / 0x1_0000_0000, post);
  }
}
