/**
 Page arithmetic on 32-bit `size_t` values (library/common/typedefs.cxx).

 Frames and pages are 0x1000 bytes (PMM::FrameSize); `size_t` sums are modulo 2^32.  Both
 numbers are written out where they are used.
 */
module Align {

  predicate IsU32(value: int) {
    0 <= value < 0x1_0000_0000
  }

  // Always moves to the next multiple, also from a value that is aligned already.
  function AlignUp(value: nat, alignment: nat): nat
    requires IsU32(value) && 0 < alignment < 0x1_0000_0000
  {
    (value - value % alignment + alignment) % 0x1_0000_0000
  }

  // Rounds down and then gives up one more alignment, stopping at zero.
  function AlignDown(value: nat, alignment: nat): nat
    requires IsU32(value) && 0 < alignment < 0x1_0000_0000
  {
    var whole := value - value % alignment;
    if whole < alignment then 0 else whole - alignment
  }

  // The number of frames (or pages) that a request for `count` bytes takes.
  function FramesFor(count: nat): nat
    requires IsU32(count)
  {
    AlignUp(count, 0x1000) / 0x1000
  }

  // The next page boundary strictly above `value`; it wraps to zero on the last page.
  lemma AlignUpIsNextPage(value: nat)
    requires IsU32(value)
    ensures AlignUp(value, 0x1000) % 0x1000 == 0
    ensures AlignUp(value, 0x1000) == 0 <==> value >= 0xFFFF_F000
    ensures value < 0xFFFF_F000 ==> value < AlignUp(value, 0x1000) <= value + 0x1000
  {
    var page := value / 0x1000;
    assert value - value % 0x1000 == page * 0x1000;
    if value >= 0xFFFF_F000 {
      assert page == 0xFFFFF;
    } else {
      assert page < 0xFFFFF;
    }
  }

  // A page-aligned amount that is between one and two whole pages short of `value`.
  lemma AlignDownLosesAPage(value: nat)
    requires IsU32(value)
    ensures AlignDown(value, 0x1000) % 0x1000 == 0
    ensures value < 0x2000 ==> AlignDown(value, 0x1000) == 0
    ensures value >= 0x1000 ==> value - 0x2000 < AlignDown(value, 0x1000) <= value - 0x1000
  {
    var page := value / 0x1000;
    assert value - value % 0x1000 == page * 0x1000;
    if page >= 1 {
      assert AlignDown(value, 0x1000) == (page - 1) * 0x1000;
    }
  }

  // A request takes one frame more than the whole frames in it, unless the sum wraps.
  lemma FramesForRequest(count: nat)
    requires IsU32(count)
    ensures FramesFor(count) == if count < 0xFFFF_F000 then count / 0x1000 + 1 else 0
    ensures count < 0xFFFF_F000 ==> count < FramesFor(count) * 0x1000
    ensures FramesFor(count) < 0x10_0000
  {
    AlignUpIsNextPage(count);
  }

  // ---- words in a page ----

  // A word of an address, and the byte in it.
  lemma WordPlace(a: nat)
    ensures
      var q, s := a / 0x1000, a % 0x1000;
      a == q * 0x1000 + s && s == s / 4 * 4 + s % 4 && s / 4 < 0x400 && s % 4 == a % 4
  {
    var q, s := a / 0x1000, a % 0x1000;
    var w, r := s / 4, s % 4;
    assert s == 4 * w + r;
    assert a == 4 * (q * 0x400 + w) + r;
    ByteInWord(q * 0x400 + w, r);
  }

  lemma ByteInWord(w: nat, r: nat)
    requires r < 4
    ensures (4 * w + r) / 4 == w && (4 * w + r) % 4 == r
  {
  }

  lemma ByteInPage(p: nat, x: nat)
    requires x < 0x1000
    ensures (p * 0x1000 + x) / 0x1000 == p && (p * 0x1000 + x) % 0x1000 == x
  {
  }

  // ---- division by any number ----

  lemma Remainder(a: nat, n: nat, r: nat)
    requires r < n
    ensures (a * n + r) % n == r && (a * n + r) / n == a
  {
    var x := a * n + r;
    var q, m := x / n, x % n;
    assert x == q * n + m;
    if a > q {
      Multiple(a, q, n);
    } else if q > a {
      Multiple(q, a, n);
    }
  }

  lemma Multiple(a: nat, b: nat, n: nat)
    requires a > b
    ensures a * n >= b * n + n
  {
    var k := a - b - 1;
    assert a * n == b * n + n + k * n;
  }
}
