/** Rounding a file size up to whole blocks, as the Linux AIO and POSIX AIO copies do
    before they start. */
module BlockMath {
  import opened Uint
  import PowerOfTwo

  /** `s + b - s % b` evaluated in uint32_t, as written in the source. */
  function RoundUp32(s: u32, b: u32): (r: u32)
    requires b > 0
    ensures s + b - s % b < U32 ==> r == s + b - s % b
    ensures s + b - s % b >= U32 ==> r == s + b - s % b - U32
  {
    Wrap32(s + b - s % b)
  }

  /** The same expression without wrap-around: the next multiple of `b` strictly above
      `s`, a whole extra block when `s` is already a multiple. */
  function RoundUp(s: nat, b: nat): (r: nat)
    requires b > 0
    ensures r % b == 0 && s < r <= s + b
    ensures s % b == 0 ==> r == s + b
    ensures r == b * (s / b + 1)
  {
    var q := s / b;
    assert s == b * q + s % b;
    assert s + b - s % b == b * (q + 1);
    PowerOfTwo.ModUnique(b * (q + 1), b, q + 1, 0);
    s + b - s % b
  }

  /** Below the wrap the two agree. */
  lemma RoundUp32Agrees(s: u32, b: u32)
    requires b > 0 && s + b < U32
    ensures RoundUp32(s, b) == RoundUp(s, b)
  {
  }

  /** Every size from 2^32 - b up rounds to 0 in uint32_t, where the intended value is 2^32. */
  lemma RoundUp32Wraps(s: u32, b: u32)
    requires 0 < b && U32 - b <= s && U32 % b == 0
    ensures RoundUp32(s, b) == 0
    ensures RoundUp(s, b) == U32
  {
    var q := s / b;
    var k := U32 / b;
    assert U32 == b * k;
    assert s == b * q + s % b;
    if q + 1 < k {
      PowerOfTwo.MulAtLeast(b, k - (q + 1));
      assert false;
    }
    if q >= k {
      PowerOfTwo.MulAtLeast(b, q - k + 1);
      assert false;
    }
    assert b * (q + 1) == U32;
  }

  /** `a` whole blocks fit in `n` exactly when `a` is at most the number of whole blocks of `n`. */
  lemma DivAtLeast(a: nat, n: nat, b: nat)
    requires b > 0 && a * b <= n
    ensures a <= n / b
  {
    var q := n / b;
    if q < a {
      PowerOfTwo.NonPositiveProduct(b, q + 1 - a);
      assert false;
    }
  }

  /** Coverage of the rounded size read back in terms of the size itself: if every block
      below `RoundUp(size, b)` is written or lost, a lost block can only be the last one,
      and none below `size` is lost, then every block below `size` is written and a lost
      block sits exactly at `size`. */
  lemma CoverBelowSize(size: nat, b: nat, written: seq<int>, lost: seq<int>)
    requires b > 0
    requires forall k :: 0 <= k < RoundUp(size, b) / b ==> k * b in written || k * b in lost
    requires forall x :: x in lost ==> x + b == RoundUp(size, b)
    requires forall x :: x in lost ==> x >= size
    ensures forall off :: 0 <= off < size && off % b == 0 ==> off in written
    ensures forall x :: x in lost ==> x == size
  {
    var rounded := RoundUp(size, b);
    var q := size / b;
    assert size == b * q + size % b;
    assert rounded - b == b * q <= size;
    forall off | 0 <= off < size && off % b == 0
      ensures off in written
    {
      var k := off / b;
      assert off == b * k;
      if k > q {
        PowerOfTwo.MulAtLeast(b, k - q);
        assert false;
      }
      if k < q {
        PowerOfTwo.MulAtLeast(b, q - k);
        assert b * (q + 1) == b * (k + 1) + b * (q - k);
      }
      DivAtLeast(k + 1, rounded, b);
      assert k * b == off;
    }
  }
}
