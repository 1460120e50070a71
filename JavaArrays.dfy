/**
  The pieces of the Java platform that the 16-bit array adapter relies on:
  the fixed-width integer types `short` and `int`, and the two static helpers
  of java.util.Arrays it calls on `short[]` values, `Arrays.equals` and
  `Arrays.hashCode`. A Java array reference that may be null is an
  `array?<Int16>`.
 */
module JavaArrays {

  /** Java `short`: a signed 16-bit integer. */
  type Int16 = x: int | -0x8000 <= x < 0x8000

  /** Java `int`: a signed 32-bit integer. */
  type Int32 = x: int | -0x8000_0000 <= x < 0x8000_0000

  const TwoTo32: int := 0x1_0000_0000

  /** The two's-complement truncation Java applies to every `int` result. */
  function Wrap32(x: int): (r: Int32)
    ensures (r - x) % TwoTo32 == 0
    ensures -0x8000_0000 <= x < 0x8000_0000 ==> r == x
  {
    var m := x % TwoTo32;
    if m < 0x8000_0000 then m else m - TwoTo32
  }

  /** Two integers that differ by a multiple of 2^32 wrap to the same `int`. */
  lemma WrapCongruent(x: int, y: int)
    requires (x - y) % TwoTo32 == 0
    ensures Wrap32(x) == Wrap32(y)
  {
    var k := (x - y) / TwoTo32;
    assert x == y + k * TwoTo32;
    assert x % TwoTo32 == y % TwoTo32 by {
      ShiftMod(y, k);
    }
  }

  /** Adding a multiple of 2^32 leaves the remainder modulo 2^32 unchanged. */
  lemma ShiftMod(y: int, k: int)
    ensures (y + k * TwoTo32) % TwoTo32 == y % TwoTo32
  {
  }

  /**
    Element-by-element comparison of two equally long contents, first to
    last, as the loop of `Arrays.equals` does it.
   */
  function SameElements(s: seq<Int16>, t: seq<Int16>): bool
    requires |s| == |t|
  {
    |s| == 0 || (s[0] == t[0] && SameElements(s[1..], t[1..]))
  }

  /** The element-wise scan agrees with equality of the contents. */
  lemma {:induction false} SameElementsIsEquality(s: seq<Int16>, t: seq<Int16>)
    requires |s| == |t|
    ensures SameElements(s, t) <==> s == t
  {
    if |s| != 0 {
      SameElementsIsEquality(s[1..], t[1..]);
      if s[0] == t[0] && s[1..] == t[1..] {
        assert s == [s[0]] + s[1..] && t == [t[0]] + t[1..];
      }
    }
  }

  /**
    `Arrays.equals(short[] a, short[] a2)`: the same reference, or two
    non-null arrays of the same length whose elements agree pairwise.
   */
  function ShortArraysEqual(a: array?<Int16>, b: array?<Int16>): (r: bool)
    reads a, b
    ensures r <==> (a == null && b == null) || (a != null && b != null && a[..] == b[..])
  {
    if a == b then true
    else if a == null || b == null then false
    else if a.Length != b.Length then false
    else SameElementsIsEquality(a[..], b[..]); SameElements(a[..], b[..])
  }

  /**
    The hash of a `short[]`'s contents: start at 1 and fold each element in
    as `31 * h + e`, the multiplication and addition being Java `int`
    arithmetic and so wrapping at every step.
   */
  function ContentHash(s: seq<Int16>): Int32
  {
    if s == [] then 1 else Wrap32(31 * ContentHash(s[..|s| - 1]) + s[|s| - 1])
  }

  /** The same polynomial over unbounded integers, without any wrapping. */
  function ExactHash(s: seq<Int16>): int
  {
    if s == [] then 1 else 31 * ExactHash(s[..|s| - 1]) + s[|s| - 1]
  }

  /**
    Wrapping at every step of the fold gives the same `int` as computing the
    polynomial exactly and wrapping once at the end.
   */
  lemma {:induction false} ContentHashIsWrappedExactHash(s: seq<Int16>)
    ensures ContentHash(s) == Wrap32(ExactHash(s))
  {
    if s != [] {
      var p, e := s[..|s| - 1], s[|s| - 1];
      ContentHashIsWrappedExactHash(p);
      StepCongruent(ContentHash(p), ExactHash(p), e);
    }
  }

  /** One fold step keeps two hashes that agree modulo 2^32 in agreement. */
  lemma StepCongruent(h: int, x: int, e: int)
    requires (h - x) % TwoTo32 == 0
    ensures Wrap32(31 * h + e) == Wrap32(31 * x + e)
  {
    var j := (h - x) / TwoTo32;
    assert h == x + j * TwoTo32;
    assert 31 * h + e == (31 * x + e) + (31 * j) * TwoTo32;
    ShiftMod(31 * x + e, 31 * j);
    WrapCongruent(31 * h + e, 31 * x + e);
  }

  /** `Arrays.hashCode(short[] a)`: 0 for null, otherwise the content hash. */
  function ShortArrayHash(a: array?<Int16>): (h: Int32)
    reads a
    ensures a == null ==> h == 0
    ensures a != null ==> h == Wrap32(ExactHash(a[..]))
  {
    if a == null then 0
    else ContentHashIsWrappedExactHash(a[..]); ContentHash(a[..])
  }

  /** Arrays that `Arrays.equals` relates have the same `Arrays.hashCode`. */
  lemma EqualArraysHashEqually(a: array?<Int16>, b: array?<Int16>)
    requires ShortArraysEqual(a, b)
    ensures ShortArrayHash(a) == ShortArrayHash(b)
  {
  }
}
