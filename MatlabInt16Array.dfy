/**
  The 16-bit integer array adapter of matlabcontrol's `link` package: a
  flat buffer of real parts and an optional flat buffer of imaginary parts,
  both `short[]`, with element reads, the per-part equality and hashing the
  generic number-array superclass delegates to, and the scan for a non-zero
  value.
 */
module Link {
  import opened JavaArrays

  /** The exceptions an element read can throw. */
  datatype Error = ArrayIndexOutOfBounds | IllegalArgument

  datatype Result<T> = Success(value: T) | Failure(error: Error)

  /** `MatlabInt16`: one element, a real part and an imaginary part. */
  datatype MatlabInt16 = MatlabInt16(realPart: Int16, imagPart: Int16)

  /**
    The flag the scan of `containsNonZero` would hold after visiting every
    element without stopping: it starts false and each non-zero element
    sets it.
   */
  function FlagAfterFullScan(s: seq<Int16>): bool
  {
    if s == [] then false else FlagAfterFullScan(s[..|s| - 1]) || s[|s| - 1] != 0
  }

  /** The full scan's flag is set exactly when some element is non-zero. */
  lemma {:induction false} FullScanFindsNonZero(s: seq<Int16>)
    ensures FlagAfterFullScan(s) <==> exists i :: 0 <= i < |s| && s[i] != 0
  {
    if s != [] {
      var p := s[..|s| - 1];
      FullScanFindsNonZero(p);
      if FlagAfterFullScan(p) {
        var i :| 0 <= i < |p| && p[i] != 0;
        assert s[i] != 0;
      }
      if exists i :: 0 <= i < |s| && s[i] != 0 {
        var i :| 0 <= i < |s| && s[i] != 0;
        if i < |p| { assert p[i] != 0; }
      }
    }
  }

  /** An empty buffer, or one holding only zeros, leaves the flag unset. */
  lemma {:induction false} AllZeroScanIsFalse(s: seq<Int16>)
    requires forall i :: 0 <= i < |s| ==> s[i] == 0
    ensures !FlagAfterFullScan(s)
  {
    if s != [] {
      AllZeroScanIsFalse(s[..|s| - 1]);
    }
  }

  class MatlabInt16Array {
    /** `_real`: the real parts, in linear (column-major) order. */
    const reals: array<Int16>
    /** `_imag`: the imaginary parts, or null when the array is real. */
    const imags: array?<Int16>
    /**
      `getLinearIndex(row, column, pages)`, inherited from the generic
      number-array class and fixed by the array's dimensions: either a
      linear index or the exception it throws for bad indices.
     */
    const linearIndex: (Int32, Int32, seq<Int32>) -> Result<Int32>

    /** The package-private constructor: the superclass stores the parts. */
    constructor (reals: array<Int16>, imags: array?<Int16>,
                 linearIndex: (Int32, Int32, seq<Int32>) -> Result<Int32>)
      ensures this.reals == reals && this.imags == imags && this.linearIndex == linearIndex
    {
      this.reals := reals;
      this.imags := imags;
      this.linearIndex := linearIndex;
    }

    /** Whether both parts hold a value for each linear index. */
    predicate PartsAgree()
    {
      imags == null || imags.Length == reals.Length
    }

    /** Whether `index` can be read from every part that is present. */
    predicate InBounds(index: int)
    {
      0 <= index < reals.Length && (imags == null || index < imags.Length)
    }

    /**
      `getElementAtLinearIndex`: the element at `index`, its imaginary part
      0 when there is no imaginary buffer; an index outside either buffer
      throws ArrayIndexOutOfBoundsException.
     */
    function ElementAtLinearIndex(index: Int32): (r: Result<MatlabInt16>)
      reads reals, imags
      ensures r.Success? <==> InBounds(index)
      ensures r.Failure? ==> r.error == ArrayIndexOutOfBounds
      ensures r.Success? ==> r.value.realPart == reals[index]
      ensures r.Success? && imags != null ==> r.value.imagPart == imags[index]
      ensures r.Success? && imags == null ==> r.value.imagPart == 0
    {
      if index < 0 || index >= reals.Length then Failure(ArrayIndexOutOfBounds)
      else if imags == null then Success(MatlabInt16(reals[index], 0))
      else if index >= imags.Length then Failure(ArrayIndexOutOfBounds)
      else Success(MatlabInt16(reals[index], imags[index]))
    }

    /**
      `getElementAtIndices`: converts the indices with `getLinearIndex`,
      passing on its exception, and reads both parts at the linear index.
     */
    function ElementAtIndices(row: Int32, column: Int32, pages: seq<Int32>): (r: Result<MatlabInt16>)
      reads reals, imags
      ensures linearIndex(row, column, pages).Failure? ==> r == Failure(linearIndex(row, column, pages).error)
      ensures linearIndex(row, column, pages).Success? ==>
                r == ElementAtLinearIndex(linearIndex(row, column, pages).value)
    {
      match linearIndex(row, column, pages)
      case Failure(e) => Failure(e)
      case Success(i) =>
        if i < 0 || i >= reals.Length then Failure(ArrayIndexOutOfBounds)
        else if imags == null then Success(MatlabInt16(reals[i], 0))
        else if i >= imags.Length then Failure(ArrayIndexOutOfBounds)
        else Success(MatlabInt16(reals[i], imags[i]))
    }

    /** When the parts agree in length, a read fails only outside the real buffer. */
    lemma ReadSucceedsWithinRealBuffer(index: Int32)
      requires PartsAgree()
      ensures ElementAtLinearIndex(index).Success? <==> 0 <= index < reals.Length
    {
    }

    /** A real array reads as imaginary part 0 at every index it holds. */
    lemma RealArrayReadsZeroImaginary(index: Int32)
      requires imags == null && 0 <= index < reals.Length
      ensures ElementAtLinearIndex(index) == Success(MatlabInt16(reals[index], 0))
    {
    }

    /** `equalsRealArray`: `Arrays.equals(_real, other)`. */
    function EqualsRealArray(other: array?<Int16>): (r: bool)
      reads reals, other
      ensures r <==> other != null && reals[..] == other[..]
    {
      ShortArraysEqual(reals, other)
    }

    /** `equalsImaginaryArray`: `Arrays.equals(_imag, other)`. */
    function EqualsImaginaryArray(other: array?<Int16>): (r: bool)
      reads imags, other
      ensures r <==> ((imags == null && other == null)
                      || (imags != null && other != null && imags[..] == other[..]))
    {
      ShortArraysEqual(imags, other)
    }

    /** `hashReal`: `Arrays.hashCode(_real)`. */
    function HashReal(): (h: Int32)
      reads reals
      ensures h == Wrap32(ExactHash(reals[..]))
    {
      ShortArrayHash(reals)
    }

    /** `hashImaginary`: `Arrays.hashCode(_imag)`, 0 for a real array. */
    function HashImaginary(): (h: Int32)
      reads imags
      ensures imags == null ==> h == 0
      ensures imags != null ==> h == Wrap32(ExactHash(imags[..]))
    {
      ShortArrayHash(imags)
    }

    /** Arrays whose real parts are equal hash their real parts equally. */
    lemma EqualRealPartsHashEqually(other: MatlabInt16Array)
      requires EqualsRealArray(other.reals)
      ensures HashReal() == other.HashReal()
    {
      EqualArraysHashEqually(reals, other.reals);
    }

    /** Arrays whose imaginary parts are equal hash their imaginary parts equally. */
    lemma EqualImaginaryPartsHashEqually(other: MatlabInt16Array)
      requires EqualsImaginaryArray(other.imags)
      ensures HashImaginary() == other.HashImaginary()
    {
      EqualArraysHashEqually(imags, other.imags);
    }

    /**
      `containsNonZero`: visits the elements in order and stops at the first
      non-zero one. `stop` is the index it stopped at, or the length when it
      visited every element.
     */
    method ContainsNonZero(a: array<Int16>) returns (contained: bool, ghost stop: nat)
      ensures contained <==> exists i :: 0 <= i < a.Length && a[i] != 0
      ensures contained == FlagAfterFullScan(a[..])
      ensures stop <= a.Length && forall j :: 0 <= j < stop ==> a[j] == 0
      ensures contained <==> stop < a.Length
      ensures contained ==> a[stop] != 0
    {
      contained := false;
      var i := 0;
      while i < a.Length
        invariant 0 <= i <= a.Length
        invariant !contained
        invariant forall j :: 0 <= j < i ==> a[j] == 0
      {
        if a[i] != 0 {
          contained := true;
          break;
        }
        i := i + 1;
      }
      stop := i;
      FullScanFindsNonZero(a[..]);
    }
  }
}
