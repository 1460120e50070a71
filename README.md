# matlabcontrol: the 16-bit integer array adapter

matlabcontrol lets a Java program exchange numeric arrays with MATLAB. Its
`link` package holds one adapter per numeric type. This project models the
`int16` adapter, `MatlabInt16Array`. The adapter keeps a flat buffer of real
parts and an optional flat buffer of imaginary parts, both `short[]`. It
offers these operations:

- it reads one element at a linear index, or at row/column/page indices;
- it compares each part with another `short[]`;
- it hashes each part;
- it scans a buffer for a non-zero value.

The model has two modules.

- `JavaArrays` (JavaArrays.dfy) holds the Java platform pieces the adapter
  relies on. Java `short` and `int` are the bounded types `Int16` and `Int32`,
  and `Wrap32` writes out two's-complement `int` overflow. It also models
  `java.util.Arrays.equals(short[], short[])` and
  `java.util.Arrays.hashCode(short[])` from their documented contracts. The
  hash starts at 1 and folds each element in as `31 * h + e` in `int`
  arithmetic; null hashes to 0. A lemma proves that wrapping at every step
  gives the same value as wrapping the exact polynomial once.
- `Link` (MatlabInt16Array.dfy) holds the adapter. The class
  `MatlabInt16Array` has the two buffers as fields: `reals` is an
  `array<Int16>` and `imags` is an `array?<Int16>`, where null means a real
  array. The reads and comparisons are functions, because the source only
  reads the fields. `containsNonZero` is a method with a loop that stops early,
  as in the source. An out-of-range index gives a `Failure(ArrayIndexOutOfBounds)`
  result instead of a precondition.

`getLinearIndex` belongs to the generic superclass `MatlabNumberArray`, which
is not part of this model. The class therefore carries it as a function-valued
field, `linearIndex`. That function returns either a linear index or the
exception it throws. Its formula is not modelled.

## Model

| member | source | states |
|---|---|---|
| `Link.MatlabInt16Array.constructor` | trunk/matlabcontrol/src/matlabcontrol/link/MatlabInt16Array.java:35-38 | The new array holds exactly the given real buffer, imaginary buffer (possibly null) and index conversion. |
| `Link.MatlabInt16Array.ElementAtLinearIndex` | trunk/matlabcontrol/src/matlabcontrol/link/MatlabInt16Array.java:50-59 | A read succeeds exactly when the index is inside the real buffer and, if present, the imaginary buffer. Otherwise it fails with ArrayIndexOutOfBounds. On success the real part is `_real[index]`, and the imaginary part is `_imag[index]`, or 0 when there is no imaginary buffer. |
| `Link.MatlabInt16Array.ElementAtIndices` | trunk/matlabcontrol/src/matlabcontrol/link/MatlabInt16Array.java:61-73 | An exception from `getLinearIndex` is passed on unchanged. Otherwise the result equals the linear-index read at the converted index. |
| `Link.MatlabInt16Array.ReadSucceedsWithinRealBuffer` | trunk/matlabcontrol/src/matlabcontrol/link/MatlabInt16Array.java:56-58 | When the imaginary buffer is absent or as long as the real one, a read succeeds exactly for indices in `0 .. _real.length - 1`. |
| `Link.MatlabInt16Array.RealArrayReadsZeroImaginary` | trunk/matlabcontrol/src/matlabcontrol/link/MatlabInt16Array.java:58 | Without an imaginary buffer, every in-range read is `(_real[index], 0)`. |
| `Link.MatlabInt16Array.EqualsRealArray` | trunk/matlabcontrol/src/matlabcontrol/link/MatlabInt16Array.java:75-79 | True exactly when `other` is non-null and has the same contents as the real buffer. |
| `Link.MatlabInt16Array.EqualsImaginaryArray` | trunk/matlabcontrol/src/matlabcontrol/link/MatlabInt16Array.java:81-85 | True exactly when both the imaginary buffer and `other` are null, or both are non-null with the same contents. |
| `Link.MatlabInt16Array.HashReal` | trunk/matlabcontrol/src/matlabcontrol/link/MatlabInt16Array.java:87-91 | The hash of the real buffer is the 32-bit wrap of the exact polynomial hash of its contents. |
| `Link.MatlabInt16Array.HashImaginary` | trunk/matlabcontrol/src/matlabcontrol/link/MatlabInt16Array.java:93-97 | The hash is 0 without an imaginary buffer. Otherwise it is the 32-bit wrap of the polynomial hash of the buffer's contents. |
| `Link.MatlabInt16Array.EqualRealPartsHashEqually` | trunk/matlabcontrol/src/matlabcontrol/link/MatlabInt16Array.java:75-91 | Two arrays whose real parts `equalsRealArray` relates have equal `hashReal`. |
| `Link.MatlabInt16Array.EqualImaginaryPartsHashEqually` | trunk/matlabcontrol/src/matlabcontrol/link/MatlabInt16Array.java:81-97 | Two arrays whose imaginary parts `equalsImaginaryArray` relates have equal `hashImaginary`. |
| `Link.MatlabInt16Array.ContainsNonZero` | trunk/matlabcontrol/src/matlabcontrol/link/MatlabInt16Array.java:99-114 | True exactly when some element is non-zero. The result equals the flag of a full scan without the early exit. The scan stops at the first non-zero element: everything before that index is zero. When no element is non-zero, it visits the whole buffer. |
| `Link.FullScanFindsNonZero` | trunk/matlabcontrol/src/matlabcontrol/link/MatlabInt16Array.java:102-113 | The flag of the full scan, which starts false and is set by each non-zero element, is set exactly when some element is non-zero. |
| `Link.AllZeroScanIsFalse` | trunk/matlabcontrol/src/matlabcontrol/link/MatlabInt16Array.java:102-113 | On an empty or all-zero buffer the flag stays false. |
| `JavaArrays.ShortArraysEqual` | trunk/matlabcontrol/src/matlabcontrol/link/MatlabInt16Array.java:78 | `Arrays.equals` is true exactly when both arrays are null, or both are non-null with equal contents. |
| `JavaArrays.SameElementsIsEquality` | trunk/matlabcontrol/src/matlabcontrol/link/MatlabInt16Array.java:84 | The element-by-element comparison of two equally long buffers agrees with equality of their contents. |
| `JavaArrays.ShortArrayHash` | trunk/matlabcontrol/src/matlabcontrol/link/MatlabInt16Array.java:90 | `Arrays.hashCode` is 0 for null. Otherwise it is the 32-bit wrap of the exact polynomial hash of the contents. |
| `JavaArrays.ContentHashIsWrappedExactHash` | trunk/matlabcontrol/src/matlabcontrol/link/MatlabInt16Array.java:96 | Folding `31 * h + e` with `int` overflow at every step gives the exact polynomial reduced once to a 32-bit `int`. |
| `JavaArrays.EqualArraysHashEqually` | trunk/matlabcontrol/src/matlabcontrol/link/MatlabInt16Array.java:76-97 | Arrays that `Arrays.equals` relates have the same `Arrays.hashCode`. |

## Left out

- matlabcontrol/src/matlabcontrol/MatlabConnector.java is not part of this model. It does RMI registry lookup, runs a background thread with a fixed sleep and logs exceptions: I/O and concurrency with no data logic.
- `getInstance` and the private constructor (lines 40-48) are left out. They hand multi-dimensional Java arrays to the superclass `MatlabNumberArray`, which flattens them. That code is not part of this model.
- `getLinearIndex` is a function-valued field whose formula is not modelled, because the superclass that defines it is not part of this model. The model also does not check that it agrees with the array's dimensions.
- `MatlabInt16` is modelled only as a (real, imaginary) pair. Its other methods are not modelled.
- The generic type parameter `T` and the `short[].class` token are not modelled. They only matter for the superclass's reflection.
- Link.MatlabInt16Array.ContainsNonZero takes a non-null array. In Java a null argument throws NullPointerException, and the callers in the superclass are not part of this model.
- Java arrays are shared mutable objects. The model reads them through `reads` clauses but does not model other code that writes to them.
