/** The two array primitives of the Java library the list is built on:
    `System.arraycopy` and `java.util.Arrays.copyOf`, modelled by their copy
    effect and their bounds checks. */
module JavaArrays {

  datatype Option<T> = None | Some(value: T)

  /** `System.arraycopy(src, srcPos, dest, destPos, length)` on the contents of
      the two arrays: `None` is the IndexOutOfBoundsException raised, before
      anything is copied, when a position or the length is negative or a range
      runs past the end of its array. */
  function ArrayCopied<T>(src: seq<T>, srcPos: int, dest: seq<T>, destPos: int, length: int): (r: Option<seq<T>>)
    ensures r.Some? <==>
      0 <= srcPos && 0 <= destPos && 0 <= length &&
      srcPos + length <= |src| && destPos + length <= |dest|
    ensures r.Some? ==> |r.value| == |dest|
    ensures r.Some? ==> forall i :: 0 <= i < |dest| ==>
      r.value[i] == if destPos <= i < destPos + length then src[srcPos + i - destPos] else dest[i]
  {
    if 0 <= srcPos && 0 <= destPos && 0 <= length &&
       srcPos + length <= |src| && destPos + length <= |dest|
    then Some(dest[..destPos] + src[srcPos..srcPos + length] + dest[destPos + length..])
    else None
  }

  /** `System.arraycopy` on arrays. The source range is read as if through a
      temporary copy, so `src` and `dest` may be the same array. */
  method ArrayCopy<T>(src: array<T>, srcPos: int, dest: array<T>, destPos: int, length: int) returns (ok: bool)
    modifies dest
    ensures ok == ArrayCopied(old(src[..]), srcPos, old(dest[..]), destPos, length).Some?
    ensures dest[..] == if ok then ArrayCopied(old(src[..]), srcPos, old(dest[..]), destPos, length).value
                        else old(dest[..])
  {
    ok := 0 <= srcPos && 0 <= destPos && 0 <= length &&
          srcPos + length <= src.Length && destPos + length <= dest.Length;
    if !ok {
      return;
    }
    var from := src[..];
    var k := 0;
    while k < length
      invariant 0 <= k <= length
      invariant forall i :: 0 <= i < dest.Length ==>
        dest[i] == if destPos <= i < destPos + k then from[srcPos + i - destPos] else old(dest[i])
    {
      dest[destPos + k] := from[srcPos + k];
      k := k + 1;
    }
    ghost var r := ArrayCopied(old(src[..]), srcPos, old(dest[..]), destPos, length).value;
    assert forall i :: 0 <= i < dest.Length ==> dest[..][i] == r[i];
  }

  /** `Arrays.copyOf(original, newLength)`: `null` is the
      NegativeArraySizeException raised for a negative length; otherwise a new
      array of `newLength` slots that starts with the first elements of
      `original`. Slots past the end of `original` hold Java's `null`, which is
      left unspecified here. */
  method CopyOf<T(0)>(original: array<T>, newLength: int) returns (copy: array?<T>)
    ensures copy == null <==> newLength < 0
    ensures copy != null ==> fresh(copy) && copy.Length == newLength
    ensures copy != null ==> forall i :: 0 <= i < newLength && i < original.Length ==> copy[i] == original[i]
  {
    if newLength < 0 {
      return null;
    }
    copy := new T[newLength];
    var k := 0;
    while k < newLength && k < original.Length
      invariant 0 <= k <= newLength && k <= original.Length
      invariant forall i :: 0 <= i < k ==> copy[i] == original[i]
    {
      copy[k] := original[k];
      k := k + 1;
    }
  }
}
