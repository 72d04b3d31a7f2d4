/**
 * The array coercion helper: it copies any array, element by element, into a
 * fresh `Object[]` so that the array comparator can index every array alike.
 */
module DiffUtils {
  import opened Values

  /** `toObjectArray`: a fresh array with the same length and the same elements, in order. */
  method ToObjectArray(source: array<Value>) returns (ret: array<Value>)
    ensures fresh(ret)
    ensures ret.Length == source.Length
    ensures forall i :: 0 <= i < source.Length ==> ret[i] == source[i]
  {
    var length := source.Length;
    ret := new Value[length];
    for i := 0 to length
      invariant forall j :: 0 <= j < i ==> ret[j] == source[j]
    {
      ret[i] := source[i];
    }
  }
}
