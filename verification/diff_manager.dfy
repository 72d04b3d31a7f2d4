/**
 * The recursive structural diff engine, as pure functions.
 *
 * The repository holds two copies of the engine: `UtilsCopy`
 * (utils/diff/DiffManager.java, with the map comparator) and `BaseCopy`
 * (diff/DiffManager.java, the earlier copy whose scalar list also holds UUID
 * and whose map comparator is a stub). Both share three defects; `AsWritten`
 * reproduces them and `Corrected` repairs them:
 * - the array comparator reads past the end of a shorter new array,
 * - the array comparator never reports the last appended element,
 * - the map comparator takes a key mapped to `null` for a missing key.
 *
 * The `for` loops and `forEach` lambdas that fill `resultNodeChildren` are
 * specified here by prefix recursion (the children after `k` steps); the
 * loops themselves are the methods of module DiffLoops.
 */
module DiffManager {
  import opened Values
  import opened ResultTree

  datatype Copy = UtilsCopy | BaseCopy

  datatype Mode = AsWritten | Corrected

  datatype Engine = Engine(copy: Copy, mode: Mode)

  datatype Option<+T> = None | Some(value: T)

  const RootFieldName: string := "ROOT"
  const KeyLabel: string := "key"
  const ValueLabel: string := "value"

  /** The classes for which a copy compares by `equals` alone. */
  function SimpleKinds(c: Copy): set<ScalarKind>
  {
    var boxed := {StringKind, BooleanKind, ByteKind, ShortKind, IntegerKind,
                  LongKind, FloatKind, DoubleKind, CharacterKind};
    if c == BaseCopy then boxed + {UuidKind} else boxed
  }

  // ---------------------------------------------------------------- labels

  function Digit(d: nat): char
    requires d < 10
  {
    "0123456789"[d]
  }

  /** `String.valueOf(i)` for a non-negative index. */
  function NatToString(n: nat): (s: string)
    ensures |s| >= 1
    decreases n
  {
    if n < 10 then [Digit(n)] else NatToString(n / 10) + [Digit(n % 10)]
  }

  /** The label of the child comparing two elements at index `i`. */
  function ElementLabel(i: nat): string
  {
    "array[" + NatToString(i) + "]"
  }

  /** The label of a leaf for an element present on one side only. */
  function IndexLabel(i: nat): string
  {
    NatToString(i)
  }

  // ------------------------------------------------------------ aggregation

  /** `getStateBasedOnChildrenStates`: `allMatch(UNTOUCHED) ? UNTOUCHED : CHANGED`. */
  function ChildrenState(children: seq<ResultNode>): (s: State)
    ensures s == Untouched || s == Changed
    ensures s == Untouched <==> forall i :: 0 <= i < |children| ==> children[i].state == Untouched
  {
    if |children| == 0 then Untouched
    else if children[0].state != Untouched then Changed
    else ChildrenState(children[1..])
  }

  // --------------------------------------------------------------- dispatch

  /** The public `diff(oldValue, newValue)`: the tree is rooted at "ROOT". */
  function Diff(e: Engine, oldValue: Value, newValue: Value): Result<ResultNode>
  {
    DiffAt(e, RootFieldName, oldValue, newValue)
  }

  /**
   * The private `diff(fieldName, oldObject, newObject)`: equality, then a
   * missing side, then the class check; two present values of one class go
   * on to the comparator for that class.
   */
  function DiffAt(e: Engine, fieldName: string, oldObject: Value, newObject: Value): Result<ResultNode>
    decreases oldObject, 4
  {
    if oldObject == newObject then
      Success(Leaf(fieldName, oldObject, newObject, Untouched))
    else if oldObject.Null? then
      Success(Leaf(fieldName, Null, newObject, Added))
    else if newObject.Null? then
      Success(Leaf(fieldName, oldObject, Null, Removed))
    else if ClassOf(oldObject) != ClassOf(newObject) then
      Failure(ClassMismatch(ClassOf(oldObject), ClassOf(newObject)))
    else
      Compare(e, fieldName, oldObject, newObject)
  }

  /** The second half of `diff`: the comparator chosen by the class of two different present values. */
  function Compare(e: Engine, fieldName: string, oldObject: Value, newObject: Value): Result<ResultNode>
    requires !oldObject.Null? && !newObject.Null? && ClassOf(oldObject) == ClassOf(newObject)
    decreases oldObject, 3
  {
    match oldObject
    case Scalar(kind, _) =>
      if kind in SimpleKinds(e.copy) then
        Success(Leaf(fieldName, oldObject, newObject, DiffSimple(oldObject, newObject)))
      else
        // a UUID in the utils copy falls through to reflective field access
        Failure(ReflectionOnLibraryClass(kind))
    case Array(_, olds) => DiffArray(e, fieldName, olds, newObject.elems)
    case Collection(_, olds) => DiffArray(e, fieldName, olds, newObject.elems)
    case MapV(_, _) =>
      if e.copy == BaseCopy then Failure(MapNotImplemented)
      else DiffMap(e, fieldName, oldObject, newObject)
    case Record(_, _) => DiffObject(e, fieldName, oldObject, newObject)
  }

  // ----------------------------------------------------------------- scalars

  /**
   * `diffSimple`. Calling `equals` on a null base value would throw, so at
   * least one side is present.
   */
  function DiffSimple(baseValue: Value, comparableValue: Value): (s: State)
    requires !baseValue.Null? || !comparableValue.Null?
    ensures s == Added <==> baseValue.Null?
    ensures s == Removed <==> comparableValue.Null?
    ensures s == Untouched <==> baseValue == comparableValue
  {
    if baseValue.Null? && !comparableValue.Null? then Added
    else if !baseValue.Null? && comparableValue.Null? then Removed
    else if baseValue != comparableValue then Changed
    else Untouched
  }

  // ------------------------------------------------------------------ arrays

  /** `diffArray` over the `Object[]` views of two arrays or collections. */
  function DiffArray(e: Engine, fieldName: string, olds: seq<Value>, news: seq<Value>): Result<ResultNode>
    decreases olds, 2
  {
    if olds == news then
      Success(Leaf(fieldName, ObjectArray(olds), ObjectArray(news), Untouched))
    else
      var children :- ArrayChildren(e, olds, news);
      Success(ResultNode(fieldName, ObjectArray(olds), ObjectArray(news), ChildrenState(children), children))
  }

  function Min(a: nat, b: nat): nat
  {
    if a <= b then a else b
  }

  /**
   * The children `diffArray` collects: the element pairs, then a REMOVED leaf
   * per excess old element, then an ADDED leaf per appended element. As
   * written, an excess old element makes the loop read `newArray[i]` out of
   * bounds, and the append loop stops one index early.
   */
  function ArrayChildren(e: Engine, olds: seq<Value>, news: seq<Value>): Result<seq<ResultNode>>
    decreases olds, 1
  {
    var pairs :- ArrayPairs(e, olds, news, Min(|olds|, |news|));
    if |olds| > |news| then
      if e.mode == AsWritten then Failure(IndexOutOfBounds(|news|, |news|))
      else Success(pairs + RemovedLeaves(olds, |news|))
    else
      Success(pairs + AddedLeaves(news, |olds|, AddedBound(e.mode, |olds|, |news|)))
  }

  /** The end of the append loop: `newArray.length - 1` as written, `newArray.length` corrected. */
  function AddedBound(mode: Mode, oldLength: nat, newLength: nat): nat
  {
    if oldLength < newLength && mode == AsWritten then newLength - 1
    else if oldLength < newLength then newLength
    else oldLength
  }

  /** The children for the first `k` element pairs, in index order; the first failing pair aborts. */
  function ArrayPairs(e: Engine, olds: seq<Value>, news: seq<Value>, k: nat): Result<seq<ResultNode>>
    requires k <= |olds| && k <= |news|
    decreases olds, 0, k
  {
    if k == 0 then Success([])
    else
      var prev :- ArrayPairs(e, olds, news, k - 1);
      var child :- DiffAt(e, ElementLabel(k - 1), olds[k - 1], news[k - 1]);
      Success(prev + [child])
  }

  /** The leaves for the old elements from index `from` on, which the new array lacks. */
  function RemovedLeaves(olds: seq<Value>, from: nat): seq<ResultNode>
    requires from <= |olds|
  {
    seq(|olds| - from, j requires 0 <= j < |olds| - from =>
      Leaf(IndexLabel(from + j), olds[from + j], Null, Removed))
  }

  /** The leaves for the new elements at indices `from` to `to - 1`, which the old array lacks. */
  function AddedLeaves(news: seq<Value>, from: nat, to: nat): seq<ResultNode>
    requires from <= to <= |news|
  {
    seq(to - from, j requires 0 <= j < to - from =>
      Leaf(IndexLabel(from + j), Null, news[from + j], Added))
  }

  // -------------------------------------------------------------------- maps

  /** Whether some entry has the given key. */
  predicate HasKey(entries: seq<Entry>, key: Value)
  {
    exists i :: 0 <= i < |entries| && entries[i].key == key
  }

  /** The value of the first entry with the given key, `None` when there is none. */
  function Get(entries: seq<Entry>, key: Value): (r: Option<Value>)
    ensures r.Some? <==> HasKey(entries, key)
    ensures r.Some? ==> exists i :: 0 <= i < |entries| && entries[i] == Entry(key, r.value)
  {
    if |entries| == 0 then None
    else if entries[0].key == key then Some(entries[0].value)
    else
      var r := Get(entries[1..], key);
      assert forall i :: 0 <= i < |entries| - 1 ==> entries[1..][i] == entries[i + 1];
      r
  }

  /**
   * The lookup the map comparator acts on. As written it tests
   * `map.get(key) == null`, so a key mapped to null reads as missing;
   * corrected, only a missing key is missing.
   */
  function Lookup(mode: Mode, entries: seq<Entry>, key: Value): Option<Value>
  {
    match Get(entries, key)
    case None => None
    case Some(v) => if mode == AsWritten && v.Null? then None else Some(v)
  }

  /** The pair of nodes for a key only the old map has. */
  function RemovedKey(entry: Entry): ResultNode
  {
    ResultNode(KeyLabel, entry.key, Null, Removed, [Leaf(ValueLabel, entry.value, Null, Removed)])
  }

  /** The pair of nodes for a key only the new map has. */
  function AddedKey(entry: Entry): ResultNode
  {
    ResultNode(KeyLabel, Null, entry.key, Added, [Leaf(ValueLabel, Null, entry.value, Added)])
  }

  /** `diffMap`: old-map keys first, then the keys only the new map has. */
  function DiffMap(e: Engine, fieldName: string, oldMap: Value, newMap: Value): Result<ResultNode>
    requires oldMap.MapV? && newMap.MapV?
    decreases oldMap, 2
  {
    if oldMap == newMap then
      Success(Leaf(fieldName, oldMap, newMap, Untouched))
    else
      var fromOld :- OldKeyChildren(e, oldMap, newMap, |oldMap.entries|);
      var children := fromOld + NewKeyChildren(e.mode, oldMap.entries, newMap.entries, |newMap.entries|);
      Success(ResultNode(fieldName, oldMap, newMap, ChildrenState(children), children))
  }

  /** The key nodes for the first `k` old-map entries; the first failing value diff aborts. */
  function OldKeyChildren(e: Engine, oldMap: Value, newMap: Value, k: nat): Result<seq<ResultNode>>
    requires oldMap.MapV? && newMap.MapV? && k <= |oldMap.entries|
    decreases oldMap, 1, k
  {
    if k == 0 then Success([])
    else
      var prev :- OldKeyChildren(e, oldMap, newMap, k - 1);
      var entry := oldMap.entries[k - 1];
      assert entry in oldMap.entries;
      match Lookup(e.mode, newMap.entries, entry.key)
      case None => Success(prev + [RemovedKey(entry)])
      case Some(newValue) =>
        var valuesDiff :- DiffAt(e, ValueLabel, entry.value, newValue);
        Success(prev + [ResultNode(KeyLabel, entry.key, entry.key, valuesDiff.state, [valuesDiff])])
  }

  /** The ADDED key nodes for those of the first `k` new-map entries whose key the old map lacks. */
  function NewKeyChildren(mode: Mode, olds: seq<Entry>, news: seq<Entry>, k: nat): seq<ResultNode>
    requires k <= |news|
  {
    if k == 0 then []
    else
      NewKeyChildren(mode, olds, news, k - 1)
      + (if Lookup(mode, olds, news[k - 1].key).None? then [AddedKey(news[k - 1])] else [])
  }

  // ------------------------------------------------------------- composites

  /** The value of the first field with the given name, `None` when the record declares none. */
  function FindField(fields: seq<Field>, name: string): (r: Option<Value>)
    ensures r.None? <==> forall i :: 0 <= i < |fields| ==> fields[i].name != name
    ensures r.Some? ==> exists i :: 0 <= i < |fields| && fields[i] == Field(name, r.value)
  {
    if |fields| == 0 then None
    else if fields[0].name == name then Some(fields[0].value)
    else
      var r := FindField(fields[1..], name);
      assert forall i :: 0 <= i < |fields| - 1 ==> fields[1..][i] == fields[i + 1];
      r
  }

  /** `diffObject`: one child per old declared field, in declaration order. */
  function DiffObject(e: Engine, fieldName: string, oldObject: Value, newObject: Value): Result<ResultNode>
    requires oldObject.Record? && newObject.Record?
    decreases oldObject, 2
  {
    var children :- FieldChildren(e, oldObject, newObject, |oldObject.fields|);
    Success(ResultNode(fieldName, oldObject, newObject, ChildrenState(children), children))
  }

  /** The children for the first `k` old fields; a field the new object lacks aborts. */
  function FieldChildren(e: Engine, oldObject: Value, newObject: Value, k: nat): Result<seq<ResultNode>>
    requires oldObject.Record? && newObject.Record? && k <= |oldObject.fields|
    decreases oldObject, 1, k
  {
    if k == 0 then Success([])
    else
      var prev :- FieldChildren(e, oldObject, newObject, k - 1);
      var field := oldObject.fields[k - 1];
      assert field in oldObject.fields;
      match FindField(newObject.fields, field.name)
      case None => Failure(MissingField(field.name))
      case Some(newValue) =>
        var child :- DiffAt(e, field.name, field.value, newValue);
        Success(prev + [child])
  }
}
