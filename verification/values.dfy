/**
 * The values the diff engine walks. A Java `Object` handed to the engine is
 * either null, a boxed scalar, an array, a `java.util.Collection`, a
 * `java.util.Map` or some other object whose declared fields are read one by
 * one. Each non-null value carries what the engine needs of its runtime class.
 */
module Values {

  /** The boxed scalar classes that appear in the engine's "simple types" lists. */
  datatype ScalarKind =
    | StringKind | BooleanKind | ByteKind | ShortKind | IntegerKind
    | LongKind | FloatKind | DoubleKind | CharacterKind | UuidKind

  /**
   * A value as the engine sees it.
   * - `Scalar(kind, image)`: a boxed scalar; `image` is its canonical form, so
   *   two scalars of one kind are `equals` exactly when their images agree.
   * - `Array(component, elems)`: a Java array with its component type name,
   *   elements already boxed.
   * - `Collection(cls, elems)`: a collection of class `cls`, in `toArray()` order.
   * - `MapV(cls, entries)`: a map of class `cls`, in its iteration order.
   * - `Record(cls, fields)`: any other object: its class and its declared
   *   fields in declaration order.
   * Structural equality of values stands for `Objects.equals`.
   */
  datatype Value =
    | Null
    | Scalar(kind: ScalarKind, image: string)
    | Array(component: string, elems: seq<Value>)
    | Collection(cls: string, elems: seq<Value>)
    | MapV(cls: string, entries: seq<Entry>)
    | Record(cls: string, fields: seq<Field>)

  datatype Entry = Entry(key: Value, value: Value)

  datatype Field = Field(name: string, value: Value)

  /** The runtime class of a non-null value, as compared by `getClass().equals`. */
  datatype ClassTag =
    | ScalarClass(kind: ScalarKind)
    | ArrayClass(component: string)
    | CollectionClass(name: string)
    | MapClass(name: string)
    | RecordClass(name: string)

  /** The component type of the `Object[]` that `toObjectArray` and `toArray` produce. */
  const ObjectComponent: string := "java.lang.Object"

  function ClassOf(v: Value): (c: ClassTag)
    requires !v.Null?
    ensures c.ScalarClass? <==> v.Scalar?
    ensures c.ArrayClass? <==> v.Array?
    ensures c.CollectionClass? <==> v.Collection?
    ensures c.MapClass? <==> v.MapV?
    ensures c.RecordClass? <==> v.Record?
  {
    match v
    case Scalar(k, _) => ScalarClass(k)
    case Array(comp, _) => ArrayClass(comp)
    case Collection(cls, _) => CollectionClass(cls)
    case MapV(cls, _) => MapClass(cls)
    case Record(cls, _) => RecordClass(cls)
  }

  /** The `Object[]` copy of a sequence of elements that the array comparator stores in its node. */
  function ObjectArray(elems: seq<Value>): Value
  {
    Array(ObjectComponent, elems)
  }
}
