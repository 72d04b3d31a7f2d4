/**
 * The output of the diff engine: an immutable tree of `ResultNode`s, built
 * bottom-up within one call and never patched afterwards.
 */
module ResultTree {
  import opened Values

  /** The state of one compared position. */
  datatype State = Added | Changed | Untouched | Removed

  /**
   * One node of the result tree: the label of the compared position, the two
   * values compared there (either may be `Null`), its state, and its children
   * in the order the comparator produced them (empty for a leaf).
   */
  datatype ResultNode = ResultNode(
    fieldName: string,
    oldValue: Value,
    newValue: Value,
    state: State,
    children: seq<ResultNode>)

  /** A node built with an empty children list. */
  function Leaf(fieldName: string, oldValue: Value, newValue: Value, state: State): ResultNode
  {
    ResultNode(fieldName, oldValue, newValue, state, [])
  }

  /** The reasons a diff is abandoned; the first one met aborts the whole call. */
  datatype DiffError =
    | ClassMismatch(oldClass: ClassTag, newClass: ClassTag)
    | MissingField(name: string)
    | IndexOutOfBounds(index: nat, length: nat)
    | MapNotImplemented
    | ReflectionOnLibraryClass(kind: ScalarKind)

  /** A diff either yields a value or aborts with an error. */
  datatype Result<+T> = Success(value: T) | Failure(error: DiffError) {
    predicate IsFailure() {
      Failure?
    }

    function PropagateFailure<U>(): Result<U>
      requires Failure?
    {
      Failure(error)
    }

    function Extract(): T
      requires Success?
    {
      value
    }
  }

  /** Every node of the tree is `Untouched`. */
  ghost predicate AllUntouched(t: ResultNode)
    decreases t
  {
    t.state == Untouched &&
    forall i :: 0 <= i < |t.children| ==> AllUntouched(t.children[i])
  }
}
