/**
 * What the diff engine promises, proved about the functions of module
 * DiffManager: the dispatch cases, the aggregation rule and its consequences
 * for the whole tree, the layout of the children of each comparator, and the
 * rule that the first error anywhere aborts the whole diff.
 */
module DiffProperties {
  import opened Values
  import opened ResultTree
  import opened DiffManager

  // ================================================================ dispatch

  /** The public entry point labels the root "ROOT". */
  lemma RootLabelled(e: Engine, oldValue: Value, newValue: Value)
    ensures Diff(e, oldValue, newValue).Success? ==> Diff(e, oldValue, newValue).value.fieldName == "ROOT"
  {
    LabelKept(e, RootFieldName, oldValue, newValue);
  }

  /** Every node the private `diff` builds carries the label it was asked for. */
  lemma LabelKept(e: Engine, fieldName: string, oldObject: Value, newObject: Value)
    ensures DiffAt(e, fieldName, oldObject, newObject).Success? ==>
      DiffAt(e, fieldName, oldObject, newObject).value.fieldName == fieldName
  {
    if oldObject != newObject && !oldObject.Null? && !newObject.Null? && ClassOf(oldObject) == ClassOf(newObject) {
      Dispatch(e, fieldName, oldObject, newObject);
    }
  }

  /** Equal values, both null included, give an UNTOUCHED leaf holding them: the whole tree is UNTOUCHED. */
  lemma EqualValuesUntouched(e: Engine, fieldName: string, v: Value)
    ensures DiffAt(e, fieldName, v, v) == Success(Leaf(fieldName, v, v, Untouched))
    ensures AllUntouched(DiffAt(e, fieldName, v, v).value)
  {
  }

  /** Exactly one side null gives an ADDED or REMOVED leaf that keeps the present side's value. */
  lemma OneSideNull(e: Engine, fieldName: string, v: Value)
    requires !v.Null?
    ensures DiffAt(e, fieldName, Null, v) == Success(Leaf(fieldName, Null, v, Added))
    ensures DiffAt(e, fieldName, v, Null) == Success(Leaf(fieldName, v, Null, Removed))
  {
  }

  /** Two present values of different runtime classes abort the diff: no tree is produced. */
  lemma ClassMismatchAborts(e: Engine, fieldName: string, oldObject: Value, newObject: Value)
    requires !oldObject.Null? && !newObject.Null?
    requires ClassOf(oldObject) != ClassOf(newObject)
    ensures DiffAt(e, fieldName, oldObject, newObject)
         == Failure(ClassMismatch(ClassOf(oldObject), ClassOf(newObject)))
  {
  }

  /**
   * Two different present values of one class go to the comparator for that
   * class: a CHANGED leaf for simple scalars (reflection on any other
   * scalar), the sequence comparator for arrays and collections, the map
   * comparator (a stub in the base copy), the field comparator otherwise.
   */
  lemma Dispatch(e: Engine, fieldName: string, oldObject: Value, newObject: Value)
    requires !oldObject.Null? && !newObject.Null? && oldObject != newObject
    requires ClassOf(oldObject) == ClassOf(newObject)
    ensures oldObject.Scalar? ==>
      DiffAt(e, fieldName, oldObject, newObject)
      == if oldObject.kind in SimpleKinds(e.copy) then Success(Leaf(fieldName, oldObject, newObject, Changed))
         else Failure(ReflectionOnLibraryClass(oldObject.kind))
    ensures oldObject.Array? || oldObject.Collection? ==>
      (newObject.Array? || newObject.Collection?) &&
      DiffAt(e, fieldName, oldObject, newObject) == DiffArray(e, fieldName, oldObject.elems, newObject.elems)
    ensures oldObject.MapV? ==>
      DiffAt(e, fieldName, oldObject, newObject)
      == if e.copy == BaseCopy then Failure(MapNotImplemented) else DiffMap(e, fieldName, oldObject, newObject)
    ensures oldObject.Record? ==> DiffAt(e, fieldName, oldObject, newObject) == DiffObject(e, fieldName, oldObject, newObject)
  {
    assert DiffAt(e, fieldName, oldObject, newObject) == Compare(e, fieldName, oldObject, newObject);
  }

  /**
   * Two scalars of one simple kind give a leaf: CHANGED when they differ,
   * UNTOUCHED when they are equal. A UUID is simple only in the base copy.
   */
  lemma ScalarLeaf(e: Engine, fieldName: string, kind: ScalarKind, a: string, b: string)
    ensures kind in SimpleKinds(e.copy) ==>
      DiffAt(e, fieldName, Scalar(kind, a), Scalar(kind, b))
      == Success(Leaf(fieldName, Scalar(kind, a), Scalar(kind, b), if a == b then Untouched else Changed))
    ensures kind !in SimpleKinds(e.copy) ==>
      (kind == UuidKind && e.copy == UtilsCopy &&
       DiffAt(e, fieldName, Scalar(kind, a), Scalar(kind, b))
       == if a == b then Success(Leaf(fieldName, Scalar(kind, a), Scalar(kind, b), Untouched))
          else Failure(ReflectionOnLibraryClass(UuidKind)))
  {
  }

  /**
   * A value present on both sides is never reported ADDED or REMOVED: those
   * states are not propagated upward, so only a one-sided position carries them.
   */
  lemma PresentOnBothSides(e: Engine, fieldName: string, oldObject: Value, newObject: Value)
    requires !oldObject.Null? && !newObject.Null?
    ensures DiffAt(e, fieldName, oldObject, newObject).Success? ==>
      DiffAt(e, fieldName, oldObject, newObject).value.state in {Untouched, Changed}
  {
    if oldObject != newObject && ClassOf(oldObject) == ClassOf(newObject) {
      Dispatch(e, fieldName, oldObject, newObject);
    }
  }

  /** A composite one of whose fields was added (or otherwise differs) is CHANGED, not ADDED. */
  lemma CompositeWithChangedFieldIsChanged(e: Engine, fieldName: string, oldObject: Value, newObject: Value, i: nat)
    requires oldObject.Record? && newObject.Record? && oldObject != newObject
    requires DiffAt(e, fieldName, oldObject, newObject).Success?
    requires i < |DiffAt(e, fieldName, oldObject, newObject).value.children|
    requires DiffAt(e, fieldName, oldObject, newObject).value.children[i].state != Untouched
    ensures DiffAt(e, fieldName, oldObject, newObject).value.state == Changed
  {
    Dispatch(e, fieldName, oldObject, newObject);
  }

  // ============================================================ tree shape

  /**
   * The shape every diff tree has: a leaf that is ADDED holds no old value
   * and one that is REMOVED no new value; an inner node is either a map "key"
   * node whose state is that of its one "value" child, or takes the
   * aggregate state of its children.
   */
  ghost predicate Shaped(t: ResultNode)
    decreases t
  {
    && (t.children == [] ==> (t.state == Added ==> t.oldValue == Null) && (t.state == Removed ==> t.newValue == Null))
    && (t.children != [] ==> IsKeyNode(t) || t.state == ChildrenState(t.children))
    && forall i :: 0 <= i < |t.children| ==> Shaped(t.children[i])
  }

  predicate IsKeyNode(t: ResultNode)
  {
    t.fieldName == KeyLabel && |t.children| == 1 &&
    t.children[0].fieldName == ValueLabel && t.state == t.children[0].state
  }

  ghost predicate AllShaped(ts: seq<ResultNode>)
  {
    forall i :: 0 <= i < |ts| ==> Shaped(ts[i])
  }

  lemma AllShapedAppend(a: seq<ResultNode>, b: seq<ResultNode>)
    requires AllShaped(a) && AllShaped(b)
    ensures AllShaped(a + b)
  {
    assert forall i :: |a| <= i < |a + b| ==> (a + b)[i] == b[i - |a|];
  }

  /** Every tree the engine returns has the shape above. */
  lemma {:induction false} DiffAtShaped(e: Engine, fieldName: string, oldObject: Value, newObject: Value)
    ensures DiffAt(e, fieldName, oldObject, newObject).Success? ==>
      Shaped(DiffAt(e, fieldName, oldObject, newObject).value)
    decreases oldObject, 3
  {
    if oldObject == newObject || oldObject.Null? || newObject.Null? || ClassOf(oldObject) != ClassOf(newObject) {
    } else {
      match oldObject
      case Scalar(_, _) =>
      case Array(_, olds) => DiffArrayShaped(e, fieldName, olds, newObject.elems);
      case Collection(_, olds) => DiffArrayShaped(e, fieldName, olds, newObject.elems);
      case MapV(_, _) =>
        if e.copy == UtilsCopy {
          DiffMapShaped(e, fieldName, oldObject, newObject);
        }
      case Record(_, _) => DiffObjectShaped(e, fieldName, oldObject, newObject);
    }
  }

  lemma {:induction false} DiffArrayShaped(e: Engine, fieldName: string, olds: seq<Value>, news: seq<Value>)
    ensures DiffArray(e, fieldName, olds, news).Success? ==> Shaped(DiffArray(e, fieldName, olds, news).value)
    decreases olds, 2
  {
    if olds != news {
      ArrayChildrenShaped(e, olds, news);
    }
  }

  lemma {:induction false} ArrayChildrenShaped(e: Engine, olds: seq<Value>, news: seq<Value>)
    ensures ArrayChildren(e, olds, news).Success? ==> AllShaped(ArrayChildren(e, olds, news).value)
    decreases olds, 1
  {
    var m := Min(|olds|, |news|);
    ArrayPairsShaped(e, olds, news, m);
    if ArrayPairs(e, olds, news, m).Success? {
      var pairs := ArrayPairs(e, olds, news, m).value;
      if |olds| > |news| {
        RemovedLeavesShaped(olds, |news|);
        AllShapedAppend(pairs, RemovedLeaves(olds, |news|));
      } else {
        var bound := AddedBound(e.mode, |olds|, |news|);
        AddedLeavesShaped(news, |olds|, bound);
        AllShapedAppend(pairs, AddedLeaves(news, |olds|, bound));
      }
    }
  }

  lemma RemovedLeavesShaped(olds: seq<Value>, from: nat)
    requires from <= |olds|
    ensures AllShaped(RemovedLeaves(olds, from))
  {
    var removed := RemovedLeaves(olds, from);
    forall i | 0 <= i < |removed|
      ensures Shaped(removed[i])
    {
      assert removed[i] == Leaf(IndexLabel(from + i), olds[from + i], Null, Removed);
    }
  }

  lemma AddedLeavesShaped(news: seq<Value>, from: nat, to: nat)
    requires from <= to <= |news|
    ensures AllShaped(AddedLeaves(news, from, to))
  {
    var added := AddedLeaves(news, from, to);
    forall i | 0 <= i < |added|
      ensures Shaped(added[i])
    {
      assert added[i] == Leaf(IndexLabel(from + i), Null, news[from + i], Added);
    }
  }

  lemma {:induction false} ArrayPairsShaped(e: Engine, olds: seq<Value>, news: seq<Value>, k: nat)
    requires k <= |olds| && k <= |news|
    ensures ArrayPairs(e, olds, news, k).Success? ==> AllShaped(ArrayPairs(e, olds, news, k).value)
    decreases olds, 0, k
  {
    if k > 0 {
      ArrayPairsShaped(e, olds, news, k - 1);
      DiffAtShaped(e, ElementLabel(k - 1), olds[k - 1], news[k - 1]);
    }
  }

  lemma {:induction false} DiffMapShaped(e: Engine, fieldName: string, oldMap: Value, newMap: Value)
    requires oldMap.MapV? && newMap.MapV?
    ensures DiffMap(e, fieldName, oldMap, newMap).Success? ==> Shaped(DiffMap(e, fieldName, oldMap, newMap).value)
    decreases oldMap, 2
  {
    if oldMap != newMap {
      OldKeyChildrenShaped(e, oldMap, newMap, |oldMap.entries|);
      NewKeyChildrenShaped(e.mode, oldMap.entries, newMap.entries, |newMap.entries|);
      if OldKeyChildren(e, oldMap, newMap, |oldMap.entries|).Success? {
        AllShapedAppend(OldKeyChildren(e, oldMap, newMap, |oldMap.entries|).value,
                        NewKeyChildren(e.mode, oldMap.entries, newMap.entries, |newMap.entries|));
      }
    }
  }

  lemma {:induction false} OldKeyChildrenShaped(e: Engine, oldMap: Value, newMap: Value, k: nat)
    requires oldMap.MapV? && newMap.MapV? && k <= |oldMap.entries|
    ensures OldKeyChildren(e, oldMap, newMap, k).Success? ==> AllShaped(OldKeyChildren(e, oldMap, newMap, k).value)
    decreases oldMap, 1, k
  {
    if k > 0 {
      OldKeyChildrenShaped(e, oldMap, newMap, k - 1);
      var entry := oldMap.entries[k - 1];
      assert entry in oldMap.entries;
      if OldKeyChildren(e, oldMap, newMap, k - 1).Success? {
        var prev := OldKeyChildren(e, oldMap, newMap, k - 1).value;
        match Lookup(e.mode, newMap.entries, entry.key)
        case None =>
          assert Shaped(RemovedKey(entry).children[0]);
          AllShapedAppend(prev, [RemovedKey(entry)]);
        case Some(newValue) =>
          DiffAtShaped(e, ValueLabel, entry.value, newValue);
          LabelKept(e, ValueLabel, entry.value, newValue);
          var valuesDiff := DiffAt(e, ValueLabel, entry.value, newValue);
          if valuesDiff.Success? {
            AllShapedAppend(prev, [ResultNode(KeyLabel, entry.key, entry.key, valuesDiff.value.state, [valuesDiff.value])]);
          }
      }
    }
  }

  lemma {:induction false} NewKeyChildrenShaped(mode: Mode, olds: seq<Entry>, news: seq<Entry>, k: nat)
    requires k <= |news|
    ensures AllShaped(NewKeyChildren(mode, olds, news, k))
  {
    if k > 0 {
      NewKeyChildrenShaped(mode, olds, news, k - 1);
      var added := if Lookup(mode, olds, news[k - 1].key).None? then [AddedKey(news[k - 1])] else [];
      AllShapedAppend(NewKeyChildren(mode, olds, news, k - 1), added);
    }
  }

  lemma {:induction false} DiffObjectShaped(e: Engine, fieldName: string, oldObject: Value, newObject: Value)
    requires oldObject.Record? && newObject.Record?
    ensures DiffObject(e, fieldName, oldObject, newObject).Success? ==>
      Shaped(DiffObject(e, fieldName, oldObject, newObject).value)
    decreases oldObject, 2
  {
    FieldChildrenShaped(e, oldObject, newObject, |oldObject.fields|);
  }

  lemma {:induction false} FieldChildrenShaped(e: Engine, oldObject: Value, newObject: Value, k: nat)
    requires oldObject.Record? && newObject.Record? && k <= |oldObject.fields|
    ensures FieldChildren(e, oldObject, newObject, k).Success? ==>
      AllShaped(FieldChildren(e, oldObject, newObject, k).value)
    decreases oldObject, 1, k
  {
    if k > 0 {
      FieldChildrenShaped(e, oldObject, newObject, k - 1);
      var field := oldObject.fields[k - 1];
      assert field in oldObject.fields;
      match FindField(newObject.fields, field.name)
      case None =>
      case Some(newValue) => DiffAtShaped(e, field.name, field.value, newValue);
    }
  }

  /** In a tree of that shape an UNTOUCHED node has only UNTOUCHED nodes below it. */
  lemma {:induction false} UntouchedAllTheWayDown(t: ResultNode)
    requires Shaped(t) && t.state == Untouched
    ensures AllUntouched(t)
    decreases t
  {
    forall i | 0 <= i < |t.children|
      ensures AllUntouched(t.children[i])
    {
      if !IsKeyNode(t) {
        assert t.children[i].state == Untouched;
      }
      UntouchedAllTheWayDown(t.children[i]);
    }
  }

  /** In a tree of that shape a node that is not UNTOUCHED has a leaf below it that is not UNTOUCHED either. */
  lemma {:induction false} ChangeHasWitnessLeaf(t: ResultNode) returns (path: seq<nat>)
    requires Shaped(t) && t.state != Untouched
    ensures Reaches(t, path)
    ensures var leaf := At(t, path); leaf.children == [] && leaf.state != Untouched
    decreases t
  {
    if t.children == [] {
      path := [];
    } else {
      var i: nat :| i < |t.children| && t.children[i].state != Untouched;
      var rest := ChangeHasWitnessLeaf(t.children[i]);
      path := [i] + rest;
      assert path[1..] == rest;
    }
  }

  /** Whether a path of child indices leads from `t` to a node. */
  ghost predicate Reaches(t: ResultNode, path: seq<nat>)
    decreases |path|
  {
    |path| == 0 || (path[0] < |t.children| && Reaches(t.children[path[0]], path[1..]))
  }

  /** The node a path of child indices leads to. */
  ghost function At(t: ResultNode, path: seq<nat>): ResultNode
    requires Reaches(t, path)
    decreases |path|
  {
    if |path| == 0 then t else At(t.children[path[0]], path[1..])
  }

  // ================================================================== arrays

  /**
   * The first `k` element pairs succeed exactly when each element diff does,
   * and are those diffs in index order. This is the conjunction of
   * `ArrayPairsSucceed` and `ArrayPairsValues`, which are proved apart so
   * that each induction stays small; the same holds of `OldKeyChildrenAt`
   * and `FieldChildrenAt` below.
   */
  lemma ArrayPairsAt(e: Engine, olds: seq<Value>, news: seq<Value>, k: nat)
    requires k <= |olds| && k <= |news|
    ensures ArrayPairs(e, olds, news, k).Success? <==>
      forall i :: 0 <= i < k ==> DiffAt(e, ElementLabel(i), olds[i], news[i]).Success?
    ensures ArrayPairs(e, olds, news, k).Success? ==>
      && |ArrayPairs(e, olds, news, k).value| == k
      && forall i :: 0 <= i < k ==>
           ArrayPairs(e, olds, news, k).value[i] == DiffAt(e, ElementLabel(i), olds[i], news[i]).value
  {
    ArrayPairsSucceed(e, olds, news, k);
    if ArrayPairs(e, olds, news, k).Success? {
      ArrayPairsValues(e, olds, news, k);
    }
  }

  lemma {:induction false} ArrayPairsSucceed(e: Engine, olds: seq<Value>, news: seq<Value>, k: nat)
    requires k <= |olds| && k <= |news|
    ensures ArrayPairs(e, olds, news, k).Success? <==>
      forall i :: 0 <= i < k ==> DiffAt(e, ElementLabel(i), olds[i], news[i]).Success?
    decreases k
  {
    if k > 0 {
      ArrayPairsSucceed(e, olds, news, k - 1);
    }
  }

  lemma {:induction false} ArrayPairsValues(e: Engine, olds: seq<Value>, news: seq<Value>, k: nat)
    requires k <= |olds| && k <= |news|
    requires ArrayPairs(e, olds, news, k).Success?
    ensures |ArrayPairs(e, olds, news, k).value| == k
    ensures forall i :: 0 <= i < k ==>
      DiffAt(e, ElementLabel(i), olds[i], news[i]) == Success(ArrayPairs(e, olds, news, k).value[i])
    decreases k
  {
    if k > 0 {
      ArrayPairsValues(e, olds, news, k - 1);
      var prev := ArrayPairs(e, olds, news, k - 1).value;
      var child := DiffAt(e, ElementLabel(k - 1), olds[k - 1], news[k - 1]).value;
      assert ArrayPairs(e, olds, news, k).value == prev + [child];
    }
  }

  /**
   * Arrays and collections are compared by position: for every index both
   * sides have, the child labelled "array[i]" is the diff of the two
   * elements, in index order, and the node holds the two `Object[]` views.
   */
  lemma ArrayElementsCompared(e: Engine, fieldName: string, olds: seq<Value>, news: seq<Value>)
    requires olds != news
    requires e.mode == Corrected || |olds| <= |news|
    ensures var r := DiffArray(e, fieldName, olds, news);
      && (r.Success? <==> forall i :: 0 <= i < Min(|olds|, |news|) ==> DiffAt(e, ElementLabel(i), olds[i], news[i]).Success?)
      && (r.Success? ==>
            && r.value.fieldName == fieldName
            && r.value.oldValue == ObjectArray(olds) && r.value.newValue == ObjectArray(news)
            && Min(|olds|, |news|) <= |r.value.children|
            && forall i :: 0 <= i < Min(|olds|, |news|) ==>
                 r.value.children[i] == DiffAt(e, ElementLabel(i), olds[i], news[i]).value)
  {
    ArrayPairsAt(e, olds, news, Min(|olds|, |news|));
  }

  /**
   * Corrected, a length difference is reported in full: each excess old
   * index gets a REMOVED leaf labelled with the bare index and holding the
   * old element, each appended index an ADDED leaf holding the new element;
   * the node is UNTOUCHED only when the lengths agree and every element pair is.
   */
  lemma ArrayLengthDifferences(e: Engine, fieldName: string, olds: seq<Value>, news: seq<Value>)
    requires e.mode == Corrected && olds != news
    requires DiffArray(e, fieldName, olds, news).Success?
    ensures var t := DiffArray(e, fieldName, olds, news).value;
      && |t.children| == (if |olds| < |news| then |news| else |olds|)
      && (forall i :: |news| <= i < |olds| ==> t.children[i] == Leaf(IndexLabel(i), olds[i], Null, Removed))
      && (forall i :: |olds| <= i < |news| ==> t.children[i] == Leaf(IndexLabel(i), Null, news[i], Added))
      && (t.state == Untouched <==>
            |olds| == |news| && forall i :: 0 <= i < |t.children| ==> t.children[i].state == Untouched)
  {
    var m := Min(|olds|, |news|);
    ArrayPairsValues(e, olds, news, m);
    var pairs := ArrayPairs(e, olds, news, m).value;
    var t := DiffArray(e, fieldName, olds, news).value;
    if |olds| > |news| {
      assert t.children == pairs + RemovedLeaves(olds, |news|);
      ShrunkLayout(pairs, olds, |news|);
      assert t.children[|news|].state == Removed;
    } else {
      assert t.children == pairs + AddedLeaves(news, |olds|, |news|);
      GrownLayout(pairs, news, |olds|, |news|);
      if |olds| < |news| {
        assert t.children[|olds|].state == Added;
      }
    }
  }

  /** Element pairs followed by the REMOVED leaves: one child per old index, the excess ones REMOVED. */
  lemma ShrunkLayout(pairs: seq<ResultNode>, olds: seq<Value>, newLength: nat)
    requires |pairs| == newLength < |olds|
    ensures var children := pairs + RemovedLeaves(olds, newLength);
      && |children| == |olds|
      && forall i :: newLength <= i < |olds| ==> children[i] == Leaf(IndexLabel(i), olds[i], Null, Removed)
  {
    var children := pairs + RemovedLeaves(olds, newLength);
    forall i | newLength <= i < |olds|
      ensures children[i] == Leaf(IndexLabel(i), olds[i], Null, Removed)
    {
      assert children[i] == RemovedLeaves(olds, newLength)[i - newLength];
    }
  }

  /**
   * Element pairs followed by the ADDED leaves up to `bound`: one child per
   * index below `bound`, those from `oldLength` on ADDED.
   */
  lemma GrownLayout(pairs: seq<ResultNode>, news: seq<Value>, oldLength: nat, bound: nat)
    requires |pairs| == oldLength <= bound <= |news|
    ensures var children := pairs + AddedLeaves(news, oldLength, bound);
      && |children| == bound
      && forall i :: oldLength <= i < bound ==> children[i] == Leaf(IndexLabel(i), Null, news[i], Added)
  {
    var children := pairs + AddedLeaves(news, oldLength, bound);
    forall i | oldLength <= i < bound
      ensures children[i] == Leaf(IndexLabel(i), Null, news[i], Added)
    {
      assert children[i] == AddedLeaves(news, oldLength, bound)[i - oldLength];
    }
  }

  /**
   * As written, a shorter new array makes the element loop read past its
   * end: once the shared indices compare without error, the diff aborts.
   */
  lemma AsWrittenShrinkOutOfBounds(e: Engine, fieldName: string, olds: seq<Value>, news: seq<Value>)
    requires e.mode == AsWritten && |olds| > |news|
    requires forall i :: 0 <= i < |news| ==> DiffAt(e, ElementLabel(i), olds[i], news[i]).Success?
    ensures DiffArray(e, fieldName, olds, news) == Failure(IndexOutOfBounds(|news|, |news|))
  {
    ArrayPairsAt(e, olds, news, |news|);
  }

  /**
   * As written, the append loop stops one index early: every appended
   * index but the last gets its ADDED leaf, the last appended element has
   * no node, so appending one element to a sequence reports it UNTOUCHED.
   */
  lemma AsWrittenLastAppendedMissing(e: Engine, fieldName: string, olds: seq<Value>, news: seq<Value>)
    requires e.mode == AsWritten && |olds| < |news|
    requires DiffArray(e, fieldName, olds, news).Success?
    ensures |DiffArray(e, fieldName, olds, news).value.children| == |news| - 1
    ensures forall i :: |olds| <= i < |news| - 1 ==>
      DiffArray(e, fieldName, olds, news).value.children[i] == Leaf(IndexLabel(i), Null, news[i], Added)
    ensures |news| == |olds| + 1 && news[..|olds|] == olds ==>
      DiffArray(e, fieldName, olds, news).value.state == Untouched
  {
    ArrayPairsAt(e, olds, news, |olds|);
    var pairs := ArrayPairs(e, olds, news, |olds|).value;
    var t := DiffArray(e, fieldName, olds, news).value;
    assert t.children == pairs + AddedLeaves(news, |olds|, |news| - 1);
    GrownLayout(pairs, news, |olds|, |news| - 1);
    if |news| == |olds| + 1 && news[..|olds|] == olds {
      assert AddedLeaves(news, |olds|, |news| - 1) == [];
      forall i | 0 <= i < |t.children|
        ensures t.children[i].state == Untouched
      {
        assert news[i] == olds[i];
        EqualValuesUntouched(e, ElementLabel(i), olds[i]);
      }
    }
  }

  // ==================================================================== maps

  /** Whether the value diff of an old-map entry, if the comparator makes one, succeeds. */
  predicate ValueDiffSucceeds(e: Engine, entry: Entry, newEntries: seq<Entry>)
  {
    match Lookup(e.mode, newEntries, entry.key)
    case None => true
    case Some(newValue) => DiffAt(e, ValueLabel, entry.value, newValue).Success?
  }

  /**
   * The node the map comparator makes for an old-map entry: a REMOVED "key"
   * node over a REMOVED "value" leaf when the new map lacks the key, else a
   * "key" node holding the key on both sides whose state is that of its one
   * child, the diff of the two values.
   */
  predicate KeyNodeFor(e: Engine, entry: Entry, newEntries: seq<Entry>, node: ResultNode)
  {
    match Lookup(e.mode, newEntries, entry.key)
    case None =>
      node == ResultNode(KeyLabel, entry.key, Null, Removed, [Leaf(ValueLabel, entry.value, Null, Removed)])
    case Some(newValue) =>
      && DiffAt(e, ValueLabel, entry.value, newValue).Success?
      && var valuesDiff := DiffAt(e, ValueLabel, entry.value, newValue).value;
         node == ResultNode(KeyLabel, entry.key, entry.key, valuesDiff.state, [valuesDiff])
  }

  /** The old-key pass: the conjunction of `OldKeyChildrenSucceed` and `OldKeyChildrenValues`. */
  lemma OldKeyChildrenAt(e: Engine, oldMap: Value, newMap: Value, k: nat)
    requires oldMap.MapV? && newMap.MapV? && k <= |oldMap.entries|
    ensures OldKeyChildren(e, oldMap, newMap, k).Success? <==>
      forall i :: 0 <= i < k ==> ValueDiffSucceeds(e, oldMap.entries[i], newMap.entries)
    ensures OldKeyChildren(e, oldMap, newMap, k).Success? ==>
      && |OldKeyChildren(e, oldMap, newMap, k).value| == k
      && forall i :: 0 <= i < k ==>
           KeyNodeFor(e, oldMap.entries[i], newMap.entries, OldKeyChildren(e, oldMap, newMap, k).value[i])
  {
    OldKeyChildrenSucceed(e, oldMap, newMap, k);
    if OldKeyChildren(e, oldMap, newMap, k).Success? {
      OldKeyChildrenValues(e, oldMap, newMap, k);
    }
  }

  lemma {:induction false} OldKeyChildrenSucceed(e: Engine, oldMap: Value, newMap: Value, k: nat)
    requires oldMap.MapV? && newMap.MapV? && k <= |oldMap.entries|
    ensures OldKeyChildren(e, oldMap, newMap, k).Success? <==>
      forall i :: 0 <= i < k ==> ValueDiffSucceeds(e, oldMap.entries[i], newMap.entries)
    decreases k
  {
    if k > 0 {
      OldKeyChildrenSucceed(e, oldMap, newMap, k - 1);
    }
  }

  lemma {:induction false} OldKeyChildrenValues(e: Engine, oldMap: Value, newMap: Value, k: nat)
    requires oldMap.MapV? && newMap.MapV? && k <= |oldMap.entries|
    requires OldKeyChildren(e, oldMap, newMap, k).Success?
    ensures |OldKeyChildren(e, oldMap, newMap, k).value| == k
    ensures forall i :: 0 <= i < k ==>
      KeyNodeFor(e, oldMap.entries[i], newMap.entries, OldKeyChildren(e, oldMap, newMap, k).value[i])
    decreases k
  {
    if k > 0 {
      OldKeyChildrenValues(e, oldMap, newMap, k - 1);
    }
  }

  /**
   * `nodes` is one ADDED key node per new-map entry among the first `k`
   * whose key the old map lacks (as looked up in `mode`), in the new map's
   * order: `idx` lists exactly those entries' indices, in increasing order,
   * and the m-th node is the one for entry `idx[m]`.
   */
  ghost predicate AddedKeysAt(mode: Mode, olds: seq<Entry>, news: seq<Entry>, k: nat, idx: seq<nat>, nodes: seq<ResultNode>)
    requires k <= |news|
  {
    && (forall j :: j in idx <==> 0 <= j < k && Lookup(mode, olds, news[j].key).None?)
    && (forall m, m' :: 0 <= m < m' < |idx| ==> idx[m] < idx[m'])
    && |nodes| == |idx|
    && (forall m :: 0 <= m < |idx| ==> idx[m] < k && nodes[m] == AddedKey(news[idx[m]]))
  }

  /** The second pass yields exactly the ADDED key nodes for the new-only entries, in the new map's order. */
  lemma {:induction false} NewKeyChildrenAt(mode: Mode, olds: seq<Entry>, news: seq<Entry>, k: nat)
    returns (idx: seq<nat>)
    requires k <= |news|
    ensures AddedKeysAt(mode, olds, news, k, idx, NewKeyChildren(mode, olds, news, k))
    decreases k
  {
    if k == 0 {
      idx := [];
    } else {
      var prev := NewKeyChildrenAt(mode, olds, news, k - 1);
      if Lookup(mode, olds, news[k - 1].key).None? {
        idx := prev + [k - 1];
        AddedKeysStep(mode, olds, news, k - 1, prev, NewKeyChildren(mode, olds, news, k - 1));
      } else {
        idx := prev;
        assert NewKeyChildren(mode, olds, news, k) == NewKeyChildren(mode, olds, news, k - 1);
      }
    }
  }

  /** A new-only entry at index `k` extends the layout by its index and its ADDED key node. */
  lemma AddedKeysStep(mode: Mode, olds: seq<Entry>, news: seq<Entry>, k: nat, idx: seq<nat>, nodes: seq<ResultNode>)
    requires k < |news| && Lookup(mode, olds, news[k].key).None?
    requires AddedKeysAt(mode, olds, news, k, idx, nodes)
    ensures AddedKeysAt(mode, olds, news, k + 1, idx + [k], nodes + [AddedKey(news[k])])
  {
    var idx' := idx + [k];
    forall m, m' | 0 <= m < m' < |idx'|
      ensures idx'[m] < idx'[m']
    {
      if m' == |idx| {
        assert idx[m] in idx;
      }
    }
  }

  /**
   * Corrected, maps are compared by key: the old map's entries come first,
   * one node each in iteration order, a key the new map lacks being
   * REMOVED; then one ADDED "key" node over an ADDED "value" leaf for
   * exactly the keys only the new map has. No key both maps have is
   * reported as added.
   */
  lemma MapComparison(e: Engine, fieldName: string, oldMap: Value, newMap: Value) returns (idx: seq<nat>)
    requires e.mode == Corrected && oldMap.MapV? && newMap.MapV? && oldMap != newMap
    ensures forall j :: 0 <= j < |newMap.entries| ==>
      (j in idx <==> !HasKey(oldMap.entries, newMap.entries[j].key))
    ensures DiffMap(e, fieldName, oldMap, newMap).Success? <==>
      forall i :: 0 <= i < |oldMap.entries| ==> ValueDiffSucceeds(e, oldMap.entries[i], newMap.entries)
    ensures DiffMap(e, fieldName, oldMap, newMap).Success? ==>
      var t := DiffMap(e, fieldName, oldMap, newMap).value;
      && t.oldValue == oldMap && t.newValue == newMap
      && |oldMap.entries| <= |t.children|
      && (forall i :: 0 <= i < |oldMap.entries| ==> KeyNodeFor(e, oldMap.entries[i], newMap.entries, t.children[i]))
      && AddedKeysAt(e.mode, oldMap.entries, newMap.entries, |newMap.entries|, idx, t.children[|oldMap.entries|..])
  {
    OldKeyChildrenAt(e, oldMap, newMap, |oldMap.entries|);
    idx := NewKeyChildrenAt(e.mode, oldMap.entries, newMap.entries, |newMap.entries|);
    if DiffMap(e, fieldName, oldMap, newMap).Success? {
      var fromOld := OldKeyChildren(e, oldMap, newMap, |oldMap.entries|).value;
      var fromNew := NewKeyChildren(e.mode, oldMap.entries, newMap.entries, |newMap.entries|);
      var t := DiffMap(e, fieldName, oldMap, newMap).value;
      assert t.children == fromOld + fromNew;
      assert t.children[|oldMap.entries|..] == fromNew;
      forall i | 0 <= i < |oldMap.entries|
        ensures KeyNodeFor(e, oldMap.entries[i], newMap.entries, t.children[i])
      {
        assert t.children[i] == fromOld[i];
      }
    }
  }

  /**
   * As written, an old-map key that the new map holds with a null value is
   * looked up as missing: its node is a REMOVED key node, although the new
   * map has the key.
   */
  lemma AsWrittenNullValueReadsAsRemoved(e: Engine, fieldName: string, oldMap: Value, newMap: Value, i: nat)
    requires e.mode == AsWritten && oldMap.MapV? && newMap.MapV? && oldMap != newMap
    requires DiffMap(e, fieldName, oldMap, newMap).Success?
    requires i < |oldMap.entries| && Get(newMap.entries, oldMap.entries[i].key) == Some(Null)
    ensures HasKey(newMap.entries, oldMap.entries[i].key)
    ensures |oldMap.entries| <= |DiffMap(e, fieldName, oldMap, newMap).value.children|
    ensures DiffMap(e, fieldName, oldMap, newMap).value.children[i] == RemovedKey(oldMap.entries[i])
  {
    OldKeyChildrenAt(e, oldMap, newMap, |oldMap.entries|);
    var fromOld := OldKeyChildren(e, oldMap, newMap, |oldMap.entries|).value;
    var fromNew := NewKeyChildren(e.mode, oldMap.entries, newMap.entries, |newMap.entries|);
    assert DiffMap(e, fieldName, oldMap, newMap).value.children == fromOld + fromNew;
    assert KeyNodeFor(e, oldMap.entries[i], newMap.entries, fromOld[i]);
  }

  /**
   * As written, a new-map key that the old map holds with a null value is
   * looked up as missing: it is reported ADDED, although the old map has the key.
   */
  lemma AsWrittenNullValueReadsAsAdded(e: Engine, fieldName: string, oldMap: Value, newMap: Value, j: nat)
    requires e.mode == AsWritten && oldMap.MapV? && newMap.MapV? && oldMap != newMap
    requires DiffMap(e, fieldName, oldMap, newMap).Success?
    requires j < |newMap.entries| && Get(oldMap.entries, newMap.entries[j].key) == Some(Null)
    ensures HasKey(oldMap.entries, newMap.entries[j].key)
    ensures AddedKey(newMap.entries[j]) in DiffMap(e, fieldName, oldMap, newMap).value.children
  {
    var idx := NewKeyChildrenAt(e.mode, oldMap.entries, newMap.entries, |newMap.entries|);
    var fromOld := OldKeyChildren(e, oldMap, newMap, |oldMap.entries|).value;
    var fromNew := NewKeyChildren(e.mode, oldMap.entries, newMap.entries, |newMap.entries|);
    assert DiffMap(e, fieldName, oldMap, newMap).value.children == fromOld + fromNew;
    assert j in idx;
    var m :| 0 <= m < |idx| && idx[m] == j;
    assert idx[m] < |newMap.entries|;
    assert fromNew[m] == AddedKey(newMap.entries[j]);
  }

  /** The base copy's map comparator is a stub: two different maps of one class give no tree. */
  lemma BaseCopyMapStub(m: Mode, fieldName: string, oldMap: Value, newMap: Value)
    requires oldMap.MapV? && newMap.MapV? && oldMap.cls == newMap.cls && oldMap != newMap
    ensures DiffAt(Engine(BaseCopy, m), fieldName, oldMap, newMap) == Failure(MapNotImplemented)
  {
  }

  // ============================================================== composites

  /** Whether the new object declares an old field and the diff of its two values succeeds. */
  predicate FieldDiffSucceeds(e: Engine, field: Field, newFields: seq<Field>)
  {
    match FindField(newFields, field.name)
    case None => false
    case Some(newValue) => DiffAt(e, field.name, field.value, newValue).Success?
  }

  /** The field pass: the conjunction of `FieldChildrenSucceed` and `FieldChildrenValues`. */
  lemma FieldChildrenAt(e: Engine, oldObject: Value, newObject: Value, k: nat)
    requires oldObject.Record? && newObject.Record? && k <= |oldObject.fields|
    ensures FieldChildren(e, oldObject, newObject, k).Success? <==>
      forall i :: 0 <= i < k ==> FieldDiffSucceeds(e, oldObject.fields[i], newObject.fields)
    ensures FieldChildren(e, oldObject, newObject, k).Success? ==>
      && |FieldChildren(e, oldObject, newObject, k).value| == k
      && forall i :: 0 <= i < k ==>
           FieldChildren(e, oldObject, newObject, k).value[i]
           == DiffAt(e, oldObject.fields[i].name, oldObject.fields[i].value,
                     FindField(newObject.fields, oldObject.fields[i].name).value).value
  {
    FieldChildrenSucceed(e, oldObject, newObject, k);
    if FieldChildren(e, oldObject, newObject, k).Success? {
      FieldChildrenValues(e, oldObject, newObject, k);
    }
  }

  lemma {:induction false} FieldChildrenSucceed(e: Engine, oldObject: Value, newObject: Value, k: nat)
    requires oldObject.Record? && newObject.Record? && k <= |oldObject.fields|
    ensures FieldChildren(e, oldObject, newObject, k).Success? <==>
      forall i :: 0 <= i < k ==> FieldDiffSucceeds(e, oldObject.fields[i], newObject.fields)
    decreases k
  {
    if k > 0 {
      FieldChildrenSucceed(e, oldObject, newObject, k - 1);
    }
  }

  lemma {:induction false} FieldChildrenValues(e: Engine, oldObject: Value, newObject: Value, k: nat)
    requires oldObject.Record? && newObject.Record? && k <= |oldObject.fields|
    requires FieldChildren(e, oldObject, newObject, k).Success?
    ensures |FieldChildren(e, oldObject, newObject, k).value| == k
    ensures forall i :: 0 <= i < k ==>
      FindField(newObject.fields, oldObject.fields[i].name).Some? &&
      DiffAt(e, oldObject.fields[i].name, oldObject.fields[i].value,
             FindField(newObject.fields, oldObject.fields[i].name).value)
      == Success(FieldChildren(e, oldObject, newObject, k).value[i])
    decreases k
  {
    if k > 0 {
      FieldChildrenValues(e, oldObject, newObject, k - 1);
    }
  }

  /** Whether two records declare the same field names, in the same order, as two objects of one Java class do. */
  predicate SameDeclaredFields(oldObject: Value, newObject: Value)
    requires oldObject.Record? && newObject.Record?
  {
    && |oldObject.fields| == |newObject.fields|
    && forall i :: 0 <= i < |oldObject.fields| ==> oldObject.fields[i].name == newObject.fields[i].name
  }

  /**
   * When the new record declares the old record's fields, as it always does
   * once the class check has passed in Java, every field lookup succeeds and
   * only a failing field diff can abort the field pass.
   */
  lemma SameDeclaredFieldsAlwaysFound(e: Engine, oldObject: Value, newObject: Value, k: nat)
    requires oldObject.Record? && newObject.Record? && SameDeclaredFields(oldObject, newObject)
    requires k <= |oldObject.fields|
    ensures forall i :: 0 <= i < |oldObject.fields| ==> FindField(newObject.fields, oldObject.fields[i].name).Some?
    ensures FieldChildren(e, oldObject, newObject, k).Success? <==>
      forall i :: 0 <= i < k ==>
        DiffAt(e, oldObject.fields[i].name, oldObject.fields[i].value,
               FindField(newObject.fields, oldObject.fields[i].name).value).Success?
  {
    forall i | 0 <= i < |oldObject.fields|
      ensures FindField(newObject.fields, oldObject.fields[i].name).Some?
    {
      assert newObject.fields[i].name == oldObject.fields[i].name;
    }
    FieldChildrenSucceed(e, oldObject, newObject, k);
  }

  /**
   * Two different objects of one class are compared field by field: one
   * child per declared field of the old object, in declaration order,
   * labelled with the field name and equal to the diff of the two values of
   * that field; the node is UNTOUCHED exactly when every child is.
   */
  lemma CompositeComparison(e: Engine, fieldName: string, oldObject: Value, newObject: Value)
    requires oldObject.Record? && newObject.Record? && oldObject.cls == newObject.cls && oldObject != newObject
    ensures DiffAt(e, fieldName, oldObject, newObject).Success? <==>
      forall i :: 0 <= i < |oldObject.fields| ==> FieldDiffSucceeds(e, oldObject.fields[i], newObject.fields)
    ensures DiffAt(e, fieldName, oldObject, newObject).Success? ==>
      var t := DiffAt(e, fieldName, oldObject, newObject).value;
      && t.oldValue == oldObject && t.newValue == newObject
      && |t.children| == |oldObject.fields|
      && (forall i :: 0 <= i < |oldObject.fields| ==>
            t.children[i].fieldName == oldObject.fields[i].name
            && t.children[i] == DiffAt(e, oldObject.fields[i].name, oldObject.fields[i].value,
                                       FindField(newObject.fields, oldObject.fields[i].name).value).value)
      && (t.state == Untouched <==> forall i :: 0 <= i < |t.children| ==> t.children[i].state == Untouched)
  {
    assert ClassOf(oldObject) == ClassOf(newObject);
    Dispatch(e, fieldName, oldObject, newObject);
    FieldChildrenAt(e, oldObject, newObject, |oldObject.fields|);
    if DiffAt(e, fieldName, oldObject, newObject).Success? {
      var t := DiffAt(e, fieldName, oldObject, newObject).value;
      assert t.children == FieldChildren(e, oldObject, newObject, |oldObject.fields|).value;
      forall i | 0 <= i < |t.children|
        ensures t.children[i].fieldName == oldObject.fields[i].name
      {
        assert FieldDiffSucceeds(e, oldObject.fields[i], newObject.fields);
        LabelKept(e, oldObject.fields[i].name, oldObject.fields[i].value,
                  FindField(newObject.fields, oldObject.fields[i].name).value);
      }
    }
  }

  /**
   * A field the old object declares and the new one lacks aborts the diff
   * with that field's name, once the fields before it compared without error.
   */
  lemma MissingFieldAborts(e: Engine, fieldName: string, oldObject: Value, newObject: Value, i: nat)
    requires oldObject.Record? && newObject.Record? && oldObject.cls == newObject.cls && oldObject != newObject
    requires i < |oldObject.fields| && FindField(newObject.fields, oldObject.fields[i].name).None?
    requires forall j :: 0 <= j < i ==> FieldDiffSucceeds(e, oldObject.fields[j], newObject.fields)
    ensures DiffAt(e, fieldName, oldObject, newObject) == Failure(MissingField(oldObject.fields[i].name))
  {
    Dispatch(e, fieldName, oldObject, newObject);
    FieldChildrenSucceed(e, oldObject, newObject, i);
    var field := oldObject.fields[i];
    assert field in oldObject.fields;
    assert FieldChildren(e, oldObject, newObject, i + 1) == Failure(MissingField(field.name));
    FieldChildrenFailurePersists(e, oldObject, newObject, i + 1, |oldObject.fields|);
  }

  // ===================================================== errors abort the call

  lemma {:induction false} ArrayPairsFailurePersists(e: Engine, olds: seq<Value>, news: seq<Value>, k: nat, k': nat)
    requires k <= k' <= |olds| && k' <= |news|
    requires ArrayPairs(e, olds, news, k).Failure?
    ensures ArrayPairs(e, olds, news, k') == ArrayPairs(e, olds, news, k)
    decreases k'
  {
    if k' > k {
      ArrayPairsFailurePersists(e, olds, news, k, k' - 1);
    }
  }

  lemma {:induction false} OldKeyChildrenFailurePersists(e: Engine, oldMap: Value, newMap: Value, k: nat, k': nat)
    requires oldMap.MapV? && newMap.MapV? && k <= k' <= |oldMap.entries|
    requires OldKeyChildren(e, oldMap, newMap, k).Failure?
    ensures OldKeyChildren(e, oldMap, newMap, k') == OldKeyChildren(e, oldMap, newMap, k)
    decreases k'
  {
    if k' > k {
      OldKeyChildrenFailurePersists(e, oldMap, newMap, k, k' - 1);
    }
  }

  lemma {:induction false} FieldChildrenFailurePersists(e: Engine, oldObject: Value, newObject: Value, k: nat, k': nat)
    requires oldObject.Record? && newObject.Record? && k <= k' <= |oldObject.fields|
    requires FieldChildren(e, oldObject, newObject, k).Failure?
    ensures FieldChildren(e, oldObject, newObject, k') == FieldChildren(e, oldObject, newObject, k)
    decreases k'
  {
    if k' > k {
      FieldChildrenFailurePersists(e, oldObject, newObject, k, k' - 1);
    }
  }
}
