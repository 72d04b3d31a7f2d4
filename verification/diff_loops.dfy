/**
 * The loops of the three container comparators, step by step as the source
 * runs them: each fills a local `children` list with `add` and returns the
 * node, or stops at the first error. Each method is proved to return exactly
 * what the specification function of module DiffManager returns; the
 * recursive comparison of one element, value or field is the pure `DiffAt`.
 */
module DiffLoops {
  import opened Values
  import opened ResultTree
  import opened DiffManager
  import DiffProperties

  /** `diffArray`: the equality fast path, the element loop, then (for a longer new array) the append loop. */
  method DiffArray(e: Engine, fieldName: string, olds: seq<Value>, news: seq<Value>)
    returns (r: Result<ResultNode>)
    ensures r == DiffManager.DiffArray(e, fieldName, olds, news)
  {
    if olds == news {
      return Success(Leaf(fieldName, ObjectArray(olds), ObjectArray(news), Untouched));
    }
    var pass := ElementLoop(e, olds, news);
    if pass.Failure? {
      return Failure(pass.error);
    }
    var children := pass.value;
    if |olds| < |news| {
      children := AppendLoop(news, |olds|, AddedBound(e.mode, |olds|, |news|), children);
    } else if |olds| == |news| {
      assert AddedLeaves(news, |olds|, AddedBound(e.mode, |olds|, |news|)) == [];
      assert children + [] == children;
    }
    return Success(ResultNode(fieldName, ObjectArray(olds), ObjectArray(news), ChildrenState(children), children));
  }

  /**
   * The loop over the old array: a REMOVED leaf for an index the new array
   * lacks (after which, as written, reading `newArray[i]` fails), otherwise
   * the diff of the two elements.
   */
  method ElementLoop(e: Engine, olds: seq<Value>, news: seq<Value>) returns (r: Result<seq<ResultNode>>)
    ensures |olds| <= |news| ==> r == ArrayPairs(e, olds, news, |olds|)
    ensures |olds| > |news| ==> r == ArrayChildren(e, olds, news)
  {
    var children: seq<ResultNode> := [];
    var i := 0;
    while i < |olds|
      invariant 0 <= i <= |olds|
      invariant i <= |news| ==> ArrayPairs(e, olds, news, i) == Success(children)
      invariant i > |news| ==>
        && e.mode == Corrected
        && ArrayPairs(e, olds, news, |news|).Success?
        && children == ArrayPairs(e, olds, news, |news|).value + RemovedLeaves(olds, |news|)[..i - |news|]
    {
      var oldItem := olds[i];
      if i >= |news| {
        children := children + [Leaf(IndexLabel(i), oldItem, Null, Removed)];
        if e.mode == AsWritten {
          // the source goes on to read `newArray[i]`
          return Failure(IndexOutOfBounds(i, |news|));
        }
        assert RemovedLeaves(olds, |news|)[..i + 1 - |news|]
            == RemovedLeaves(olds, |news|)[..i - |news|] + [Leaf(IndexLabel(i), oldItem, Null, Removed)];
      } else {
        var child := DiffAt(e, ElementLabel(i), oldItem, news[i]);
        if child.Failure? {
          DiffProperties.ArrayPairsFailurePersists(e, olds, news, i + 1, Min(|olds|, |news|));
          return Failure(child.error);
        }
        children := children + [child.value];
      }
      i := i + 1;
    }
    if |olds| > |news| {
      assert RemovedLeaves(olds, |news|)[..|olds| - |news|] == RemovedLeaves(olds, |news|);
    }
    return Success(children);
  }

  /** The loop over the appended indices, from `from` up to (not including) `bound`: one ADDED leaf each. */
  method AppendLoop(news: seq<Value>, from: nat, bound: nat, pairs: seq<ResultNode>) returns (children: seq<ResultNode>)
    requires from <= bound <= |news|
    ensures children == pairs + AddedLeaves(news, from, bound)
  {
    children := pairs;
    var j := from;
    while j < bound
      invariant from <= j <= bound
      invariant children == pairs + AddedLeaves(news, from, j)
    {
      children := children + [Leaf(IndexLabel(j), Null, news[j], Added)];
      assert AddedLeaves(news, from, j + 1) == AddedLeaves(news, from, j) + [Leaf(IndexLabel(j), Null, news[j], Added)];
      j := j + 1;
    }
  }

  /** `diffMap`: the equality fast path, a pass over the old map's entries, then one over the new map's. */
  method DiffMap(e: Engine, fieldName: string, oldMap: Value, newMap: Value)
    returns (r: Result<ResultNode>)
    requires oldMap.MapV? && newMap.MapV?
    ensures r == DiffManager.DiffMap(e, fieldName, oldMap, newMap)
  {
    if oldMap == newMap {
      return Success(Leaf(fieldName, oldMap, newMap, Untouched));
    }
    var fromOld := OldEntriesPass(e, oldMap, newMap);
    if fromOld.Failure? {
      return Failure(fromOld.error);
    }
    var fromNew := NewEntriesPass(e.mode, oldMap.entries, newMap.entries);
    var children := fromOld.value + fromNew;
    return Success(ResultNode(fieldName, oldMap, newMap, ChildrenState(children), children));
  }

  /**
   * The `forEach` over the old map: a REMOVED key node for a key the new
   * map lacks, otherwise a key node over the diff of the two values.
   */
  method OldEntriesPass(e: Engine, oldMap: Value, newMap: Value) returns (r: Result<seq<ResultNode>>)
    requires oldMap.MapV? && newMap.MapV?
    ensures r == OldKeyChildren(e, oldMap, newMap, |oldMap.entries|)
  {
    var children: seq<ResultNode> := [];
    var k := 0;
    while k < |oldMap.entries|
      invariant 0 <= k <= |oldMap.entries|
      invariant OldKeyChildren(e, oldMap, newMap, k) == Success(children)
    {
      var entry := oldMap.entries[k];
      var found := Lookup(e.mode, newMap.entries, entry.key);
      if found.None? {
        children := children + [RemovedKey(entry)];
      } else {
        var valuesDiff := DiffAt(e, ValueLabel, entry.value, found.value);
        if valuesDiff.Failure? {
          DiffProperties.OldKeyChildrenFailurePersists(e, oldMap, newMap, k + 1, |oldMap.entries|);
          return Failure(valuesDiff.error);
        }
        children := children + [ResultNode(KeyLabel, entry.key, entry.key, valuesDiff.value.state, [valuesDiff.value])];
      }
      k := k + 1;
    }
    return Success(children);
  }

  /** The `forEach` over the new map: an ADDED key node for each key the old map lacks. */
  method NewEntriesPass(mode: Mode, olds: seq<Entry>, news: seq<Entry>) returns (children: seq<ResultNode>)
    ensures children == NewKeyChildren(mode, olds, news, |news|)
  {
    children := [];
    var k := 0;
    while k < |news|
      invariant 0 <= k <= |news|
      invariant children == NewKeyChildren(mode, olds, news, k)
    {
      if Lookup(mode, olds, news[k].key).None? {
        children := children + [AddedKey(news[k])];
      }
      k := k + 1;
    }
  }

  /** `diffObject`: one pass over the old object's declared fields, then the node over their diffs. */
  method DiffObject(e: Engine, fieldName: string, oldObject: Value, newObject: Value)
    returns (r: Result<ResultNode>)
    requires oldObject.Record? && newObject.Record?
    ensures r == DiffManager.DiffObject(e, fieldName, oldObject, newObject)
  {
    var pass := FieldPass(e, oldObject, newObject);
    if pass.Failure? {
      return Failure(pass.error);
    }
    var children := pass.value;
    return Success(ResultNode(fieldName, oldObject, newObject, ChildrenState(children), children));
  }

  /**
   * The loop over the old object's fields: the same-named field of the new
   * object must exist, and the two field values are compared.
   */
  method FieldPass(e: Engine, oldObject: Value, newObject: Value) returns (r: Result<seq<ResultNode>>)
    requires oldObject.Record? && newObject.Record?
    ensures r == FieldChildren(e, oldObject, newObject, |oldObject.fields|)
  {
    var children: seq<ResultNode> := [];
    var k := 0;
    while k < |oldObject.fields|
      invariant 0 <= k <= |oldObject.fields|
      invariant FieldChildren(e, oldObject, newObject, k) == Success(children)
    {
      var field := oldObject.fields[k];
      var newField := FindField(newObject.fields, field.name);
      if newField.None? {
        DiffProperties.FieldChildrenFailurePersists(e, oldObject, newObject, k + 1, |oldObject.fields|);
        return Failure(MissingField(field.name));
      }
      var child := DiffAt(e, field.name, field.value, newField.value);
      if child.Failure? {
        DiffProperties.FieldChildrenFailurePersists(e, oldObject, newObject, k + 1, |oldObject.fields|);
        return Failure(child.error);
      }
      children := children + [child.value];
      k := k + 1;
    }
    return Success(children);
  }
}
