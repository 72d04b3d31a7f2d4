# java-deep-diff: a Dafny model of the structural diff engine

`DiffManager.diff(old, new)` walks two Java object graphs side by side and
returns a tree of `ResultNode`s. Each node has five parts:

- a label;
- the old value and the new value compared at that position;
- a state: ADDED, CHANGED, UNTOUCHED or REMOVED;
- the node's children.

The comparison at one position works like this, and the first matching case
wins:

1. Equal values (both null included) give an UNTOUCHED leaf.
2. If only the old value is null, the result is an ADDED leaf. If only the
   new value is null, it is a REMOVED leaf.
3. Two values of different runtime classes abort the whole diff.
4. Boxed scalars give a CHANGED or UNTOUCHED leaf.
5. Arrays and collections are compared by position.
6. Maps are compared by key.
7. Any other object is compared field by field.

A parent node is UNTOUCHED exactly when all of its children are, and CHANGED
otherwise.

The repository holds two copies of the engine:

- `utils/diff` has the full map comparator. A UUID is not a simple type there.
- `diff` counts a UUID as a simple type. Its map comparator is a stub.

The model covers both, through `Engine(copy, mode)`:

- `copy` selects `UtilsCopy` or `BaseCopy`.
- `mode` is `AsWritten`, which reproduces the code, defects included, up to
  the differences listed under "## Left out". The other mode is `Corrected`,
  which fixes the three defects listed under "## Findings".

Modules:

- `Values` (values.dfy): the values the engine walks and their runtime class.
- `ResultTree` (result_tree.dfy): the immutable result tree, its four states,
  and the error tags that stand for the exceptions.
- `DiffManager` (diff_manager.dfy): the engine as pure functions. This covers
  the dispatch (`DiffAt` for the null and class checks, `Compare` for the choice of comparator), `diffSimple` and the aggregation rule. Each comparator's loop
  is specified by a function over a prefix of its input (`ArrayPairs`,
  `OldKeyChildren`, `NewKeyChildren`, `FieldChildren`).
- `DiffLoops` (diff_loops.dfy): `diffArray`, `diffMap` and `diffObject` as the
  source runs them, with each loop or `forEach` pass in a method of its own. They are loops that append to a local children list and
  stop at the first error. Each is proved to return exactly what the matching
  function of `DiffManager` returns.
- `DiffUtils` (diff_utils.dfy): `toObjectArray`, the array copy loop.
- `DiffProperties` (diff_properties.dfy): what the engine promises, proved for
  all inputs. It covers:
  - the dispatch cases;
  - the aggregation rule;
  - a shape every result tree has, and what that shape implies;
  - the layout of each comparator's children;
  - the rule that an error aborts the whole diff;
  - the general forms of the three defects.
- `DiffExamples` (diff_examples.dfy): concrete diffs. These are the scalar
  cases of the unit test, two map examples, and one input per defect, both
  as written and corrected.

Modelling choices:

- A Java value is a closed datatype.
  - Structural equality of the model's values stands for `Objects.equals`.
    It compares collections and maps in order and includes their class
    name, so it differs from Java's `Set.equals` and `Map.equals`. It also
    differs from `Objects.equals` on arrays. "## Left out" lists each
    difference.
  - A boxed scalar is its kind plus a canonical image.
  - A collection is its class name plus its `toArray()` sequence.
  - A map is its class name plus its entries in iteration order.
  - Any other object is its class name plus its declared fields in
    declaration order.
- `getClass().equals` is equality of `ClassOf` tags.
- Exceptions are a `Result` failure carrying an error tag:
  - `ClassMismatch` for the `IllegalArgumentException`;
  - `MissingField` for the `RuntimeException` of `diffObject`;
  - `IndexOutOfBounds` for the array read past its end;
  - `ReflectionOnLibraryClass` for a UUID in the utils copy, which falls
    through to reflective field access on a JDK class;
  - `MapNotImplemented` for the `return null` stub of the base copy's
    `diffMap`.

  Any of these aborts the whole call, as a thrown exception does.

## Model

| member | source | states |
|---|---|---|
| `Values.ClassOf` | src/main/java/com/thunder/base/utils/diff/DiffManager.java:51-53 | every non-null value has a runtime class of its own sort: scalar, array, collection, map or object |
| `DiffManager.ChildrenState` | src/main/java/com/thunder/base/utils/diff/DiffManager.java:236-240 | the parent state is UNTOUCHED exactly when every child is UNTOUCHED (so an empty list gives UNTOUCHED), and CHANGED otherwise; it is never ADDED or REMOVED |
| `DiffManager.DiffSimple` | src/main/java/com/thunder/base/utils/diff/DiffManager.java:86-97 | ADDED exactly when the base value is null, REMOVED exactly when the comparable value is null, UNTOUCHED exactly when they are equal, CHANGED otherwise |
| `DiffManager.Get` | src/main/java/com/thunder/base/utils/diff/DiffManager.java:160 | `Map.get` finds a value exactly when the map has the key, and the value it finds is the one mapped to that key |
| `DiffManager.FindField` | src/main/java/com/thunder/base/utils/diff/DiffManager.java:205 | `getDeclaredField` finds nothing exactly when the new class declares no field of that name; otherwise it finds a field with that name |
| `DiffManager.SimpleKinds` | src/main/java/com/thunder/base/utils/diff/DiffManager.java:20-24 | the boxed kinds whose values are compared by `equals` alone; the base copy (diff/DiffManager.java:21-25) adds UUID. Specified by `DiffProperties.ScalarLeaf` and `DiffProperties.Dispatch` |
| `DiffManager.Diff` | src/main/java/com/thunder/base/utils/diff/DiffManager.java:31-33 | the public `diff`: the private one under the label "ROOT". Specified by `DiffProperties.RootLabelled` and the examples of `DiffExamples` |
| `DiffManager.DiffAt` | src/main/java/com/thunder/base/utils/diff/DiffManager.java:35-60 | the private `diff`: the equality fast path, then a missing side, then the class check. Specified by `DiffProperties.EqualValuesUntouched`, `OneSideNull`, `ClassMismatchAborts`, `Dispatch`, `LabelKept`, `PresentOnBothSides` and `DiffAtShaped` |
| `DiffManager.Compare` | src/main/java/com/thunder/base/utils/diff/DiffManager.java:62-83 | the choice of comparator for two present, unequal values of one class, in the source's order. Specified by `DiffProperties.Dispatch`, `ScalarLeaf` and `BaseCopyMapStub` |
| `DiffManager.DiffArray` | src/main/java/com/thunder/base/utils/diff/DiffManager.java:99-132 | `diffArray`: the `Arrays.equals` fast path, then the node over the collected children. Specified by `DiffLoops.DiffArray`, `DiffProperties.ArrayElementsCompared`, `ArrayLengthDifferences`, `DiffArrayShaped`, `AsWrittenShrinkOutOfBounds` and `AsWrittenLastAppendedMissing` |
| `DiffManager.ArrayChildren` | src/main/java/com/thunder/base/utils/diff/DiffManager.java:104-126 | the children list of `diffArray`: element pairs, then REMOVED leaves (as written, the out-of-bounds read instead), then ADDED leaves. Specified by `DiffLoops.ElementLoop`, `DiffProperties.ArrayChildrenShaped` and `ArrayLengthDifferences` |
| `DiffManager.ArrayPairs` | src/main/java/com/thunder/base/utils/diff/DiffManager.java:105-117 | the element diffs of the first k shared indices, stopping at the first error. Specified by `DiffProperties.ArrayPairsSucceed`, `ArrayPairsValues` and `ArrayPairsFailurePersists` |
| `DiffManager.RemovedLeaves` | src/main/java/com/thunder/base/utils/diff/DiffManager.java:107-111 | one REMOVED leaf, labelled with the bare index, per old index the new array lacks. Specified by `DiffProperties.ShrunkLayout` and `RemovedLeavesShaped` |
| `DiffManager.AddedLeaves` | src/main/java/com/thunder/base/utils/diff/DiffManager.java:120-125 | one ADDED leaf, labelled with the bare index, per appended index in range. Specified by `DiffLoops.AppendLoop`, `DiffProperties.GrownLayout` and `AddedLeavesShaped` |
| `DiffManager.AddedBound` | src/main/java/com/thunder/base/utils/diff/DiffManager.java:120 | the end of the append loop: `newArray.length - 1` as written, `newArray.length` corrected. Its effect is stated by `DiffProperties.AsWrittenLastAppendedMissing` and `ArrayLengthDifferences` |
| `DiffManager.Lookup` | src/main/java/com/thunder/base/utils/diff/DiffManager.java:144 | the key test of both map passes (also line 176): as written, a key mapped to null reads as absent; corrected, it is `containsKey` with the stored value. Its effect is stated by `DiffProperties.AsWrittenNullValueReadsAsRemoved`, `AsWrittenNullValueReadsAsAdded` and `MapComparison` |
| `DiffManager.RemovedKey` | src/main/java/com/thunder/base/utils/diff/DiffManager.java:145-157 | the REMOVED key node over a REMOVED value leaf. Used in `DiffProperties.KeyNodeFor`, which `OldKeyChildrenValues` states |
| `DiffManager.AddedKey` | src/main/java/com/thunder/base/utils/diff/DiffManager.java:177-189 | the ADDED key node over an ADDED value leaf. Used in `DiffProperties.AddedKeysAt`, which `NewKeyChildrenAt` states |
| `DiffManager.DiffMap` | src/main/java/com/thunder/base/utils/diff/DiffManager.java:134-196 | `diffMap`: the equality fast path, then the old-key nodes followed by the new-only key nodes. Specified by `DiffLoops.DiffMap`, `DiffProperties.MapComparison` and `DiffMapShaped` |
| `DiffManager.OldKeyChildren` | src/main/java/com/thunder/base/utils/diff/DiffManager.java:142-172 | the nodes of the first k old-map entries, stopping at the first failing value diff. Specified by `DiffLoops.OldEntriesPass`, `DiffProperties.OldKeyChildrenSucceed`, `OldKeyChildrenValues` and `OldKeyChildrenFailurePersists` |
| `DiffManager.NewKeyChildren` | src/main/java/com/thunder/base/utils/diff/DiffManager.java:175-191 | the ADDED key nodes among the first k new-map entries. Specified by `DiffLoops.NewEntriesPass` and `DiffProperties.NewKeyChildrenAt` |
| `DiffManager.DiffObject` | src/main/java/com/thunder/base/utils/diff/DiffManager.java:198-223 | `diffObject`: the node over the field children. Specified by `DiffLoops.DiffObject`, `DiffProperties.CompositeComparison`, `CompositeWithChangedFieldIsChanged` and `DiffObjectShaped` |
| `DiffManager.FieldChildren` | src/main/java/com/thunder/base/utils/diff/DiffManager.java:201-218 | the diffs of the first k declared fields, stopping at the first missing field or failing diff. Specified by `DiffLoops.FieldPass`, `DiffProperties.FieldChildrenSucceed`, `FieldChildrenValues`, `MissingFieldAborts`, `SameDeclaredFieldsAlwaysFound` and `FieldChildrenFailurePersists` |
| `DiffLoops.DiffArray` | src/main/java/com/thunder/base/utils/diff/DiffManager.java:99-132 | the element loop (REMOVED leaves past the new array's end), then the append loop, return exactly the array node the specification function gives, in both copies and both modes |
| `DiffLoops.DiffMap` | src/main/java/com/thunder/base/utils/diff/DiffManager.java:134-196 | the pass over the old map's entries, then the pass over the new map's, return exactly the map node the specification function gives |
| `DiffLoops.DiffObject` | src/main/java/com/thunder/base/diff/DiffManager.java:136-161 | the loop over the old object's declared fields returns exactly the object node the specification function gives, stopping at the first missing field or failing field diff |
| `DiffLoops.ElementLoop` | src/main/java/com/thunder/base/utils/diff/DiffManager.java:104-117 | the loop over the old array yields the element diffs in index order when the new array is at least as long; when it is shorter, it aborts with an out-of-bounds read as written, and corrected yields the element diffs followed by the REMOVED leaves |
| `DiffLoops.AppendLoop` | src/main/java/com/thunder/base/utils/diff/DiffManager.java:119-126 | the append loop adds, after the children it is given, exactly one ADDED leaf per index in its range, in index order |
| `DiffLoops.OldEntriesPass` | src/main/java/com/thunder/base/utils/diff/DiffManager.java:142-172 | the pass over the old map yields exactly the key nodes the specification function gives for all old entries, or its first error |
| `DiffLoops.NewEntriesPass` | src/main/java/com/thunder/base/utils/diff/DiffManager.java:175-191 | the pass over the new map yields exactly the ADDED key nodes the specification function gives for all new entries |
| `DiffLoops.FieldPass` | src/main/java/com/thunder/base/utils/diff/DiffManager.java:201-218 | the loop over the declared fields yields exactly the field children the specification function gives, or the first missing field or failing field diff |
| `DiffUtils.ToObjectArray` | src/main/java/com/thunder/base/utils/diff/DiffUtils.java:7-13 | the result is a freshly allocated array of the same length holding the source's elements at the same indices; the source is not modified |
| `DiffProperties.RootLabelled` | src/main/java/com/thunder/base/utils/diff/DiffManager.java:29-33 | the public `diff` labels the root of every tree it returns "ROOT" |
| `DiffProperties.LabelKept` | src/main/java/com/thunder/base/diff/DiffManager.java:33-81 | every node the private `diff` returns carries the label it was called with |
| `DiffProperties.EqualValuesUntouched` | src/main/java/com/thunder/base/utils/diff/DiffManager.java:37-39 | equal values, both null included, give an UNTOUCHED leaf holding both, so the whole tree is UNTOUCHED |
| `DiffProperties.OneSideNull` | src/main/java/com/thunder/base/utils/diff/DiffManager.java:42-47 | an old null against a present value gives an ADDED leaf, and the reverse a REMOVED leaf; the leaf keeps the present value |
| `DiffProperties.ClassMismatchAborts` | src/main/java/com/thunder/base/utils/diff/DiffManager.java:51-60 | two present values of different runtime classes abort the diff with both classes, and no tree is produced |
| `DiffProperties.ScalarLeaf` | src/main/java/com/thunder/base/diff/DiffManager.java:21-25 | two scalars of a simple kind give a CHANGED leaf when they differ and an UNTOUCHED one when equal; the only kind that is not simple is UUID, in the utils copy, where two different UUIDs abort |
| `DiffProperties.PresentOnBothSides` | src/main/java/com/thunder/base/utils/diff/DiffManager.java:63-67 | a position holding a value on both sides is never ADDED or REMOVED, so the ADDED and REMOVED branches of `diffSimple` are unreachable from dispatch |
| `DiffProperties.Dispatch` | src/main/java/com/thunder/base/utils/diff/DiffManager.java:62-83 | two different present values of one class go to the comparator their sort selects: a simple scalar gives a CHANGED leaf and a UUID in the utils copy aborts, arrays and collections go to the array comparator over their element sequences, maps to the map comparator (an error in the base copy), and any other object to the field comparator |
| `DiffProperties.CompositeWithChangedFieldIsChanged` | src/main/java/com/thunder/base/utils/diff/DiffManager.java:220-222 | an object one of whose field children is not UNTOUCHED (an added field, for one) is CHANGED, never ADDED or REMOVED |
| `DiffProperties.DiffAtShaped` | src/main/java/com/thunder/base/utils/diff/DiffManager.java:35-84 | every tree the engine returns has the following shape. ADDED leaves hold no old value and REMOVED leaves no new value. Every inner node either takes the aggregate state of its children or is a map "key" node with the state of its one "value" child |
| `DiffProperties.DiffArrayShaped` | src/main/java/com/thunder/base/utils/diff/DiffManager.java:99-132 | an array node has that shape |
| `DiffProperties.ArrayChildrenShaped` | src/main/java/com/thunder/base/utils/diff/DiffManager.java:104-126 | the REMOVED and ADDED index leaves and the element diffs all have that shape |
| `DiffProperties.RemovedLeavesShaped` | src/main/java/com/thunder/base/utils/diff/DiffManager.java:107-111 | the REMOVED index leaves have that shape |
| `DiffProperties.AddedLeavesShaped` | src/main/java/com/thunder/base/utils/diff/DiffManager.java:119-126 | the ADDED index leaves have that shape |
| `DiffProperties.ArrayPairsShaped` | src/main/java/com/thunder/base/utils/diff/DiffManager.java:114-116 | the element diffs have that shape |
| `DiffProperties.DiffMapShaped` | src/main/java/com/thunder/base/utils/diff/DiffManager.java:134-196 | a map node has that shape |
| `DiffProperties.OldKeyChildrenShaped` | src/main/java/com/thunder/base/utils/diff/DiffManager.java:142-172 | the key nodes for old-map keys have that shape |
| `DiffProperties.NewKeyChildrenShaped` | src/main/java/com/thunder/base/utils/diff/DiffManager.java:175-191 | the ADDED key nodes have that shape |
| `DiffProperties.DiffObjectShaped` | src/main/java/com/thunder/base/utils/diff/DiffManager.java:198-223 | an object node has that shape |
| `DiffProperties.FieldChildrenShaped` | src/main/java/com/thunder/base/utils/diff/DiffManager.java:202-218 | the field children have that shape |
| `DiffProperties.AllShapedAppend` | src/main/java/com/thunder/base/utils/diff/DiffManager.java:104 | appending to a children list of that shape keeps the shape |
| `DiffProperties.UntouchedAllTheWayDown` | src/main/java/com/thunder/base/utils/diff/ResultNode.java:5-9 | in a result tree, an UNTOUCHED node has only UNTOUCHED nodes below it |
| `DiffProperties.ChangeHasWitnessLeaf` | src/main/java/com/thunder/base/utils/diff/ResultNode.java:11-13 | in a result tree, a node that is not UNTOUCHED has a path to a leaf that is not UNTOUCHED either |
| `DiffProperties.ArrayPairsAt` | src/main/java/com/thunder/base/utils/diff/DiffManager.java:105-117 | the first k element pairs succeed exactly when each element diff does, and they are those diffs in index order |
| `DiffProperties.ArrayPairsSucceed` | src/main/java/com/thunder/base/utils/diff/DiffManager.java:105-116 | the first k element pairs succeed exactly when each of their element diffs does |
| `DiffProperties.ArrayPairsValues` | src/main/java/com/thunder/base/utils/diff/DiffManager.java:114-116 | when they succeed, the first k element pairs are k children, the i-th being the diff of the two elements at i |
| `DiffProperties.ArrayElementsCompared` | src/main/java/com/thunder/base/utils/diff/DiffManager.java:100-117 | two different sequences are compared by position. The child labelled "array[i]" is the diff of the two elements at i, for every index both sides have, in index order. The node holds both `Object[]` views. The diff succeeds exactly when every element diff does |
| `DiffProperties.ArrayLengthDifferences` | src/main/java/com/thunder/base/utils/diff/DiffManager.java:107-126 | corrected, one child per index of the longer sequence. Each excess old index gets a REMOVED leaf and each appended index an ADDED leaf, labelled with the bare index and holding the element. The node is UNTOUCHED exactly when the lengths agree and every element pair is |
| `DiffProperties.ShrunkLayout` | src/main/java/com/thunder/base/utils/diff/DiffManager.java:107-111 | corrected, a shorter new sequence gives one child per old index, with a REMOVED leaf, labelled with the bare index and holding the old element, at each excess index |
| `DiffProperties.GrownLayout` | src/main/java/com/thunder/base/utils/diff/DiffManager.java:119-126 | element pairs followed by the ADDED leaves up to a bound give one child per index below the bound, with an ADDED leaf, labelled with the bare index and holding the new element, at each appended index below it |
| `DiffProperties.AsWrittenShrinkOutOfBounds` | src/main/java/com/thunder/base/diff/DiffManager.java:102-114 | as written, a shorter new sequence makes the loop read one past its end, so the diff aborts with an out-of-bounds read |
| `DiffProperties.AsWrittenLastAppendedMissing` | src/main/java/com/thunder/base/diff/DiffManager.java:116-123 | as written, the append loop stops one index early. Every appended index but the last gets its ADDED leaf, labelled with the bare index and holding the new element. The last appended element has no node, so there are `|news| - 1` children, and appending one element is reported UNTOUCHED |
| `DiffProperties.OldKeyChildrenAt` | src/main/java/com/thunder/base/utils/diff/DiffManager.java:142-172 | the first k old-map keys give one node each, in iteration order. A key the new map lacks gets a REMOVED key node over a REMOVED value leaf. Any other key gets a key node holding the key on both sides, whose state is that of its one value diff |
| `DiffProperties.OldKeyChildrenSucceed` | src/main/java/com/thunder/base/utils/diff/DiffManager.java:142-172 | the first k old-map keys succeed exactly when, for each key the new map has, the diff of its two values does |
| `DiffProperties.OldKeyChildrenValues` | src/main/java/com/thunder/base/utils/diff/DiffManager.java:143-171 | when they succeed, the first k old-map keys give k nodes, each a REMOVED key node or a key node over the value diff |
| `DiffProperties.NewKeyChildrenAt` | src/main/java/com/thunder/base/utils/diff/DiffManager.java:175-191 | the second pass yields exactly one ADDED key node over an ADDED value leaf per new-map entry whose key the old map lacks, in the new map's order, and nothing else: the returned indices are exactly those entries', strictly increasing, and the i-th node is the one for the i-th index |
| `DiffProperties.AddedKeysStep` | src/main/java/com/thunder/base/utils/diff/DiffManager.java:175-190 | one more new-map entry whose key the old map lacks extends that layout by its index and its ADDED key node |
| `DiffProperties.MapComparison` | src/main/java/com/thunder/base/utils/diff/DiffManager.java:134-196 | corrected, maps are compared by key. Old keys come first, one node each in iteration order. Then come the keys only the new map has, one ADDED node each, in the new map's order. The children after the old keys are exactly those ADDED nodes, with no repeats and nothing else. So no key that both maps have is reported ADDED. The diff succeeds exactly when every value diff does |
| `DiffProperties.AsWrittenNullValueReadsAsRemoved` | src/main/java/com/thunder/base/utils/diff/DiffManager.java:144 | as written, an old key that the new map maps to null is reported REMOVED, although the new map has it |
| `DiffProperties.AsWrittenNullValueReadsAsAdded` | src/main/java/com/thunder/base/utils/diff/DiffManager.java:176 | as written, a new key that the old map maps to null is reported ADDED, although the old map has it |
| `DiffProperties.BaseCopyMapStub` | src/main/java/com/thunder/base/diff/DiffManager.java:131-134 | in the base copy, two different maps of one class give no tree |
| `DiffProperties.FieldChildrenAt` | src/main/java/com/thunder/base/diff/DiffManager.java:140-156 | the first k declared fields give one child each, in declaration order: the diff of the field's two values |
| `DiffProperties.FieldChildrenSucceed` | src/main/java/com/thunder/base/utils/diff/DiffManager.java:202-217 | the first k declared fields succeed exactly when the new object declares each of them and each field diff succeeds |
| `DiffProperties.FieldChildrenValues` | src/main/java/com/thunder/base/utils/diff/DiffManager.java:205-212 | when they succeed, the first k declared fields give k children, the i-th being the diff of field i's two values |
| `DiffProperties.CompositeComparison` | src/main/java/com/thunder/base/diff/DiffManager.java:136-160 | two different objects of one class are compared field by field. Each declared field of the old object, in declaration order, gets one child labelled with its name, equal to the diff of its two values. The node is UNTOUCHED exactly when every child is |
| `DiffProperties.MissingFieldAborts` | src/main/java/com/thunder/base/diff/DiffManager.java:151-155 | a field the old object declares and the new one lacks aborts the diff, naming that field. In Java this needs two objects of one class with different fields, which cannot exist (see "## Left out") |
| `DiffProperties.SameDeclaredFieldsAlwaysFound` | src/main/java/com/thunder/base/utils/diff/DiffManager.java:202-212 | when the new record declares the old record's fields, as two objects of one Java class always do, every `getDeclaredField` lookup finds its field, and the field pass fails exactly when one of the field diffs fails |
| `DiffProperties.ArrayPairsFailurePersists` | src/main/java/com/thunder/base/utils/diff/DiffManager.java:114-116 | an error in an element diff aborts the array diff: later elements do not undo it |
| `DiffProperties.OldKeyChildrenFailurePersists` | src/main/java/com/thunder/base/utils/diff/DiffManager.java:160 | an error in a value diff aborts the map diff |
| `DiffProperties.FieldChildrenFailurePersists` | src/main/java/com/thunder/base/utils/diff/DiffManager.java:206-216 | an error in a field diff, or a missing field, aborts the object diff |
| `DiffExamples.PrimitivesWithDifferentValuesChanged` | src/test/java/com/thunder/base/diff/DiffManagerTest.java:31-39 | boxed values parsed from "1" and "3" give a CHANGED "ROOT" leaf with no children |
| `DiffExamples.PrimitivesWithSameValuesUntouched` | src/test/java/com/thunder/base/diff/DiffManagerTest.java:42-50 | two boxed values parsed from "8" give an UNTOUCHED "ROOT" leaf with no children |
| `DiffExamples.MapValueChangedAndKeyAdded` | src/main/java/com/thunder/base/utils/diff/DiffManager.java:158-190 | {a: 1} against {a: 2, b: 3} gives a CHANGED root. Key a is CHANGED, over a CHANGED value leaf 1 to 2. Key b is ADDED, over an ADDED value leaf |
| `DiffExamples.MapKeyRemoved` | src/main/java/com/thunder/base/utils/diff/DiffManager.java:144-194 | {a: 1, b: 2} against {a: 1} gives a CHANGED root with an UNTOUCHED key a and a REMOVED key b over a REMOVED value leaf |
| `DiffExamples.AppendAsWritten` | src/main/java/com/thunder/base/utils/diff/DiffManager.java:119-126 | as written, [1, 2] against [1, 2, 3] is UNTOUCHED with only the two element leaves |
| `DiffExamples.AppendCorrected` | src/main/java/com/thunder/base/utils/diff/DiffManager.java:119-131 | corrected, [1, 2] against [1, 2, 3] is CHANGED with an ADDED leaf "2" holding 3 |
| `DiffExamples.ShrinkAsWritten` | src/main/java/com/thunder/base/utils/diff/DiffManager.java:105-112 | as written, [1, 2, 3] against [1, 2] aborts reading index 2 of a length-2 array |
| `DiffExamples.ShrinkCorrected` | src/main/java/com/thunder/base/utils/diff/DiffManager.java:105-117 | corrected, [1, 2, 3] against [1, 2] is CHANGED with a REMOVED leaf "2" holding 3 |
| `DiffExamples.SharedPrefixPairs` | src/main/java/com/thunder/base/utils/diff/DiffManager.java:114-116 | comparing [1, 2] with a sequence that starts with 1, 2, in either direction, gives two UNTOUCHED element leaves |
| `DiffExamples.NullValuedKeyAsWritten` | src/main/java/com/thunder/base/utils/diff/DiffManager.java:144-190 | as written, {a: null} against {a: null, b: 1} reports key a REMOVED and then ADDED again |
| `DiffExamples.NullValuedKeyCorrected` | src/main/java/com/thunder/base/utils/diff/DiffManager.java:142-191 | corrected, the same maps give one UNTOUCHED key a and one ADDED key b |

The result records of both copies (utils/diff/ResultNode.java:5-13 and
diff/ResultNode.java:5-10) are the datatypes `ResultNode` and `State` of
module `ResultTree`. A node has exactly five components. A state is exactly
one of four values. Equality is component-wise. A node cannot be changed once
built.

## Left out

- `Main.java`, a demo caller with random UUIDs and console output, is not part of this model.
- Reflection in `diffObject` and `getFieldValue` is not modelled. An object is its class name plus its declared fields, in declaration order, as (name, value) pairs. The null returned when `Field.get` throws a `NullPointerException` cannot arise, because a field value is always present in the model.
- `java.lang.reflect.Array` and `Collection.toArray` are not modelled. The engine takes both sequences directly as `seq<Value>`. `DiffUtils.ToObjectArray` models the copy loop on its own, over `array<Value>`.
- Reference identity is not modelled. Equality is structural, so two distinct arrays with equal contents take the equality fast path and give an UNTOUCHED leaf holding the two arrays. In Java, `Objects.equals` on arrays compares references, so such arrays reach `diffArray`. There the result is also UNTOUCHED, but the node holds the `Object[]` copies, and for nested arrays it has element children.
- Equality of collections and maps across classes is not modelled. The equality step at utils/diff/DiffManager.java:37 compares the class name too. So two lists of different classes with equal elements (an `ArrayList` and a `LinkedList`) are not equal here, and they abort as a class mismatch. The same holds for two maps of different classes with the same entries, such as `Map.of("key1", o)` against a `HashMap` holding that one entry. In Java, `equals` holds in both cases, so the call returns an UNTOUCHED leaf.
- Order-insensitive set and map equality is not modelled. Equality compares a collection's elements and a map's entries in iteration order. Two `LinkedHashSet`s holding x, y and y, x are equal in Java, so the call returns an UNTOUCHED leaf. Here they are different, so they are compared by position and the result is CHANGED. The same holds for two maps with the same entries iterated in different orders.
- Cyclic object graphs are not modelled. A value is a finite tree, and `DiffAt` terminates because of that. In Java, two distinct objects that each refer to themselves through a field recurse through `diffObject` (utils/diff/DiffManager.java:202-212) until the stack overflows. The model has no such input and no such outcome.
- Two objects of one class with different declared fields are not modelled faithfully. In Java, `diffObject` runs only after the class check has passed. So `getDeclaredField` (utils/diff/DiffManager.java:205) looks for a field of the very class whose `getDeclaredFields()` just listed it, and it always succeeds. The `RuntimeException` at lines 213-216 cannot be thrown. A record is a class name plus a field list, so the model can build two records of one class with different fields, and for them it reports the error `MissingField`. `DiffProperties.SameDeclaredFieldsAlwaysFound` shows that this error never arises at the top level when the two records declare the same fields.
- Float and Double equality (NaN, signed zero) is not modelled: a scalar's value is an opaque canonical image.
- `equals` and `hashCode` of user classes are not modelled; equality is structural on the model's values.
- `HashMap` iteration order is fixed in the model as the order of the entry sequence.
- Duplicate keys are not a Java map. For them the model looks up the first entry with the key, and the old-entry pass compares the entry's own value where the source reads `oldMap.get(oldKey)`. On real maps the two agree.
- Exception messages and Java exception types are reduced to the error tags of `ResultTree.DiffError`.
- Library classes other than UUID are not modelled as aborting. A `Record` stands for a class whose declared fields reflection may open. In Java, `getFieldValue` calls `setAccessible(true)` (utils/diff/DiffManager.java:227), and that throws for the private fields of a JDK class that is neither simple, an array, a collection nor a map, such as `LocalDate` or `BigDecimal`. So two different such values abort the whole diff in Java. The model compares them field by field instead. Only UUID, the one such class among the scalar kinds, aborts, with `ReflectionOnLibraryClass`.
- `isPrimitive()` and class hierarchies are not modelled: a boxed value is never primitive, and classes match only when equal.
- The `return null` of the base copy's `diffMap` is modelled as the error `MapNotImplemented` rather than as a null node.

## Findings

| source | as written | input that shows it | evidently intended | confidence | as-written member | corrected member |
|---|---|---|---|---|---|---|
| src/main/java/com/thunder/base/utils/diff/DiffManager.java:107-112 | after adding the REMOVED leaf for an index past the new array's end, the loop still reads `newArray[i]` | [1, 2, 3] against [1, 2]: `ArrayIndexOutOfBoundsException` at index 2 | REMOVED leaves for the excess old elements, with no comparison past the shorter length | high, not executed | `DiffProperties.AsWrittenShrinkOutOfBounds` | `DiffProperties.ArrayLengthDifferences` |
| src/main/java/com/thunder/base/utils/diff/DiffManager.java:120 | the append loop runs while `i < newArray.length - 1`, so the last appended element is skipped | [1, 2] against [1, 2, 3]: UNTOUCHED, no ADDED leaf | one ADDED leaf per appended index, up to `newArray.length - 1` inclusive | high, not executed | `DiffProperties.AsWrittenLastAppendedMissing` | `DiffProperties.ArrayLengthDifferences` |
| src/main/java/com/thunder/base/utils/diff/DiffManager.java:144 | key presence is tested with `get(key) == null`, so a key mapped to null reads as absent (the same holds at line 176) | {a: null} against {a: null, b: 1}: key a is reported REMOVED and then ADDED | presence tested by `containsKey`, so key a is matched and UNTOUCHED | medium, not executed | `DiffExamples.NullValuedKeyAsWritten` | `DiffProperties.MapComparison` |

The same two array defects are present in the base copy, at
src/main/java/com/thunder/base/diff/DiffManager.java:104-109 and :117. The
corrected mode (`Corrected`) is the model's statement of the intended
behaviour; `AsWritten` keeps the code as it stands.
