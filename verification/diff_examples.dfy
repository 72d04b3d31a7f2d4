/**
 * Concrete diffs: the scalar cases the repository's unit test asserts, two
 * map comparisons, and one input per defect of the comparators, computed
 * both as written and corrected.
 */
module DiffExamples {
  import opened Values
  import opened ResultTree
  import opened DiffManager
  import DiffProperties

  function Int(image: string): Value
  {
    Scalar(IntegerKind, image)
  }

  function Str(image: string): Value
  {
    Scalar(StringKind, image)
  }

  function List(elems: seq<Value>): Value
  {
    Collection("java.util.ArrayList", elems)
  }

  function HashMap(entries: seq<Entry>): Value
  {
    MapV("java.util.HashMap", entries)
  }

  /** Two different boxed values of one class give a CHANGED root leaf holding both. */
  lemma PrimitivesWithDifferentValuesChanged(m: Mode, kind: ScalarKind)
    ensures Diff(Engine(BaseCopy, m), Scalar(kind, "1"), Scalar(kind, "3"))
         == Success(ResultNode(RootFieldName, Scalar(kind, "1"), Scalar(kind, "3"), Changed, []))
  {
  }

  /** Two equal boxed values give an UNTOUCHED root leaf holding both. */
  lemma PrimitivesWithSameValuesUntouched(m: Mode, kind: ScalarKind)
    ensures Diff(Engine(BaseCopy, m), Scalar(kind, "8"), Scalar(kind, "8"))
         == Success(ResultNode(RootFieldName, Scalar(kind, "8"), Scalar(kind, "8"), Untouched, []))
  {
  }

  /** A changed value and an added key: both show under a CHANGED root. */
  lemma MapValueChangedAndKeyAdded(m: Mode)
    ensures Diff(Engine(UtilsCopy, m), HashMap([Entry(Str("a"), Int("1"))]),
                 HashMap([Entry(Str("a"), Int("2")), Entry(Str("b"), Int("3"))])).Success?
    ensures Diff(Engine(UtilsCopy, m), HashMap([Entry(Str("a"), Int("1"))]),
                 HashMap([Entry(Str("a"), Int("2")), Entry(Str("b"), Int("3"))])).value
         == ResultNode(RootFieldName, HashMap([Entry(Str("a"), Int("1"))]),
                       HashMap([Entry(Str("a"), Int("2")), Entry(Str("b"), Int("3"))]), Changed,
                       [ResultNode(KeyLabel, Str("a"), Str("a"), Changed, [Leaf(ValueLabel, Int("1"), Int("2"), Changed)]),
                        ResultNode(KeyLabel, Null, Str("b"), Added, [Leaf(ValueLabel, Null, Int("3"), Added)])])
  {
    var e := Engine(UtilsCopy, m);
    var o := HashMap([Entry(Str("a"), Int("1"))]);
    var n := HashMap([Entry(Str("a"), Int("2")), Entry(Str("b"), Int("3"))]);
    assert Diff(e, o, n) == DiffMap(e, RootFieldName, o, n);
    assert Lookup(m, n.entries, Str("a")) == Some(Int("2"));
    assert Lookup(m, o.entries, Str("a")) == Some(Int("1"));
    assert Lookup(m, o.entries, Str("b")) == None;
    assert DiffAt(e, ValueLabel, Int("1"), Int("2")) == Success(Leaf(ValueLabel, Int("1"), Int("2"), Changed));
    assert OldKeyChildren(e, o, n, 0) == Success([]);
    assert o.entries[0].key == Str("a");
    var first := ResultNode(KeyLabel, Str("a"), Str("a"), Changed, [Leaf(ValueLabel, Int("1"), Int("2"), Changed)]);
    assert [] + [first] == [first];
    assert OldKeyChildren(e, o, n, 1) == Success([first]);
    assert NewKeyChildren(m, o.entries, n.entries, 2)
        == [ResultNode(KeyLabel, Null, Str("b"), Added, [Leaf(ValueLabel, Null, Int("3"), Added)])];
  }

  /** A key the new map lacks gives a REMOVED key node over a REMOVED value leaf, and a CHANGED root. */
  lemma MapKeyRemoved(m: Mode)
    ensures Diff(Engine(UtilsCopy, m), HashMap([Entry(Str("a"), Int("1")), Entry(Str("b"), Int("2"))]),
                 HashMap([Entry(Str("a"), Int("1"))])).Success?
    ensures Diff(Engine(UtilsCopy, m), HashMap([Entry(Str("a"), Int("1")), Entry(Str("b"), Int("2"))]),
                 HashMap([Entry(Str("a"), Int("1"))])).value.state == Changed
    ensures Diff(Engine(UtilsCopy, m), HashMap([Entry(Str("a"), Int("1")), Entry(Str("b"), Int("2"))]),
                 HashMap([Entry(Str("a"), Int("1"))])).value.children
         == [ResultNode(KeyLabel, Str("a"), Str("a"), Untouched, [Leaf(ValueLabel, Int("1"), Int("1"), Untouched)]),
             ResultNode(KeyLabel, Str("b"), Null, Removed, [Leaf(ValueLabel, Int("2"), Null, Removed)])]
  {
    var e := Engine(UtilsCopy, m);
    var o := HashMap([Entry(Str("a"), Int("1")), Entry(Str("b"), Int("2"))]);
    var n := HashMap([Entry(Str("a"), Int("1"))]);
    assert Diff(e, o, n) == DiffMap(e, RootFieldName, o, n);
    assert Lookup(m, n.entries, Str("a")) == Some(Int("1"));
    assert Lookup(m, n.entries, Str("b")) == None;
    assert Lookup(m, o.entries, Str("a")) == Some(Int("1"));
    assert OldKeyChildren(e, o, n, 0) == Success([]);
    assert o.entries[0].key == Str("a");
    var first := ResultNode(KeyLabel, Str("a"), Str("a"), Untouched, [Leaf(ValueLabel, Int("1"), Int("1"), Untouched)]);
    assert [] + [first] == [first];
    assert OldKeyChildren(e, o, n, 1) == Success([first]);
    assert NewKeyChildren(m, o.entries, n.entries, 1) == [];
    var second := ResultNode(KeyLabel, Str("b"), Null, Removed, [Leaf(ValueLabel, Int("2"), Null, Removed)]);
    assert [first] + [second] == [first, second];
    assert OldKeyChildren(e, o, n, 2) == Success([first, second]);
    assert [first, second] + [] == [first, second];
    assert Diff(e, o, n).value.children == [first, second];
    assert Diff(e, o, n).value.children[1].state == Removed;
  }

  /** As written, appending one element to a list is reported UNTOUCHED: the appended element has no node. */
  lemma AppendAsWritten()
    ensures Diff(Engine(UtilsCopy, AsWritten), List([Int("1"), Int("2")]), List([Int("1"), Int("2"), Int("3")]))
         == Success(ResultNode(RootFieldName, ObjectArray([Int("1"), Int("2")]), ObjectArray([Int("1"), Int("2"), Int("3")]),
                               Untouched,
                               [Leaf(ElementLabel(0), Int("1"), Int("1"), Untouched),
                                Leaf(ElementLabel(1), Int("2"), Int("2"), Untouched)]))
  {
    var e := Engine(UtilsCopy, AsWritten);
    var pairs := SharedPrefixPairs(e, [Int("1"), Int("2"), Int("3")]);
    assert AddedLeaves([Int("1"), Int("2"), Int("3")], 2, 2) == [];
    assert pairs + [] == pairs;
    assert ChildrenState(pairs) == Untouched;
  }

  /** Corrected, the appended element is an ADDED leaf labelled with its index and the list is CHANGED. */
  lemma AppendCorrected()
    ensures Diff(Engine(UtilsCopy, Corrected), List([Int("1"), Int("2")]), List([Int("1"), Int("2"), Int("3")]))
         == Success(ResultNode(RootFieldName, ObjectArray([Int("1"), Int("2")]), ObjectArray([Int("1"), Int("2"), Int("3")]),
                               Changed,
                               [Leaf(ElementLabel(0), Int("1"), Int("1"), Untouched),
                                Leaf(ElementLabel(1), Int("2"), Int("2"), Untouched),
                                Leaf(IndexLabel(2), Null, Int("3"), Added)]))
  {
    var e := Engine(UtilsCopy, Corrected);
    var pairs := SharedPrefixPairs(e, [Int("1"), Int("2"), Int("3")]);
    var added := Leaf(IndexLabel(2), Null, Int("3"), Added);
    assert AddedLeaves([Int("1"), Int("2"), Int("3")], 2, 3) == [added];
    assert ArrayChildren(e, [Int("1"), Int("2")], [Int("1"), Int("2"), Int("3")]) == Success(pairs + [added]);
    assert pairs + [added] == [pairs[0], pairs[1], added];
    assert ChildrenState(pairs + [added]) == Changed by {
      assert (pairs + [added])[2].state == Added;
    }
  }

  /** As written, dropping the last element of a list aborts with an out-of-bounds read at index 2. */
  lemma ShrinkAsWritten()
    ensures Diff(Engine(UtilsCopy, AsWritten), List([Int("1"), Int("2"), Int("3")]), List([Int("1"), Int("2")]))
         == Failure(IndexOutOfBounds(2, 2))
  {
    var e := Engine(UtilsCopy, AsWritten);
    var longer := [Int("1"), Int("2"), Int("3")];
    var shorter := [Int("1"), Int("2")];
    DiffProperties.EqualValuesUntouched(e, ElementLabel(0), Int("1"));
    DiffProperties.EqualValuesUntouched(e, ElementLabel(1), Int("2"));
    DiffProperties.AsWrittenShrinkOutOfBounds(e, RootFieldName, longer, shorter);
  }

  /** Corrected, the dropped element is a REMOVED leaf labelled with its index and the list is CHANGED. */
  lemma ShrinkCorrected()
    ensures Diff(Engine(UtilsCopy, Corrected), List([Int("1"), Int("2"), Int("3")]), List([Int("1"), Int("2")]))
         == Success(ResultNode(RootFieldName, ObjectArray([Int("1"), Int("2"), Int("3")]), ObjectArray([Int("1"), Int("2")]),
                               Changed,
                               [Leaf(ElementLabel(0), Int("1"), Int("1"), Untouched),
                                Leaf(ElementLabel(1), Int("2"), Int("2"), Untouched),
                                Leaf(IndexLabel(2), Int("3"), Null, Removed)]))
  {
    var e := Engine(UtilsCopy, Corrected);
    var longer := [Int("1"), Int("2"), Int("3")];
    var shorter := [Int("1"), Int("2")];
    var pairs := SharedPrefixPairs(e, shorter);
    assert ArrayPairs(e, longer, shorter, 2) == Success(pairs) by {
      DiffProperties.ArrayPairsAt(e, longer, shorter, 2);
      DiffProperties.ArrayPairsAt(e, [Int("1"), Int("2")], [Int("1"), Int("2"), Int("3")], 2);
    }
    var removed := Leaf(IndexLabel(2), Int("3"), Null, Removed);
    assert RemovedLeaves(longer, 2) == [removed];
    assert ArrayChildren(e, longer, shorter) == Success(pairs + [removed]);
    assert pairs + [removed] == [pairs[0], pairs[1], removed];
    assert ChildrenState(pairs + [removed]) == Changed by {
      assert (pairs + [removed])[2].state == Removed;
    }
  }

  /** The two UNTOUCHED element leaves for a list [1, 2] compared with any list that starts with 1, 2. */
  lemma SharedPrefixPairs(e: Engine, other: seq<Value>) returns (pairs: seq<ResultNode>)
    requires |other| >= 2 && other[0] == Int("1") && other[1] == Int("2")
    ensures pairs == [Leaf(ElementLabel(0), Int("1"), Int("1"), Untouched),
                      Leaf(ElementLabel(1), Int("2"), Int("2"), Untouched)]
    ensures ArrayPairs(e, [Int("1"), Int("2")], other, 2) == Success(pairs)
    ensures ArrayPairs(e, other, [Int("1"), Int("2")], 2) == Success(pairs)
  {
    var mine := [Int("1"), Int("2")];
    pairs := [Leaf(ElementLabel(0), Int("1"), Int("1"), Untouched),
              Leaf(ElementLabel(1), Int("2"), Int("2"), Untouched)];
    DiffProperties.EqualValuesUntouched(e, ElementLabel(0), Int("1"));
    DiffProperties.EqualValuesUntouched(e, ElementLabel(1), Int("2"));
    assert [] + [pairs[0]] == [pairs[0]] && [pairs[0]] + [pairs[1]] == pairs;
    assert ArrayPairs(e, mine, other, 0) == Success([]);
    assert ArrayPairs(e, mine, other, 1) == Success([pairs[0]]);
    assert ArrayPairs(e, other, mine, 0) == Success([]);
    assert ArrayPairs(e, other, mine, 1) == Success([pairs[0]]);
  }

  /**
   * As written, a key mapped to null in both maps is taken for absent by the
   * lookup: it is reported REMOVED and then ADDED again.
   */
  lemma NullValuedKeyAsWritten()
    ensures Diff(Engine(UtilsCopy, AsWritten), HashMap([Entry(Str("a"), Null)]),
                 HashMap([Entry(Str("a"), Null), Entry(Str("b"), Int("1"))])).Success?
    ensures Diff(Engine(UtilsCopy, AsWritten), HashMap([Entry(Str("a"), Null)]),
                 HashMap([Entry(Str("a"), Null), Entry(Str("b"), Int("1"))])).value.children
         == [ResultNode(KeyLabel, Str("a"), Null, Removed, [Leaf(ValueLabel, Null, Null, Removed)]),
             ResultNode(KeyLabel, Null, Str("a"), Added, [Leaf(ValueLabel, Null, Null, Added)]),
             ResultNode(KeyLabel, Null, Str("b"), Added, [Leaf(ValueLabel, Null, Int("1"), Added)])]
  {
    var e := Engine(UtilsCopy, AsWritten);
    var o := HashMap([Entry(Str("a"), Null)]);
    var n := HashMap([Entry(Str("a"), Null), Entry(Str("b"), Int("1"))]);
    assert Diff(e, o, n) == DiffMap(e, RootFieldName, o, n);
    assert Get(n.entries, Str("a")) == Some(Null);
    assert Get(o.entries, Str("a")) == Some(Null);
    assert Get(o.entries, Str("b")) == None;
    assert OldKeyChildren(e, o, n, 0) == Success([]);
    assert o.entries[0].key == Str("a");
    var first := ResultNode(KeyLabel, Str("a"), Null, Removed, [Leaf(ValueLabel, Null, Null, Removed)]);
    assert [] + [first] == [first];
    assert OldKeyChildren(e, o, n, 1) == Success([first]);
    assert NewKeyChildren(AsWritten, o.entries, n.entries, 1)
        == [ResultNode(KeyLabel, Null, Str("a"), Added, [Leaf(ValueLabel, Null, Null, Added)])];
    assert NewKeyChildren(AsWritten, o.entries, n.entries, 2)
        == [ResultNode(KeyLabel, Null, Str("a"), Added, [Leaf(ValueLabel, Null, Null, Added)]),
            ResultNode(KeyLabel, Null, Str("b"), Added, [Leaf(ValueLabel, Null, Int("1"), Added)])];
  }

  /** Corrected, the null-valued key is matched once and UNTOUCHED; only the new key is ADDED. */
  lemma NullValuedKeyCorrected()
    ensures Diff(Engine(UtilsCopy, Corrected), HashMap([Entry(Str("a"), Null)]),
                 HashMap([Entry(Str("a"), Null), Entry(Str("b"), Int("1"))])).Success?
    ensures Diff(Engine(UtilsCopy, Corrected), HashMap([Entry(Str("a"), Null)]),
                 HashMap([Entry(Str("a"), Null), Entry(Str("b"), Int("1"))])).value.children
         == [ResultNode(KeyLabel, Str("a"), Str("a"), Untouched, [Leaf(ValueLabel, Null, Null, Untouched)]),
             ResultNode(KeyLabel, Null, Str("b"), Added, [Leaf(ValueLabel, Null, Int("1"), Added)])]
  {
    var e := Engine(UtilsCopy, Corrected);
    var o := HashMap([Entry(Str("a"), Null)]);
    var n := HashMap([Entry(Str("a"), Null), Entry(Str("b"), Int("1"))]);
    assert Diff(e, o, n) == DiffMap(e, RootFieldName, o, n);
    assert Get(n.entries, Str("a")) == Some(Null);
    assert Get(o.entries, Str("a")) == Some(Null);
    assert Get(o.entries, Str("b")) == None;
    assert OldKeyChildren(e, o, n, 0) == Success([]);
    assert o.entries[0].key == Str("a");
    var first := ResultNode(KeyLabel, Str("a"), Str("a"), Untouched, [Leaf(ValueLabel, Null, Null, Untouched)]);
    assert [] + [first] == [first];
    assert OldKeyChildren(e, o, n, 1) == Success([first]);
    assert NewKeyChildren(Corrected, o.entries, n.entries, 1) == [];
    assert NewKeyChildren(Corrected, o.entries, n.entries, 2)
        == [ResultNode(KeyLabel, Null, Str("b"), Added, [Leaf(ValueLabel, Null, Int("1"), Added)])];
  }
}
