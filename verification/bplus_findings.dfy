/**
 * Three capacity tests in b+tree.ts compare a leaf with the inner-node bounds:
 * the split test of `balance`, `is_node_balanced`, and the sibling test of
 * `steal`. With equal leaf and inner capacities, the only ones the tests use,
 * each agrees with the corrected test the rest of the model uses; with
 * different capacities each lets a tree out of shape. Every test is written
 * here as the source has it, with a concrete tree that shows the difference.
 */
module BPlusFindings {
  import opened Wrappers
  import Seqs
  import opened OrderedMap
  import opened BPlusTree
  import opened BPlusInsert
  import BPlusInsertProof
  import opened BPlusDelete

  // ---------------------------------------------------------------- the split test

  /**
   * The split test of `balance` as written: a leaf within the leaf capacity
   * stays, and so does ANY node within the inner capacity, leaves included.
   */
  predicate SplitsAsWritten<V>(cfg: Config, n: Node<V>)
  {
    !((n.Leaf? && |n.keys| <= cfg.maxLeaf) || |n.keys| <= cfg.maxInner)
  }

  /** The split test as written splits only what overflows, and misses exactly the leaves above the leaf capacity but within the inner one. */
  lemma SplitsAsWrittenMisses<V>(cfg: Config, n: Node<V>)
    ensures SplitsAsWritten(cfg, n) <==> Overflows(cfg, n) && !(n.Leaf? && |n.keys| <= cfg.maxInner)
    ensures cfg.maxLeaf >= cfg.maxInner ==> (SplitsAsWritten(cfg, n) <==> Overflows(cfg, n))
  {
  }

  /** `balance` with the split test as written. */
  function BalanceAsWritten<V>(cfg: Config, node: Node<V>, path: seq<Crumb<V>>): (r: Grown<V>)
    requires ValidConfig(cfg) && Shaped(node) && ValidPath(path)
    ensures !SplitsAsWritten(cfg, node) ==> !r.grew
    decreases |path|
  {
    if !SplitsAsWritten(cfg, node) then Grown(Plug(path, node), false)
    else
      var s := SplitEmUp(node);
      if |path| == 0 then Grown(NewRoot(s), true)
      else
        var c := path[|path| - 1];
        BalanceAsWritten(cfg, InsertIntoInternalNode(c.keys, c.children[c.idx := node], s.pivot, s.left, s.right), path[..|path| - 1])
  }

  /** `insert` with the split test as written. */
  function InsertAsWritten<V>(t: BTree<V>, k: int, v: V): (r: BTree<V>)
    requires ValidConfig(t.cfg) && WF(t.root)
    ensures r.cfg == t.cfg
    ensures r.height == t.height || r.height == t.height + 1
  {
    var found := SearchNodeForInsertion(t.root, k, []);
    var leaf := found.0;
    var g := BalanceAsWritten(t.cfg, InsertIntoLeafNode(leaf.keys, leaf.values, k, v), found.1);
    BTree(g.root, t.cfg, if g.grew then t.height + 1 else t.height)
  }

  /** With the leaf capacity at least the inner one, the balance as written is the corrected one. */
  lemma {:induction false} BalanceAsWrittenAgrees<V>(cfg: Config, node: Node<V>, path: seq<Crumb<V>>)
    requires ValidConfig(cfg) && Shaped(node) && ValidPath(path) && cfg.maxLeaf >= cfg.maxInner
    ensures BalanceAsWritten(cfg, node, path) == Balance(cfg, node, path)
    decreases |path|
  {
    SplitsAsWrittenMisses(cfg, node);
    if SplitsAsWritten(cfg, node) && |path| > 0 {
      var s := SplitEmUp(node);
      var c := path[|path| - 1];
      BalanceAsWrittenAgrees(cfg, InsertIntoInternalNode(c.keys, c.children[c.idx := node], s.pivot, s.left, s.right), path[..|path| - 1]);
    }
  }

  /** With the leaf capacity at least the inner one (equal capacities included), `insert` as written is the corrected `insert`. */
  lemma InsertAsWrittenAgrees<V>(t: BTree<V>, k: int, v: V)
    requires ValidConfig(t.cfg) && WF(t.root) && t.cfg.maxLeaf >= t.cfg.maxInner
    ensures InsertAsWritten(t, k, v) == Insert(t, k, v)
  {
    var found := SearchNodeForInsertion(t.root, k, []);
    BalanceAsWrittenAgrees(t.cfg, InsertIntoLeafNode(found.0.keys, found.0.values, k, v), found.1);
  }

  /**
   * Inner capacity 3, leaf capacity 2: inserting a third key into a full leaf
   * root leaves a three-key leaf, over the leaf capacity, where the corrected
   * `insert` splits it.
   */
  lemma OverfullLeafKept<V>(v: V)
    ensures var t := BTree(Leaf([1, 2], [v, v]), Config(3, 1, 2, 1), 1);
      t.cfg == Init<V>(3, 2).value.cfg && Inv(t) && Search(t.root, 3) == None
      && InsertAsWritten(t, 3, v) == BTree(Leaf([1, 2, 3], [v, v, v]), t.cfg, 1)
      && !Inv(InsertAsWritten(t, 3, v))
      && Inv(Insert(t, 3, v)) && Insert(t, 3, v).height == 2
  {
    var t := BTree(Leaf([1, 2], [v, v]), Config(3, 1, 2, 1), 1);
    assert Search(t.root, 3) == None;
    assert InsertIntoLeafNode(t.root.keys, t.root.values, 3, v) == Leaf([1, 2, 3], [v, v, v]) by {
      assert BinarySearch.Search(t.root.keys, 3) == 2;
    }
    BPlusInsertProof.InsertThenSearch(t, 3, v, 3);
  }

  // ---------------------------------------------------------------- the balance test

  /** `is_node_balanced` as written: a leaf at the leaf minimum passes, and so does ANY node at the inner minimum, leaves included. */
  predicate IsNodeBalancedAsWritten<V>(cfg: Config, n: Node<V>)
  {
    (n.Leaf? && |n.keys| >= cfg.minLeaf) || |n.keys| >= cfg.minInner
  }

  /** `can lend` in `steal` as written: any sibling, leaf or internal, above the inner minimum. */
  predicate CanLendAsWritten<V>(cfg: Config, n: Node<V>)
  {
    |n.keys| > cfg.minInner
  }

  /** Both tests as written agree with the corrected ones on internal nodes always, and on leaves when the two minimums are equal. */
  lemma AsWrittenTestsAgree<V>(cfg: Config, n: Node<V>)
    requires n.Internal? || cfg.minLeaf == cfg.minInner
    ensures IsNodeBalancedAsWritten(cfg, n) <==> IsNodeBalanced(cfg, n)
    ensures CanLendAsWritten(cfg, n) <==> CanLend(cfg, n)
  {
  }

  /** Equal capacities give equal minimums, so for the configurations the tests use both tests as written are the corrected ones. */
  lemma EqualCapacitiesAgree<V>(cfg: Config, n: Node<V>)
    requires ValidConfig(cfg) && cfg.maxInner == cfg.maxLeaf
    ensures IsNodeBalancedAsWritten(cfg, n) <==> IsNodeBalanced(cfg, n)
    ensures CanLendAsWritten(cfg, n) <==> CanLend(cfg, n)
  {
    AsWrittenTestsAgree(cfg, n);
  }

  /** Inner capacity 2, leaf capacity 4: two full-enough leaves under one separator meet the invariant. */
  lemma TwoLeavesStart<V>(v: V)
    ensures Config(2, 1, 4, 2) == Init<V>(2, 4).value.cfg
    ensures Inv(BTree(Internal([2], [Leaf([1, 2], [v, v]), Leaf([3, 4], [v, v])]), Config(2, 1, 4, 2), 2))
  {
    var t := BTree(Internal([2], [Leaf([1, 2], [v, v]), Leaf([3, 4], [v, v])]), Config(2, 1, 4, 2), 2);
    assert Ordered(t.root, None, None) by {
      assert Ordered(t.root.children[0], None, Some(2));
      assert Ordered(t.root.children[1], Some(2), None);
    }
  }

  /**
   * From the tree of `TwoLeavesStart`, deleting 1 from the leaf `[1, 2]`
   * leaves a one-key leaf that `is_node_balanced` as written passes, so the
   * source stops and keeps a leaf under the leaf minimum, where the corrected
   * deletion merges it with its sibling.
   */
  lemma UnderfullLeafKept<V>(v: V)
    ensures IsNodeBalancedAsWritten(Config(2, 1, 4, 2), Leaf([2], [v])) && !IsNodeBalanced(Config(2, 1, 4, 2), Leaf([2], [v]))
    ensures Entries(Internal([2], [Leaf([2], [v]), Leaf([3, 4], [v, v])]))
      == RemoveKey(Entries(Internal([2], [Leaf([1, 2], [v, v]), Leaf([3, 4], [v, v])])), 1)
    ensures !Inv(BTree(Internal([2], [Leaf([2], [v]), Leaf([3, 4], [v, v])]), Config(2, 1, 4, 2), 2))
  {
    var cfg := Config(2, 1, 4, 2);
    var before := Internal([2], [Leaf([1, 2], [v, v]), Leaf([3, 4], [v, v])]);
    var kept := Internal([2], [Leaf([2], [v]), Leaf([3, 4], [v, v])]);
    var e1, e2, e3, e4 := Entry(1, v), Entry(2, v), Entry(3, v), Entry(4, v);
    EntriesOfTwo(before);
    EntriesOfTwo(kept);
    assert Entries(before) == [e1, e2] + [e3, e4];
    assert Entries(kept) == [e2] + [e3, e4];
    assert RemoveKey([e1, e2, e3, e4], 1) == [e2, e3, e4];
    assert !Sized(cfg, kept.children[0], false);
  }

  /** The entries of a node with two children. */
  lemma EntriesOfTwo<V>(n: Node<V>)
    requires n.Internal? && |n.children| == 2
    ensures Entries(n) == Entries(n.children[0]) + Entries(n.children[1])
  {
    EntriesInternal(n.keys, n.children);
    assert Parts(n.children) == [Entries(n.children[0]), Entries(n.children[1])];
    Seqs.FlattenPair(Entries(n.children[0]), Entries(n.children[1]));
  }

  /**
   * Inner capacity 2, leaf capacity 4 (minimums 1 and 2): deleting 2 from the
   * tree that `UnderfullLeafKept` ends with empties its first leaf, which even
   * the test as written finds unbalanced. Its right sibling `[3, 4]` lends by the
   * test as written and is left with one key, under the leaf minimum.
   */
  lemma LeafLendsBelowMinimum<V>(v: V)
    ensures var cfg := Config(2, 1, 4, 2);
      var c: Node<V> := Leaf([], []);
      var r := Leaf([3, 4], [v, v]);
      cfg == Init<V>(2, 4).value.cfg && Sized(cfg, r, false)
      && !IsNodeBalancedAsWritten(cfg, c) && CanLendAsWritten(cfg, r) && !CanLend(cfg, r)
      && !Sized(cfg, TakeFirst(c, 2, r).right, false)
  {
  }

  /**
   * Inner capacity 9, leaf capacity 4 (minimums 4 and 2): a four-key leaf
   * sibling cannot lend by the test as written, so the one-key leaf beside it
   * is merged with it into a five-key leaf, over the leaf capacity.
   */
  lemma LeafMergeOverflows<V>(v: V)
    ensures var cfg := Config(9, 4, 4, 2);
      var c := Leaf([0], [v]);
      var r := Leaf([1, 2, 3, 4], [v, v, v, v]);
      cfg == Init<V>(9, 4).value.cfg && !IsNodeBalancedAsWritten(cfg, c) && !CanLendAsWritten(cfg, r) && CanLend(cfg, r)
      && !Sized(cfg, Join(c, 0, r), false)
  {
  }
}
