/**
 * b+tree.ts `validate_tree`: the checks the tests run once after all
 * insertions and again after every deletion. The source walks the tree
 * breadth first with a queue of (node, level, min, max) records; every check
 * there is about one record, and
 * the last level dequeued is the deepest one, so the walk is stated here as a
 * recursion over the tree and the final level as the tree's depth.
 *
 * The validator is weaker than the invariant `Inv` the operations keep: it
 * accepts repeated keys, never compares the depths of the leaves, and never
 * looks at a leaf's values. `InvValidates` shows every tree meeting `Inv`
 * passes, and the two counterexamples show trees that pass without meeting it.
 */
module BPlusValidate {
  import opened Wrappers
  import BinarySearch
  import opened OrderedMap
  import opened BPlusTree

  // ---------------------------------------------------------------- metadata

  /** The capacity and height checks, as written: the leaf maximum is tested twice and the inner maximum never. */
  predicate MetadataAsWritten<V>(t: BTree<V>)
  {
    t.cfg.maxLeaf >= 2 && t.cfg.maxLeaf >= 2
    && t.cfg.minInner >= 1 && t.cfg.minLeaf >= 1
    && t.cfg.minInner <= t.cfg.maxInner && t.cfg.minLeaf <= t.cfg.maxLeaf
    && t.height >= 1
  }

  /** The capacity and height checks with the inner maximum tested, as `init_btree` demands of both capacities (b+tree.ts:50-51). */
  predicate Metadata<V>(t: BTree<V>)
  {
    t.cfg.maxInner >= 2 && t.cfg.maxLeaf >= 2
    && t.cfg.minInner >= 1 && t.cfg.minLeaf >= 1
    && t.cfg.minInner <= t.cfg.maxInner && t.cfg.minLeaf <= t.cfg.maxLeaf
    && t.height >= 1
  }

  // ---------------------------------------------------------------- per node

  /**
   * The checks on one dequeued record and, for an internal node, on the
   * records it enqueues: keys above `lo` and at most `hi`, each key at least
   * the one before it, the key count within the bounds for the node's kind
   * (no minimum at the root), one more child than keys, and child `i` checked
   * between the keys around it, inheriting the node's bound where there is no
   * key on that side.
   */
  predicate Checked<V>(cfg: Config, n: Node<V>, isRoot: bool, lo: Option<int>, hi: Option<int>)
    decreases n
  {
    (forall j :: 0 <= j < |n.keys| ==> Above(lo, n.keys[j]) && AtMost(hi, n.keys[j]))
    && (forall j :: 1 <= j < |n.keys| ==> n.keys[j - 1] <= n.keys[j])
    && match n
      case Leaf(ks, _) => (isRoot || |ks| >= cfg.minLeaf) && |ks| <= cfg.maxLeaf
      case Internal(ks, cs) =>
        (isRoot || |ks| >= cfg.minInner) && |ks| <= cfg.maxInner && |cs| == |ks| + 1
        && forall i :: 0 <= i < |cs| ==> Checked(cfg, cs[i], false, LoOf(ks, lo, i), HiOf(ks, hi, i))
  }

  /** The largest of some numbers, 0 for none. */
  function MaxOf(s: seq<nat>): (r: nat)
    ensures forall i :: 0 <= i < |s| ==> s[i] <= r
    ensures |s| > 0 ==> exists i :: 0 <= i < |s| && s[i] == r
  {
    if |s| == 0 then 0
    else
      var m := MaxOf(s[..|s| - 1]);
      assert forall i :: 0 <= i < |s| - 1 ==> s[..|s| - 1][i] == s[i];
      if s[|s| - 1] > m then s[|s| - 1] else m
  }

  /** The level of the deepest node below and including `n`, `n` being at level 1: the last level the walk dequeues. */
  function Depth<V>(n: Node<V>): (d: nat)
    ensures d >= 1
    decreases n
  {
    match n
    case Leaf(_, _) => 1
    case Internal(_, cs) => 1 + MaxOf(seq(|cs|, i requires 0 <= i < |cs| => Depth(cs[i])))
  }

  // ---------------------------------------------------------------- the validator

  /** Everything after the metadata: an empty root must be a leaf and ends the walk; otherwise every record passes and the height is the depth. */
  predicate Walk<V>(t: BTree<V>)
  {
    if |t.root.keys| == 0 then t.root.Leaf?
    else Checked(t.cfg, t.root, true, None, None) && t.height == Depth(t.root)
  }

  /** b+tree.ts `validate_tree` as written: no assertion in it fails. */
  predicate ValidateTreeAsWritten<V>(t: BTree<V>)
  {
    MetadataAsWritten(t) && Walk(t)
  }

  /** `validate_tree` with the inner maximum checked. */
  predicate ValidateTree<V>(t: BTree<V>)
  {
    Metadata(t) && Walk(t)
  }

  // ---------------------------------------------------------------- the invariant passes

  /** A subtree meeting the invariant's parts passes every check of the walk. */
  lemma {:induction false} InvChecked<V>(cfg: Config, n: Node<V>, isRoot: bool, lo: Option<int>, hi: Option<int>)
    requires WF(n) && Ordered(n, lo, hi) && Sized(cfg, n, isRoot)
    ensures Checked(cfg, n, isRoot, lo, hi)
    decreases n
  {
    assert forall j :: 1 <= j < |n.keys| ==> n.keys[j - 1] <= n.keys[j] by {
      forall j | 1 <= j < |n.keys| ensures n.keys[j - 1] <= n.keys[j] {
        assert BinarySearch.StrictlySorted(n.keys);
      }
    }
    match n
    case Leaf(ks, _) =>
    case Internal(ks, cs) =>
      forall i | 0 <= i < |cs| ensures Checked(cfg, cs[i], false, LoOf(ks, lo, i), HiOf(ks, hi, i)) {
        InvChecked(cfg, cs[i], false, LoOf(ks, lo, i), HiOf(ks, hi, i));
      }
  }

  /** All numbers of a non-empty sequence equal to `d`: the largest is `d`. */
  lemma MaxOfConst(s: seq<nat>, d: nat)
    requires |s| > 0 && forall i :: 0 <= i < |s| ==> s[i] == d
    ensures MaxOf(s) == d
  {
  }

  /** With every leaf at depth `h`, the walk's last level is `h`. */
  lemma {:induction false} HeightIsDepth<V>(n: Node<V>, h: int)
    requires WF(n) && HasHeight(n, h)
    ensures Depth(n) == h
    decreases n
  {
    match n
    case Leaf(_, _) =>
    case Internal(_, cs) =>
      var ds := seq(|cs|, i requires 0 <= i < |cs| => Depth(cs[i]));
      forall i | 0 <= i < |cs| ensures ds[i] == h - 1 {
        HeightIsDepth(cs[i], h - 1);
      }
      MaxOfConst(ds, h - 1);
  }

  /** Every tree meeting the invariant passes `validate_tree`, the corrected metadata check included. */
  lemma InvValidates<V>(t: BTree<V>)
    requires Inv(t)
    ensures ValidateTree(t) && ValidateTreeAsWritten(t)
  {
    ConfigFacts(t.cfg);
    if |t.root.keys| > 0 {
      InvChecked(t.cfg, t.root, true, None, None);
      HeightIsDepth(t.root, t.height);
    }
  }

  // ---------------------------------------------------------------- what passing tells

  /** The walk checks the counts completely: a subtree passing it, an internal root keeping a key, is within the size bounds. */
  lemma {:induction false} CheckedSized<V>(cfg: Config, n: Node<V>, isRoot: bool, lo: Option<int>, hi: Option<int>)
    requires Checked(cfg, n, isRoot, lo, hi) && (isRoot && n.Internal? ==> |n.keys| >= 1)
    ensures Sized(cfg, n, isRoot)
    decreases n
  {
    match n
    case Leaf(_, _) =>
    case Internal(ks, cs) =>
      forall i | 0 <= i < |cs| ensures Sized(cfg, cs[i], false) {
        CheckedSized(cfg, cs[i], false, LoOf(ks, lo, i), HiOf(ks, hi, i));
      }
  }

  /** A tree passing `validate_tree` has its key counts within the bounds the invariant asks for. */
  lemma ValidatedSized<V>(t: BTree<V>)
    requires ValidateTreeAsWritten(t)
    ensures Sized(t.cfg, t.root, true)
  {
    if |t.root.keys| > 0 {
      CheckedSized(t.cfg, t.root, true, None, None);
    }
  }

  // ---------------------------------------------------------------- what passing does not tell

  /**
   * A tree with one leaf at depth 2 and two at depth 3 passes: the walk only
   * compares the height with the deepest level.
   */
  lemma UnevenTreePasses<V>(v: V)
    ensures var t := BTree(Internal([5], [Leaf([3], [v]), Internal([7], [Leaf([6], [v]), Leaf([8], [v])])]), Config(2, 1, 2, 1), 3);
      ValidateTree(t) && !Inv(t)
  {
    var cfg := Config(2, 1, 2, 1);
    var a, b, c := Leaf([3], [v]), Leaf([6], [v]), Leaf([8], [v]);
    var m := Internal([7], [b, c]);
    var root := Internal([5], [a, m]);
    assert Checked(cfg, a, false, None, Some(5));
    assert Checked(cfg, b, false, Some(5), Some(7));
    assert Checked(cfg, c, false, Some(7), None);
    assert Checked(cfg, m, false, Some(5), None);
    assert Checked(cfg, root, true, None, None);
    assert Depth(m) == 2;
    assert Depth(root) == 3;
    assert !HasHeight(a, 2);
  }

  /** A leaf root holding the same key twice passes: the walk asks only for non-decreasing keys. */
  lemma RepeatedKeyPasses<V>(v: V)
    ensures var t := BTree(Leaf([3, 3], [v, v]), Config(2, 1, 2, 1), 1);
      ValidateTree(t) && !Inv(t)
  {
    var t := BTree(Leaf([3, 3], [v, v]), Config(2, 1, 2, 1), 1);
    assert Checked(t.cfg, t.root, true, None, None);
    assert !BinarySearch.StrictlySorted(t.root.keys) by {
      assert t.root.keys[0] == t.root.keys[1];
    }
  }

  // ---------------------------------------------------------------- the metadata check

  /** The metadata check as written passes a tree whose inner capacity `init_btree` refuses. */
  lemma MetadataAsWrittenMisses<V>()
    ensures var t: BTree<V> := BTree(Leaf([], []), Config(1, 1, 2, 1), 1);
      ValidateTreeAsWritten(t) && !ValidateTree(t) && Init<V>(t.cfg.maxInner, t.cfg.maxLeaf).Err?
  {
  }

  /** The corrected metadata check passes only capacities `init_btree` accepts. */
  lemma MetadataMatchesInit<V>(t: BTree<V>)
    requires Metadata(t)
    ensures Init<V>(t.cfg.maxInner, t.cfg.maxLeaf).Ok?
  {
  }
}
