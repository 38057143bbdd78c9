/**
 * Insertion into the B+ tree of b+tree.ts: the shifting insert into a node,
 * the split, the bottom-up `balance` over the recorded parents, and `insert`.
 *
 * `Balance` follows the source's parent stack literally. `InsertRec` is the
 * same insertion written as one recursive descent; the lemmas at the end show
 * the two compute the same tree, and module `BPlusInsertProof` proves the
 * recursive form correct.
 */
module BPlusInsert {
  import opened Wrappers
  import opened Seqs
  import BinarySearch
  import opened OrderedMap
  import opened BPlusTree

  // ---------------------------------------------------------------- node edits

  /**
   * The source's make-room loop: push a slot at the end, move every element
   * from `at` on one place right, then write `x` at `at`. The pushed filler is
   * always overwritten, so its value is immaterial.
   */
  method ShiftInsert<T>(a: seq<T>, at: int, x: T) returns (r: seq<T>)
    requires 0 <= at <= |a|
    ensures r == a[..at] + [x] + a[at..]
  {
    r := a + [x];
    var i := |r| - 1;
    while i > at
      invariant at <= i <= |a| && |r| == |a| + 1
      invariant forall j :: 0 <= j < i ==> r[j] == a[j]
      invariant forall j :: i < j <= |a| ==> r[j] == a[j - 1]
      decreases i
    {
      r := r[i := r[i - 1]];
      i := i - 1;
    }
    r := r[at := x];
    assert forall j :: 0 <= j < |r| ==> r[j] == (a[..at] + [x] + a[at..])[j];
  }

  /**
   * b+tree.ts `insert_into_leaf_node`: the key and value enter at the search
   * position. In an increasing leaf that is exactly where the ordered-map
   * insertion puts the entry; a fresh key keeps the leaf increasing.
   */
  function InsertIntoLeafNode<V>(ks: seq<int>, vs: seq<V>, k: int, v: V): (r: Node<V>)
    requires |ks| == |vs|
    ensures r.Leaf? && |r.keys| == |r.values| == |ks| + 1
    ensures BinarySearch.StrictlySorted(ks) ==> Zip(r.keys, r.values) == InsertEntry(Zip(ks, vs), k, v)
    ensures BinarySearch.StrictlySorted(ks) && k !in ks ==> BinarySearch.StrictlySorted(r.keys)
  {
    var at := BinarySearch.Search(ks, k);
    SpliceAtSearch(ks, vs, k, v);
    Leaf(ks[..at] + [k] + ks[at..], vs[..at] + [v] + vs[at..])
  }

  /** The leaf insertion as the source writes it, one shifting loop per array. */
  method InsertIntoLeafNodeLoop<V>(ks: seq<int>, vs: seq<V>, k: int, v: V) returns (n: Node<V>)
    requires |ks| == |vs|
    ensures n == InsertIntoLeafNode(ks, vs, k, v)
  {
    var at := BinarySearch.SearchLoop(ks, k);
    var ks' := ShiftInsert(ks, at, k);
    var vs' := ShiftInsert(vs, at, v);
    n := Leaf(ks', vs');
  }

  /** Both facts about a splice at the search position, for sorted input. */
  lemma SpliceAtSearch<V>(ks: seq<int>, vs: seq<V>, k: int, v: V)
    requires |ks| == |vs|
    ensures var at := BinarySearch.Search(ks, k);
      BinarySearch.StrictlySorted(ks) ==>
        Zip(ks[..at] + [k] + ks[at..], vs[..at] + [v] + vs[at..]) == InsertEntry(Zip(ks, vs), k, v)
    ensures var at := BinarySearch.Search(ks, k);
      BinarySearch.StrictlySorted(ks) && k !in ks ==> BinarySearch.StrictlySorted(ks[..at] + [k] + ks[at..])
  {
    var at := BinarySearch.Search(ks, k);
    if BinarySearch.StrictlySorted(ks) {
      SpliceEntry(ks, vs, k, v, at);
      if k !in ks {
        SpliceSorted(ks, k, at);
      }
    }
  }

  /** Placing an entry at its insertion point is the ordered-map insertion. */
  lemma SpliceEntry<V>(ks: seq<int>, vs: seq<V>, k: int, v: V, at: int)
    requires |ks| == |vs| && BinarySearch.IsInsertionPoint(ks, k, at)
    ensures Zip(ks[..at] + [k] + ks[at..], vs[..at] + [v] + vs[at..]) == InsertEntry(Zip(ks, vs), k, v)
  {
    var a, b := Zip(ks[..at], vs[..at]), Zip(ks[at..], vs[at..]);
    calc {
      Zip(ks[..at] + [k] + ks[at..], vs[..at] + [v] + vs[at..]);
      == { ZipSplice(ks, vs, k, v, at); }
      a + [Entry(k, v)] + b;
      == { assert a + ([Entry(k, v)] + b) == a + [Entry(k, v)] + b; }
      a + ([Entry(k, v)] + b);
      == { InsertEntryFront(ks, vs, k, v, at); }
      a + InsertEntry(b, k, v);
      == { ZipBelow(ks, vs, k, at); InsertEntryAppendLeft(a, b, k, v); }
      InsertEntry(a + b, k, v);
      == { ZipCut(ks, vs, at); }
      InsertEntry(Zip(ks, vs), k, v);
    }
  }

  /** Left of the insertion point every key is smaller. */
  lemma ZipBelow<V>(ks: seq<int>, vs: seq<V>, k: int, at: int)
    requires |ks| == |vs| && BinarySearch.IsInsertionPoint(ks, k, at)
    ensures forall e :: e in Zip(ks[..at], vs[..at]) ==> e.key < k
  {
    var a := Zip(ks[..at], vs[..at]);
    forall e | e in a ensures e.key < k {
      var j :| 0 <= j < |a| && a[j] == e;
    }
  }

  /** From the insertion point on, the new entry goes first. */
  lemma InsertEntryFront<V>(ks: seq<int>, vs: seq<V>, k: int, v: V, at: int)
    requires |ks| == |vs| && BinarySearch.IsInsertionPoint(ks, k, at)
    ensures InsertEntry(Zip(ks[at..], vs[at..]), k, v) == [Entry(k, v)] + Zip(ks[at..], vs[at..])
  {
    var b := Zip(ks[at..], vs[at..]);
    if |b| > 0 {
      assert b[0].key == ks[at];
    }
  }

  /** Zipping a cut cuts the zip. */
  lemma ZipCut<V>(ks: seq<int>, vs: seq<V>, at: int)
    requires |ks| == |vs| && 0 <= at <= |ks|
    ensures Zip(ks, vs) == Zip(ks[..at], vs[..at]) + Zip(ks[at..], vs[at..])
  {
    var s, t := Zip(ks, vs), Zip(ks[..at], vs[..at]) + Zip(ks[at..], vs[at..]);
    assert |s| == |t|;
    forall j | 0 <= j < |s| ensures s[j] == t[j] {
      if j < at {
        assert t[j] == Zip(ks[..at], vs[..at])[j];
      } else {
        assert t[j] == Zip(ks[at..], vs[at..])[j - at];
      }
    }
  }

  /** Zipping a splice splices the zip. */
  lemma ZipSplice<V>(ks: seq<int>, vs: seq<V>, k: int, v: V, at: int)
    requires |ks| == |vs| && 0 <= at <= |ks|
    ensures Zip(ks[..at] + [k] + ks[at..], vs[..at] + [v] + vs[at..])
      == Zip(ks[..at], vs[..at]) + [Entry(k, v)] + Zip(ks[at..], vs[at..])
  {
    var ks', vs' := ks[..at] + [k] + ks[at..], vs[..at] + [v] + vs[at..];
    var s, t := Zip(ks', vs'), Zip(ks[..at], vs[..at]) + [Entry(k, v)] + Zip(ks[at..], vs[at..]);
    assert |s| == |t|;
    forall j | 0 <= j < |s| ensures s[j] == t[j] {
      if j < at {
        assert ks'[j] == ks[j] && vs'[j] == vs[j];
        assert t[j] == Zip(ks[..at], vs[..at])[j];
      } else if j == at {
        assert ks'[j] == k && vs'[j] == v;
      } else {
        assert ks'[j] == ks[j - 1] && vs'[j] == vs[j - 1];
        assert t[j] == Zip(ks[at..], vs[at..])[j - at - 1];
      }
    }
  }

  /** A fresh key placed at its insertion point keeps a sequence increasing. */
  lemma SpliceSorted(ks: seq<int>, k: int, at: int)
    requires BinarySearch.StrictlySorted(ks) && BinarySearch.IsInsertionPoint(ks, k, at) && k !in ks
    ensures BinarySearch.StrictlySorted(ks[..at] + [k] + ks[at..])
  {
    var s := ks[..at] + [k] + ks[at..];
    forall j | at <= j < |ks| ensures k < ks[j] {
      assert ks[j] != k;
    }
    assert forall j :: 0 <= j < |s| ==> s[j] == if j < at then ks[j] else if j == at then k else ks[j - 1];
  }

  // ---------------------------------------------------------------- split

  /** The outcome of `split_em_up`: the separator sent up and the two halves. */
  datatype Split<V> = Split(pivot: int, left: Node<V>, right: Node<V>)

  /**
   * b+tree.ts `split_em_up`: cut at `floor(len / 2)`. A leaf keeps the pivot
   * as its left half's last key; an internal node gives the pivot up to the
   * parent and keeps neither copy.
   */
  function SplitEmUp<V>(n: Node<V>): (r: Split<V>)
    requires Shaped(n) && |n.keys| >= 1
    ensures r.left.Leaf? == n.Leaf? && r.right.Leaf? == n.Leaf?
    ensures Shaped(r.left) && Shaped(r.right)
  {
    var p := |n.keys| / 2;
    match n
    case Leaf(ks, vs) => Split(ks[p], Leaf(ks[..p + 1], vs[..p + 1]), Leaf(ks[p + 1..], vs[p + 1..]))
    case Internal(ks, cs) => Split(ks[p], Internal(ks[..p], cs[..p + 1]), Internal(ks[p + 1..], cs[p + 1..]))
  }

  /**
   * The halves of a split put back together give the node: a leaf's keys and
   * values are cut with the pivot last on the left; an internal node's keys
   * are cut around the pivot and its children between the halves. For three
   * keys or more both halves hold at least the minimum for one key fewer and
   * at most one key fewer, the source's own split assertion.
   */
  lemma SplitHalves<V>(n: Node<V>)
    requires Shaped(n) && |n.keys| >= 1
    ensures var r := SplitEmUp(n);
      n.Leaf? ==>
        r.left.keys + r.right.keys == n.keys && r.left.values + r.right.values == n.values
        && |r.left.keys| >= 1 && r.pivot == r.left.keys[|r.left.keys| - 1]
    ensures var r := SplitEmUp(n);
      n.Internal? ==>
        r.left.keys + [r.pivot] + r.right.keys == n.keys && r.left.children + r.right.children == n.children
    ensures var r := SplitEmUp(n);
      |n.keys| >= 3 ==>
        MinKeys(|n.keys| - 1) <= |r.left.keys| <= |n.keys| - 1
        && MinKeys(|n.keys| - 1) <= |r.right.keys| <= |n.keys| - 1
  {
    var p := |n.keys| / 2;
    match n
    case Leaf(ks, vs) =>
      assert ks[..p + 1] + ks[p + 1..] == ks && vs[..p + 1] + vs[p + 1..] == vs;
    case Internal(ks, cs) =>
      assert ks[..p] + [ks[p]] + ks[p + 1..] == ks && cs[..p + 1] + cs[p + 1..] == cs;
  }

  /** Above capacity for its kind: a leaf against the leaf maximum, an internal node against the inner one. */
  predicate Overflows<V>(cfg: Config, n: Node<V>)
  {
    if n.Leaf? then |n.keys| > cfg.maxLeaf else |n.keys| > cfg.maxInner
  }

  /**
   * b+tree.ts `insert_into_internal_node`: the pivot enters the keys at its
   * search position, and the two halves take the place of the child there.
   */
  function InsertIntoInternalNode<V>(ks: seq<int>, cs: seq<Node<V>>, key: int, l: Node<V>, r: Node<V>): (n: Node<V>)
    requires |cs| == |ks| + 1
    ensures n.Internal? && |n.keys| == |ks| + 1 && |n.children| == |n.keys| + 1
    ensures BinarySearch.StrictlySorted(ks) && key !in ks ==> BinarySearch.StrictlySorted(n.keys)
  {
    var at := BinarySearch.Search(ks, key);
    SpliceAtSearch(ks, ks, key, key);
    Internal(ks[..at] + [key] + ks[at..], cs[..at] + [l, r] + cs[at + 1..])
  }

  /** In an increasing node, the pivot goes to its insertion point and the halves replace the child there. */
  lemma InsertIntoInternalNodeAt<V>(ks: seq<int>, cs: seq<Node<V>>, key: int, l: Node<V>, r: Node<V>, i: int)
    requires |cs| == |ks| + 1 && BinarySearch.StrictlySorted(ks) && BinarySearch.IsInsertionPoint(ks, key, i)
    ensures InsertIntoInternalNode(ks, cs, key, l, r) == Internal(ks[..i] + [key] + ks[i..], cs[..i] + [l, r] + cs[i + 1..])
  {
    BinarySearch.SearchFindsInsertionPoint(ks, key, i);
  }

  /** The internal insertion as the source writes it: the shifting loop on the keys, then the splice of the children. */
  method InsertIntoInternalNodeLoop<V>(ks: seq<int>, cs: seq<Node<V>>, key: int, l: Node<V>, r: Node<V>) returns (n: Node<V>)
    requires |cs| == |ks| + 1
    ensures n == InsertIntoInternalNode(ks, cs, key, l, r)
  {
    var at := BinarySearch.SearchLoop(ks, key);
    var ks' := ShiftInsert(ks, at, key);
    n := Internal(ks', cs[..at] + [l, r] + cs[at + 1..]);
  }

  // ---------------------------------------------------------------- balance and insert

  /** The root after balancing, and whether a new root was made (the tree grew a level). */
  datatype Grown<V> = Grown(root: Node<V>, grew: bool)

  /** The new root over the two halves of a split root. */
  function NewRoot<V>(s: Split<V>): Node<V>
  {
    Internal([s.pivot], [s.left, s.right])
  }

  /**
   * b+tree.ts `balance`, with the split data of the previous round already
   * inserted into `node`. A node within capacity ends the climb; an
   * overflowing root is replaced by a new root over its halves; otherwise the
   * pivot and halves go into the parent popped off the path.
   */
  function Balance<V>(cfg: Config, node: Node<V>, path: seq<Crumb<V>>): (r: Grown<V>)
    requires ValidConfig(cfg) && Shaped(node) && ValidPath(path)
    decreases |path|
  {
    if !Overflows(cfg, node) then Grown(Plug(path, node), false)
    else
      var s := SplitEmUp(node);
      if |path| == 0 then Grown(NewRoot(s), true)
      else
        var c := path[|path| - 1];
        Balance(cfg, InsertIntoInternalNode(c.keys, c.children[c.idx := node], s.pivot, s.left, s.right), path[..|path| - 1])
  }

  /**
   * b+tree.ts `insert`: descend to the leaf, insert there, balance upwards,
   * and take the new root (one level higher) when balancing made one.
   */
  function Insert<V>(t: BTree<V>, k: int, v: V): (r: BTree<V>)
    requires ValidConfig(t.cfg) && WF(t.root)
    ensures r.cfg == t.cfg
    ensures r.height == t.height || r.height == t.height + 1
  {
    var found := SearchNodeForInsertion(t.root, k, []);
    var leaf := found.0;
    var g := Balance(t.cfg, InsertIntoLeafNode(leaf.keys, leaf.values, k, v), found.1);
    BTree(g.root, t.cfg, if g.grew then t.height + 1 else t.height)
  }

  // ---------------------------------------------------------------- the recursive form

  /** One level of the climb: put the rebuilt child back into its parent, splitting it first if it overflows. */
  function Lift<V>(cfg: Config, c: Crumb<V>, carry: Carry<V>): (r: Carry<V>)
    requires ValidConfig(cfg) && 0 <= c.idx < |c.children| == |c.keys| + 1 && Shaped(carry.node)
    ensures r.node.Internal? && Shaped(r.node)
  {
    match carry
    case Settled(n) => Settled(Rebuild(c, n))
    case Pending(n) =>
      if !Overflows(cfg, n) then Settled(Rebuild(c, n))
      else
        var s := SplitEmUp(n);
        Pending(InsertIntoInternalNode(c.keys, c.children[c.idx := n], s.pivot, s.left, s.right))
  }

  /** The climb from the bottom of a path to its top. */
  function Climb<V>(cfg: Config, carry: Carry<V>, path: seq<Crumb<V>>): (r: Carry<V>)
    requires ValidConfig(cfg) && ValidPath(path) && Shaped(carry.node)
    ensures Shaped(r.node)
    decreases |path|
  {
    if |path| == 0 then carry
    else Climb(cfg, Lift(cfg, path[|path| - 1], carry), path[..|path| - 1])
  }

  /** The end of the climb at the root. */
  function Finish<V>(cfg: Config, carry: Carry<V>): (r: Grown<V>)
    requires ValidConfig(cfg) && Shaped(carry.node)
  {
    match carry
    case Settled(n) => Grown(n, false)
    case Pending(n) => if !Overflows(cfg, n) then Grown(n, false) else Grown(NewRoot(SplitEmUp(n)), true)
  }

  /** Insertion as a single recursive descent: insert in the leaf, then lift the result through each ancestor. */
  function InsertRec<V>(cfg: Config, n: Node<V>, k: int, v: V): (r: Carry<V>)
    requires ValidConfig(cfg) && WF(n)
    ensures Shaped(r.node)
    decreases n
  {
    match n
    case Leaf(ks, vs) => Pending(InsertIntoLeafNode(ks, vs, k, v))
    case Internal(ks, cs) =>
      var i := BinarySearch.Search(ks, k);
      Lift(cfg, Crumb(ks, cs, i), InsertRec(cfg, cs[i], k, v))
  }

  /** Once balancing has stopped, the rest of the climb only puts the node back in place. */
  lemma {:induction false} ClimbSettled<V>(cfg: Config, n: Node<V>, path: seq<Crumb<V>>)
    requires ValidConfig(cfg) && ValidPath(path) && Shaped(n)
    ensures Climb(cfg, Settled(n), path) == Settled(Plug(path, n))
    decreases |path|
  {
    if |path| > 0 {
      var c := path[|path| - 1];
      ClimbSettled(cfg, Rebuild(c, n), path[..|path| - 1]);
    }
  }

  /** The literal `balance` is the climb followed by the root step. */
  lemma {:induction false} BalanceIsClimb<V>(cfg: Config, n: Node<V>, path: seq<Crumb<V>>)
    requires ValidConfig(cfg) && Shaped(n) && ValidPath(path)
    ensures Balance(cfg, n, path) == Finish(cfg, Climb(cfg, Pending(n), path))
    decreases |path|
  {
    if |path| > 0 {
      var c := path[|path| - 1];
      if !Overflows(cfg, n) {
        ClimbSettled(cfg, Rebuild(c, n), path[..|path| - 1]);
      } else {
        var s := SplitEmUp(n);
        BalanceIsClimb(cfg, InsertIntoInternalNode(c.keys, c.children[c.idx := n], s.pivot, s.left, s.right), path[..|path| - 1]);
      }
    }
  }

  /** Climbing from the leaf over the recorded descent is the recursive insertion below the path's top. */
  lemma {:induction false} InsertRecIsClimb<V>(cfg: Config, n: Node<V>, k: int, v: V, parents: seq<Crumb<V>>)
    requires ValidConfig(cfg) && WF(n) && ValidPath(parents)
    ensures var found := SearchNodeForInsertion(n, k, parents);
      Climb(cfg, Pending(InsertIntoLeafNode(found.0.keys, found.0.values, k, v)), found.1)
      == Climb(cfg, InsertRec(cfg, n, k, v), parents)
    decreases n
  {
    match n
    case Leaf(_, _) =>
    case Internal(ks, cs) =>
      var i := BinarySearch.Search(ks, k);
      var c := Crumb(ks, cs, i);
      PlugSnoc(parents, c, cs[i]);
      InsertRecIsClimb(cfg, cs[i], k, v, parents + [c]);
      assert (parents + [c])[..|parents|] == parents;
  }

  /** `Insert` is the recursive insertion from the root followed by the root step. */
  lemma InsertIsInsertRec<V>(t: BTree<V>, k: int, v: V)
    requires ValidConfig(t.cfg) && WF(t.root)
    ensures var g := Finish(t.cfg, InsertRec(t.cfg, t.root, k, v));
      Insert(t, k, v) == BTree(g.root, t.cfg, if g.grew then t.height + 1 else t.height)
  {
    var found := SearchNodeForInsertion(t.root, k, []);
    var leaf := InsertIntoLeafNode(found.0.keys, found.0.values, k, v);
    BalanceIsClimb(t.cfg, leaf, found.1);
    InsertRecIsClimb(t.cfg, t.root, k, v, []);
  }
}
