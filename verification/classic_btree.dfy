/**
 * The classic B-tree of btree.ts: every node holds keys with their values,
 * an internal node also one child more than keys, and a node may hold at most
 * `MaxKeys` keys. Insertion goes into a leaf; a node that overflows is split
 * around its middle key, which moves up with its value into the parent, and
 * a split root gives a new root one level higher. The file has no deletion.
 *
 * `Balance` follows the source's parent stack literally. `InsertRec` is the
 * same insertion written as one recursive descent; the lemmas at the end show
 * the two compute the same tree, and module `ClassicBTreeProof` proves the
 * recursive form correct.
 */
module ClassicBTree {
  import opened Wrappers
  import opened Seqs
  import BinarySearch
  import opened OrderedMap
  import BPlusTree
  import BPlusInsert

  /** The most children a node may have, and so the most keys. */
  const MaxDegree := 4
  const MaxKeys := MaxDegree - 1

  /** A node: keys with their values side by side, and no children for a leaf. */
  datatype Node<V> = Node(keys: seq<int>, values: seq<V>, children: seq<Node<V>>)

  /** btree.ts `create_btree_node()`: the empty node, the starting root. */
  function EmptyNode<V>(): Node<V>
  {
    Node([], [], [])
  }

  /** btree.ts `is_leaf`: a node without children. */
  predicate IsLeaf<V>(n: Node<V>)
  {
    |n.children| == 0
  }

  // ---------------------------------------------------------------- the invariant

  /** Values parallel to keys; an internal node has at least one key and one more child than keys. */
  predicate Shaped<V>(n: Node<V>)
  {
    |n.values| == |n.keys| && (IsLeaf(n) || (|n.keys| >= 1 && |n.children| == |n.keys| + 1))
  }

  /** Every node of the subtree is shaped. */
  predicate WF<V>(n: Node<V>)
    decreases n
  {
    match n
    case Node(_, _, cs) => Shaped(n) && forall i :: 0 <= i < |cs| ==> WF(cs[i])
  }

  /** Every leaf of the subtree is `h` levels down, the node itself being level 1. */
  predicate HasHeight<V>(n: Node<V>, h: int)
    decreases n
  {
    match n
    case Node(_, _, cs) =>
      if |cs| == 0 then h == 1 else h > 1 && forall i :: 0 <= i < |cs| ==> HasHeight(cs[i], h - 1)
  }

  /**
   * Search-tree order with every bound exclusive: the keys increase and lie
   * strictly between `lo` and `hi`, and child `i` lies strictly between the
   * keys around it, inheriting the node's bound where there is no key.
   */
  predicate Ordered<V>(n: Node<V>, lo: Option<int>, hi: Option<int>)
    decreases n
  {
    match n
    case Node(ks, _, cs) =>
      BinarySearch.StrictlySorted(ks)
      && (forall j :: 0 <= j < |ks| ==> Above(lo, ks[j]) && Below(hi, ks[j]))
      && forall i :: 0 <= i < |cs| ==> Ordered(cs[i], BPlusTree.LoOf(ks, lo, i), BPlusTree.HiOf(ks, hi, i))
  }

  /** At most `MaxKeys` keys everywhere, and at least one key everywhere except in an empty leaf root. */
  predicate Sized<V>(n: Node<V>, isRoot: bool)
    decreases n
  {
    match n
    case Node(ks, _, cs) =>
      |ks| <= MaxKeys && (|ks| >= 1 || (isRoot && |cs| == 0))
      && forall i :: 0 <= i < |cs| ==> Sized(cs[i], false)
  }

  /** The invariant insertion keeps, for a tree of height `h`. */
  predicate Inv<V>(n: Node<V>, h: int)
  {
    WF(n) && HasHeight(n, h) && Ordered(n, None, None) && Sized(n, true)
  }

  // ---------------------------------------------------------------- contents

  /** The entry of key `i`, which follows child `i` in key order; none after the last child. */
  function Sep<V>(ks: seq<int>, vs: seq<V>, i: int): seq<Entry<V>>
  {
    if 0 <= i < |ks| && i < |vs| then [Entry(ks[i], vs[i])] else []
  }

  /** The entries of a subtree in key order: each child's entries followed by the key after it. */
  function Entries<V>(n: Node<V>): seq<Entry<V>>
    decreases n
  {
    match n
    case Node(ks, vs, cs) =>
      if |cs| == 0 then Zip(ks, vs)
      else Flatten(seq(|cs|, i requires 0 <= i < |cs| => Entries(cs[i]) + Sep(ks, vs, i)))
  }

  /** The parts the entries of an internal node are made of. */
  function Parts<V>(ks: seq<int>, vs: seq<V>, cs: seq<Node<V>>): (r: seq<seq<Entry<V>>>)
    ensures |r| == |cs| && forall i :: 0 <= i < |cs| ==> r[i] == Entries(cs[i]) + Sep(ks, vs, i)
  {
    seq(|cs|, i requires 0 <= i < |cs| => Entries(cs[i]) + Sep(ks, vs, i))
  }

  lemma EntriesInternal<V>(ks: seq<int>, vs: seq<V>, cs: seq<Node<V>>)
    requires |cs| > 0
    ensures Entries(Node(ks, vs, cs)) == Flatten(Parts(ks, vs, cs))
  {
    assert Parts(ks, vs, cs) == seq(|cs|, i requires 0 <= i < |cs| => Entries(cs[i]) + Sep(ks, vs, i));
  }

  // ---------------------------------------------------------------- search

  /** Where `search_node` found a key: the node and the key's index in it. */
  datatype Found<V> = Found(node: Node<V>, keyIndex: int)

  /**
   * btree.ts `search_node`: the key at the search position of a node is a
   * hit; otherwise the search goes on in the child at that position, and
   * ends empty-handed where there is no such child.
   */
  function SearchNode<V>(n: Node<V>, k: int): (r: Option<Found<V>>)
    ensures r.Some? ==> 0 <= r.value.keyIndex < |r.value.node.keys| && r.value.node.keys[r.value.keyIndex] == k
    decreases n
  {
    match n
    case Node(ks, _, cs) =>
      var i := BinarySearch.Search(ks, k);
      if i <= |ks| - 1 && ks[i] == k then Some(Found(n, i))
      else if i < |cs| then SearchNode(cs[i], k)
      else None
  }

  /** The value the caller reads from a search result, `node.values[keyIndex]`. */
  function FoundValue<V>(r: Option<Found<V>>): Option<V>
  {
    if r.Some? && 0 <= r.value.keyIndex < |r.value.node.values| then Some(r.value.node.values[r.value.keyIndex]) else None
  }

  // ---------------------------------------------------------------- paths

  /** One step of a root-to-leaf path: an internal node and the index of the child taken. */
  datatype Crumb<V> = Crumb(keys: seq<int>, values: seq<V>, children: seq<Node<V>>, idx: int)

  /** Every crumb is a shaped internal node with a child index in range. */
  predicate ValidPath<V>(path: seq<Crumb<V>>)
  {
    forall j :: 0 <= j < |path| ==>
      0 <= path[j].idx < |path[j].children| && |path[j].children| == |path[j].keys| + 1 && |path[j].values| == |path[j].keys|
      && |path[j].keys| >= 1
  }

  /** The crumb's node with `n` in place of the child taken. */
  function Rebuild<V>(c: Crumb<V>, n: Node<V>): Node<V>
    requires 0 <= c.idx < |c.children|
  {
    Node(c.keys, c.values, c.children[c.idx := n])
  }

  /**
   * The tree a path was cut from, with `n` in place of the node at its bottom:
   * what the source sees through its shared references after changing that node.
   */
  function Plug<V>(path: seq<Crumb<V>>, n: Node<V>): Node<V>
    requires ValidPath(path)
    decreases |path|
  {
    if |path| == 0 then n
    else Plug(path[..|path| - 1], Rebuild(path[|path| - 1], n))
  }

  lemma PlugSnoc<V>(path: seq<Crumb<V>>, c: Crumb<V>, n: Node<V>)
    requires ValidPath(path) && 0 <= c.idx < |c.children| == |c.keys| + 1 && |c.values| == |c.keys| >= 1
    ensures ValidPath(path + [c])
    ensures Plug(path + [c], n) == Plug(path, Rebuild(c, n))
  {
    assert (path + [c])[..|path|] == path;
  }

  /** A sequence beginning with `ps + [c]` begins with `ps`, followed by `c`. */
  lemma PrefixStep<T>(ps: seq<T>, c: T, s: seq<T>)
    requires |ps| + 1 <= |s| && s[..|ps| + 1] == ps + [c]
    ensures s[..|ps|] == ps && s[|ps|] == c
  {
    assert s[..|ps|] == s[..|ps| + 1][..|ps|];
  }

  /** What the descent below the child at the search position gives, read one level up. */
  lemma DescendStep<V>(n: Node<V>, k: int, parents: seq<Crumb<V>>, r: (Node<V>, seq<Crumb<V>>))
    requires WF(n) && ValidPath(parents) && |n.keys| > 0 && |n.children| > 0
    requires var c := Crumb(n.keys, n.values, n.children, BinarySearch.Search(n.keys, k));
      ValidPath(parents + [c]) && Plug(parents + [c], c.children[c.idx]) == Plug(parents, Rebuild(c, c.children[c.idx]))
      && ValidPath(r.1)
      && |parents + [c]| <= |r.1| && r.1[..|parents + [c]|] == parents + [c]
      && Plug(r.1, r.0) == Plug(parents + [c], c.children[c.idx])
      && (forall j :: |parents + [c]| <= j < |r.1| ==> r.1[j].idx == BinarySearch.Search(r.1[j].keys, k))
      && (forall h :: HasHeight(c.children[c.idx], h) ==> |r.1| == |parents + [c]| + h - 1)
    ensures |parents| <= |r.1| && r.1[..|parents|] == parents
    ensures Plug(r.1, r.0) == Plug(parents, n)
    ensures forall j :: |parents| <= j < |r.1| ==> r.1[j].idx == BinarySearch.Search(r.1[j].keys, k)
    ensures forall h :: HasHeight(n, h) ==> |r.1| == |parents| + h - 1
  {
    var i := BinarySearch.Search(n.keys, k);
    var c := Crumb(n.keys, n.values, n.children, i);
    PrefixStep(parents, c, r.1);
    RebuildTaken(n, i);
    DescendHeight(n, i, |r.1| - |parents|);
  }

  /** A node rebuilt with the child it already has at `i` is the node itself. */
  lemma RebuildTaken<V>(n: Node<V>, i: int)
    requires 0 <= i < |n.children|
    ensures Rebuild(Crumb(n.keys, n.values, n.children, i), n.children[i]) == n
  {
    assert n.children[i := n.children[i]] == n.children;
  }

  /** A subtree of height `h` has its children at height `h - 1`: a descent below child `i` one level longer. */
  lemma DescendHeight<V>(n: Node<V>, i: int, m: int)
    requires 0 <= i < |n.children|
    requires forall h :: HasHeight(n.children[i], h) ==> m == h
    ensures forall h :: HasHeight(n, h) ==> m == h - 1
  {
    forall h | HasHeight(n, h) ensures m == h - 1 {
      assert HasHeight(n.children[i], h - 1);
    }
  }

  /**
   * btree.ts `search_node_for_insertion`: stop at an empty node or a leaf;
   * otherwise record the node and the child taken, and go down to the child
   * at the search position.
   */
  function SearchNodeForInsertion<V>(n: Node<V>, k: int, parents: seq<Crumb<V>>): (r: (Node<V>, seq<Crumb<V>>))
    requires WF(n) && ValidPath(parents)
    ensures IsLeaf(r.0) && WF(r.0) && ValidPath(r.1)
    ensures |parents| <= |r.1| && r.1[..|parents|] == parents
    ensures Plug(r.1, r.0) == Plug(parents, n)
    ensures forall j :: |parents| <= j < |r.1| ==> r.1[j].idx == BinarySearch.Search(r.1[j].keys, k)
    ensures forall h :: HasHeight(n, h) ==> |r.1| == |parents| + h - 1
    decreases n
  {
    match n
    case Node(ks, vs, cs) =>
      if |ks| == 0 || |cs| == 0 then (n, parents)
      else
        var i := BinarySearch.Search(ks, k);
        var c := Crumb(ks, vs, cs, i);
        PlugSnoc(parents, c, cs[i]);
        var r := SearchNodeForInsertion(cs[i], k, parents + [c]);
        DescendStep(n, k, parents, r);
        r
  }

  // ---------------------------------------------------------------- node edits

  /**
   * btree.ts `insert_leaf_node`: the key and value enter at the search
   * position. In an increasing leaf that is where the ordered-map insertion
   * puts the entry, and a fresh key keeps the keys increasing.
   */
  function InsertLeafNode<V>(n: Node<V>, k: int, v: V): (r: Node<V>)
    requires |n.keys| == |n.values|
    ensures r.children == n.children && |r.keys| == |r.values| == |n.keys| + 1
    ensures BinarySearch.StrictlySorted(n.keys) ==> Zip(r.keys, r.values) == InsertEntry(Zip(n.keys, n.values), k, v)
    ensures BinarySearch.StrictlySorted(n.keys) && k !in n.keys ==> BinarySearch.StrictlySorted(r.keys)
  {
    var at := BinarySearch.Search(n.keys, k);
    BPlusInsert.SpliceAtSearch(n.keys, n.values, k, v);
    Node(n.keys[..at] + [k] + n.keys[at..], n.values[..at] + [v] + n.values[at..], n.children)
  }

  /** The leaf insertion as the source writes it: the search loop, then one shifting loop over both arrays. */
  method InsertLeafNodeLoop<V>(n: Node<V>, k: int, v: V) returns (r: Node<V>)
    requires |n.keys| == |n.values|
    ensures r == InsertLeafNode(n, k, v)
  {
    var at := BinarySearch.SearchLoop(n.keys, k);
    var ks := BPlusInsert.ShiftInsert(n.keys, at, k);
    var vs := BPlusInsert.ShiftInsert(n.values, at, v);
    r := Node(ks, vs, n.children);
  }

  /**
   * btree.ts `insert_child_node`: the pivot and its value enter the parent at
   * their search position, and the two halves take the place of one child,
   * in one of three ways: at the front, at the back, or in the middle.
   */
  function InsertChildNode<V>(n: Node<V>, key: int, value: V, left: Node<V>, right: Node<V>): (r: Node<V>)
    requires Shaped(n) && !IsLeaf(n)
    ensures Shaped(r) && !IsLeaf(r) && |r.keys| == |n.keys| + 1
    ensures var at := BinarySearch.Search(n.keys, key);
      r.keys == n.keys[..at] + [key] + n.keys[at..] && r.values == n.values[..at] + [value] + n.values[at..]
      && r.children == n.children[..at] + [left, right] + n.children[at + 1..]
    ensures BinarySearch.StrictlySorted(n.keys) && key !in n.keys ==> BinarySearch.StrictlySorted(r.keys)
    ensures BinarySearch.StrictlySorted(n.keys) ==>
      Zip(r.keys, r.values) == InsertEntry(Zip(n.keys, n.values), key, value)
  {
    var at := BinarySearch.Search(n.keys, key);
    BPlusInsert.SpliceAtSearch(n.keys, n.values, key, value);
    var ks := n.keys[..at] + [key] + n.keys[at..];
    var vs := n.values[..at] + [value] + n.values[at..];
    var cs := n.children;
    var cs' :=
      if at == 0 then [left, right] + cs[1..]
      else if at == |ks| - 1 then cs[..|cs| - 1] + [left, right]
      else cs[..at] + [left, right] + cs[at + 1..];
    Node(ks, vs, cs')
  }

  /** What a split yields: the middle key and its value, and the two halves around them. */
  datatype Split<V> = Split(pivotKey: int, pivotVal: V, left: Node<V>, right: Node<V>)

  /**
   * The split in btree.ts `balance`: the key at `floor(len / 2)` moves up with
   * its value; the keys before it go left and the keys after it right, and
   * an internal node's children are cut after the pivot's left child.
   */
  function SplitNode<V>(n: Node<V>): (r: Split<V>)
    requires Shaped(n) && |n.keys| >= 1
    ensures IsLeaf(r.left) == IsLeaf(n) && IsLeaf(r.right) == IsLeaf(n)
  {
    var p := |n.keys| / 2;
    var ks, vs, cs := n.keys, n.values, n.children;
    Split(ks[p], vs[p],
      Node(ks[..p], vs[..p], if IsLeaf(n) then [] else cs[..p + 1]),
      Node(ks[p + 1..], vs[p + 1..], if IsLeaf(n) then [] else cs[p + 1..]))
  }

  /**
   * Put back together, the halves and the pivot give the node: keys and
   * values in order around the pivot, children end to end. A node of four
   * keys leaves two on the left and one on the right.
   */
  lemma SplitParts<V>(n: Node<V>)
    requires Shaped(n) && |n.keys| >= 1
    ensures var s := SplitNode(n);
      s.left.keys + [s.pivotKey] + s.right.keys == n.keys
      && s.left.values + [s.pivotVal] + s.right.values == n.values
      && s.left.children + s.right.children == n.children
    ensures var s := SplitNode(n);
      |n.keys| == MaxKeys + 1 ==> |s.left.keys| == 2 && |s.right.keys| == 1
  {
    var p := |n.keys| / 2;
    var ks, vs, cs := n.keys, n.values, n.children;
    assert ks[..p] + [ks[p]] + ks[p + 1..] == ks;
    assert vs[..p] + [vs[p]] + vs[p + 1..] == vs;
    if !IsLeaf(n) {
      assert cs[..p + 1] + cs[p + 1..] == cs;
    }
  }

  /** One copying loop of the split: the keys and values from `from` up to `to`. */
  method CopyRange<V>(n: Node<V>, from: int, to: int) returns (ks: seq<int>, vs: seq<V>)
    requires |n.values| == |n.keys| && 0 <= from <= to <= |n.keys|
    ensures ks == n.keys[from..to] && vs == n.values[from..to]
  {
    ks, vs := [], [];
    var i := from;
    while i < to
      invariant from <= i <= to && ks == n.keys[from..i] && vs == n.values[from..i]
    {
      ks, vs := ks + [n.keys[i]], vs + [n.values[i]];
      i := i + 1;
    }
  }

  /** The split as the source writes it: one copying loop per half, then the children sliced. */
  method SplitNodeLoop<V>(n: Node<V>) returns (s: Split<V>)
    requires Shaped(n) && |n.keys| >= 1
    ensures s == SplitNode(n)
  {
    var p := |n.keys| / 2;
    var lk, lv := CopyRange(n, 0, p);
    var rk, rv := CopyRange(n, p + 1, |n.keys|);
    var lc := if IsLeaf(n) then [] else n.children[..p + 1];
    var rc := if IsLeaf(n) then [] else n.children[p + 1..];
    s := Split(n.keys[p], n.values[p], Node(lk, lv, lc), Node(rk, rv, rc));
  }

  // ---------------------------------------------------------------- balance and insert

  /** The root after balancing, and whether `balance` made a new root (the tree grew a level). */
  datatype Grown<V> = Grown(root: Node<V>, grew: bool)

  /** The new root over the halves of a split root: the pivot and its value, and two children. */
  function NewRoot<V>(s: Split<V>): Node<V>
  {
    Node([s.pivotKey], [s.pivotVal], [s.left, s.right])
  }

  /** A node holding more than `MaxKeys` keys. */
  predicate Overflows<V>(n: Node<V>)
  {
    |n.keys| > MaxKeys
  }

  /**
   * btree.ts `balance`, with the split data of the previous round already
   * inserted into `node`. A node within capacity ends the climb and `balance`
   * returns nothing; an overflowing root is replaced by a new root over its
   * halves; otherwise the pivot and halves go into the parent popped off the
   * path, which is balanced in turn.
   */
  function Balance<V>(node: Node<V>, path: seq<Crumb<V>>): (r: Grown<V>)
    requires Shaped(node) && ValidPath(path)
    decreases |path|
  {
    if !Overflows(node) then Grown(Plug(path, node), false)
    else
      var s := SplitNode(node);
      if |path| == 0 then Grown(NewRoot(s), true)
      else
        var c := path[|path| - 1];
        var parent := Node(c.keys, c.values, c.children[c.idx := node]);
        Balance(InsertChildNode(parent, s.pivotKey, s.pivotVal, s.left, s.right), path[..|path| - 1])
  }

  /**
   * btree.ts `insert`: descend to the leaf, insert there, balance upwards,
   * and return the new root when balancing made one, else the old root (as
   * changed in place).
   */
  function Insert<V>(root: Node<V>, k: int, v: V): (r: Node<V>)
    requires WF(root)
  {
    var found := SearchNodeForInsertion(root, k, []);
    Balance(InsertLeafNode(found.0, k, v), found.1).root
  }

  /** A node within capacity is left as it is: the tree is the path with the node plugged in, and no new root is made. */
  lemma BalanceStops<V>(node: Node<V>, path: seq<Crumb<V>>)
    requires Shaped(node) && ValidPath(path) && |node.keys| <= MaxKeys
    ensures Balance(node, path) == Grown(Plug(path, node), false)
  {
  }

  // ---------------------------------------------------------------- the recursive form

  /**
   * A subtree rebuilt on the way back up a path: `Settled` once balancing has
   * stopped below it, `Pending` while its parent may still have to react.
   */
  datatype Carry<V> = Settled(node: Node<V>) | Pending(node: Node<V>)

  /** One level of the climb: put the rebuilt child back into its parent, splitting it first if it overflows. */
  function Lift<V>(c: Crumb<V>, carry: Carry<V>): (r: Carry<V>)
    requires 0 <= c.idx < |c.children| == |c.keys| + 1 && |c.values| == |c.keys| >= 1 && Shaped(carry.node)
    ensures Shaped(r.node) && !IsLeaf(r.node)
  {
    match carry
    case Settled(n) => Settled(Rebuild(c, n))
    case Pending(n) =>
      if !Overflows(n) then Settled(Rebuild(c, n))
      else
        var s := SplitNode(n);
        Pending(InsertChildNode(Node(c.keys, c.values, c.children[c.idx := n]), s.pivotKey, s.pivotVal, s.left, s.right))
  }

  /** The climb from the bottom of a path to its top. */
  function Climb<V>(carry: Carry<V>, path: seq<Crumb<V>>): (r: Carry<V>)
    requires ValidPath(path) && Shaped(carry.node)
    ensures Shaped(r.node)
    decreases |path|
  {
    if |path| == 0 then carry
    else Climb(Lift(path[|path| - 1], carry), path[..|path| - 1])
  }

  /** The end of the climb at the root. */
  function Finish<V>(carry: Carry<V>): (r: Grown<V>)
    requires Shaped(carry.node)
  {
    match carry
    case Settled(n) => Grown(n, false)
    case Pending(n) => if !Overflows(n) then Grown(n, false) else Grown(NewRoot(SplitNode(n)), true)
  }

  /** Insertion as a single recursive descent: insert in the leaf, then lift the result through each ancestor. */
  function InsertRec<V>(n: Node<V>, k: int, v: V): (r: Carry<V>)
    requires WF(n)
    ensures Shaped(r.node)
    decreases n
  {
    match n
    case Node(ks, vs, cs) =>
      if |ks| == 0 || |cs| == 0 then Pending(InsertLeafNode(n, k, v))
      else
        var i := BinarySearch.Search(ks, k);
        Lift(Crumb(ks, vs, cs, i), InsertRec(cs[i], k, v))
  }

  /** Once balancing has stopped, the rest of the climb only puts the node back in place. */
  lemma {:induction false} ClimbSettled<V>(n: Node<V>, path: seq<Crumb<V>>)
    requires ValidPath(path) && Shaped(n)
    ensures Climb(Settled(n), path) == Settled(Plug(path, n))
    decreases |path|
  {
    if |path| > 0 {
      var c := path[|path| - 1];
      ClimbSettled(Rebuild(c, n), path[..|path| - 1]);
    }
  }

  /** The literal `balance` is the climb followed by the root step. */
  lemma {:induction false} BalanceIsClimb<V>(n: Node<V>, path: seq<Crumb<V>>)
    requires Shaped(n) && ValidPath(path)
    ensures Balance(n, path) == Finish(Climb(Pending(n), path))
    decreases |path|
  {
    if |path| > 0 {
      var c := path[|path| - 1];
      if !Overflows(n) {
        ClimbSettled(Rebuild(c, n), path[..|path| - 1]);
      } else {
        var s := SplitNode(n);
        BalanceIsClimb(InsertChildNode(Node(c.keys, c.values, c.children[c.idx := n]), s.pivotKey, s.pivotVal, s.left, s.right), path[..|path| - 1]);
      }
    }
  }

  /** Climbing from the leaf over the recorded descent is the recursive insertion below the path's top. */
  lemma {:induction false} InsertRecIsClimb<V>(n: Node<V>, k: int, v: V, parents: seq<Crumb<V>>)
    requires WF(n) && ValidPath(parents)
    ensures var found := SearchNodeForInsertion(n, k, parents);
      Climb(Pending(InsertLeafNode(found.0, k, v)), found.1) == Climb(InsertRec(n, k, v), parents)
    decreases n
  {
    match n
    case Node(ks, vs, cs) =>
      if |ks| > 0 && |cs| > 0 {
        var i := BinarySearch.Search(ks, k);
        var c := Crumb(ks, vs, cs, i);
        PlugSnoc(parents, c, cs[i]);
        InsertRecIsClimb(cs[i], k, v, parents + [c]);
        assert (parents + [c])[..|parents|] == parents;
      }
  }

  /** `Insert` is the recursive insertion from the root followed by the root step. */
  lemma InsertIsInsertRec<V>(root: Node<V>, k: int, v: V)
    requires WF(root)
    ensures Insert(root, k, v) == Finish(InsertRec(root, k, v)).root
  {
    var found := SearchNodeForInsertion(root, k, []);
    BalanceIsClimb(InsertLeafNode(found.0, k, v), found.1);
    InsertRecIsClimb(root, k, v, []);
  }
}
