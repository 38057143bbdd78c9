/**
 * Deletion in the B+ tree of b+tree.ts: removal from the leaf, then the repair
 * of each parent on the recorded path (separator check, steal, merge), and the
 * collapse of a root that a merge left without keys.
 */
module BPlusDelete {
  import opened Wrappers
  import opened Seqs
  import BinarySearch
  import opened OrderedMap
  import opened BPlusTree

  // ---------------------------------------------------------------- leaf

  /**
   * b+tree.ts `delete_from_leaf_node`: remove the pair at the search position
   * when its key is the target. `None` stands for the `false` returned when it
   * is not; the leaf is then left as it was.
   */
  function DeleteFromLeafNode<V>(ks: seq<int>, vs: seq<V>, k: int): (r: Option<Node<V>>)
    requires |ks| == |vs|
    ensures r.Some? ==> r.value.Leaf? && |r.value.keys| == |ks| - 1 == |r.value.values|
  {
    var i := BinarySearch.Search(ks, k);
    if i < 0 || i >= |ks| then None
    else if ks[i] == k then Some(Leaf(ks[..i] + ks[i + 1..], vs[..i] + vs[i + 1..]))
    else None
  }

  /**
   * On sorted keys the leaf deletion succeeds exactly when the key is present;
   * on increasing keys it then removes exactly that key's entry and keeps the
   * keys increasing.
   */
  lemma DeleteFromLeafNodeSpec<V>(ks: seq<int>, vs: seq<V>, k: int)
    requires |ks| == |vs|
    ensures BinarySearch.Sorted(ks) ==> (DeleteFromLeafNode(ks, vs, k).Some? <==> k in ks)
    ensures BinarySearch.StrictlySorted(ks) && DeleteFromLeafNode(ks, vs, k).Some? ==>
      var n := DeleteFromLeafNode(ks, vs, k).value;
      Zip(n.keys, n.values) == RemoveKey(Zip(ks, vs), k) && BinarySearch.StrictlySorted(n.keys)
  {
    var i := BinarySearch.Search(ks, k);
    if BinarySearch.StrictlySorted(ks) && i < |ks| && ks[i] == k {
      CutEntry(ks, vs, k, i);
      CutSorted(ks, i);
    }
  }

  /** Cutting a key out of increasing keys leaves them increasing. */
  lemma CutSorted(ks: seq<int>, i: int)
    requires BinarySearch.StrictlySorted(ks) && 0 <= i < |ks|
    ensures BinarySearch.StrictlySorted(ks[..i] + ks[i + 1..])
  {
    var ks' := ks[..i] + ks[i + 1..];
    assert forall a :: 0 <= a < |ks'| ==> ks'[a] == if a < i then ks[a] else ks[a + 1];
  }

  /** Cutting the pair at `i`, where the key `k` first occurs, removes `k`'s entry. */
  lemma CutEntry<V>(ks: seq<int>, vs: seq<V>, k: int, i: int)
    requires |ks| == |vs| && 0 <= i < |ks| && ks[i] == k && forall j :: 0 <= j < i ==> ks[j] < k
    ensures Zip(ks[..i] + ks[i + 1..], vs[..i] + vs[i + 1..]) == RemoveKey(Zip(ks, vs), k)
  {
    var a, b := Zip(ks[..i], vs[..i]), Zip(ks[i + 1..], vs[i + 1..]);
    var e := Entry(k, vs[i]);
    assert !HasKey(a, k) by {
      forall x | x in a ensures x.key != k {
        var j :| 0 <= j < |a| && a[j] == x;
      }
    }
    ZipAround(ks, vs, i);
    RemoveKeyAppend(a, [e] + b, k);
    assert ([e] + b)[1..] == b;
    ZipAppend(ks[..i], ks[i + 1..], vs[..i], vs[i + 1..]);
  }

  /** The entries of a leaf around position `i`. */
  lemma ZipAround<V>(ks: seq<int>, vs: seq<V>, i: int)
    requires |ks| == |vs| && 0 <= i < |ks|
    ensures Zip(ks, vs) == Zip(ks[..i], vs[..i]) + ([Entry(ks[i], vs[i])] + Zip(ks[i + 1..], vs[i + 1..]))
  {
    var a, b := Zip(ks[..i], vs[..i]), Zip(ks[i + 1..], vs[i + 1..]);
    var s, t := Zip(ks, vs), a + ([Entry(ks[i], vs[i])] + b);
    assert |s| == |t|;
    forall j | 0 <= j < |s| ensures s[j] == t[j] {
      if j < i {
        assert t[j] == a[j];
      } else if j > i {
        assert t[j] == b[j - i - 1];
      }
    }
  }

  // ---------------------------------------------------------------- one parent

  /** An internal node whose children are shaped and all of one kind: all that steal and merge rely on. */
  predicate Family<V>(n: Node<V>)
  {
    n.Internal? && |n.children| == |n.keys| + 1
    && (forall j :: 0 <= j < |n.children| ==> Shaped(n.children[j]))
    && (forall j :: 0 <= j < |n.children| ==> n.children[j].Leaf? == n.children[0].Leaf?)
  }

  lemma WFFamily<V>(n: Node<V>)
    requires WF(n) && n.Internal?
    ensures Family(n)
  {
  }

  /**
   * b+tree.ts `balance_node`: make the separators around child `i` bracket its
   * keys again. A separator on its left that is not below the child's first
   * key becomes the left sibling's last key; one on its right that is below
   * the child's last key becomes that key. An empty child is left alone. The
   * source reads the left sibling's last key even when that sibling is empty
   * and stores `undefined`; an integer separator cannot hold that, so the
   * model keeps the old separator there.
   */
  function BalanceNode<V>(ks: seq<int>, cs: seq<Node<V>>, i: int): (r: seq<int>)
    requires |cs| == |ks| + 1 && 0 <= i < |cs|
    ensures |r| == |ks|
    ensures forall j :: 0 <= j < |ks| && j != i - 1 && j != i ==> r[j] == ks[j]
    ensures |cs[i].keys| == 0 ==> r == ks
    ensures |cs[i].keys| > 0 && 0 < i ==>
      r[i - 1] == if ks[i - 1] < cs[i].keys[0] || |cs[i - 1].keys| == 0 then ks[i - 1] else cs[i - 1].keys[|cs[i - 1].keys| - 1]
    ensures |cs[i].keys| > 0 && i < |ks| ==>
      r[i] == if ks[i] >= cs[i].keys[|cs[i].keys| - 1] then ks[i] else cs[i].keys[|cs[i].keys| - 1]
  {
    var c := cs[i].keys;
    if |c| == 0 then ks
    else
      var ks1 :=
        if 0 <= i - 1 < |ks| && !(ks[i - 1] < c[0]) && |cs[i - 1].keys| > 0
        then ks[i - 1 := cs[i - 1].keys[|cs[i - 1].keys| - 1]]
        else ks;
      if 0 <= i < |ks1| && !(ks1[i] >= c[|c| - 1]) then ks1[i := c[|c| - 1]] else ks1
  }

  /** The kind's minimum key count. */
  function MinOf<V>(cfg: Config, n: Node<V>): int
  {
    if n.Leaf? then cfg.minLeaf else cfg.minInner
  }

  /** b+tree.ts `is_node_balanced`, each kind held to its own minimum. */
  predicate IsNodeBalanced<V>(cfg: Config, n: Node<V>)
  {
    |n.keys| >= MinOf(cfg, n)
  }

  /** The sibling test of b+tree.ts `steal`, each kind held to its own minimum: the sibling can give up a key. */
  predicate CanLend<V>(cfg: Config, n: Node<V>)
  {
    |n.keys| > MinOf(cfg, n)
  }

  /** Two neighbouring siblings and the separator between them. */
  datatype Rotation<V> = Rotation(left: Node<V>, sep: int, right: Node<V>)

  /**
   * The left sibling `l`'s last key, with its value or its last child, moves
   * to the front of `c`. Between leaves the separator becomes `l`'s new last
   * key; between internal nodes the separator `sep` comes down into `c` and
   * `l`'s last key goes up in its place.
   */
  function TakeLast<V>(l: Node<V>, sep: int, c: Node<V>): (r: Rotation<V>)
    requires Shaped(l) && Shaped(c) && l.Leaf? == c.Leaf? && |l.keys| >= 2
    ensures Shaped(r.left) && Shaped(r.right) && r.left.Leaf? == l.Leaf? && r.right.Leaf? == l.Leaf?
    ensures |r.left.keys| == |l.keys| - 1 && |r.right.keys| == |c.keys| + 1
  {
    var m := |l.keys| - 1;
    if l.Leaf? then
      Rotation(Leaf(l.keys[..m], l.values[..m]), l.keys[m - 1], Leaf([l.keys[m]] + c.keys, [l.values[m]] + c.values))
    else
      Rotation(Internal(l.keys[..m], l.children[..m + 1]), l.keys[m], Internal([sep] + c.keys, [l.children[m + 1]] + c.children))
  }

  /**
   * The right sibling `r`'s first key, with its value or its first child,
   * moves to the end of `c`. Between leaves that key becomes the separator;
   * between internal nodes the separator `sep` comes down into `c` and `r`'s
   * first key goes up in its place.
   */
  function TakeFirst<V>(c: Node<V>, sep: int, r: Node<V>): (t: Rotation<V>)
    requires Shaped(c) && Shaped(r) && c.Leaf? == r.Leaf? && |r.keys| >= 1
    ensures Shaped(t.left) && Shaped(t.right) && t.left.Leaf? == c.Leaf? && t.right.Leaf? == c.Leaf?
    ensures |t.left.keys| == |c.keys| + 1 && |t.right.keys| == |r.keys| - 1
  {
    if c.Leaf? then
      Rotation(Leaf(c.keys + [r.keys[0]], c.values + [r.values[0]]), r.keys[0], Leaf(r.keys[1..], r.values[1..]))
    else
      Rotation(Internal(c.keys + [sep], c.children + [r.children[0]]), r.keys[0], Internal(r.keys[1..], r.children[1..]))
  }

  /** The siblings at `j` and `j + 1` and the separator between them, replaced by a rotation. */
  function Rotate<V>(ks: seq<int>, cs: seq<Node<V>>, j: int, t: Rotation<V>): (r: Node<V>)
    requires Family(Internal(ks, cs)) && 0 <= j && j + 1 < |cs|
    requires Shaped(t.left) && Shaped(t.right) && t.left.Leaf? == cs[j].Leaf? && t.right.Leaf? == cs[j].Leaf?
    ensures Family(r) && |r.keys| == |ks| && |r.children| == |cs|
    ensures r.keys[j] == t.sep && r.children[j] == t.left && r.children[j + 1] == t.right
    ensures forall m :: 0 <= m < |ks| && m != j ==> r.keys[m] == ks[m]
    ensures forall m :: 0 <= m < |cs| && m != j && m != j + 1 ==> r.children[m] == cs[m]
  {
    var cs' := cs[j := t.left][j + 1 := t.right];
    assert cs'[0].Leaf? == cs[0].Leaf?;
    Internal(ks[j := t.sep], cs')
  }

  /** Steal from the left sibling of child `i`. */
  function StealFromLeft<V>(ks: seq<int>, cs: seq<Node<V>>, i: int): (r: Node<V>)
    requires Family(Internal(ks, cs)) && 0 < i < |cs| && |cs[i - 1].keys| >= 2
    ensures Family(r) && |r.keys| == |ks|
  {
    assert cs[i - 1].Leaf? == cs[i].Leaf?;
    Rotate(ks, cs, i - 1, TakeLast(cs[i - 1], ks[i - 1], cs[i]))
  }

  /** Steal from the right sibling of child `i`. */
  function StealFromRight<V>(ks: seq<int>, cs: seq<Node<V>>, i: int): (r: Node<V>)
    requires Family(Internal(ks, cs)) && 0 <= i && i + 1 < |cs| && |cs[i + 1].keys| >= 1
    ensures Family(r) && |r.keys| == |ks|
  {
    assert cs[i].Leaf? == cs[i + 1].Leaf?;
    Rotate(ks, cs, i, TakeFirst(cs[i], ks[i], cs[i + 1]))
  }

  /**
   * b+tree.ts `steal`: from the left sibling if there is one that can lend,
   * else from the right one; `None` is the `false` returned when neither can.
   */
  function Steal<V>(cfg: Config, ks: seq<int>, cs: seq<Node<V>>, i: int): (r: Option<Node<V>>)
    requires ValidConfig(cfg) && Family(Internal(ks, cs)) && 0 <= i < |cs|
    ensures r.Some? <==> (i > 0 && CanLend(cfg, cs[i - 1])) || (i + 1 < |cs| && CanLend(cfg, cs[i + 1]))
    ensures r.Some? ==> Family(r.value) && |r.value.keys| == |ks|
    ensures r.Some? ==>
      var j := if i > 0 && CanLend(cfg, cs[i - 1]) then i - 1 else i;
      (forall m :: 0 <= m < |ks| && m != j ==> r.value.keys[m] == ks[m])
      && (forall m :: 0 <= m < |cs| && m != j && m != j + 1 ==> r.value.children[m] == cs[m])
  {
    ConfigFacts(cfg);
    if i > 0 && CanLend(cfg, cs[i - 1]) then Some(StealFromLeft(ks, cs, i))
    else if i + 1 < |cs| && CanLend(cfg, cs[i + 1]) then Some(StealFromRight(ks, cs, i))
    else None
  }

  /** Two neighbouring siblings as one node: leaves end to end, internal nodes with their separator pulled down between them. */
  function Join<V>(a: Node<V>, sep: int, b: Node<V>): (r: Node<V>)
    requires Shaped(a) && Shaped(b) && a.Leaf? == b.Leaf?
    ensures Shaped(r) && r.Leaf? == a.Leaf?
    ensures |r.keys| == if a.Leaf? then |a.keys| + |b.keys| else |a.keys| + 1 + |b.keys|
  {
    if a.Leaf? then Leaf(a.keys + b.keys, a.values + b.values)
    else Internal(a.keys + [sep] + b.keys, a.children + b.children)
  }

  /** Children `j` and `j + 1` joined into one, and the separator between them gone from the parent. */
  function MergeAt<V>(ks: seq<int>, cs: seq<Node<V>>, j: int): (r: Node<V>)
    requires Family(Internal(ks, cs)) && 0 <= j && j + 1 < |cs|
    ensures Family(r) && |r.keys| == |ks| - 1
  {
    var m := Join(cs[j], ks[j], cs[j + 1]);
    var cs' := cs[..j] + [m] + cs[j + 2..];
    assert forall a :: 0 <= a < |cs'| ==> cs'[a] == if a < j then cs[a] else if a == j then m else cs[a + 1];
    Internal(ks[..j] + ks[j + 1..], cs')
  }

  /**
   * b+tree.ts `merge`: join child `i` with its left sibling if it has one,
   * else with its right one; with neither the source throws.
   */
  function Merge<V>(ks: seq<int>, cs: seq<Node<V>>, i: int): (r: Result<Node<V>>)
    requires Family(Internal(ks, cs)) && 0 <= i < |cs|
    ensures r.Ok? <==> |cs| >= 2
    ensures r.Ok? ==> Family(r.value) && |r.value.keys| == |ks| - 1
  {
    if i > 0 then Ok(MergeAt(ks, cs, i - 1))
    else if i + 1 < |cs| then Ok(MergeAt(ks, cs, i))
    else if cs[i].Leaf? then Err("Did not match any if's during merge for leaf node")
    else Err("Did not match any if's during merge for internal node")
  }

  /**
   * The first half of b+tree.ts `balance_deletion`, in parent `p` of child
   * `i`: fix the separators around the child; if the child is then under its
   * minimum, steal from a sibling (`Settled`: balancing ends there) or else
   * merge it with one (`Pending`: the parent lost a key). A child at its
   * minimum leaves the parent `Pending` too, because the source keeps climbing.
   */
  function RepairChild<V>(cfg: Config, p: Node<V>, i: int): (r: Result<Carry<V>>)
    requires ValidConfig(cfg) && Family(p) && 0 <= i < |p.children|
    ensures r.Ok? ==> Family(r.value.node)
  {
    var p1 := Internal(BalanceNode(p.keys, p.children, i), p.children);
    if !IsNodeBalanced(cfg, p1.children[i]) then
      match Steal(cfg, p1.keys, p1.children, i)
      case Some(p2) => Ok(Settled(p2))
      case None =>
        match Merge(p1.keys, p1.children, i)
        case Ok(p2) => Ok(Pending(p2))
        case Err(e) => Err(e)
    else Ok(Pending(p1))
  }

  // ---------------------------------------------------------------- the path

  /** Crumbs cut from a shaped tree: each crumb's node is a `Family`, and each but the last took an internal child. */
  predicate Descent<V>(path: seq<Crumb<V>>)
  {
    ValidPath(path)
    && (forall j :: 0 <= j < |path| ==> Family(Internal(path[j].keys, path[j].children)))
    && (forall j :: 0 <= j < |path| - 1 ==> path[j].children[path[j].idx].Internal?)
  }

  /** A descent whose every crumb took an internal child: the ancestors of a parent. */
  predicate InnerDescent<V>(path: seq<Crumb<V>>)
  {
    Descent(path) && (|path| > 0 ==> path[|path| - 1].children[path[|path| - 1].idx].Internal?)
  }

  lemma DescentInit<V>(path: seq<Crumb<V>>)
    requires Descent(path) && |path| > 0
    ensures InnerDescent(path[..|path| - 1])
  {
    var init := path[..|path| - 1];
    assert forall j :: 0 <= j < |init| ==> init[j] == path[j];
  }

  lemma InnerDescentInit<V>(path: seq<Crumb<V>>)
    requires InnerDescent(path) && |path| > 0
    ensures InnerDescent(path[..|path| - 1])
  {
    DescentInit(path);
  }

  /** A shaped node of the kind a crumb took fits back into the crumb's family. */
  lemma RebuildFamily<V>(c: Crumb<V>, n: Node<V>)
    requires Family(Internal(c.keys, c.children)) && 0 <= c.idx < |c.children|
    requires Shaped(n) && n.Leaf? == c.children[c.idx].Leaf?
    ensures Family(Rebuild(c, n))
  {
    var cs := c.children[c.idx := n];
    assert cs[0].Leaf? == c.children[0].Leaf?;
  }

  /** A descent cut from a shaped tree whose last crumb, if any, took node `r.0`. */
  ghost predicate Reached<V>(r: (Node<V>, seq<Crumb<V>>))
  {
    Descent(r.1) && (|r.1| > 0 ==> r.1[|r.1| - 1].children[r.1[|r.1| - 1].idx] == r.0)
  }

  /** The descent of the search is cut from the tree searched, and its last crumb took the leaf found. */
  lemma {:induction false} DescentShape<V>(n: Node<V>, k: int, parents: seq<Crumb<V>>)
    requires WF(n) && Reached((n, parents))
    ensures Reached(SearchNodeForInsertion(n, k, parents))
    decreases n, 1
  {
    if n.Leaf? {
      assert SearchNodeForInsertion(n, k, parents) == (n, parents);
    } else {
      DescentShapeDown(n, k, parents);
    }
  }

  lemma {:induction false} DescentShapeDown<V>(n: Node<V>, k: int, parents: seq<Crumb<V>>)
    requires WF(n) && n.Internal? && Reached((n, parents))
    ensures Reached(SearchNodeForInsertion(n, k, parents))
    decreases n, 0
  {
    var i := BinarySearch.Search(n.keys, k);
    var ps := parents + [Crumb(n.keys, n.children, i)];
    DescendOne(n, k, parents);
    DescentShape(n.children[i], k, ps);
  }

  /** What deletion leaves at the root, and whether the root was collapsed (the tree lost a level). */
  datatype Shrunk<V> = Shrunk(root: Node<V>, shrank: bool)

  /**
   * b+tree.ts `balance_deletion`: repair child `i` of `p`, stop after a steal
   * (the rest of the tree only takes the new node in), and otherwise carry on
   * from `p` upwards.
   */
  function BalanceDeletion<V>(cfg: Config, p: Node<V>, i: int, path: seq<Crumb<V>>): (r: Result<Shrunk<V>>)
    requires ValidConfig(cfg) && Family(p) && 0 <= i < |p.children| && InnerDescent(path)
    decreases |path|, 1
  {
    match RepairChild(cfg, p, i)
    case Err(e) => Err(e)
    case Ok(Settled(p2)) => Ok(Shrunk(Plug(path, p2), false))
    case Ok(Pending(p2)) => Ascend(cfg, p2, path)
  }

  /**
   * The second half of b+tree.ts `balance_deletion`: at the root, a root left
   * without keys is replaced by its only child; elsewhere the parent popped off
   * the path takes `p` in and is repaired in turn.
   */
  function Ascend<V>(cfg: Config, p: Node<V>, path: seq<Crumb<V>>): (r: Result<Shrunk<V>>)
    requires ValidConfig(cfg) && Family(p) && InnerDescent(path)
    decreases |path|, 0
  {
    if |path| == 0 then
      if |p.keys| == 0 then Ok(Shrunk(p.children[0], true)) else Ok(Shrunk(p, false))
    else
      var c := path[|path| - 1];
      RebuildFamily(c, p);
      InnerDescentInit(path);
      BalanceDeletion(cfg, Rebuild(c, p), c.idx, path[..|path| - 1])
  }

  /** The tree after a deletion, and the source's return value: `Some(false)` for an absent key, `None` for `undefined`. */
  datatype Deleted<V> = Deleted(tree: BTree<V>, ret: Option<bool>)

  /**
   * b+tree.ts `delete_key`: descend to the leaf; an absent key returns `false`
   * and changes nothing; a leaf root needs no balancing; otherwise balance from
   * the leaf's parent, and a collapsed root costs the tree one level.
   */
  function DeleteKey<V>(t: BTree<V>, k: int): (r: Result<Deleted<V>>)
    requires ValidConfig(t.cfg) && WF(t.root)
    ensures r.Ok? ==> r.value.tree.cfg == t.cfg
    ensures r.Ok? ==> r.value.tree.height == t.height || r.value.tree.height == t.height - 1
  {
    var found := SearchNodeForInsertion(t.root, k, []);
    DescentShape(t.root, k, []);
    var leaf := found.0;
    var path := found.1;
    match DeleteFromLeafNode(leaf.keys, leaf.values, k)
    case None => Ok(Deleted(t, Some(false)))
    case Some(leaf') =>
      if |path| == 0 then Ok(Deleted(BTree(leaf', t.cfg, t.height), None))
      else
        var c := path[|path| - 1];
        RebuildFamily(c, leaf');
        DescentInit(path);
        match BalanceDeletion(t.cfg, Rebuild(c, leaf'), c.idx, path[..|path| - 1])
        case Err(e) => Err(e)
        case Ok(s) => Ok(Deleted(BTree(s.root, t.cfg, if s.shrank then t.height - 1 else t.height), None))
  }

  // ---------------------------------------------------------------- the recursive form

  /** One level of the climb: the parent takes a settled child in as it is, and repairs a pending one. */
  function Repair<V>(cfg: Config, c: Crumb<V>, carry: Carry<V>): (r: Result<Carry<V>>)
    requires ValidConfig(cfg) && Family(Internal(c.keys, c.children)) && 0 <= c.idx < |c.children|
    requires Shaped(carry.node) && carry.node.Leaf? == c.children[c.idx].Leaf?
    ensures r.Ok? ==> Family(r.value.node)
  {
    RebuildFamily(c, carry.node);
    match carry
    case Settled(n) => Ok(Settled(Rebuild(c, n)))
    case Pending(n) => RepairChild(cfg, Rebuild(c, n), c.idx)
  }

  /** `Repair`, letting an error through. */
  function RepairResult<V>(cfg: Config, c: Crumb<V>, r: Result<Carry<V>>): (r': Result<Carry<V>>)
    requires ValidConfig(cfg) && Family(Internal(c.keys, c.children)) && 0 <= c.idx < |c.children|
    requires r.Ok? ==> Shaped(r.value.node) && r.value.node.Leaf? == c.children[c.idx].Leaf?
    ensures r'.Ok? ==> Family(r'.value.node)
    ensures r.Err? ==> r' == r
  {
    match r
    case Err(e) => Err(e)
    case Ok(carry) => Repair(cfg, c, carry)
  }

  /** The climb from the bottom of a descent to its top. */
  function ClimbDelete<V>(cfg: Config, r: Result<Carry<V>>, path: seq<Crumb<V>>): (r': Result<Carry<V>>)
    requires ValidConfig(cfg) && Descent(path) && (r.Ok? ==> Shaped(r.value.node))
    requires r.Ok? && |path| > 0 ==> r.value.node.Leaf? == path[|path| - 1].children[path[|path| - 1].idx].Leaf?
    ensures r'.Ok? ==> Shaped(r'.value.node)
    ensures |path| > 0 && r'.Ok? ==> r'.value.node.Internal?
    decreases |path|
  {
    if |path| == 0 then r
    else
      match r
      case Err(e) => Err(e)
      case Ok(_) =>
        DescentInit(path);
        ClimbDelete(cfg, RepairResult(cfg, path[|path| - 1], r), path[..|path| - 1])
  }

  /** The root step: a pending internal root without keys gives way to its only child. */
  function FinishDelete<V>(carry: Carry<V>): Shrunk<V>
    requires Shaped(carry.node)
  {
    match carry
    case Settled(n) => Shrunk(n, false)
    case Pending(n) => if n.Internal? && |n.keys| == 0 then Shrunk(n.children[0], true) else Shrunk(n, false)
  }

  function FinishResult<V>(r: Result<Carry<V>>): Result<Shrunk<V>>
    requires r.Ok? ==> Shaped(r.value.node)
  {
    match r
    case Err(e) => Err(e)
    case Ok(carry) => Ok(FinishDelete(carry))
  }

  /** The leaf's own step: unchanged (`Settled`) when the key is absent, `Pending` once it lost the key. */
  function LeafStep<V>(leaf: Node<V>, k: int): (r: Result<Carry<V>>)
    requires leaf.Leaf? && |leaf.keys| == |leaf.values|
    ensures r.Ok? && r.value.node.Leaf? && Shaped(r.value.node)
  {
    match DeleteFromLeafNode(leaf.keys, leaf.values, k)
    case None => Ok(Settled(leaf))
    case Some(l) => Ok(Pending(l))
  }

  /** Deletion as a single recursive descent: delete in the leaf, then repair each ancestor on the way back. */
  function DeleteRec<V>(cfg: Config, n: Node<V>, k: int): (r: Result<Carry<V>>)
    requires ValidConfig(cfg) && WF(n)
    ensures r.Ok? ==> Shaped(r.value.node) && r.value.node.Leaf? == n.Leaf?
    decreases n
  {
    match n
    case Leaf(ks, vs) => LeafStep(n, k)
    case Internal(ks, cs) =>
      var i := BinarySearch.Search(ks, k);
      WFFamily(n);
      RepairResult(cfg, Crumb(ks, cs, i), DeleteRec(cfg, cs[i], k))
  }

  /** Once balancing has stopped, the rest of the climb only puts the node back in place. */
  lemma {:induction false} ClimbDeleteSettled<V>(cfg: Config, n: Node<V>, path: seq<Crumb<V>>)
    requires ValidConfig(cfg) && Descent(path)
    requires Shaped(n) && (|path| > 0 ==> n.Leaf? == path[|path| - 1].children[path[|path| - 1].idx].Leaf?)
    ensures ClimbDelete(cfg, Ok(Settled(n)), path) == Ok(Settled(Plug(path, n)))
    decreases |path|
  {
    if |path| > 0 {
      var c := path[|path| - 1];
      DescentInit(path);
      RebuildFamily(c, n);
      ClimbDeleteSettled(cfg, Rebuild(c, n), path[..|path| - 1]);
    }
  }

  /** The literal `balance_deletion` is the repair of the child followed by the climb and the root step. */
  lemma {:induction false} BalanceDeletionIsClimb<V>(cfg: Config, p: Node<V>, i: int, path: seq<Crumb<V>>)
    requires ValidConfig(cfg) && Family(p) && 0 <= i < |p.children| && InnerDescent(path)
    ensures BalanceDeletion(cfg, p, i, path) == FinishResult(ClimbDelete(cfg, RepairChild(cfg, p, i), path))
    decreases |path|, 1
  {
    match RepairChild(cfg, p, i)
    case Err(e) =>
    case Ok(Settled(p2)) =>
      ClimbDeleteSettled(cfg, p2, path);
    case Ok(Pending(p2)) =>
      AscendIsClimb(cfg, p2, path);
  }

  lemma {:induction false} AscendIsClimb<V>(cfg: Config, p: Node<V>, path: seq<Crumb<V>>)
    requires ValidConfig(cfg) && Family(p) && InnerDescent(path)
    ensures Ascend(cfg, p, path) == FinishResult(ClimbDelete(cfg, Ok(Pending(p)), path))
    decreases |path|, 0
  {
    if |path| > 0 {
      var c := path[|path| - 1];
      RebuildFamily(c, p);
      InnerDescentInit(path);
      BalanceDeletionIsClimb(cfg, Rebuild(c, p), c.idx, path[..|path| - 1]);
    }
  }

  /** Climbing from the leaf over the recorded descent is the recursive deletion below the path's top. */
  lemma {:induction false} DeleteRecIsClimb<V>(cfg: Config, n: Node<V>, k: int, parents: seq<Crumb<V>>)
    requires ValidConfig(cfg) && WF(n) && Reached((n, parents))
    ensures var found := SearchNodeForInsertion(n, k, parents);
      Reached(found) && ClimbDelete(cfg, LeafStep(found.0, k), found.1) == ClimbDelete(cfg, DeleteRec(cfg, n, k), parents)
    decreases n
  {
    DescentShape(n, k, parents);
    if n.Internal? {
      var i := BinarySearch.Search(n.keys, k);
      var ps := parents + [Crumb(n.keys, n.children, i)];
      DescendOne(n, k, parents);
      DeleteRecIsClimb(cfg, n.children[i], k, ps);
      DeleteRecStep(cfg, n, k, parents);
    }
  }

  /** The descent through an internal node goes on from the child taken, with the node's crumb recorded. */
  lemma DescendOne<V>(n: Node<V>, k: int, parents: seq<Crumb<V>>)
    requires WF(n) && n.Internal? && Descent(parents)
    requires |parents| > 0 ==> parents[|parents| - 1].children[parents[|parents| - 1].idx] == n
    ensures var i := BinarySearch.Search(n.keys, k);
      var ps := parents + [Crumb(n.keys, n.children, i)];
      Descent(ps) && ps[|ps| - 1].children[ps[|ps| - 1].idx] == n.children[i]
      && SearchNodeForInsertion(n, k, parents) == SearchNodeForInsertion(n.children[i], k, ps)
  {
    var i := BinarySearch.Search(n.keys, k);
    WFFamily(n);
    DescentSnoc(parents, Crumb(n.keys, n.children, i));
  }

  lemma DescentSnoc<V>(parents: seq<Crumb<V>>, c: Crumb<V>)
    requires Descent(parents) && Family(Internal(c.keys, c.children)) && 0 <= c.idx < |c.children|
    requires |parents| > 0 ==> parents[|parents| - 1].children[parents[|parents| - 1].idx].Internal?
    ensures Descent(parents + [c])
  {
    var ps := parents + [c];
    assert forall j :: 0 <= j < |parents| ==> ps[j] == parents[j];
  }

  /** One level of the climb over the recorded descent is one level of the recursive deletion. */
  lemma DeleteRecStep<V>(cfg: Config, n: Node<V>, k: int, parents: seq<Crumb<V>>)
    requires ValidConfig(cfg) && WF(n) && n.Internal? && Descent(parents)
    requires |parents| > 0 ==> parents[|parents| - 1].children[parents[|parents| - 1].idx] == n
    ensures var i := BinarySearch.Search(n.keys, k);
      var ps := parents + [Crumb(n.keys, n.children, i)];
      Descent(ps)
      && ClimbDelete(cfg, DeleteRec(cfg, n.children[i], k), ps) == ClimbDelete(cfg, DeleteRec(cfg, n, k), parents)
  {
    var i := BinarySearch.Search(n.keys, k);
    var c := Crumb(n.keys, n.children, i);
    var ps := parents + [c];
    DescendOne(n, k, parents);
    assert ps[|ps| - 1] == c && ps[..|ps| - 1] == parents;
  }

  /** Search finds the key exactly when the leaf the descent reaches holds it. */
  lemma {:induction false} SearchAtLeaf<V>(n: Node<V>, k: int, parents: seq<Crumb<V>>)
    requires WF(n) && ValidPath(parents)
    ensures var leaf := SearchNodeForInsertion(n, k, parents).0;
      Search(n, k).Some? <==> DeleteFromLeafNode(leaf.keys, leaf.values, k).Some?
    decreases n
  {
    match n
    case Leaf(_, _) =>
    case Internal(ks, cs) =>
      var i := BinarySearch.Search(ks, k);
      var c := Crumb(ks, cs, i);
      PlugSnoc(parents, c, cs[i]);
      SearchAtLeaf(cs[i], k, parents + [c]);
  }

  /** A key that search does not find is exactly one whose deletion returns `false` and leaves the tree as it was. */
  lemma DeleteMissing<V>(t: BTree<V>, k: int)
    requires ValidConfig(t.cfg) && WF(t.root)
    ensures Search(t.root, k).None? <==> DeleteKey(t, k) == Ok(Deleted(t, Some(false)))
  {
    SearchAtLeaf(t.root, k, []);
  }

  /** The tree and return value `delete_key` ends with, given the outcome of balancing. */
  function Outcome<V>(t: BTree<V>, r: Result<Shrunk<V>>, ret: Option<bool>): Result<Deleted<V>>
  {
    match r
    case Err(e) => Err(e)
    case Ok(s) => Ok(Deleted(BTree(s.root, t.cfg, if s.shrank then t.height - 1 else t.height), ret))
  }

  /**
   * `DeleteKey` is the recursive deletion from the root followed by the root
   * step, returning `false` exactly when search does not find the key.
   */
  lemma DeleteKeyIsDeleteRec<V>(t: BTree<V>, k: int)
    requires ValidConfig(t.cfg) && WF(t.root)
    ensures DeleteKey(t, k) ==
      Outcome(t, FinishResult(DeleteRec(t.cfg, t.root, k)), if Search(t.root, k).Some? then None else Some(false))
  {
    var found := SearchNodeForInsertion(t.root, k, []);
    SearchAtLeaf(t.root, k, []);
    if DeleteFromLeafNode(found.0.keys, found.0.values, k).None? {
      AbsentIsRec(t, k);
    } else if |found.1| == 0 {
      AtRootIsRec(t, k);
    } else {
      BelowIsRec(t, k);
    }
  }

  /** From the root, the recursive deletion is the climb from the leaf over the whole descent. */
  lemma DeleteRecAtRoot<V>(cfg: Config, n: Node<V>, k: int)
    requires ValidConfig(cfg) && WF(n)
    ensures var found := SearchNodeForInsertion(n, k, []);
      Reached(found) && ClimbDelete(cfg, LeafStep(found.0, k), found.1) == DeleteRec(cfg, n, k)
  {
    DeleteRecIsClimb(cfg, n, k, []);
  }

  /** An absent key: the recursive deletion leaves the root as it was. */
  lemma AbsentIsRec<V>(t: BTree<V>, k: int)
    requires ValidConfig(t.cfg) && WF(t.root)
    requires var leaf := SearchNodeForInsertion(t.root, k, []).0;
      DeleteFromLeafNode(leaf.keys, leaf.values, k).None?
    ensures DeleteKey(t, k) == Outcome(t, FinishResult(DeleteRec(t.cfg, t.root, k)), Some(false))
  {
    var found := SearchNodeForInsertion(t.root, k, []);
    DeleteRecAtRoot(t.cfg, t.root, k);
    ClimbDeleteSettled(t.cfg, found.0, found.1);
  }

  /** A leaf root: no balancing on either side. */
  lemma AtRootIsRec<V>(t: BTree<V>, k: int)
    requires ValidConfig(t.cfg) && WF(t.root)
    requires var found := SearchNodeForInsertion(t.root, k, []);
      DeleteFromLeafNode(found.0.keys, found.0.values, k).Some? && |found.1| == 0
    ensures DeleteKey(t, k) == Outcome(t, FinishResult(DeleteRec(t.cfg, t.root, k)), None)
  {
    DeleteRecAtRoot(t.cfg, t.root, k);
  }

  /** Below a leaf root, the literal balancing is the recursive deletion's climb. */
  lemma BelowIsRec<V>(t: BTree<V>, k: int)
    requires ValidConfig(t.cfg) && WF(t.root)
    requires var found := SearchNodeForInsertion(t.root, k, []);
      DeleteFromLeafNode(found.0.keys, found.0.values, k).Some? && |found.1| > 0
    ensures DeleteKey(t, k) == Outcome(t, FinishResult(DeleteRec(t.cfg, t.root, k)), None)
  {
    var found := SearchNodeForInsertion(t.root, k, []);
    var path := found.1;
    var leaf' := DeleteFromLeafNode(found.0.keys, found.0.values, k).value;
    var c := path[|path| - 1];
    DeleteRecAtRoot(t.cfg, t.root, k);
    RebuildFamily(c, leaf');
    DescentInit(path);
    BalanceDeletionIsClimb(t.cfg, Rebuild(c, leaf'), c.idx, path[..|path| - 1]);
  }
}
