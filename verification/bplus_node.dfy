/**
 * The B+ tree of b+tree.ts: nodes, configuration, the structural invariant,
 * the abstract contents of a tree, search, and the root-to-leaf descent.
 */
module BPlusTree {
  import opened Wrappers
  import opened Seqs
  import BinarySearch
  import opened OrderedMap

  /**
   * A leaf holds parallel keys and values; an internal node holds keys and one
   * more child than keys. The `left`/`right` sibling links are not stored:
   * module `BPlusLevels` derives each level's chain from the tree and shows
   * that, where the source follows a link, it reaches the neighbouring child
   * of the same parent, which the model takes instead.
   */
  datatype Node<V> =
    | Leaf(keys: seq<int>, values: seq<V>)
    | Internal(keys: seq<int>, children: seq<Node<V>>)

  /** Capacities fixed at creation. */
  datatype Config = Config(maxInner: int, minInner: int, maxLeaf: int, minLeaf: int)

  datatype BTree<V> = BTree(root: Node<V>, cfg: Config, height: int)

  /** `Math.ceil(a / 2)` on integers. */
  function CeilHalf(a: int): int
  {
    if a % 2 == 0 then a / 2 else a / 2 + 1
  }

  /** The minimum fill for a capacity: one less than half of one more than it, rounded up. */
  function MinKeys(max: int): int
  {
    CeilHalf(max + 1) - 1
  }

  predicate ValidConfig(cfg: Config)
  {
    cfg.maxInner >= 2 && cfg.maxLeaf >= 2
    && cfg.minInner == MinKeys(cfg.maxInner)
    && cfg.minLeaf == MinKeys(cfg.maxLeaf)
  }

  /** b+tree.ts `init_btree`: an empty leaf as root, or the error for a capacity below 2. */
  function Init<V>(maxInner: int, maxLeaf: int): (r: Result<BTree<V>>)
    ensures r.Ok? <==> maxInner >= 2 && maxLeaf >= 2
    ensures r.Ok? ==> Inv(r.value) && Entries(r.value.root) == [] && r.value.height == 1
    ensures r.Ok? ==>
      var c := r.value.cfg;
      c.maxInner == maxInner && c.maxLeaf == maxLeaf
      && c.minInner == maxInner / 2 && c.minLeaf == maxLeaf / 2
      && 1 <= c.minInner <= c.maxInner && 1 <= c.minLeaf <= c.maxLeaf
  {
    if maxInner < 2 || maxLeaf < 2 then Err("Node should have atleast 2 keys")
    else Ok(BTree(Leaf([], []), Config(maxInner, MinKeys(maxInner), maxLeaf, MinKeys(maxLeaf)), 1))
  }

  /** Under a valid configuration the minimum is half the maximum, so two minimal nodes fit in one. */
  lemma ConfigFacts(cfg: Config)
    requires ValidConfig(cfg)
    ensures cfg.minInner == cfg.maxInner / 2 && cfg.minLeaf == cfg.maxLeaf / 2
    ensures 1 <= cfg.minInner && 2 * cfg.minInner <= cfg.maxInner
    ensures 1 <= cfg.minLeaf && 2 * cfg.minLeaf <= cfg.maxLeaf
  {
  }

  // ---------------------------------------------------------------- shape

  /** The node's own arrays line up (nothing said about its children). */
  predicate Shaped<V>(n: Node<V>)
  {
    match n
    case Leaf(ks, vs) => |ks| == |vs|
    case Internal(ks, cs) => |cs| == |ks| + 1
  }

  /** Parallel arrays have equal length, an internal node has one more child than keys, and siblings are of one kind. */
  predicate WF<V>(n: Node<V>)
  {
    match n
    case Leaf(ks, vs) => |ks| == |vs|
    case Internal(ks, cs) =>
      |cs| == |ks| + 1
      && (forall i :: 0 <= i < |cs| ==> WF(cs[i]))
      && (forall i :: 0 <= i < |cs| ==> cs[i].Leaf? == cs[0].Leaf?)
  }

  /** Every leaf sits at depth `h` (a lone leaf has height 1). */
  predicate HasHeight<V>(n: Node<V>, h: int)
  {
    match n
    case Leaf(_, _) => h == 1
    case Internal(_, cs) => h >= 2 && forall i :: 0 <= i < |cs| ==> HasHeight(cs[i], h - 1)
  }

  /** The lower bound inherited by child `i`: the separator on its left, else the node's own. */
  function LoOf(ks: seq<int>, lo: Option<int>, i: int): Option<int>
  {
    if 0 < i <= |ks| then Some(ks[i - 1]) else lo
  }

  /** The upper bound inherited by child `i`: the separator on its right, else the node's own. */
  function HiOf(ks: seq<int>, hi: Option<int>, i: int): Option<int>
  {
    if 0 <= i < |ks| then Some(ks[i]) else hi
  }

  /**
   * Search order: keys increase within a node, a leaf's keys lie in `(lo, hi]`,
   * an internal node's separators strictly inside `(lo, hi)`, and child `i`
   * lies between the separators around it (left keys at most the separator,
   * right keys above it).
   */
  predicate Ordered<V>(n: Node<V>, lo: Option<int>, hi: Option<int>)
  {
    BinarySearch.StrictlySorted(n.keys)
    && match n
      case Leaf(ks, _) => forall i :: 0 <= i < |ks| ==> Above(lo, ks[i]) && AtMost(hi, ks[i])
      case Internal(ks, cs) =>
        (forall i :: 0 <= i < |ks| ==> Above(lo, ks[i]) && Below(hi, ks[i]))
        && forall i :: 0 <= i < |cs| ==> Ordered(cs[i], LoOf(ks, lo, i), HiOf(ks, hi, i))
  }

  /** Key counts within capacity; below the root also at least the minimum, and an internal root keeps a key. */
  predicate Sized<V>(cfg: Config, n: Node<V>, isRoot: bool)
  {
    match n
    case Leaf(ks, _) => |ks| <= cfg.maxLeaf && (isRoot || |ks| >= cfg.minLeaf)
    case Internal(ks, cs) =>
      |ks| <= cfg.maxInner
      && (if isRoot then |ks| >= 1 else |ks| >= cfg.minInner)
      && forall i :: 0 <= i < |cs| ==> Sized(cfg, cs[i], false)
  }

  /** The invariant every operation keeps. */
  predicate Inv<V>(t: BTree<V>)
  {
    ValidConfig(t.cfg)
    && WF(t.root)
    && HasHeight(t.root, t.height)
    && Ordered(t.root, None, None)
    && Sized(t.cfg, t.root, true)
  }

  // ---------------------------------------------------------------- contents

  /** The leaf entries below `n`, left to right. */
  function Entries<V>(n: Node<V>): seq<Entry<V>>
  {
    match n
    case Leaf(ks, vs) => Zip(ks, vs)
    case Internal(_, cs) => Flatten(seq(|cs|, i requires 0 <= i < |cs| => Entries(cs[i])))
  }

  /** The entries of each child. */
  function Parts<V>(cs: seq<Node<V>>): (r: seq<seq<Entry<V>>>)
    ensures |r| == |cs| && forall i :: 0 <= i < |cs| ==> r[i] == Entries(cs[i])
  {
    seq(|cs|, i requires 0 <= i < |cs| => Entries(cs[i]))
  }

  lemma EntriesInternal<V>(ks: seq<int>, cs: seq<Node<V>>)
    ensures Entries(Internal(ks, cs)) == Flatten(Parts(cs))
  {
    assert Parts(cs) == seq(|cs|, i requires 0 <= i < |cs| => Entries(cs[i]));
  }

  /** Replacing one child replaces one part. */
  lemma PartsUpdate<V>(cs: seq<Node<V>>, i: int, c: Node<V>)
    requires 0 <= i < |cs|
    ensures Parts(cs[i := c]) == Parts(cs)[i := Entries(c)]
  {
  }

  lemma PartsAppend<V>(a: seq<Node<V>>, b: seq<Node<V>>)
    ensures Parts(a + b) == Parts(a) + Parts(b)
  {
  }

  lemma PartsSlice<V>(cs: seq<Node<V>>, i: int, j: int)
    requires 0 <= i <= j <= |cs|
    ensures Parts(cs[i..j]) == Parts(cs)[i..j]
  {
  }

  // ---------------------------------------------------------------- order facts

  lemma OrderedLeafWithin<V>(ks: seq<int>, vs: seq<V>, lo: Option<int>, hi: Option<int>)
    requires Ordered(Leaf(ks, vs), lo, hi)
    ensures KeysWithin(Zip(ks, vs), lo, hi) && Ascending(Zip(ks, vs))
  {
    var z := Zip(ks, vs);
    forall e | e in z ensures Above(lo, e.key) && AtMost(hi, e.key) {
      var j :| 0 <= j < |z| && z[j] == e;
    }
  }

  /** The entries below an ordered node respect its bounds and ascend. */
  lemma {:induction false} EntriesOrdered<V>(n: Node<V>, lo: Option<int>, hi: Option<int>)
    requires WF(n) && Ordered(n, lo, hi)
    ensures KeysWithin(Entries(n), lo, hi) && Ascending(Entries(n))
    decreases n, 1
  {
    match n
    case Leaf(ks, vs) =>
      OrderedLeafWithin(ks, vs, lo, hi);
    case Internal(ks, cs) =>
      EntriesInternal(ks, cs);
      PrefixOrdered(ks, cs, lo, hi, |cs|);
      assert Parts(cs)[..|cs|] == Parts(cs);
  }

  /** The first `m` children, flattened, ascend and lie below the separator after child `m - 1`. */
  lemma {:induction false} PrefixOrdered<V>(ks: seq<int>, cs: seq<Node<V>>, lo: Option<int>, hi: Option<int>, m: int)
    requires WF(Internal(ks, cs)) && Ordered(Internal(ks, cs), lo, hi) && 0 <= m <= |cs|
    ensures m > 0 ==> KeysWithin(Flatten(Parts(cs)[..m]), lo, HiOf(ks, hi, m - 1))
    ensures Ascending(Flatten(Parts(cs)[..m]))
    decreases Internal(ks, cs), 0, m
  {
    var ps := Parts(cs);
    if m > 0 {
      PrefixOrdered(ks, cs, lo, hi, m - 1);
      var front := Flatten(ps[..m - 1]);
      assert ps[..m][..m - 1] == ps[..m - 1];
      assert Flatten(ps[..m]) == front + ps[m - 1];
      var c := cs[m - 1];
      assert c < Internal(ks, cs);
      EntriesOrdered(c, LoOf(ks, lo, m - 1), HiOf(ks, hi, m - 1));
      KeysWithinWiden(ps[m - 1], LoOf(ks, lo, m - 1), HiOf(ks, hi, m - 1), lo, HiOf(ks, hi, m - 1));
      if m == 1 {
        assert front == [];
        assert front + ps[m - 1] == ps[m - 1];
      } else {
        KeysWithinWiden(front, lo, HiOf(ks, hi, m - 2), lo, HiOf(ks, hi, m - 1));
        KeysWithinAppend(front, ps[m - 1], lo, HiOf(ks, hi, m - 1));
        AscendingAppend(front, ps[m - 1], lo, HiOf(ks, hi, m - 2), HiOf(ks, hi, m - 1));
      }
    }
  }

  /** Moving one child to the right never lowers the inherited lower bound. */
  lemma LoOfNests(ks: seq<int>, lo: Option<int>, hi: Option<int>, m: int)
    requires BinarySearch.StrictlySorted(ks) && 0 <= m < |ks|
    requires forall i :: 0 <= i < |ks| ==> Above(lo, ks[i]) && Below(hi, ks[i])
    ensures Contains(LoOf(ks, lo, m), hi, LoOf(ks, lo, m + 1), hi)
  {
    assert LoOf(ks, lo, m + 1) == Some(ks[m]);
    if m > 0 {
      assert ks[m - 1] < ks[m];
    }
  }

  /** The children from `m` on, flattened, lie above the separator before child `m`. */
  lemma {:induction false} SuffixWithin<V>(ks: seq<int>, cs: seq<Node<V>>, lo: Option<int>, hi: Option<int>, m: int)
    requires WF(Internal(ks, cs)) && Ordered(Internal(ks, cs), lo, hi) && 0 <= m < |cs|
    ensures KeysWithin(Flatten(Parts(cs)[m..]), LoOf(ks, lo, m), hi)
    decreases |cs| - m
  {
    var ps := Parts(cs);
    FlattenFront(ps[m..]);
    assert ps[m..][1..] == ps[m + 1..];
    EntriesOrdered(cs[m], LoOf(ks, lo, m), HiOf(ks, hi, m));
    KeysWithinWiden(ps[m], LoOf(ks, lo, m), HiOf(ks, hi, m), LoOf(ks, lo, m), hi);
    if m + 1 < |cs| {
      SuffixWithin(ks, cs, lo, hi, m + 1);
      LoOfNests(ks, lo, hi, m);
      KeysWithinWiden(Flatten(ps[m + 1..]), LoOf(ks, lo, m + 1), hi, LoOf(ks, lo, m), hi);
      KeysWithinAppend(ps[m], Flatten(ps[m + 1..]), LoOf(ks, lo, m), hi);
    } else {
      assert ps[m + 1..] == [];
      assert ps[m] + Flatten(ps[m + 1..]) == ps[m];
    }
  }

  /**
   * Around child `i`: the children before it hold only keys at most its lower
   * bound, the children after it only keys above its upper bound.
   */
  lemma Sides<V>(ks: seq<int>, cs: seq<Node<V>>, lo: Option<int>, hi: Option<int>, i: int)
    requires WF(Internal(ks, cs)) && Ordered(Internal(ks, cs), lo, hi) && 0 <= i < |cs|
    ensures i > 0 ==> KeysWithin(Flatten(Parts(cs)[..i]), lo, LoOf(ks, lo, i))
    ensures i + 1 < |cs| ==> KeysWithin(Flatten(Parts(cs)[i + 1..]), HiOf(ks, hi, i), hi)
  {
    if i > 0 {
      PrefixOrdered(ks, cs, lo, hi, i);
    }
    if i + 1 < |cs| {
      SuffixWithin(ks, cs, lo, hi, i + 1);
    }
  }

  /** A key within child `i`'s bounds occurs below the node exactly as often as below child `i`. */
  lemma OnlyChild<V>(ks: seq<int>, cs: seq<Node<V>>, lo: Option<int>, hi: Option<int>, i: int, k: int)
    requires WF(Internal(ks, cs)) && Ordered(Internal(ks, cs), lo, hi) && 0 <= i < |cs|
    requires Above(LoOf(ks, lo, i), k) && AtMost(HiOf(ks, hi, i), k)
    ensures Entries(Internal(ks, cs)) == Flatten(Parts(cs)[..i]) + Entries(cs[i]) + Flatten(Parts(cs)[i + 1..])
    ensures !HasKey(Flatten(Parts(cs)[..i]), k) && !HasKey(Flatten(Parts(cs)[i + 1..]), k)
  {
    EntriesInternal(ks, cs);
    FlattenAround(Parts(cs), i);
    Sides(ks, cs, lo, hi, i);
    if i > 0 {
      MissingBelow(Flatten(Parts(cs)[..i]), lo, LoOf(ks, lo, i), k);
    } else {
      assert Parts(cs)[..i] == [];
    }
    if i + 1 < |cs| {
      MissingAbove(Flatten(Parts(cs)[i + 1..]), HiOf(ks, hi, i), hi, k);
    } else {
      assert Parts(cs)[i + 1..] == [];
    }
  }

  /** The search position is the child whose bounds admit the key. */
  lemma ChildBounds<V>(ks: seq<int>, cs: seq<Node<V>>, lo: Option<int>, hi: Option<int>, k: int)
    requires WF(Internal(ks, cs)) && Ordered(Internal(ks, cs), lo, hi)
    requires Above(lo, k) && AtMost(hi, k)
    ensures var i := BinarySearch.Search(ks, k);
      0 <= i < |cs| && Above(LoOf(ks, lo, i), k) && AtMost(HiOf(ks, hi, i), k)
  {
  }

  // ---------------------------------------------------------------- search

  /** b+tree.ts `search`: descend by the search position and read the leaf on an exact match. */
  function Search<V>(n: Node<V>, k: int): (r: Option<V>)
    requires WF(n)
  {
    var i := BinarySearch.Search(n.keys, k);
    match n
    case Leaf(ks, vs) =>
      if i < 0 || i >= |ks| then None
      else if ks[i] == k then Some(vs[i])
      else None
    case Internal(_, cs) => Search(cs[i], k)
  }

  /** Search agrees with the lookup in the entries, for any ordered node. */
  lemma {:induction false} SearchIsLookup<V>(n: Node<V>, k: int, lo: Option<int>, hi: Option<int>)
    requires WF(n) && Ordered(n, lo, hi) && Above(lo, k) && AtMost(hi, k)
    ensures Search(n, k) == Lookup(Entries(n), k)
  {
    match n
    case Leaf(ks, vs) =>
      OrderedLeafWithin(ks, vs, lo, hi);
      var i := BinarySearch.Search(ks, k);
      if i < |ks| && ks[i] == k {
        LookupAt(Zip(ks, vs), i);
      } else {
        assert k !in ks;
        forall e | e in Zip(ks, vs) ensures e.key != k {
          var j :| 0 <= j < |Zip(ks, vs)| && Zip(ks, vs)[j] == e;
        }
      }
    case Internal(ks, cs) =>
      ChildBounds(ks, cs, lo, hi, k);
      var i := BinarySearch.Search(ks, k);
      SearchIsLookup(cs[i], k, LoOf(ks, lo, i), HiOf(ks, hi, i));
      OnlyChild(ks, cs, lo, hi, i, k);
      LookupAppend(Flatten(Parts(cs)[..i]) + Entries(cs[i]), Flatten(Parts(cs)[i + 1..]), k);
      LookupAppend(Flatten(Parts(cs)[..i]), Entries(cs[i]), k);
  }

  /** Search over a whole tree is the lookup in its contents. */
  lemma SearchTree<V>(t: BTree<V>, k: int)
    requires Inv(t)
    ensures Search(t.root, k) == Lookup(Entries(t.root), k)
  {
    SearchIsLookup(t.root, k, None, None);
  }

  // ---------------------------------------------------------------- paths

  /** One step of a root-to-leaf path: an internal node's keys and children, and the index of the child taken. */
  datatype Crumb<V> = Crumb(keys: seq<int>, children: seq<Node<V>>, idx: int)

  /** Every crumb has one more child than keys and a child index in range. */
  predicate ValidPath<V>(path: seq<Crumb<V>>)
  {
    forall j :: 0 <= j < |path| ==>
      0 <= path[j].idx < |path[j].children| && |path[j].children| == |path[j].keys| + 1
  }

  /**
   * A subtree rebuilt on the way back up a path: `Settled` once balancing has
   * stopped below it, `Pending` while its parent may still have to react.
   */
  datatype Carry<V> = Settled(node: Node<V>) | Pending(node: Node<V>)

  /** The crumb's node with `n` in place of the child taken. */
  function Rebuild<V>(c: Crumb<V>, n: Node<V>): Node<V>
    requires 0 <= c.idx < |c.children|
  {
    Internal(c.keys, c.children[c.idx := n])
  }

  /**
   * The tree a path was cut from, with `n` in place of the node at its bottom:
   * what the source sees through its shared references after mutating that node.
   */
  function Plug<V>(path: seq<Crumb<V>>, n: Node<V>): Node<V>
    requires ValidPath(path)
    decreases |path|
  {
    if |path| == 0 then n
    else Plug(path[..|path| - 1], Rebuild(path[|path| - 1], n))
  }

  lemma PlugSnoc<V>(path: seq<Crumb<V>>, c: Crumb<V>, n: Node<V>)
    requires ValidPath(path) && 0 <= c.idx < |c.children| == |c.keys| + 1
    ensures ValidPath(path + [c])
    ensures Plug(path + [c], n) == Plug(path, Rebuild(c, n))
  {
    assert (path + [c])[..|path|] == path;
  }

  lemma {:induction false} PlugCons<V>(c: Crumb<V>, path: seq<Crumb<V>>, n: Node<V>)
    requires ValidPath([c] + path)
    ensures ValidPath(path) && 0 <= c.idx < |c.children| == |c.keys| + 1
    ensures Plug([c] + path, n) == Rebuild(c, Plug(path, n))
    decreases |path|
  {
    var cp := [c] + path;
    assert cp[0] == c;
    assert cp[1..] == path;
    ValidPathSlice(cp, 1, |cp|);
    if |path| > 0 {
      var init, last := path[..|path| - 1], path[|path| - 1];
      assert cp[..|cp| - 1] == [c] + init;
      ValidPathSlice(cp, 0, |cp| - 1);
      ValidPathSlice(path, 0, |path| - 1);
      PlugCons(c, init, Rebuild(last, n));
    }
  }

  lemma ValidPathSlice<V>(path: seq<Crumb<V>>, i: int, j: int)
    requires ValidPath(path) && 0 <= i <= j <= |path|
    ensures ValidPath(path[i..j])
  {
    assert forall m :: 0 <= m < j - i ==> path[i..j][m] == path[i + m];
  }

  /**
   * b+tree.ts `search_node_for_insertion`: follow the search position down to a
   * leaf, recording each internal node passed and the child taken.
   */
  function SearchNodeForInsertion<V>(n: Node<V>, k: int, parents: seq<Crumb<V>>): (r: (Node<V>, seq<Crumb<V>>))
    requires WF(n) && ValidPath(parents)
    ensures r.0.Leaf? && WF(r.0) && ValidPath(r.1)
    ensures |parents| <= |r.1| && r.1[..|parents|] == parents
    ensures Plug(r.1, r.0) == Plug(parents, n)
    ensures forall j :: |parents| <= j < |r.1| ==> r.1[j].idx == BinarySearch.Search(r.1[j].keys, k)
    ensures forall h :: HasHeight(n, h) ==> |r.1| == |parents| + h - 1
    decreases n
  {
    match n
    case Leaf(_, _) => (n, parents)
    case Internal(ks, cs) =>
      var i := BinarySearch.Search(ks, k);
      var c := Crumb(ks, cs, i);
      PlugSnoc(parents, c, cs[i]);
      assert cs[i := cs[i]] == cs;
      var r := SearchNodeForInsertion(cs[i], k, parents + [c]);
      assert r.1[..|parents|] == (r.1[..|parents| + 1])[..|parents|];
      r
  }

  /** The same descent as an explicit loop, as b+tree.ts `search_node_for_deletion` writes it. */
  method SearchNodeForDeletion<V>(root: Node<V>, k: int) returns (leaf: Node<V>, path: seq<Crumb<V>>)
    requires WF(root)
    ensures (leaf, path) == SearchNodeForInsertion(root, k, [])
    ensures leaf.Leaf? && ValidPath(path) && Plug(path, leaf) == root
  {
    var node := root;
    path := [];
    while !node.Leaf?
      invariant WF(node) && ValidPath(path)
      invariant SearchNodeForInsertion(node, k, path) == SearchNodeForInsertion(root, k, [])
      decreases node
    {
      var i := BinarySearch.SearchLoop(node.keys, k);
      path := path + [Crumb(node.keys, node.children, i)];
      node := node.children[i];
    }
    leaf := node;
  }
}
