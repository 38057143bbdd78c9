/**
 * The sibling links of b+tree.ts. Every node there has `left` and `right`
 * pointers threading the nodes of one level together, left to right. The
 * model stores no links: it derives each level's chain from the tree with
 * `Level`, and shows here that
 *  - the chain neighbour of a child other than the first (last) is the
 *    same parent's previous (next) child, so where `steal` and `merge`
 *    follow `childNode.left` after checking `childIdx > 0` (`right` after
 *    `childIdx < children.length - 1`), the model's `children[i - 1]`
 *    (`children[i + 1]`) is the node the link reaches;
 *  - a split puts the two halves in the split node's place in its chain and
 *    changes no deeper chain, which is the relinking of `split_em_up`;
 *  - a merge puts the joined node in place of the two siblings and changes no
 *    deeper chain, which is the relinking of `merge` (none below the merged
 *    level, also for internal nodes);
 *  - a steal keeps every chain's positions and changes no deeper chain, so
 *    `steal` needs no relinking;
 *  - a new root and a collapsing root shift the levels by one.
 * Every operation thus turns chains into chains, so the links, kept
 * alongside as the source does, keep following the chains from `init_btree`'s
 * single leaf on.
 */
module BPlusLevels {
  import opened Wrappers
  import opened Seqs
  import BinarySearch
  import opened BPlusTree
  import opened BPlusInsert
  import opened BPlusDelete

  // ---------------------------------------------------------------- chains

  /** The nodes `d` levels below `n`, left to right; `n` is level 0. */
  function Level<V>(n: Node<V>, d: nat): seq<Node<V>>
    decreases n, 1
  {
    if d == 0 then [n]
    else match n
      case Leaf(_, _) => []
      case Internal(_, cs) => Row(cs, d - 1)
  }

  /** The nodes `d` levels below a row of siblings, left to right. */
  function Row<V>(cs: seq<Node<V>>, d: nat): seq<Node<V>>
    decreases cs, 0
  {
    if |cs| == 0 then [] else Row(cs[..|cs| - 1], d) + Level(cs[|cs| - 1], d)
  }

  lemma LevelInternal<V>(ks: seq<int>, cs: seq<Node<V>>, d: nat)
    ensures Level(Internal(ks, cs), d + 1) == Row(cs, d)
  {
  }

  lemma {:induction false} RowAppend<V>(xs: seq<Node<V>>, ys: seq<Node<V>>, d: nat)
    ensures Row(xs + ys, d) == Row(xs, d) + Row(ys, d)
    decreases |ys|
  {
    if |ys| == 0 {
      assert xs + ys == xs;
    } else {
      var m := |ys| - 1;
      assert (xs + ys)[..|xs + ys| - 1] == xs + ys[..m];
      assert (xs + ys)[|xs + ys| - 1] == ys[m];
      RowAppend(xs, ys[..m], d);
    }
  }

  lemma RowSingle<V>(x: Node<V>, d: nat)
    ensures Row([x], d) == Level(x, d)
  {
    assert [x][..0] == [];
  }

  /** The siblings themselves are their row at depth 0. */
  lemma {:induction false} RowZero<V>(cs: seq<Node<V>>)
    ensures Row(cs, 0) == cs
    decreases |cs|
  {
    if |cs| > 0 {
      var n := |cs| - 1;
      assert cs == cs[..n] + [cs[n]];
      RowAppend(cs[..n], [cs[n]], 0);
      RowSingle(cs[n], 0);
      RowZero(cs[..n]);
    }
  }

  /** Row of a row with one sibling replaced, split around it. */
  lemma RowAround<V>(cs: seq<Node<V>>, i: int, y: Node<V>, d: nat)
    requires 0 <= i < |cs|
    ensures Row(cs[i := y], d) == Row(cs[..i], d) + Level(y, d) + Row(cs[i + 1..], d)
  {
    assert cs[i := y] == cs[..i] + [y] + cs[i + 1..];
    RowAppend(cs[..i] + [y], cs[i + 1..], d);
    RowAppend(cs[..i], [y], d);
    RowSingle(y, d);
  }

  // ---------------------------------------------------------------- a path's surroundings

  /** The nodes `e` levels below the bottom of `path` that lie left of it, top crumb's share first. */
  function Before<V>(path: seq<Crumb<V>>, e: nat): seq<Node<V>>
    requires ValidPath(path)
    decreases |path|
  {
    if |path| == 0 then []
    else Row(path[0].children[..path[0].idx], |path| - 1 + e) + Before(path[1..], e)
  }

  /** The nodes `e` levels below the bottom of `path` that lie right of it, top crumb's share last. */
  function After<V>(path: seq<Crumb<V>>, e: nat): seq<Node<V>>
    requires ValidPath(path)
    decreases |path|
  {
    if |path| == 0 then []
    else After(path[1..], e) + Row(path[0].children[path[0].idx + 1..], |path| - 1 + e)
  }

  /**
   * Whatever node is plugged in at the bottom of a path, its levels sit in the
   * tree's levels between the same nodes on either side.
   */
  lemma {:induction false} LevelPlug<V>(path: seq<Crumb<V>>, y: Node<V>, e: nat)
    requires ValidPath(path)
    ensures Level(Plug(path, y), |path| + e) == Before(path, e) + Level(y, e) + After(path, e)
    decreases |path|
  {
    if |path| > 0 {
      var c := path[0];
      var rest := path[1..];
      var d := |rest| + e;
      LevelPlugHead(path, y, e);
      LevelPlug(rest, y, e);
      Nest(Level(Plug(path, y), |path| + e), Level(Plug(rest, y), d), Row(c.children[..c.idx], d), Row(c.children[c.idx + 1..], d),
        Before(path, e), Before(rest, e), Level(y, e), After(rest, e), After(path, e));
    }
  }

  /** A path's top crumb puts the rest of the plugged tree between its other children's levels. */
  lemma LevelPlugHead<V>(path: seq<Crumb<V>>, y: Node<V>, e: nat)
    requires ValidPath(path) && |path| > 0
    ensures ValidPath(path[1..])
    ensures var c := path[0];
      var d := |path| - 1 + e;
      Level(Plug(path, y), |path| + e)
        == Row(c.children[..c.idx], d) + Level(Plug(path[1..], y), d) + Row(c.children[c.idx + 1..], d)
  {
    var c := path[0];
    var rest := path[1..];
    var d := |rest| + e;
    assert path == [c] + rest;
    PlugCons(c, rest, y);
    RowAround(c.children, c.idx, Plug(rest, y), d);
    assert |path| + e == d + 1;
  }

  /** One sequence nested in the middle of another, kept apart so that no chain term is in scope while it is proved. */
  lemma Nest<T>(l: seq<T>, m: seq<T>, r1: seq<T>, r2: seq<T>, b: seq<T>, b1: seq<T>, x: seq<T>, a1: seq<T>, a: seq<T>)
    requires l == r1 + m + r2 && m == b1 + x + a1
    requires b == r1 + b1 && a == a1 + r2
    ensures l == b + x + a
  {
  }

  /** Above the bottom of a path, the levels keep their length whatever node is plugged in. */
  lemma {:induction false} LevelPlugAbove<V>(path: seq<Crumb<V>>, y: Node<V>, z: Node<V>, e: nat)
    requires ValidPath(path) && e <= |path|
    ensures |Level(Plug(path, y), e)| == |Level(Plug(path, z), e)|
    decreases |path|
  {
    if e < |path| {
      var p := path[..|path| - 1];
      var c := path[|path| - 1];
      LevelPlugAbove(p, Rebuild(c, y), Rebuild(c, z), e);
    } else {
      LevelPlug(path, y, 0);
      LevelPlug(path, z, 0);
    }
  }

  /**
   * Two parents with the same levels below their children's: plugged in at
   * the bottom of a path, every level below the children's is the same and
   * every level above theirs keeps its length.
   */
  lemma SameBelowParent<V>(path: seq<Crumb<V>>, y: Node<V>, z: Node<V>)
    requires ValidPath(path)
    requires forall e: nat :: 2 <= e ==> Level(y, e) == Level(z, e)
    ensures forall e: nat :: |path| + 1 < e ==> Level(Plug(path, y), e) == Level(Plug(path, z), e)
    ensures forall e: nat :: e < |path| + 1 ==> |Level(Plug(path, y), e)| == |Level(Plug(path, z), e)|
  {
    forall e: nat | |path| + 1 < e ensures Level(Plug(path, y), e) == Level(Plug(path, z), e) {
      LevelPlug(path, y, e - |path|);
      LevelPlug(path, z, e - |path|);
    }
    forall e: nat | e < |path| + 1 ensures |Level(Plug(path, y), e)| == |Level(Plug(path, z), e)| {
      LevelPlugAbove(path, y, z, e);
    }
  }

  /** The level of a parent's children, plugged in at the bottom of a path. */
  lemma ChildrenLevel<V>(path: seq<Crumb<V>>, y: Node<V>)
    requires ValidPath(path) && y.Internal?
    ensures Level(Plug(path, y), |path| + 1) == Before(path, 1) + y.children + After(path, 1)
  {
    LevelPlug(path, y, 1);
    LevelInternal(y.keys, y.children, 0);
    RowZero(y.children);
  }

  /** A middle piece regrouped with its surroundings, kept apart so that no chain term is in scope while it is proved. */
  lemma Around<T>(l: seq<T>, b: seq<T>, x: seq<T>, mid: seq<T>, y: seq<T>, a: seq<T>)
    requires l == b + (x + mid + y) + a
    ensures l == (b + x) + mid + (y + a)
  {
  }

  /** Concatenation regrouped, kept apart so that no chain term is in scope while it is proved. */
  lemma Assoc4<T>(a: seq<T>, b: seq<T>, c: seq<T>, d: seq<T>)
    ensures a + (b + c) + d == a + b + c + d
  {
  }

  /** Concatenation regrouped, kept apart so that no chain term is in scope while it is proved. */
  lemma Assoc5<T>(a: seq<T>, b: seq<T>, c: seq<T>, d: seq<T>, f: seq<T>)
    ensures a + (b + c + d) + f == a + b + c + d + f
  {
  }

  /** Row of a row with one node in the middle. */
  lemma RowMiddle<V>(xs: seq<Node<V>>, a: Node<V>, ys: seq<Node<V>>, d: nat)
    ensures Row(xs + [a] + ys, d) == Row(xs, d) + Level(a, d) + Row(ys, d)
  {
    RowAppend(xs + [a], ys, d);
    RowAppend(xs, [a], d);
    RowSingle(a, d);
  }

  /** Row of a row with a pair in the middle. */
  lemma RowPairMiddle<V>(xs: seq<Node<V>>, a: Node<V>, b: Node<V>, ys: seq<Node<V>>, d: nat)
    ensures Row(xs + [a, b] + ys, d) == Row(xs, d) + Level(a, d) + Level(b, d) + Row(ys, d)
  {
    RowAppend(xs + [a, b], ys, d);
    RowAppend(xs, [a, b], d);
    RowPair(a, b, d);
    Assoc4(Row(xs, d), Level(a, d), Level(b, d), Row(ys, d));
  }

  lemma RowPair<V>(a: Node<V>, b: Node<V>, d: nat)
    ensures Row([a, b], d) == Level(a, d) + Level(b, d)
  {
    assert [a, b][..1] == [a];
    RowSingle(a, d);
  }

  // ---------------------------------------------------------------- the same parent's neighbours

  /**
   * In the chain of a parent's children, child `i` is preceded by child
   * `i - 1` when `i > 0` and followed by child `i + 1` when there is one: the
   * nodes `childNode.left` and `childNode.right` reach after the index checks
   * of `steal` and `merge`.
   */
  lemma SiblingsAreNeighbours<V>(path: seq<Crumb<V>>, ks: seq<int>, cs: seq<Node<V>>, i: int)
    requires ValidPath(path) && 0 <= i < |cs|
    ensures var lv := Level(Plug(path, Internal(ks, cs)), |path| + 1);
      var p := |Before(path, 1)| + i;
      p < |lv| && lv[p] == cs[i]
      && (0 < i ==> lv[p - 1] == cs[i - 1])
      && (i + 1 < |cs| ==> p + 1 < |lv| && lv[p + 1] == cs[i + 1])
  {
    ChildrenLevel(path, Internal(ks, cs));
  }

  // ---------------------------------------------------------------- split

  /** Below its own level, a split node's halves hold its levels, left half first. */
  lemma SplitBelow<V>(n: Node<V>, e: nat)
    requires Shaped(n) && |n.keys| >= 1 && 1 <= e
    ensures Level(SplitEmUp(n).left, e) + Level(SplitEmUp(n).right, e) == Level(n, e)
  {
    match n
    case Leaf(_, _) =>
    case Internal(ks, cs) =>
      var p := |ks| / 2;
      assert cs == cs[..p + 1] + cs[p + 1..];
      RowAppend(cs[..p + 1], cs[p + 1..], e - 1);
  }

  /** The parent after one round of `balance` has put a split child's pivot and halves into it. */
  function SplitInto<V>(path: seq<Crumb<V>>, node: Node<V>): Node<V>
    requires ValidPath(path) && |path| > 0 && Shaped(node) && |node.keys| >= 1
  {
    var c := path[|path| - 1];
    var s := SplitEmUp(node);
    InsertIntoInternalNode(c.keys, c.children[c.idx := node], s.pivot, s.left, s.right)
  }

  /** A parent whose child `i` is replaced by a split's halves keeps its levels below its children's. */
  lemma SplitParentBelow<V>(ks: seq<int>, cs: seq<Node<V>>, i: int, node: Node<V>, y: Node<V>)
    requires 0 <= i < |cs| && Shaped(node) && |node.keys| >= 1
    requires y.Internal? && y.children == cs[..i] + [SplitEmUp(node).left, SplitEmUp(node).right] + cs[i + 1..]
    ensures forall e: nat :: 2 <= e ==> Level(y, e) == Level(Internal(ks, cs[i := node]), e)
  {
    var s := SplitEmUp(node);
    forall e: nat | 2 <= e ensures Level(y, e) == Level(Internal(ks, cs[i := node]), e) {
      var f := e - 1;
      assert e == f + 1;
      LevelInternal(y.keys, y.children, f);
      LevelInternal(ks, cs[i := node], f);
      RowPairMiddle(cs[..i], s.left, s.right, cs[i + 1..], f);
      RowAround(cs, i, node, f);
      SplitBelow(node, f);
      Assoc4(Row(cs[..i], f), Level(s.left, f), Level(s.right, f), Row(cs[i + 1..], f));
    }
  }

  /**
   * b+tree.ts `split_em_up` and the `balance` round that uses it: with the
   * pivot landing at the split child's place in the parent, the two halves
   * take the node's place in its level's chain between the same neighbours,
   * no deeper level changes, and the levels above keep their length.
   */
  lemma SplitChain<V>(path: seq<Crumb<V>>, node: Node<V>)
    requires ValidPath(path) && |path| > 0 && Shaped(node) && |node.keys| >= 1
    requires var c := path[|path| - 1];
      BinarySearch.StrictlySorted(c.keys) && BinarySearch.IsInsertionPoint(c.keys, SplitEmUp(node).pivot, c.idx)
    ensures var before := Plug(path, node);
      var after := Plug(path[..|path| - 1], SplitInto(path, node));
      var s := SplitEmUp(node);
      var pre := Before(path[..|path| - 1], 1) + path[|path| - 1].children[..path[|path| - 1].idx];
      var post := path[|path| - 1].children[path[|path| - 1].idx + 1..] + After(path[..|path| - 1], 1);
      Level(before, |path|) == pre + [node] + post
      && Level(after, |path|) == pre + [s.left, s.right] + post
      && (forall e: nat :: |path| < e ==> Level(after, e) == Level(before, e))
      && (forall e: nat :: e < |path| ==> |Level(after, e)| == |Level(before, e)|)
  {
    var p := path[..|path| - 1];
    var c := path[|path| - 1];
    var s := SplitEmUp(node);
    var cs := c.children;
    var i := c.idx;
    InsertIntoInternalNodeAt(c.keys, cs[i := node], s.pivot, s.left, s.right, i);
    var parent := SplitInto(path, node);
    assert cs[i := node][..i] == cs[..i] && cs[i := node][i + 1..] == cs[i + 1..];
    assert parent.children == cs[..i] + [s.left, s.right] + cs[i + 1..];
    assert cs[i := node] == cs[..i] + [node] + cs[i + 1..];
    assert |p| + 1 == |path|;
    assert Plug(path, node) == Plug(p, Rebuild(c, node));
    ChildrenLevel(p, Rebuild(c, node));
    ChildrenLevel(p, parent);
    Around(Level(Plug(path, node), |path|), Before(p, 1), cs[..i], [node], cs[i + 1..], After(p, 1));
    Around(Level(Plug(p, parent), |path|), Before(p, 1), cs[..i], [s.left, s.right], cs[i + 1..], After(p, 1));
    SplitParentBelow(c.keys, cs, i, node, parent);
    SameBelowParent(p, parent, Rebuild(c, node));
  }

  /** An overflowing root split under a new root: the halves form level 1 and every deeper level is the old root's. */
  lemma NewRootChain<V>(node: Node<V>)
    requires Shaped(node) && |node.keys| >= 1
    ensures var s := SplitEmUp(node);
      Level(NewRoot(s), 1) == [s.left, s.right]
      && forall e: nat :: 1 <= e ==> Level(NewRoot(s), e + 1) == Level(node, e)
  {
    var s := SplitEmUp(node);
    LevelInternal([s.pivot], [s.left, s.right], 0);
    RowZero([s.left, s.right]);
    forall e: nat | 1 <= e ensures Level(NewRoot(s), e + 1) == Level(node, e) {
      LevelInternal([s.pivot], [s.left, s.right], e);
      RowPair(s.left, s.right, e);
      SplitBelow(node, e);
    }
  }

  // ---------------------------------------------------------------- merge

  /** Below its own level, a joined node holds its two parts' levels, left one first. */
  lemma JoinBelow<V>(a: Node<V>, sep: int, b: Node<V>, e: nat)
    requires Shaped(a) && Shaped(b) && a.Leaf? == b.Leaf? && 1 <= e
    ensures Level(Join(a, sep, b), e) == Level(a, e) + Level(b, e)
  {
    if a.Internal? {
      RowAppend(a.children, b.children, e - 1);
    }
  }

  /** A parent whose children `j` and `j + 1` are joined keeps its levels below its children's. */
  lemma MergeParentBelow<V>(ks: seq<int>, cs: seq<Node<V>>, j: int)
    requires Family(Internal(ks, cs)) && 0 <= j && j + 1 < |cs|
    ensures forall e: nat :: 2 <= e ==> Level(MergeAt(ks, cs, j), e) == Level(Internal(ks, cs), e)
  {
    var m := MergeAt(ks, cs, j);
    var joined := Join(cs[j], ks[j], cs[j + 1]);
    assert m.children == cs[..j] + [joined] + cs[j + 2..];
    SplitFour(cs, j);
    assert cs[j].Leaf? == cs[j + 1].Leaf?;
    forall e: nat | 2 <= e ensures Level(m, e) == Level(Internal(ks, cs), e) {
      var f := e - 1;
      assert e == f + 1;
      LevelInternal(m.keys, m.children, f);
      LevelInternal(ks, cs, f);
      RowMiddle(cs[..j], joined, cs[j + 2..], f);
      RowPairMiddle(cs[..j], cs[j], cs[j + 1], cs[j + 2..], f);
      JoinBelow(cs[j], ks[j], cs[j + 1], f);
      Assoc4(Row(cs[..j], f), Level(cs[j], f), Level(cs[j + 1], f), Row(cs[j + 2..], f));
    }
  }

  /**
   * b+tree.ts `merge`, in the parent at the bottom of `path`: the joined node
   * takes the place of the two siblings it absorbed in their level's chain,
   * between the same neighbours, no deeper level changes (the source relinks
   * no child of merged internal nodes), and the levels above keep their length.
   */
  lemma MergeChain<V>(path: seq<Crumb<V>>, ks: seq<int>, cs: seq<Node<V>>, i: int)
    requires ValidPath(path) && Family(Internal(ks, cs)) && 0 <= i < |cs|
    ensures var r := Merge(ks, cs, i);
      r.Ok? ==>
        var j := if i > 0 then i - 1 else i;
        var before := Plug(path, Internal(ks, cs));
        var after := Plug(path, r.value);
        var d := |path| + 1;
        Level(before, d) == Before(path, 1) + cs[..j] + [cs[j], cs[j + 1]] + cs[j + 2..] + After(path, 1)
        && Level(after, d) == Before(path, 1) + cs[..j] + [Join(cs[j], ks[j], cs[j + 1])] + cs[j + 2..] + After(path, 1)
        && (forall e: nat :: d < e ==> Level(after, e) == Level(before, e))
        && (forall e: nat :: e < d ==> |Level(after, e)| == |Level(before, e)|)
  {
    if |cs| >= 2 {
      var j := if i > 0 then i - 1 else i;
      var m := MergeAt(ks, cs, j);
      var joined := Join(cs[j], ks[j], cs[j + 1]);
      assert Merge(ks, cs, i).value == m;
      assert m.children == cs[..j] + [joined] + cs[j + 2..];
      SplitFour(cs, j);
      ChildrenLevel(path, Internal(ks, cs));
      ChildrenLevel(path, m);
      Assoc5(Before(path, 1), cs[..j], [cs[j], cs[j + 1]], cs[j + 2..], After(path, 1));
      Assoc5(Before(path, 1), cs[..j], [joined], cs[j + 2..], After(path, 1));
      MergeParentBelow(ks, cs, j);
      SameBelowParent(path, m, Internal(ks, cs));
    }
  }

  // ---------------------------------------------------------------- steal

  /** Below their own level, the two siblings of a left steal hold the same levels as before. */
  lemma TakeLastBelow<V>(l: Node<V>, sep: int, c: Node<V>, e: nat)
    requires Shaped(l) && Shaped(c) && l.Leaf? == c.Leaf? && |l.keys| >= 2 && 1 <= e
    ensures var t := TakeLast(l, sep, c);
      Level(t.left, e) + Level(t.right, e) == Level(l, e) + Level(c, e)
  {
    if l.Internal? {
      var f := e - 1;
      assert e == f + 1;
      var t := TakeLast(l, sep, c);
      var m := |l.keys| - 1;
      var x := l.children[m + 1];
      var front := l.children[..m + 1];
      assert l.children == front + [x];
      assert t.left == Internal(t.left.keys, front) && t.right == Internal(t.right.keys, [x] + c.children);
      LevelInternal(t.left.keys, front, f);
      LevelInternal(t.right.keys, [x] + c.children, f);
      LevelInternal(l.keys, l.children, f);
      LevelInternal(c.keys, c.children, f);
      RowAppend(front, [x], f);
      RowAppend([x], c.children, f);
      RowSingle(x, f);
      Shift(Level(l, e), Level(c, e), Level(t.left, e), Level(t.right, e), Row(front, f), Level(x, f), Row(c.children, f));
    }
  }

  /** Below their own level, the two siblings of a right steal hold the same levels as before. */
  lemma TakeFirstBelow<V>(c: Node<V>, sep: int, r: Node<V>, e: nat)
    requires Shaped(c) && Shaped(r) && c.Leaf? == r.Leaf? && |r.keys| >= 1 && 1 <= e
    ensures var t := TakeFirst(c, sep, r);
      Level(t.left, e) + Level(t.right, e) == Level(c, e) + Level(r, e)
  {
    if c.Internal? {
      var f := e - 1;
      assert e == f + 1;
      var t := TakeFirst(c, sep, r);
      var x := r.children[0];
      var back := r.children[1..];
      assert r.children == [x] + back;
      assert t.left == Internal(t.left.keys, c.children + [x]) && t.right == Internal(t.right.keys, back);
      LevelInternal(t.left.keys, c.children + [x], f);
      LevelInternal(t.right.keys, back, f);
      LevelInternal(c.keys, c.children, f);
      LevelInternal(r.keys, r.children, f);
      RowAppend(c.children, [x], f);
      RowAppend([x], back, f);
      RowSingle(x, f);
      Shift(Level(t.left, e), Level(t.right, e), Level(c, e), Level(r, e), Row(c.children, f), Level(x, f), Row(back, f));
    }
  }

  /** A middle piece moved across the boundary of two sequences, kept apart so that no chain term is in scope while it is proved. */
  lemma Shift<T>(l1: seq<T>, l2: seq<T>, m1: seq<T>, m2: seq<T>, a: seq<T>, x: seq<T>, b: seq<T>)
    requires l1 == a + x && l2 == b && m1 == a && m2 == x + b
    ensures l1 + l2 == m1 + m2
  {
  }

  /** A parent whose children `j` and `j + 1` are rotated keeps its levels below its children's, given the two siblings do. */
  lemma RotateParentBelow<V>(ks: seq<int>, cs: seq<Node<V>>, j: int, t: Rotation<V>)
    requires Family(Internal(ks, cs)) && 0 <= j && j + 1 < |cs|
    requires Shaped(t.left) && Shaped(t.right) && t.left.Leaf? == cs[j].Leaf? && t.right.Leaf? == cs[j].Leaf?
    requires forall f: nat :: 1 <= f ==> Level(t.left, f) + Level(t.right, f) == Level(cs[j], f) + Level(cs[j + 1], f)
    ensures forall e: nat :: 2 <= e ==> Level(Rotate(ks, cs, j, t), e) == Level(Internal(ks, cs), e)
  {
    var r := Rotate(ks, cs, j, t);
    assert r.children == cs[..j] + [t.left, t.right] + cs[j + 2..];
    SplitFour(cs, j);
    forall e: nat | 2 <= e ensures Level(r, e) == Level(Internal(ks, cs), e) {
      var f := e - 1;
      assert e == f + 1;
      LevelInternal(r.keys, r.children, f);
      LevelInternal(ks, cs, f);
      RowPairMiddle(cs[..j], t.left, t.right, cs[j + 2..], f);
      RowPairMiddle(cs[..j], cs[j], cs[j + 1], cs[j + 2..], f);
      Assoc4(Row(cs[..j], f), Level(t.left, f), Level(t.right, f), Row(cs[j + 2..], f));
      Assoc4(Row(cs[..j], f), Level(cs[j], f), Level(cs[j + 1], f), Row(cs[j + 2..], f));
    }
  }

  /** The rotation a steal performs keeps the two siblings' levels below their own. */
  lemma StealRotation<V>(cfg: Config, ks: seq<int>, cs: seq<Node<V>>, i: int) returns (j: int, t: Rotation<V>)
    requires ValidConfig(cfg) && Family(Internal(ks, cs)) && 0 <= i < |cs| && Steal(cfg, ks, cs, i).Some?
    ensures j == if i > 0 && CanLend(cfg, cs[i - 1]) then i - 1 else i
    ensures 0 <= j && j + 1 < |cs|
    ensures Shaped(t.left) && Shaped(t.right) && t.left.Leaf? == cs[j].Leaf? && t.right.Leaf? == cs[j].Leaf?
    ensures Steal(cfg, ks, cs, i).value == Rotate(ks, cs, j, t)
    ensures forall f: nat :: 1 <= f ==> Level(t.left, f) + Level(t.right, f) == Level(cs[j], f) + Level(cs[j + 1], f)
  {
    ConfigFacts(cfg);
    var left := i > 0 && CanLend(cfg, cs[i - 1]);
    j := if left then i - 1 else i;
    assert cs[j].Leaf? == cs[j + 1].Leaf?;
    if left {
      t := TakeLast(cs[j], ks[j], cs[j + 1]);
      forall f: nat | 1 <= f ensures Level(t.left, f) + Level(t.right, f) == Level(cs[j], f) + Level(cs[j + 1], f) {
        TakeLastBelow(cs[j], ks[j], cs[j + 1], f);
      }
    } else {
      t := TakeFirst(cs[j], ks[j], cs[j + 1]);
      forall f: nat | 1 <= f ensures Level(t.left, f) + Level(t.right, f) == Level(cs[j], f) + Level(cs[j + 1], f) {
        TakeFirstBelow(cs[j], ks[j], cs[j + 1], f);
      }
    }
  }

  /**
   * b+tree.ts `steal`, in the parent at the bottom of `path`: the two
   * siblings keep their places in their level's chain, no other node of it
   * changes, no deeper level changes and the levels above keep their length,
   * so the source relinks nothing.
   */
  lemma StealChain<V>(cfg: Config, path: seq<Crumb<V>>, ks: seq<int>, cs: seq<Node<V>>, i: int)
    requires ValidConfig(cfg) && ValidPath(path) && Family(Internal(ks, cs)) && 0 <= i < |cs|
    ensures var r := Steal(cfg, ks, cs, i);
      r.Some? ==>
        var j := if i > 0 && CanLend(cfg, cs[i - 1]) then i - 1 else i;
        var before := Plug(path, Internal(ks, cs));
        var after := Plug(path, r.value);
        var d := |path| + 1;
        Level(before, d) == Before(path, 1) + cs[..j] + [cs[j], cs[j + 1]] + cs[j + 2..] + After(path, 1)
        && Level(after, d) == Before(path, 1) + cs[..j] + [r.value.children[j], r.value.children[j + 1]] + cs[j + 2..] + After(path, 1)
        && (forall e: nat :: d < e ==> Level(after, e) == Level(before, e))
        && (forall e: nat :: e < d ==> |Level(after, e)| == |Level(before, e)|)
  {
    if Steal(cfg, ks, cs, i).Some? {
      var j, t := StealRotation(cfg, ks, cs, i);
      var r := Rotate(ks, cs, j, t);
      assert r.children == cs[..j] + [t.left, t.right] + cs[j + 2..];
      SplitFour(cs, j);
      ChildrenLevel(path, Internal(ks, cs));
      ChildrenLevel(path, r);
      Assoc5(Before(path, 1), cs[..j], [cs[j], cs[j + 1]], cs[j + 2..], After(path, 1));
      Assoc5(Before(path, 1), cs[..j], [t.left, t.right], cs[j + 2..], After(path, 1));
      RotateParentBelow(ks, cs, j, t);
      SameBelowParent(path, r, Internal(ks, cs));
    }
  }

  // ---------------------------------------------------------------- root collapse

  /** An empty root's only child becomes the root: every level moves up by one and no chain changes. */
  lemma CollapseChain<V>(c: Node<V>)
    ensures forall e: nat :: Level(Internal([], [c]), e + 1) == Level(c, e)
  {
    forall e: nat ensures Level(Internal([], [c]), e + 1) == Level(c, e) {
      LevelInternal([], [c], e);
      RowSingle(c, e);
    }
  }
}
