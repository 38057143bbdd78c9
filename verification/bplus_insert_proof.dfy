/**
 * Correctness of insertion: for a key not yet in the tree, `Insert` keeps the
 * invariant and adds exactly the new entry. The proof runs over the recursive
 * form `InsertRec`, one level at a time.
 */
module BPlusInsertProof {
  import opened Wrappers
  import opened Seqs
  import BinarySearch
  import opened OrderedMap
  import opened BPlusTree
  import opened BPlusInsert

  /** `Sized`, except that the node itself may hold one key over its capacity. */
  predicate Bulging<V>(cfg: Config, n: Node<V>, isRoot: bool)
  {
    match n
    case Leaf(ks, _) => |ks| <= cfg.maxLeaf + 1 && (isRoot || |ks| >= cfg.minLeaf)
    case Internal(ks, cs) =>
      |ks| <= cfg.maxInner + 1
      && (if isRoot then |ks| >= 1 else |ks| >= cfg.minInner)
      && forall i :: 0 <= i < |cs| ==> Sized(cfg, cs[i], false)
  }

  /** A subtree fit to receive the fresh key `k`: the invariant at this level, `k` within its bounds and absent. */
  ghost predicate Fit<V>(cfg: Config, n: Node<V>, k: int, lo: Option<int>, hi: Option<int>, h: int, isRoot: bool)
  {
    ValidConfig(cfg) && WF(n) && HasHeight(n, h) && Ordered(n, lo, hi) && Sized(cfg, n, isRoot)
    && Above(lo, k) && AtMost(hi, k) && !HasKey(Entries(n), k)
  }

  /**
   * What the rebuilt subtree satisfies: the invariant at the same level with
   * the same bounds, except that a `Pending` node may overflow by one key, and
   * its entries are the old ones with the new entry inserted.
   */
  ghost predicate Grew<V>(cfg: Config, n: Node<V>, r: Carry<V>, k: int, v: V, lo: Option<int>, hi: Option<int>, h: int, isRoot: bool)
  {
    WF(r.node) && r.node.Leaf? == n.Leaf? && HasHeight(r.node, h) && Ordered(r.node, lo, hi)
    && Entries(r.node) == InsertEntry(Entries(n), k, v)
    && Bulging(cfg, r.node, isRoot)
    && (r.Settled? ==> Sized(cfg, r.node, isRoot))
  }

  // ---------------------------------------------------------------- split

  /** A node one key over capacity splits into two halves that each meet the bounds for a non-root node. */
  lemma SplitSized<V>(cfg: Config, n: Node<V>, isRoot: bool)
    requires ValidConfig(cfg) && Shaped(n) && Bulging(cfg, n, isRoot) && Overflows(cfg, n)
    ensures |n.keys| >= 3
    ensures var s := SplitEmUp(n); Sized(cfg, s.left, false) && Sized(cfg, s.right, false)
  {
    SplitHalves(n);
    match n
    case Leaf(_, _) =>
    case Internal(ks, cs) =>
      SliceSized(cfg, cs, 0, |ks| / 2 + 1);
      SliceSized(cfg, cs, |ks| / 2 + 1, |cs|);
  }

  lemma SliceSized<V>(cfg: Config, cs: seq<Node<V>>, a: int, b: int)
    requires 0 <= a <= b <= |cs| && forall i :: 0 <= i < |cs| ==> Sized(cfg, cs[i], false)
    ensures forall j :: 0 <= j < b - a ==> Sized(cfg, cs[a..b][j], false)
  {
  }

  /** The halves of a split are well formed and as deep as the node. */
  lemma SplitShape<V>(n: Node<V>, h: int)
    requires WF(n) && HasHeight(n, h) && |n.keys| >= 1
    ensures var s := SplitEmUp(n);
      WF(s.left) && WF(s.right) && HasHeight(s.left, h) && HasHeight(s.right, h)
      && (n.Internal? ==>
            |n.children| >= 2 && s.left.children[0].Leaf? == n.children[0].Leaf?
            && s.right.children[0].Leaf? == n.children[0].Leaf?)
  {
    var p := |n.keys| / 2;
    match n
    case Leaf(_, _) =>
    case Internal(ks, cs) =>
      assert forall j :: 0 <= j < p + 1 ==> cs[..p + 1][j] == cs[j];
      assert forall j :: p + 1 <= j < |cs| ==> cs[p + 1..][j - (p + 1)] == cs[j];
  }

  /** The halves of a split hold the node's entries between them, left half first. */
  lemma SplitEntries<V>(n: Node<V>)
    requires Shaped(n) && |n.keys| >= 1
    ensures var s := SplitEmUp(n); Entries(s.left) + Entries(s.right) == Entries(n)
  {
    if n.Leaf? {
      SplitEntriesLeaf(n.keys, n.values);
    } else {
      SplitEntriesInternal(n.keys, n.children);
    }
  }

  lemma SplitEntriesLeaf<V>(ks: seq<int>, vs: seq<V>)
    requires |ks| == |vs| >= 1
    ensures var s := SplitEmUp(Leaf(ks, vs)); Entries(s.left) + Entries(s.right) == Entries(Leaf(ks, vs))
  {
    ZipCut(ks, vs, |ks| / 2 + 1);
  }

  lemma SplitEntriesInternal<V>(ks: seq<int>, cs: seq<Node<V>>)
    requires |cs| == |ks| + 1 && |ks| >= 1
    ensures var s := SplitEmUp(Internal(ks, cs)); Entries(s.left) + Entries(s.right) == Entries(Internal(ks, cs))
  {
    var p := |ks| / 2;
    EntriesCut(ks[..p], ks[p + 1..], ks, cs, p + 1);
  }

  /** Cutting the children cuts the entries (the separators play no part). */
  lemma EntriesCut<V>(k1: seq<int>, k2: seq<int>, ks: seq<int>, cs: seq<Node<V>>, m: int)
    requires 0 <= m <= |cs|
    ensures Entries(Internal(k1, cs[..m])) + Entries(Internal(k2, cs[m..])) == Entries(Internal(ks, cs))
  {
    EntriesInternal(k1, cs[..m]);
    EntriesInternal(k2, cs[m..]);
    EntriesInternal(ks, cs);
    assert Parts(cs[..m]) == Parts(cs)[..m];
    assert Parts(cs[m..]) == Parts(cs)[m..];
    FlattenCut(Parts(cs), m);
  }

  /**
   * The children and separators `a .. b` of an ordered node form an ordered
   * node between the separators just outside them.
   */
  lemma SliceOrdered<V>(ks: seq<int>, cs: seq<Node<V>>, lo: Option<int>, hi: Option<int>, a: int, b: int)
    requires Ordered(Internal(ks, cs), lo, hi) && |cs| == |ks| + 1 && 0 <= a <= b <= |ks|
    ensures Ordered(Internal(ks[a..b], cs[a..b + 1]), LoOf(ks, lo, a), HiOf(ks, hi, b))
  {
    var ks', cs' := ks[a..b], cs[a..b + 1];
    var lo', hi' := LoOf(ks, lo, a), HiOf(ks, hi, b);
    forall j | 0 <= j < |ks'| ensures Above(lo', ks'[j]) && Below(hi', ks'[j]) {
      assert ks'[j] == ks[a + j];
      if a > 0 {
        assert ks[a - 1] < ks[a + j];
      }
      if b < |ks| {
        assert ks[a + j] < ks[b];
      }
    }
    forall j | 0 <= j < |cs'| ensures Ordered(cs'[j], LoOf(ks', lo', j), HiOf(ks', hi', j)) {
      assert cs'[j] == cs[a + j];
      assert LoOf(ks', lo', j) == LoOf(ks, lo, a + j);
      assert HiOf(ks', hi', j) == HiOf(ks, hi, a + j);
    }
  }

  /** The lower keys of an ordered leaf, up to and including the one at `m - 1`, lie at most that key. */
  lemma LeafLowerOrdered<V>(ks: seq<int>, vs: seq<V>, lo: Option<int>, hi: Option<int>, m: int)
    requires Ordered(Leaf(ks, vs), lo, hi) && 0 < m <= |ks| == |vs|
    ensures Ordered(Leaf(ks[..m], vs[..m]), lo, Some(ks[m - 1]))
  {
    forall j | 0 <= j < m ensures Above(lo, ks[..m][j]) && AtMost(Some(ks[m - 1]), ks[..m][j]) {
      assert ks[..m][j] == ks[j];
      if j < m - 1 {
        assert ks[j] < ks[m - 1];
      }
    }
  }

  /** The upper keys of an ordered leaf, from `m` on, lie above the key at `m - 1`. */
  lemma LeafUpperOrdered<V>(ks: seq<int>, vs: seq<V>, lo: Option<int>, hi: Option<int>, m: int)
    requires Ordered(Leaf(ks, vs), lo, hi) && 0 < m <= |ks| == |vs|
    ensures Ordered(Leaf(ks[m..], vs[m..]), Some(ks[m - 1]), hi)
  {
    forall j | 0 <= j < |ks| - m ensures Above(Some(ks[m - 1]), ks[m..][j]) && AtMost(hi, ks[m..][j]) {
      assert ks[m..][j] == ks[m + j];
      assert ks[m - 1] < ks[m + j];
    }
  }

  /** The halves of a split are ordered on either side of the pivot, which lies strictly inside the node's bounds. */
  lemma SplitOrdered<V>(n: Node<V>, lo: Option<int>, hi: Option<int>)
    requires Shaped(n) && Ordered(n, lo, hi) && |n.keys| >= 3
    ensures var s := SplitEmUp(n);
      Ordered(s.left, lo, Some(s.pivot)) && Ordered(s.right, Some(s.pivot), hi)
      && Above(lo, s.pivot) && Below(hi, s.pivot)
  {
    var p := |n.keys| / 2;
    match n
    case Leaf(ks, vs) =>
      assert SplitEmUp(n) == Split(ks[p], Leaf(ks[..p + 1], vs[..p + 1]), Leaf(ks[p + 1..], vs[p + 1..]));
      SplitLeafOrdered(ks, vs, lo, hi, p);
    case Internal(ks, cs) =>
      assert SplitEmUp(n) == Split(ks[p], Internal(ks[..p], cs[..p + 1]), Internal(ks[p + 1..], cs[p + 1..]));
      SplitInternalOrdered(ks, cs, lo, hi, p);
  }

  lemma SplitLeafOrdered<V>(ks: seq<int>, vs: seq<V>, lo: Option<int>, hi: Option<int>, p: int)
    requires Ordered(Leaf(ks, vs), lo, hi) && |ks| == |vs| && 0 <= p && p + 1 < |ks|
    ensures Ordered(Leaf(ks[..p + 1], vs[..p + 1]), lo, Some(ks[p]))
    ensures Ordered(Leaf(ks[p + 1..], vs[p + 1..]), Some(ks[p]), hi)
    ensures Above(lo, ks[p]) && Below(hi, ks[p])
  {
    LeafLowerOrdered(ks, vs, lo, hi, p + 1);
    LeafUpperOrdered(ks, vs, lo, hi, p + 1);
    assert ks[p] < ks[p + 1];
  }

  lemma SplitInternalOrdered<V>(ks: seq<int>, cs: seq<Node<V>>, lo: Option<int>, hi: Option<int>, p: int)
    requires Ordered(Internal(ks, cs), lo, hi) && |cs| == |ks| + 1 && 0 <= p < |ks|
    ensures Ordered(Internal(ks[..p], cs[..p + 1]), lo, Some(ks[p]))
    ensures Ordered(Internal(ks[p + 1..], cs[p + 1..]), Some(ks[p]), hi)
    ensures Above(lo, ks[p]) && Below(hi, ks[p])
  {
    SliceOrdered(ks, cs, lo, hi, 0, p);
    SliceOrdered(ks, cs, lo, hi, p + 1, |ks|);
    SliceEnds(ks, p);
    SliceEnds(cs, p + 1);
  }

  /** Slices running to either end of a sequence, written both ways. */
  lemma SliceEnds<T>(s: seq<T>, m: int)
    requires 0 <= m <= |s|
    ensures s[0..m] == s[..m] && s[m..|s|] == s[m..]
  {
  }

  // ---------------------------------------------------------------- one child rebuilt

  /** Around the child a key descends to, everything left is smaller and everything right larger. */
  lemma InsertAround<V>(ks: seq<int>, cs: seq<Node<V>>, lo: Option<int>, hi: Option<int>, i: int, k: int)
    requires WF(Internal(ks, cs)) && Ordered(Internal(ks, cs), lo, hi) && 0 <= i < |cs|
    requires Above(LoOf(ks, lo, i), k) && AtMost(HiOf(ks, hi, i), k)
    ensures Entries(Internal(ks, cs)) == Flatten(Parts(cs)[..i]) + Entries(cs[i]) + Flatten(Parts(cs)[i + 1..])
    ensures forall e :: e in Flatten(Parts(cs)[..i]) ==> e.key < k
    ensures forall e :: e in Flatten(Parts(cs)[i + 1..]) ==> k < e.key
  {
    EntriesInternal(ks, cs);
    FlattenAround(Parts(cs), i);
    Sides(ks, cs, lo, hi, i);
    if i == 0 {
      assert Parts(cs)[..i] == [];
    }
    if i + 1 == |cs| {
      assert Parts(cs)[i + 1..] == [];
    }
  }

  /** Replacing one child replaces its part of the entries. */
  lemma ReplaceEntries<V>(ks: seq<int>, cs: seq<Node<V>>, i: int, n: Node<V>)
    requires 0 <= i < |cs|
    ensures Entries(Internal(ks, cs[i := n])) == Flatten(Parts(cs)[..i]) + Entries(n) + Flatten(Parts(cs)[i + 1..])
  {
    EntriesInternal(ks, cs[i := n]);
    PartsUpdate(cs, i, n);
    var ps := Parts(cs)[i := Entries(n)];
    FlattenAround(ps, i);
    assert ps[..i] == Parts(cs)[..i] && ps[i + 1..] == Parts(cs)[i + 1..];
  }

  /** Replacing one child by the two halves of its split puts both halves' entries in its place. */
  lemma SpliceEntries<V>(ks: seq<int>, cs: seq<Node<V>>, i: int, l: Node<V>, r: Node<V>)
    requires 0 <= i < |cs|
    ensures Entries(Internal(ks, cs[..i] + [l, r] + cs[i + 1..]))
      == Flatten(Parts(cs)[..i]) + (Entries(l) + Entries(r)) + Flatten(Parts(cs)[i + 1..])
  {
    var cs' := cs[..i] + [l, r] + cs[i + 1..];
    EntriesInternal(ks, cs');
    PartsAppend(cs[..i] + [l, r], cs[i + 1..]);
    PartsAppend(cs[..i], [l, r]);
    PartsSlice(cs, 0, i);
    PartsSlice(cs, i + 1, |cs|);
    SliceEnds(cs, i);
    SliceEnds(cs, i + 1);
    SliceEnds(Parts(cs), i);
    SliceEnds(Parts(cs), i + 1);
    assert Parts([l, r]) == [Entries(l), Entries(r)];
    FlattenThree(Parts(cs)[..i], [Entries(l), Entries(r)], Parts(cs)[i + 1..]);
    FlattenPair(Entries(l), Entries(r));
  }

  /** A child replaced by a well-formed node of its kind, height and bounds keeps the parent's shape and order. */
  lemma ReplaceShape<V>(cfg: Config, ks: seq<int>, cs: seq<Node<V>>, lo: Option<int>, hi: Option<int>, h: int, isRoot: bool, i: int, n: Node<V>)
    requires WF(Internal(ks, cs)) && HasHeight(Internal(ks, cs), h) && Ordered(Internal(ks, cs), lo, hi)
    requires Sized(cfg, Internal(ks, cs), isRoot) && 0 <= i < |cs|
    requires WF(n) && n.Leaf? == cs[i].Leaf? && HasHeight(n, h - 1)
    requires Ordered(n, LoOf(ks, lo, i), HiOf(ks, hi, i)) && Sized(cfg, n, false)
    ensures var p := Internal(ks, cs[i := n]);
      WF(p) && HasHeight(p, h) && Ordered(p, lo, hi) && Sized(cfg, p, isRoot)
  {
    var cs' := cs[i := n];
    assert forall j :: 0 <= j < |cs'| ==> cs'[j].Leaf? == cs[j].Leaf?;
  }

  /** Indexing into a sequence with one element replaced by two. */
  lemma SpliceIndex<T>(s: seq<T>, i: int, x: T, y: T)
    requires 0 <= i < |s|
    ensures var s' := s[..i] + [x, y] + s[i + 1..];
      |s'| == |s| + 1 && s'[i] == x && s'[i + 1] == y
      && (forall j :: 0 <= j < i ==> s'[j] == s[j])
      && (forall j :: i + 1 < j < |s'| ==> s'[j] == s[j - 1])
  {
  }

  /** Indexing into a sequence with one element inserted. */
  lemma InsertIndex<T>(s: seq<T>, i: int, x: T)
    requires 0 <= i <= |s|
    ensures var s' := s[..i] + [x] + s[i..];
      |s'| == |s| + 1 && s'[i] == x
      && (forall j :: 0 <= j < i ==> s'[j] == s[j])
      && (forall j :: i < j < |s'| ==> s'[j] == s[j - 1])
  {
  }

  /**
   * A child replaced by the halves of its split, with the pivot entering the
   * separators in its place, keeps the parent's shape and order; the parent
   * gains one key and may now overflow by one.
   */
  lemma SpliceShape<V>(cfg: Config, ks: seq<int>, cs: seq<Node<V>>, lo: Option<int>, hi: Option<int>, h: int, isRoot: bool,
                       i: int, pivot: int, l: Node<V>, r: Node<V>)
    requires WF(Internal(ks, cs)) && HasHeight(Internal(ks, cs), h) && Ordered(Internal(ks, cs), lo, hi)
    requires Sized(cfg, Internal(ks, cs), isRoot) && 0 <= i < |cs|
    requires WF(l) && WF(r) && l.Leaf? == cs[i].Leaf? && r.Leaf? == cs[i].Leaf? && HasHeight(l, h - 1) && HasHeight(r, h - 1)
    requires Sized(cfg, l, false) && Sized(cfg, r, false)
    requires Above(LoOf(ks, lo, i), pivot) && Below(HiOf(ks, hi, i), pivot)
    requires Ordered(l, LoOf(ks, lo, i), Some(pivot)) && Ordered(r, Some(pivot), HiOf(ks, hi, i))
    ensures var p := Internal(ks[..i] + [pivot] + ks[i..], cs[..i] + [l, r] + cs[i + 1..]);
      WF(p) && HasHeight(p, h) && Ordered(p, lo, hi) && Bulging(cfg, p, isRoot)
  {
    SpliceIndex(cs, i, l, r);
    InsertIndex(ks, i, pivot);
    SpliceOrdered(ks, cs, lo, hi, i, pivot, l, r);
  }

  /** The separators with the pivot inserted stay increasing and inside the node's bounds. */
  lemma SpliceKeys(ks: seq<int>, lo: Option<int>, hi: Option<int>, i: int, pivot: int)
    requires BinarySearch.StrictlySorted(ks) && 0 <= i <= |ks|
    requires forall j :: 0 <= j < |ks| ==> Above(lo, ks[j]) && Below(hi, ks[j])
    requires Above(LoOf(ks, lo, i), pivot) && Below(HiOf(ks, hi, i), pivot)
    ensures var ks' := ks[..i] + [pivot] + ks[i..];
      BinarySearch.StrictlySorted(ks') && forall j :: 0 <= j < |ks'| ==> Above(lo, ks'[j]) && Below(hi, ks'[j])
  {
    var ks' := ks[..i] + [pivot] + ks[i..];
    InsertIndex(ks, i, pivot);
    forall a, b | 0 <= a < b < |ks'| ensures ks'[a] < ks'[b] {
      if a < i && b > i {
        assert ks[a] <= ks[i - 1];
      } else if a == i && b > i {
        assert ks[i] <= ks[b - 1];
      } else if a < i && b == i {
        assert ks[a] <= ks[i - 1];
      }
    }
    if i > 0 {
      assert Above(lo, ks[i - 1]);
    }
    if i < |ks| {
      assert Below(hi, ks[i]);
    }
  }

  /** The bounds each child inherits once the pivot is among the separators. */
  lemma SpliceBounds(ks: seq<int>, lo: Option<int>, hi: Option<int>, i: int, pivot: int)
    requires 0 <= i <= |ks|
    ensures var ks' := ks[..i] + [pivot] + ks[i..];
      LoOf(ks', lo, i) == LoOf(ks, lo, i) && HiOf(ks', hi, i) == Some(pivot)
      && LoOf(ks', lo, i + 1) == Some(pivot) && HiOf(ks', hi, i + 1) == HiOf(ks, hi, i)
      && (forall j :: 0 <= j < i ==> LoOf(ks', lo, j) == LoOf(ks, lo, j) && HiOf(ks', hi, j) == HiOf(ks, hi, j))
      && (forall j :: i + 1 < j <= |ks'| ==> LoOf(ks', lo, j) == LoOf(ks, lo, j - 1) && HiOf(ks', hi, j) == HiOf(ks, hi, j - 1))
  {
    InsertIndex(ks, i, pivot);
  }

  /** The order half of `SpliceShape`. */
  lemma SpliceOrdered<V>(ks: seq<int>, cs: seq<Node<V>>, lo: Option<int>, hi: Option<int>, i: int, pivot: int, l: Node<V>, r: Node<V>)
    requires Ordered(Internal(ks, cs), lo, hi) && |cs| == |ks| + 1 && 0 <= i < |cs|
    requires Above(LoOf(ks, lo, i), pivot) && Below(HiOf(ks, hi, i), pivot)
    requires Ordered(l, LoOf(ks, lo, i), Some(pivot)) && Ordered(r, Some(pivot), HiOf(ks, hi, i))
    ensures Ordered(Internal(ks[..i] + [pivot] + ks[i..], cs[..i] + [l, r] + cs[i + 1..]), lo, hi)
  {
    var ks', cs' := ks[..i] + [pivot] + ks[i..], cs[..i] + [l, r] + cs[i + 1..];
    SpliceKeys(ks, lo, hi, i, pivot);
    SpliceBounds(ks, lo, hi, i, pivot);
    SpliceIndex(cs, i, l, r);
    forall j | 0 <= j < |cs'| ensures Ordered(cs'[j], LoOf(ks', lo, j), HiOf(ks', hi, j)) {
      if j > i + 1 {
        assert Ordered(cs[j - 1], LoOf(ks, lo, j - 1), HiOf(ks, hi, j - 1));
      }
    }
  }

  // ---------------------------------------------------------------- one level of the climb

  /** A node within its kind's capacity that is `Bulging` is `Sized`. */
  lemma BulgingFits<V>(cfg: Config, n: Node<V>, isRoot: bool)
    requires Bulging(cfg, n, isRoot) && !Overflows(cfg, n)
    ensures Sized(cfg, n, isRoot)
  {
  }

  lemma SizedBulging<V>(cfg: Config, n: Node<V>, isRoot: bool)
    requires Sized(cfg, n, isRoot)
    ensures Bulging(cfg, n, isRoot)
  {
  }

  /** A key strictly between the bounds of child `i` goes in at separator position `i`. */
  lemma PivotPlace(ks: seq<int>, lo: Option<int>, hi: Option<int>, i: int, p: int)
    requires BinarySearch.StrictlySorted(ks) && 0 <= i <= |ks|
    requires Above(LoOf(ks, lo, i), p) && Below(HiOf(ks, hi, i), p)
    ensures BinarySearch.IsInsertionPoint(ks, p, i)
  {
    forall j | 0 <= j < i ensures ks[j] < p {
      assert ks[j] <= ks[i - 1];
    }
    forall j | i <= j < |ks| ensures p <= ks[j] {
      assert ks[i] <= ks[j];
    }
  }

  /** A key present in a piece is present in the whole. */
  lemma NoKeyMiddle<V>(a: seq<Entry<V>>, m: seq<Entry<V>>, b: seq<Entry<V>>, k: int)
    ensures HasKey(m, k) ==> HasKey(a + m + b, k)
  {
    if HasKey(m, k) {
      var e :| e in m && e.key == k;
      assert e in a + m + b;
    }
  }

  /** Every key of a leaf has an entry. */
  lemma NotInKeys<V>(ks: seq<int>, vs: seq<V>, k: int)
    requires |ks| == |vs|
    ensures k in ks ==> HasKey(Zip(ks, vs), k)
  {
    if k in ks {
      var j :| 0 <= j < |ks| && ks[j] == k;
      assert Zip(ks, vs)[j] in Zip(ks, vs);
    }
  }

  /** A fresh key inside a leaf's bounds keeps the leaf ordered. */
  lemma LeafInsertOrdered<V>(ks: seq<int>, vs: seq<V>, k: int, v: V, lo: Option<int>, hi: Option<int>)
    requires |ks| == |vs| && Ordered(Leaf(ks, vs), lo, hi) && Above(lo, k) && AtMost(hi, k) && k !in ks
    ensures Ordered(InsertIntoLeafNode(ks, vs, k, v), lo, hi)
  {
    var at := BinarySearch.Search(ks, k);
    InsertIndex(ks, at, k);
  }

  /** One level of the climb keeps the invariant at that level, whether the child settled or split. */
  lemma LiftCorrect<V>(cfg: Config, ks: seq<int>, cs: seq<Node<V>>, lo: Option<int>, hi: Option<int>, h: int, isRoot: bool,
                       k: int, v: V, carry: Carry<V>)
    requires Fit(cfg, Internal(ks, cs), k, lo, hi, h, isRoot) && Shaped(carry.node)
    requires var i := BinarySearch.Search(ks, k);
      0 <= i < |cs| && Grew(cfg, cs[i], carry, k, v, LoOf(ks, lo, i), HiOf(ks, hi, i), h - 1, false)
    ensures var i := BinarySearch.Search(ks, k);
      Grew(cfg, Internal(ks, cs), Lift(cfg, Crumb(ks, cs, i), carry), k, v, lo, hi, h, isRoot)
  {
    if carry.Settled? || !Overflows(cfg, carry.node) {
      LiftKeeps(cfg, ks, cs, lo, hi, h, isRoot, k, v, carry);
    } else {
      LiftSplits(cfg, ks, cs, lo, hi, h, isRoot, k, v, carry.node);
    }
  }

  /** `LiftCorrect` when the child takes its old place. */
  lemma LiftKeeps<V>(cfg: Config, ks: seq<int>, cs: seq<Node<V>>, lo: Option<int>, hi: Option<int>, h: int, isRoot: bool,
                     k: int, v: V, carry: Carry<V>)
    requires Fit(cfg, Internal(ks, cs), k, lo, hi, h, isRoot) && Shaped(carry.node)
    requires var i := BinarySearch.Search(ks, k);
      0 <= i < |cs| && Grew(cfg, cs[i], carry, k, v, LoOf(ks, lo, i), HiOf(ks, hi, i), h - 1, false)
    requires carry.Settled? || !Overflows(cfg, carry.node)
    ensures var i := BinarySearch.Search(ks, k);
      Grew(cfg, Internal(ks, cs), Lift(cfg, Crumb(ks, cs, i), carry), k, v, lo, hi, h, isRoot)
  {
    var i := BinarySearch.Search(ks, k);
    ChildBounds(ks, cs, lo, hi, k);
    var n := carry.node;
    MiddleInsert(ks, cs, lo, hi, i, k, v, Entries(n));
    if carry.Pending? {
      BulgingFits(cfg, n, false);
    }
    LiftReplace(cfg, ks, cs, lo, hi, h, isRoot, i, n);
  }

  /** `LiftCorrect` when the child overflowed and is split. */
  lemma LiftSplits<V>(cfg: Config, ks: seq<int>, cs: seq<Node<V>>, lo: Option<int>, hi: Option<int>, h: int, isRoot: bool,
                      k: int, v: V, n: Node<V>)
    requires Fit(cfg, Internal(ks, cs), k, lo, hi, h, isRoot) && Shaped(n)
    requires var i := BinarySearch.Search(ks, k);
      0 <= i < |cs| && Grew(cfg, cs[i], Pending(n), k, v, LoOf(ks, lo, i), HiOf(ks, hi, i), h - 1, false)
    requires Overflows(cfg, n)
    ensures var i := BinarySearch.Search(ks, k);
      Grew(cfg, Internal(ks, cs), Lift(cfg, Crumb(ks, cs, i), Pending(n)), k, v, lo, hi, h, isRoot)
  {
    var i := BinarySearch.Search(ks, k);
    ChildBounds(ks, cs, lo, hi, k);
    MiddleInsert(ks, cs, lo, hi, i, k, v, Entries(n));
    LiftSplit(cfg, ks, cs, lo, hi, h, isRoot, i, n);
  }

  /** The child's entries with the new one inserted, between its siblings' entries, are the parent's with it inserted. */
  lemma MiddleInsert<V>(ks: seq<int>, cs: seq<Node<V>>, lo: Option<int>, hi: Option<int>, i: int, k: int, v: V, m: seq<Entry<V>>)
    requires WF(Internal(ks, cs)) && Ordered(Internal(ks, cs), lo, hi) && 0 <= i < |cs|
    requires Above(LoOf(ks, lo, i), k) && AtMost(HiOf(ks, hi, i), k)
    requires m == InsertEntry(Entries(cs[i]), k, v)
    ensures Flatten(Parts(cs)[..i]) + m + Flatten(Parts(cs)[i + 1..]) == InsertEntry(Entries(Internal(ks, cs)), k, v)
  {
    InsertAround(ks, cs, lo, hi, i, k);
    InsertEntryMiddle(Flatten(Parts(cs)[..i]), Entries(cs[i]), Flatten(Parts(cs)[i + 1..]), k, v);
  }

  /** The child settled: it simply takes its old place. */
  lemma LiftReplace<V>(cfg: Config, ks: seq<int>, cs: seq<Node<V>>, lo: Option<int>, hi: Option<int>, h: int, isRoot: bool,
                       i: int, n: Node<V>)
    requires WF(Internal(ks, cs)) && HasHeight(Internal(ks, cs), h) && Ordered(Internal(ks, cs), lo, hi)
    requires Sized(cfg, Internal(ks, cs), isRoot) && 0 <= i < |cs|
    requires WF(n) && n.Leaf? == cs[i].Leaf? && HasHeight(n, h - 1)
    requires Ordered(n, LoOf(ks, lo, i), HiOf(ks, hi, i)) && Sized(cfg, n, false)
    ensures var p := Internal(ks, cs[i := n]);
      WF(p) && HasHeight(p, h) && Ordered(p, lo, hi) && Sized(cfg, p, isRoot) && Bulging(cfg, p, isRoot)
      && Entries(p) == Flatten(Parts(cs)[..i]) + Entries(n) + Flatten(Parts(cs)[i + 1..])
  {
    ReplaceShape(cfg, ks, cs, lo, hi, h, isRoot, i, n);
    ReplaceEntries(ks, cs, i, n);
    SizedBulging(cfg, Internal(ks, cs[i := n]), isRoot);
  }

  /** The child overflowed: its halves take its place and the pivot joins the separators at the same position. */
  lemma LiftSplit<V>(cfg: Config, ks: seq<int>, cs: seq<Node<V>>, lo: Option<int>, hi: Option<int>, h: int, isRoot: bool,
                     i: int, n: Node<V>)
    requires ValidConfig(cfg) && WF(Internal(ks, cs)) && HasHeight(Internal(ks, cs), h) && Ordered(Internal(ks, cs), lo, hi)
    requires Sized(cfg, Internal(ks, cs), isRoot) && 0 <= i < |cs|
    requires WF(n) && n.Leaf? == cs[i].Leaf? && HasHeight(n, h - 1)
    requires Ordered(n, LoOf(ks, lo, i), HiOf(ks, hi, i)) && Bulging(cfg, n, false) && Overflows(cfg, n)
    ensures var p := Lift(cfg, Crumb(ks, cs, i), Pending(n)).node;
      WF(p) && HasHeight(p, h) && Ordered(p, lo, hi) && Bulging(cfg, p, isRoot)
      && Entries(p) == Flatten(Parts(cs)[..i]) + Entries(n) + Flatten(Parts(cs)[i + 1..])
  {
    SplitSized(cfg, n, false);
    SplitOrdered(n, LoOf(ks, lo, i), HiOf(ks, hi, i));
    LiftSplitIs(cfg, ks, cs, lo, hi, i, n);
    SplitInPlace(cfg, ks, cs, lo, hi, h, isRoot, i, n);
  }

  /** The parent with the halves of an overflowing child spliced in at the child's position. */
  lemma SplitInPlace<V>(cfg: Config, ks: seq<int>, cs: seq<Node<V>>, lo: Option<int>, hi: Option<int>, h: int, isRoot: bool,
                        i: int, n: Node<V>)
    requires ValidConfig(cfg) && WF(Internal(ks, cs)) && HasHeight(Internal(ks, cs), h) && Ordered(Internal(ks, cs), lo, hi)
    requires Sized(cfg, Internal(ks, cs), isRoot) && 0 <= i < |cs|
    requires WF(n) && n.Leaf? == cs[i].Leaf? && HasHeight(n, h - 1) && |n.keys| >= 3
    requires var s := SplitEmUp(n);
      Sized(cfg, s.left, false) && Sized(cfg, s.right, false)
      && Ordered(s.left, LoOf(ks, lo, i), Some(s.pivot)) && Ordered(s.right, Some(s.pivot), HiOf(ks, hi, i))
      && Above(LoOf(ks, lo, i), s.pivot) && Below(HiOf(ks, hi, i), s.pivot)
    ensures var s := SplitEmUp(n);
      var p := Internal(ks[..i] + [s.pivot] + ks[i..], cs[..i] + [s.left, s.right] + cs[i + 1..]);
      WF(p) && HasHeight(p, h) && Ordered(p, lo, hi) && Bulging(cfg, p, isRoot)
      && Entries(p) == Flatten(Parts(cs)[..i]) + Entries(n) + Flatten(Parts(cs)[i + 1..])
  {
    var s := SplitEmUp(n);
    SplitShape(n, h - 1);
    SpliceShape(cfg, ks, cs, lo, hi, h, isRoot, i, s.pivot, s.left, s.right);
    SplitEntries(n);
    SpliceEntries(ks[..i] + [s.pivot] + ks[i..], cs, i, s.left, s.right);
  }

  /** Lifting an overflowing child splices its halves in at the child's own position. */
  lemma LiftSplitIs<V>(cfg: Config, ks: seq<int>, cs: seq<Node<V>>, lo: Option<int>, hi: Option<int>, i: int, n: Node<V>)
    requires ValidConfig(cfg) && |cs| == |ks| + 1 && 0 <= i < |cs| && BinarySearch.StrictlySorted(ks)
    requires Shaped(n) && Overflows(cfg, n)
    requires var s := SplitEmUp(n); Above(LoOf(ks, lo, i), s.pivot) && Below(HiOf(ks, hi, i), s.pivot)
    ensures var s := SplitEmUp(n);
      Lift(cfg, Crumb(ks, cs, i), Pending(n)) == Pending(Internal(ks[..i] + [s.pivot] + ks[i..], cs[..i] + [s.left, s.right] + cs[i + 1..]))
  {
    var s := SplitEmUp(n);
    PivotPlace(ks, lo, hi, i, s.pivot);
    InsertIntoInternalNodeAt(ks, cs[i := n], s.pivot, s.left, s.right, i);
    assert cs[i := n][..i] == cs[..i] && cs[i := n][i + 1..] == cs[i + 1..];
  }

  /** The recursive insertion of a fresh key keeps the invariant at every level and inserts exactly its entry. */
  lemma {:induction false} InsertRecCorrect<V>(cfg: Config, n: Node<V>, k: int, v: V, lo: Option<int>, hi: Option<int>, h: int, isRoot: bool)
    requires Fit(cfg, n, k, lo, hi, h, isRoot)
    ensures Grew(cfg, n, InsertRec(cfg, n, k, v), k, v, lo, hi, h, isRoot)
    decreases n
  {
    match n
    case Leaf(ks, vs) =>
      LeafGrew(cfg, ks, vs, k, v, lo, hi, h, isRoot);
    case Internal(ks, cs) =>
      var i := ChildFit(cfg, ks, cs, k, lo, hi, h, isRoot);
      InsertRecCorrect(cfg, cs[i], k, v, LoOf(ks, lo, i), HiOf(ks, hi, i), h - 1, false);
      LiftCorrect(cfg, ks, cs, lo, hi, h, isRoot, k, v, InsertRec(cfg, cs[i], k, v));
  }

  /** Inserting a fresh key into a leaf. */
  lemma LeafGrew<V>(cfg: Config, ks: seq<int>, vs: seq<V>, k: int, v: V, lo: Option<int>, hi: Option<int>, h: int, isRoot: bool)
    requires Fit(cfg, Leaf(ks, vs), k, lo, hi, h, isRoot)
    ensures Grew(cfg, Leaf(ks, vs), InsertRec(cfg, Leaf(ks, vs), k, v), k, v, lo, hi, h, isRoot)
  {
    NotInKeys(ks, vs, k);
    LeafInsertOrdered(ks, vs, k, v, lo, hi);
  }

  /** The child a fresh key descends to is fit to receive it. */
  lemma ChildFit<V>(cfg: Config, ks: seq<int>, cs: seq<Node<V>>, k: int, lo: Option<int>, hi: Option<int>, h: int, isRoot: bool)
    returns (i: int)
    requires Fit(cfg, Internal(ks, cs), k, lo, hi, h, isRoot)
    ensures i == BinarySearch.Search(ks, k) && 0 <= i < |cs|
    ensures Fit(cfg, cs[i], k, LoOf(ks, lo, i), HiOf(ks, hi, i), h - 1, false)
  {
    i := BinarySearch.Search(ks, k);
    ChildBounds(ks, cs, lo, hi, k);
    InsertAround(ks, cs, lo, hi, i, k);
    NoKeyMiddle(Flatten(Parts(cs)[..i]), Entries(cs[i]), Flatten(Parts(cs)[i + 1..]), k);
  }

  /** The root step: a settled root stays, an overflowing one is split under a new root one level higher. */
  lemma FinishCorrect<V>(cfg: Config, n: Node<V>, r: Carry<V>, k: int, v: V, h: int)
    requires ValidConfig(cfg) && Shaped(r.node) && Grew(cfg, n, r, k, v, None, None, h, true)
    ensures var g := Finish(cfg, r);
      Inv(BTree(g.root, cfg, if g.grew then h + 1 else h)) && Entries(g.root) == InsertEntry(Entries(n), k, v)
  {
    if r.Pending? && Overflows(cfg, r.node) {
      NewRootCorrect(cfg, r.node, h);
    } else if r.Pending? {
      BulgingFits(cfg, r.node, true);
    }
  }

  /** The new root over the halves of an overflowing root. */
  lemma NewRootCorrect<V>(cfg: Config, m: Node<V>, h: int)
    requires ValidConfig(cfg) && WF(m) && HasHeight(m, h) && Ordered(m, None, None)
    requires Bulging(cfg, m, true) && Overflows(cfg, m)
    ensures var g := NewRoot(SplitEmUp(m));
      WF(g) && HasHeight(g, h + 1) && Ordered(g, None, None) && Sized(cfg, g, true) && Entries(g) == Entries(m)
  {
    SplitSized(cfg, m, true);
    SplitShape(m, h);
    SplitOrdered(m, None, None);
    SplitEntries(m);
    var s := SplitEmUp(m);
    RootOver(cfg, s.pivot, s.left, s.right, h);
  }

  /** A root with one separator over two halves ordered around it. */
  lemma RootOver<V>(cfg: Config, pivot: int, l: Node<V>, r: Node<V>, h: int)
    requires ValidConfig(cfg) && WF(l) && WF(r) && l.Leaf? == r.Leaf? && HasHeight(l, h) && HasHeight(r, h)
    requires Ordered(l, None, Some(pivot)) && Ordered(r, Some(pivot), None)
    requires Sized(cfg, l, false) && Sized(cfg, r, false)
    ensures var g := Internal([pivot], [l, r]);
      WF(g) && HasHeight(g, h + 1) && Ordered(g, None, None) && Sized(cfg, g, true) && Entries(g) == Entries(l) + Entries(r)
  {
    var g := Internal([pivot], [l, r]);
    assert WF(g) && HasHeight(g, h + 1);
    assert Ordered(g, None, None);
    assert Sized(cfg, g, true) by {
      ConfigFacts(cfg);
    }
    assert Entries(g) == Entries(l) + Entries(r) by {
      EntriesInternal([pivot], [l, r]);
      assert Parts([l, r]) == [Entries(l), Entries(r)];
      FlattenPair(Entries(l), Entries(r));
    }
  }

  // ---------------------------------------------------------------- insert

  /** Inserting a key not yet in the tree keeps the invariant and adds exactly its entry. */
  lemma InsertCorrect<V>(t: BTree<V>, k: int, v: V)
    requires Inv(t) && !HasKey(Entries(t.root), k)
    ensures Inv(Insert(t, k, v))
    ensures Entries(Insert(t, k, v).root) == InsertEntry(Entries(t.root), k, v)
  {
    InsertIsInsertRec(t, k, v);
    InsertRecTree(t, k, v);
  }

  /** `InsertCorrect` for the recursive form. */
  lemma InsertRecTree<V>(t: BTree<V>, k: int, v: V)
    requires Inv(t) && !HasKey(Entries(t.root), k)
    ensures var g := Finish(t.cfg, InsertRec(t.cfg, t.root, k, v));
      var t' := BTree(g.root, t.cfg, if g.grew then t.height + 1 else t.height);
      Inv(t') && Entries(t'.root) == InsertEntry(Entries(t.root), k, v)
  {
    InvFits(t, k);
    RootCorrect(t.cfg, t.root, k, v, t.height);
  }

  lemma InvFits<V>(t: BTree<V>, k: int)
    requires Inv(t) && !HasKey(Entries(t.root), k)
    ensures Fit(t.cfg, t.root, k, None, None, t.height, true)
  {
  }

  /** The whole descent from the root, followed by the root step. */
  lemma RootCorrect<V>(cfg: Config, n: Node<V>, k: int, v: V, h: int)
    requires Fit(cfg, n, k, None, None, h, true)
    ensures var g := Finish(cfg, InsertRec(cfg, n, k, v));
      Inv(BTree(g.root, cfg, if g.grew then h + 1 else h)) && Entries(g.root) == InsertEntry(Entries(n), k, v)
  {
    var r := InsertRec(cfg, n, k, v);
    InsertRecCorrect(cfg, n, k, v, None, None, h, true);
    FinishCorrect(cfg, n, r, k, v, h);
  }

  /** After inserting a fresh key, searching finds its value, and every other key finds what it found before. */
  lemma InsertThenSearch<V>(t: BTree<V>, k: int, v: V, k': int)
    requires Inv(t) && Search(t.root, k) == None
    ensures Inv(Insert(t, k, v))
    ensures Search(Insert(t, k, v).root, k') == if k' == k then Some(v) else Search(t.root, k')
  {
    SearchTree(t, k);
    InsertCorrect(t, k, v);
    SearchTree(Insert(t, k, v), k');
    SearchTree(t, k');
    LookupInsert(Entries(t.root), k, v, k');
  }
}
