/**
 * Correctness of the classic B-tree of btree.ts: `search_node` is the lookup
 * in the tree's entries, and for a key not yet in the tree `Insert` keeps the
 * invariant and adds exactly the new entry. The insertion proof runs over the
 * recursive form `InsertRec`, one level at a time.
 */
module ClassicBTreeProof {
  import opened Wrappers
  import opened Seqs
  import BinarySearch
  import opened OrderedMap
  import BPlusTree
  import opened ClassicBTree

  // ---------------------------------------------------------------- bounds of entries

  /** Every key strictly between the two bounds. */
  ghost predicate Between<V>(es: seq<Entry<V>>, lo: Option<int>, hi: Option<int>)
  {
    forall e :: e in es ==> Above(lo, e.key) && Below(hi, e.key)
  }

  /** The bounds of child `i` lie within the node's. */
  lemma ChildWithin(ks: seq<int>, lo: Option<int>, hi: Option<int>, i: int, x: int)
    requires forall j :: 0 <= j < |ks| ==> Above(lo, ks[j]) && Below(hi, ks[j])
    requires Above(BPlusTree.LoOf(ks, lo, i), x) && Below(BPlusTree.HiOf(ks, hi, i), x)
    ensures Above(lo, x) && Below(hi, x)
  {
  }

  /** The entries below an ordered node lie within its bounds. */
  lemma {:induction false} EntriesWithin<V>(n: Node<V>, lo: Option<int>, hi: Option<int>)
    requires WF(n) && Ordered(n, lo, hi)
    ensures Between(Entries(n), lo, hi)
    decreases n
  {
    match n
    case Node(ks, vs, cs) =>
      if |cs| == 0 {
        var z := Zip(ks, vs);
        forall e: Entry<V> | e in z ensures Above(lo, e.key) && Below(hi, e.key) {
          var j :| 0 <= j < |z| && z[j] == e;
        }
      } else {
        var ps := Parts(ks, vs, cs);
        EntriesInternal(ks, vs, cs);
        forall e: Entry<V> | e in Flatten(ps) ensures Above(lo, e.key) && Below(hi, e.key) {
          FlattenIn(ps, e);
          var j :| 0 <= j < |ps| && e in ps[j];
          if e in Entries(cs[j]) {
            EntriesWithin(cs[j], BPlusTree.LoOf(ks, lo, j), BPlusTree.HiOf(ks, hi, j));
            ChildWithin(ks, lo, hi, j, e.key);
          }
        }
      }
  }

  /** Every part lies above the key before it and at most the key after it. */
  ghost predicate Bounded<V>(ks: seq<int>, ps: seq<seq<Entry<V>>>)
  {
    forall j, e :: 0 <= j < |ps| && e in ps[j] ==> (0 < j <= |ks| ==> ks[j - 1] < e.key) && (j < |ks| ==> e.key <= ks[j])
  }

  /**
   * What search and insertion use of an ordered internal node: parallel keys
   * and values, one more child than keys, increasing keys, each part bounded
   * by the keys around it, and each child's entries below the key after it.
   */
  ghost predicate Frame<V>(ks: seq<int>, vs: seq<V>, cs: seq<Node<V>>)
  {
    |vs| == |ks| && |cs| == |ks| + 1 && BinarySearch.StrictlySorted(ks) && Bounded(ks, Parts(ks, vs, cs))
    && forall j, e :: 0 <= j < |ks| && e in Entries(cs[j]) ==> e.key < ks[j]
  }

  /** The children of an ordered node hold entries within their bounds. */
  lemma ChildrenWithin<V>(ks: seq<int>, vs: seq<V>, cs: seq<Node<V>>, lo: Option<int>, hi: Option<int>)
    requires WF(Node(ks, vs, cs)) && Ordered(Node(ks, vs, cs), lo, hi)
    ensures forall j :: 0 <= j < |cs| ==> Between(Entries(cs[j]), BPlusTree.LoOf(ks, lo, j), BPlusTree.HiOf(ks, hi, j))
  {
    forall j | 0 <= j < |cs| ensures Between(Entries(cs[j]), BPlusTree.LoOf(ks, lo, j), BPlusTree.HiOf(ks, hi, j)) {
      EntriesWithin(cs[j], BPlusTree.LoOf(ks, lo, j), BPlusTree.HiOf(ks, hi, j));
    }
  }

  /** Increasing keys and children within their bounds make the frame. */
  lemma FrameOf<V>(ks: seq<int>, vs: seq<V>, cs: seq<Node<V>>, lo: Option<int>, hi: Option<int>)
    requires |vs| == |ks| && |cs| == |ks| + 1 && BinarySearch.StrictlySorted(ks)
    requires forall j :: 0 <= j < |cs| ==> Between(Entries(cs[j]), BPlusTree.LoOf(ks, lo, j), BPlusTree.HiOf(ks, hi, j))
    ensures Frame(ks, vs, cs)
  {
    var ps := Parts(ks, vs, cs);
    forall j, e: Entry<V> | 0 <= j < |ps| && e in ps[j] ensures (0 < j <= |ks| ==> ks[j - 1] < e.key) && (j < |ks| ==> e.key <= ks[j]) {
      assert Between(Entries(cs[j]), BPlusTree.LoOf(ks, lo, j), BPlusTree.HiOf(ks, hi, j));
    }
    forall j, e: Entry<V> | 0 <= j < |ks| && e in Entries(cs[j]) ensures e.key < ks[j] {
      assert Between(Entries(cs[j]), BPlusTree.LoOf(ks, lo, j), BPlusTree.HiOf(ks, hi, j));
    }
  }

  /** An ordered internal node has the frame. */
  lemma NodeFrame<V>(ks: seq<int>, vs: seq<V>, cs: seq<Node<V>>, lo: Option<int>, hi: Option<int>)
    requires WF(Node(ks, vs, cs)) && Ordered(Node(ks, vs, cs), lo, hi) && |cs| > 0
    ensures Frame(ks, vs, cs)
  {
    ChildrenWithin(ks, vs, cs, lo, hi);
    FrameOf(ks, vs, cs, lo, hi);
  }

  /** The parts before child `i` hold only keys below `x`, when the key before child `i` is. */
  lemma PrefixBelow<V>(ks: seq<int>, ps: seq<seq<Entry<V>>>, i: int, x: int)
    requires BinarySearch.StrictlySorted(ks) && Bounded(ks, ps)
    requires 0 <= i <= |ks| && i <= |ps| && (i > 0 ==> ks[i - 1] < x)
    ensures forall e :: e in Flatten(ps[..i]) ==> e.key < x
  {
    var front := ps[..i];
    forall e: Entry<V> | e in Flatten(front) ensures e.key < x {
      FlattenIn(front, e);
      var j :| 0 <= j < |front| && e in front[j];
      assert e in ps[j];
      assert ks[j] <= ks[i - 1];
    }
  }

  /** The parts after child `i` hold only keys above `x`, when the key after child `i` is. */
  lemma SuffixAbove<V>(ks: seq<int>, ps: seq<seq<Entry<V>>>, i: int, x: int)
    requires BinarySearch.StrictlySorted(ks) && Bounded(ks, ps) && |ps| == |ks| + 1
    requires 0 <= i < |ps| && (i < |ks| ==> x < ks[i])
    ensures forall e :: e in Flatten(ps[i + 1..]) ==> x < e.key
  {
    var back := ps[i + 1..];
    forall e: Entry<V> | e in Flatten(back) ensures x < e.key {
      FlattenIn(back, e);
      var j :| 0 <= j < |back| && e in back[j];
      assert e in ps[i + 1 + j];
      assert ks[i] <= ks[i + j];
    }
  }

  /** The entries of an internal node around child `i`: the parts before it, the child, the key after it, the parts after. */
  lemma Around<V>(ks: seq<int>, vs: seq<V>, cs: seq<Node<V>>, i: int)
    requires 0 <= i < |cs|
    ensures Entries(Node(ks, vs, cs))
      == Flatten(Parts(ks, vs, cs)[..i]) + Entries(cs[i]) + (Sep(ks, vs, i) + Flatten(Parts(ks, vs, cs)[i + 1..]))
  {
    var ps := Parts(ks, vs, cs);
    var a, b, c, d := Flatten(ps[..i]), Entries(cs[i]), Sep(ks, vs, i), Flatten(ps[i + 1..]);
    assert Entries(Node(ks, vs, cs)) == a + ps[i] + d by {
      EntriesInternal(ks, vs, cs);
      FlattenAround(ps, i);
    }
    assert ps[i] == b + c;
  }

  // ---------------------------------------------------------------- search

  /** No entry with key `k` in a sequence whose keys all differ from it. */
  lemma Missing<V>(es: seq<Entry<V>>, k: int)
    requires forall e :: e in es ==> e.key != k
    ensures !HasKey(es, k) && Lookup(es, k) == None
  {
  }

  /** A leaf's search is the lookup in its entries. */
  lemma LeafSearch<V>(ks: seq<int>, vs: seq<V>, k: int)
    requires |ks| == |vs| && BinarySearch.StrictlySorted(ks)
    ensures FoundValue(SearchNode(Node(ks, vs, []), k)) == Lookup(Zip(ks, vs), k)
  {
    var z := Zip(ks, vs);
    var i := BinarySearch.Search(ks, k);
    if i < |ks| && ks[i] == k {
      LookupAt(z, i);
    } else {
      forall e: Entry<V> | e in z ensures e.key != k {
        var j :| 0 <= j < |z| && z[j] == e;
      }
      Missing(z, k);
    }
  }

  /** The first entry with key `k` after entries without it. */
  lemma LookupPast<V>(a: seq<Entry<V>>, b: seq<Entry<V>>, k: int, v: V)
    requires (forall e :: e in a ==> e.key != k) && |b| > 0 && b[0] == Entry(k, v)
    ensures Lookup(a + b, k) == Some(v)
  {
    Missing(a, k);
    LookupAppend(a, b, k);
  }

  /** A hit at an internal node: the key found is the first entry with that key, everything before it being smaller. */
  lemma SearchHit<V>(ks: seq<int>, vs: seq<V>, cs: seq<Node<V>>, k: int)
    requires Frame(ks, vs, cs)
    requires var i := BinarySearch.Search(ks, k); i < |ks| && ks[i] == k
    ensures var i := BinarySearch.Search(ks, k); Lookup(Entries(Node(ks, vs, cs)), k) == Some(vs[i])
  {
    var i, ps := BinarySearch.Search(ks, k), Parts(ks, vs, cs);
    var a := Flatten(ps[..i]) + Entries(cs[i]);
    var b := Sep(ks, vs, i) + Flatten(ps[i + 1..]);
    assert forall e :: e in a ==> e.key != k by {
      PrefixBelow(ks, ps, i, k);
    }
    assert b[0] == Entry(k, vs[i]);
    Around(ks, vs, cs, i);
    LookupPast(a, b, k, vs[i]);
  }

  /** A miss at an internal node: only the child at the search position can hold the key. */
  lemma SearchMiss<V>(ks: seq<int>, vs: seq<V>, cs: seq<Node<V>>, k: int)
    requires Frame(ks, vs, cs)
    requires var i := BinarySearch.Search(ks, k); !(i < |ks| && ks[i] == k)
    ensures var i := BinarySearch.Search(ks, k); Lookup(Entries(Node(ks, vs, cs)), k) == Lookup(Entries(cs[i]), k)
  {
    var i, ps := BinarySearch.Search(ks, k), Parts(ks, vs, cs);
    var a := Flatten(ps[..i]);
    var b := Sep(ks, vs, i) + Flatten(ps[i + 1..]);
    Around(ks, vs, cs, i);
    PrefixBelow(ks, ps, i, k);
    SuffixAbove(ks, ps, i, k);
    Missing(a, k);
    Missing(b, k);
    LookupAppend(a, Entries(cs[i]), k);
    LookupAppend(a + Entries(cs[i]), b, k);
  }

  /** btree.ts `search_node` finds exactly what the lookup in the entries finds, for any ordered node. */
  lemma {:induction false} SearchIsLookup<V>(n: Node<V>, k: int, lo: Option<int>, hi: Option<int>)
    requires WF(n) && Ordered(n, lo, hi)
    ensures FoundValue(SearchNode(n, k)) == Lookup(Entries(n), k)
    decreases n
  {
    match n
    case Node(ks, vs, cs) =>
      var i := BinarySearch.Search(ks, k);
      if |cs| == 0 {
        LeafSearch(ks, vs, k);
      } else if i < |ks| && ks[i] == k {
        NodeFrame(ks, vs, cs, lo, hi);
        SearchHit(ks, vs, cs, k);
      } else {
        NodeFrame(ks, vs, cs, lo, hi);
        SearchMiss(ks, vs, cs, k);
        SearchIsLookup(cs[i], k, BPlusTree.LoOf(ks, lo, i), BPlusTree.HiOf(ks, hi, i));
      }
  }

  // ---------------------------------------------------------------- the split

  /** The entries of a list of parts with one more part at the end. */
  lemma FlattenSnoc<T>(ss: seq<seq<T>>, x: seq<T>)
    ensures Flatten(ss + [x]) == Flatten(ss) + x
  {
    FlattenAppend(ss, [x]);
    FlattenSingle(x);
  }

  /** A leaf's split loses and adds nothing. */
  lemma SplitLeafEntries<V>(ks: seq<int>, vs: seq<V>, p: int)
    requires |ks| == |vs| && 0 <= p < |ks|
    ensures Zip(ks[..p], vs[..p]) + [Entry(ks[p], vs[p])] + Zip(ks[p + 1..], vs[p + 1..]) == Zip(ks, vs)
  {
    assert ks == ks[..p] + ([ks[p]] + ks[p + 1..]);
    assert vs == vs[..p] + ([vs[p]] + vs[p + 1..]);
    ZipAppend(ks[..p], [ks[p]] + ks[p + 1..], vs[..p], [vs[p]] + vs[p + 1..]);
    ZipAppend([ks[p]], ks[p + 1..], [vs[p]], vs[p + 1..]);
  }

  /** The parts of the left half: the node's parts before the pivot, then the pivot's left child alone. */
  lemma LeftParts<V>(ks: seq<int>, vs: seq<V>, cs: seq<Node<V>>, p: int)
    requires |ks| == |vs| && |cs| == |ks| + 1 && 0 <= p < |ks|
    ensures Parts(ks[..p], vs[..p], cs[..p + 1]) == Parts(ks, vs, cs)[..p] + [Entries(cs[p])]
  {
    var ps, lp := Parts(ks, vs, cs), Parts(ks[..p], vs[..p], cs[..p + 1]);
    forall j | 0 <= j <= p ensures lp[j] == (ps[..p] + [Entries(cs[p])])[j] {
      if j < p {
        assert Sep(ks[..p], vs[..p], j) == Sep(ks, vs, j);
      } else {
        assert Sep(ks[..p], vs[..p], j) == [];
      }
    }
  }

  /** The parts of the right half: the node's parts after the pivot. */
  lemma RightParts<V>(ks: seq<int>, vs: seq<V>, cs: seq<Node<V>>, p: int)
    requires |ks| == |vs| && |cs| == |ks| + 1 && 0 <= p < |ks|
    ensures Parts(ks[p + 1..], vs[p + 1..], cs[p + 1..]) == Parts(ks, vs, cs)[p + 1..]
  {
    var ps, rp := Parts(ks, vs, cs), Parts(ks[p + 1..], vs[p + 1..], cs[p + 1..]);
    forall j | 0 <= j < |rp| ensures rp[j] == ps[p + 1 + j] {
      assert Sep(ks[p + 1..], vs[p + 1..], j) == Sep(ks, vs, p + 1 + j);
    }
  }

  /** An internal node's split loses and adds nothing: the pivot's entry ends the parts of the left half. */
  lemma SplitInternalEntries<V>(ks: seq<int>, vs: seq<V>, cs: seq<Node<V>>, p: int)
    requires |ks| == |vs| && |cs| == |ks| + 1 && 0 <= p < |ks|
    ensures Entries(Node(ks[..p], vs[..p], cs[..p + 1])) + [Entry(ks[p], vs[p])] + Entries(Node(ks[p + 1..], vs[p + 1..], cs[p + 1..]))
      == Entries(Node(ks, vs, cs))
  {
    var ps := Parts(ks, vs, cs);
    LeftParts(ks, vs, cs, p);
    RightParts(ks, vs, cs, p);
    EntriesInternal(ks[..p], vs[..p], cs[..p + 1]);
    EntriesInternal(ks[p + 1..], vs[p + 1..], cs[p + 1..]);
    FlattenSnoc(ps[..p], Entries(cs[p]));
    Around(ks, vs, cs, p);
  }

  /** A split loses and adds nothing: the left half's entries, the pivot, and the right half's are the node's entries. */
  lemma SplitEntries<V>(m: Node<V>)
    requires Shaped(m) && |m.keys| >= 1
    ensures var s := SplitNode(m);
      Entries(s.left) + [Entry(s.pivotKey, s.pivotVal)] + Entries(s.right) == Entries(m)
  {
    var s, p := SplitNode(m), |m.keys| / 2;
    var ks, vs, cs := m.keys, m.values, m.children;
    if IsLeaf(m) {
      assert Entries(s.left) == Zip(ks[..p], vs[..p]);
      assert Entries(s.right) == Zip(ks[p + 1..], vs[p + 1..]);
      assert Entries(m) == Zip(ks, vs);
      SplitLeafEntries(ks, vs, p);
    } else {
      assert s.left == Node(ks[..p], vs[..p], cs[..p + 1]) && s.right == Node(ks[p + 1..], vs[p + 1..], cs[p + 1..]);
      assert m == Node(ks, vs, cs);
      SplitInternalEntries(ks, vs, cs, p);
    }
  }

  /** The halves of a well-formed node are well-formed and as high as the node. */
  lemma SplitShape<V>(m: Node<V>, h: int)
    requires WF(m) && HasHeight(m, h) && |m.keys| == MaxKeys + 1
    ensures var s := SplitNode(m);
      WF(s.left) && WF(s.right) && HasHeight(s.left, h) && HasHeight(s.right, h)
  {
    var s := SplitNode(m);
    var p := |m.keys| / 2;
    assert forall j :: 0 <= j < |s.left.children| ==> s.left.children[j] == m.children[j];
    assert forall j :: 0 <= j < |s.right.children| ==> s.right.children[j] == m.children[p + 1 + j];
  }

  /** The bounds of the children of the halves of a split at `p` are those the children had in the node. */
  lemma CutBounds(ks: seq<int>, lo: Option<int>, hi: Option<int>, p: int, j: int)
    requires 0 <= p < |ks| && 0 <= j
    ensures j <= p ==> BPlusTree.LoOf(ks[..p], lo, j) == BPlusTree.LoOf(ks, lo, j)
    ensures j <= p ==> BPlusTree.HiOf(ks[..p], Some(ks[p]), j) == BPlusTree.HiOf(ks, hi, j)
    ensures p + 1 + j <= |ks| ==> BPlusTree.LoOf(ks[p + 1..], Some(ks[p]), j) == BPlusTree.LoOf(ks, lo, p + 1 + j)
    ensures p + 1 + j <= |ks| ==> BPlusTree.HiOf(ks[p + 1..], hi, j) == BPlusTree.HiOf(ks, hi, p + 1 + j)
  {
  }

  /** The keys before position `p` are increasing and lie between `lo` and the key at `p`; those after it, between that key and `hi`. */
  lemma CutKeys(ks: seq<int>, lo: Option<int>, hi: Option<int>, p: int)
    requires BinarySearch.StrictlySorted(ks) && forall j :: 0 <= j < |ks| ==> Above(lo, ks[j]) && Below(hi, ks[j])
    requires 0 <= p < |ks|
    ensures BinarySearch.StrictlySorted(ks[..p]) && BinarySearch.StrictlySorted(ks[p + 1..])
    ensures forall j :: 0 <= j < p ==> Above(lo, ks[j]) && Below(Some(ks[p]), ks[j])
    ensures forall j :: p < j < |ks| ==> Above(Some(ks[p]), ks[j]) && Below(hi, ks[j])
    ensures Above(lo, ks[p]) && Below(hi, ks[p])
  {
  }

  /** The children of the left half keep their bounds. */
  lemma CutLeftChildren<V>(ks: seq<int>, cs: seq<Node<V>>, lo: Option<int>, hi: Option<int>, p: int)
    requires 0 <= p < |ks| && |cs| == |ks| + 1
    requires forall j :: 0 <= j < |cs| ==> Ordered(cs[j], BPlusTree.LoOf(ks, lo, j), BPlusTree.HiOf(ks, hi, j))
    ensures forall j :: 0 <= j <= p ==> Ordered(cs[j], BPlusTree.LoOf(ks[..p], lo, j), BPlusTree.HiOf(ks[..p], Some(ks[p]), j))
  {
    forall j | 0 <= j <= p
      ensures Ordered(cs[j], BPlusTree.LoOf(ks[..p], lo, j), BPlusTree.HiOf(ks[..p], Some(ks[p]), j))
    {
      CutBounds(ks, lo, hi, p, j);
    }
  }

  /** The children of the right half keep their bounds. */
  lemma CutRightChildren<V>(ks: seq<int>, cs: seq<Node<V>>, lo: Option<int>, hi: Option<int>, p: int)
    requires 0 <= p < |ks| && |cs| == |ks| + 1
    requires forall j :: 0 <= j < |cs| ==> Ordered(cs[j], BPlusTree.LoOf(ks, lo, j), BPlusTree.HiOf(ks, hi, j))
    ensures forall j :: p < j < |cs| ==> Ordered(cs[j], BPlusTree.LoOf(ks[p + 1..], Some(ks[p]), j - p - 1), BPlusTree.HiOf(ks[p + 1..], hi, j - p - 1))
  {
    forall j | p < j < |cs|
      ensures Ordered(cs[j], BPlusTree.LoOf(ks[p + 1..], Some(ks[p]), j - p - 1), BPlusTree.HiOf(ks[p + 1..], hi, j - p - 1))
    {
      CutBounds(ks, lo, hi, p, j - p - 1);
    }
  }

  /** The halves of an ordered node are ordered, the left below the pivot and the right above it, and the pivot is within the node's bounds. */
  lemma SplitOrdered<V>(m: Node<V>, lo: Option<int>, hi: Option<int>)
    requires WF(m) && Ordered(m, lo, hi) && |m.keys| >= 1
    ensures var s := SplitNode(m);
      Ordered(s.left, lo, Some(s.pivotKey)) && Ordered(s.right, Some(s.pivotKey), hi)
      && Above(lo, s.pivotKey) && Below(hi, s.pivotKey)
  {
    var s, p := SplitNode(m), |m.keys| / 2;
    var ks, vs, cs := m.keys, m.values, m.children;
    CutKeys(ks, lo, hi, p);
    if IsLeaf(m) {
      assert s.left == Node(ks[..p], vs[..p], []) && s.right == Node(ks[p + 1..], vs[p + 1..], []);
    } else {
      assert s.left == Node(ks[..p], vs[..p], cs[..p + 1]) && s.right == Node(ks[p + 1..], vs[p + 1..], cs[p + 1..]);
      CutLeftChildren(ks, cs, lo, hi, p);
      CutRightChildren(ks, cs, lo, hi, p);
      assert forall j :: 0 <= j < |s.right.children| ==> s.right.children[j] == cs[p + 1 + j];
    }
  }

  /** A node one key over capacity, its children within bounds, splits into two halves within bounds. */
  lemma SplitSized<V>(m: Node<V>)
    requires Shaped(m) && |m.keys| == MaxKeys + 1 && forall j :: 0 <= j < |m.children| ==> Sized(m.children[j], false)
    ensures var s := SplitNode(m);
      Sized(s.left, false) && Sized(s.right, false)
  {
    var s := SplitNode(m);
    var p := |m.keys| / 2;
    assert forall j :: 0 <= j < |s.left.children| ==> s.left.children[j] == m.children[j];
    assert forall j :: 0 <= j < |s.right.children| ==> s.right.children[j] == m.children[p + 1 + j];
  }

  // ---------------------------------------------------------------- a child replaced or split in place

  /** The parts of a node whose child `i` is replaced: only part `i` changes. */
  lemma ReplaceParts<V>(ks: seq<int>, vs: seq<V>, cs: seq<Node<V>>, i: int, m: Node<V>)
    requires 0 <= i < |cs|
    ensures var ps, qs := Parts(ks, vs, cs), Parts(ks, vs, cs[i := m]);
      qs[..i] == ps[..i] && qs[i] == Entries(m) + Sep(ks, vs, i) && qs[i + 1..] == ps[i + 1..]
  {
  }

  /** The entries of a node whose child `i` is replaced by `m`: the child's entries give way to `m`'s. */
  lemma ReplaceEntries<V>(ks: seq<int>, vs: seq<V>, cs: seq<Node<V>>, i: int, m: Node<V>)
    requires 0 <= i < |cs|
    ensures Entries(Node(ks, vs, cs[i := m]))
      == Flatten(Parts(ks, vs, cs)[..i]) + Entries(m) + (Sep(ks, vs, i) + Flatten(Parts(ks, vs, cs)[i + 1..]))
  {
    ReplaceParts(ks, vs, cs, i, m);
    Around(ks, vs, cs[i := m], i);
  }

  /** The node after the pivot enters at key position `i` and the halves take the place of child `i`. */
  function Spliced<V>(ks: seq<int>, vs: seq<V>, cs: seq<Node<V>>, i: int, s: Split<V>): (r: Node<V>)
    requires 0 <= i <= |ks| && i <= |vs| && i < |cs|
    ensures |r.keys| == |ks| + 1 && |r.children| == |cs| + 1
  {
    Node(ks[..i] + [s.pivotKey] + ks[i..], vs[..i] + [s.pivotVal] + vs[i..], cs[..i] + [s.left, s.right] + cs[i + 1..])
  }

  /** The parts of a spliced node: part `i` splits into the left half with the pivot, and the right half with the key after child `i`. */
  lemma SplicedParts<V>(ks: seq<int>, vs: seq<V>, cs: seq<Node<V>>, i: int, s: Split<V>)
    requires |vs| == |ks| && |cs| == |ks| + 1 && 0 <= i < |cs|
    ensures var ps, n := Parts(ks, vs, cs), Spliced(ks, vs, cs, i, s);
      Parts(n.keys, n.values, n.children)
        == ps[..i] + [Entries(s.left) + [Entry(s.pivotKey, s.pivotVal)], Entries(s.right) + Sep(ks, vs, i)] + ps[i + 1..]
  {
    var ps, n := Parts(ks, vs, cs), Spliced(ks, vs, cs, i, s);
    var qs := Parts(n.keys, n.values, n.children);
    var want := ps[..i] + [Entries(s.left) + [Entry(s.pivotKey, s.pivotVal)], Entries(s.right) + Sep(ks, vs, i)] + ps[i + 1..];
    forall j | 0 <= j < |qs| ensures qs[j] == want[j] {
      if j < i {
        assert Sep(n.keys, n.values, j) == Sep(ks, vs, j);
      } else if j == i {
        assert Sep(n.keys, n.values, j) == [Entry(s.pivotKey, s.pivotVal)];
      } else if j == i + 1 {
        assert Sep(n.keys, n.values, j) == Sep(ks, vs, i);
      } else {
        assert n.children[j] == cs[j - 1];
        assert Sep(n.keys, n.values, j) == Sep(ks, vs, j - 1);
      }
    }
  }

  /** The entries of a spliced node: the halves with the pivot between them in place of child `i`'s entries. */
  lemma SplicedEntries<V>(ks: seq<int>, vs: seq<V>, cs: seq<Node<V>>, i: int, s: Split<V>)
    requires |vs| == |ks| && |cs| == |ks| + 1 && 0 <= i < |cs|
    ensures Entries(Spliced(ks, vs, cs, i, s))
      == Flatten(Parts(ks, vs, cs)[..i]) + (Entries(s.left) + [Entry(s.pivotKey, s.pivotVal)] + Entries(s.right))
        + (Sep(ks, vs, i) + Flatten(Parts(ks, vs, cs)[i + 1..]))
  {
    var ps, n := Parts(ks, vs, cs), Spliced(ks, vs, cs, i, s);
    var x, y := Entries(s.left) + [Entry(s.pivotKey, s.pivotVal)], Entries(s.right) + Sep(ks, vs, i);
    SplicedParts(ks, vs, cs, i, s);
    EntriesInternal(n.keys, n.values, n.children);
    FlattenThree(ps[..i], [x, y], ps[i + 1..]);
    FlattenPair(x, y);
  }

  /** A key between the neighbours of position `i` keeps the keys increasing and within the bounds when it enters there. */
  lemma SplicedKeys(ks: seq<int>, lo: Option<int>, hi: Option<int>, i: int, x: int)
    requires BinarySearch.StrictlySorted(ks) && forall j :: 0 <= j < |ks| ==> Above(lo, ks[j]) && Below(hi, ks[j])
    requires 0 <= i <= |ks| && Above(BPlusTree.LoOf(ks, lo, i), x) && Below(BPlusTree.HiOf(ks, hi, i), x)
    ensures var nk := ks[..i] + [x] + ks[i..];
      BinarySearch.StrictlySorted(nk) && forall j :: 0 <= j < |nk| ==> Above(lo, nk[j]) && Below(hi, nk[j])
  {
    ChildWithin(ks, lo, hi, i, x);
  }

  /** The bounds of the children after key `x` enters at position `i`: those before are unchanged, the two at `i` meet at `x`, those after shift by one. */
  lemma SplicedBounds(ks: seq<int>, lo: Option<int>, hi: Option<int>, i: int, x: int, j: int)
    requires 0 <= i <= |ks| && 0 <= j <= |ks| + 1
    ensures var nk := ks[..i] + [x] + ks[i..];
      (j <= i ==> BPlusTree.LoOf(nk, lo, j) == BPlusTree.LoOf(ks, lo, j))
      && (j < i ==> BPlusTree.HiOf(nk, hi, j) == BPlusTree.HiOf(ks, hi, j))
      && (j == i ==> BPlusTree.HiOf(nk, hi, j) == Some(x))
      && (j == i + 1 ==> BPlusTree.LoOf(nk, lo, j) == Some(x))
      && (j > i ==> BPlusTree.HiOf(nk, hi, j) == BPlusTree.HiOf(ks, hi, j - 1))
      && (j > i + 1 ==> BPlusTree.LoOf(nk, lo, j) == BPlusTree.LoOf(ks, lo, j - 1))
  {
  }

  /** A spliced node is ordered when the pivot and the halves fit where child `i` was, the pivot between them. */
  lemma SplicedOrdered<V>(ks: seq<int>, vs: seq<V>, cs: seq<Node<V>>, lo: Option<int>, hi: Option<int>, i: int, s: Split<V>)
    requires Ordered(Node(ks, vs, cs), lo, hi) && |vs| == |ks| && |cs| == |ks| + 1 && 0 <= i < |cs|
    requires Above(BPlusTree.LoOf(ks, lo, i), s.pivotKey) && Below(BPlusTree.HiOf(ks, hi, i), s.pivotKey)
    requires Ordered(s.left, BPlusTree.LoOf(ks, lo, i), Some(s.pivotKey))
    requires Ordered(s.right, Some(s.pivotKey), BPlusTree.HiOf(ks, hi, i))
    ensures Ordered(Spliced(ks, vs, cs, i, s), lo, hi)
  {
    var n := Spliced(ks, vs, cs, i, s);
    SplicedKeys(ks, lo, hi, i, s.pivotKey);
    forall j | 0 <= j < |n.children| ensures Ordered(n.children[j], BPlusTree.LoOf(n.keys, lo, j), BPlusTree.HiOf(n.keys, hi, j)) {
      SplicedBounds(ks, lo, hi, i, s.pivotKey, j);
      if j < i {
        assert n.children[j] == cs[j];
      } else if j > i + 1 {
        assert n.children[j] == cs[j - 1];
      }
    }
  }

  /** A spliced node is well-formed and `h` high, within bounds below its root, when the halves are, one level down. */
  lemma SplicedShape<V>(ks: seq<int>, vs: seq<V>, cs: seq<Node<V>>, h: int, i: int, s: Split<V>)
    requires WF(Node(ks, vs, cs)) && HasHeight(Node(ks, vs, cs), h) && |cs| == |ks| + 1 && 0 <= i < |cs|
    requires WF(s.left) && WF(s.right) && HasHeight(s.left, h - 1) && HasHeight(s.right, h - 1)
    requires forall j :: 0 <= j < |cs| ==> Sized(cs[j], false)
    requires Sized(s.left, false) && Sized(s.right, false)
    ensures var n := Spliced(ks, vs, cs, i, s);
      WF(n) && HasHeight(n, h) && forall j :: 0 <= j < |n.children| ==> Sized(n.children[j], false)
  {
    var n := Spliced(ks, vs, cs, i, s);
    assert forall j :: 0 <= j < |n.children| ==> n.children[j] == if j < i then cs[j] else if j == i then s.left else if j == i + 1 then s.right else cs[j - 1];
  }

  // ---------------------------------------------------------------- insertion, one level at a time

  /** What insertion asks of a subtree: the invariant's parts, room for `k` between the bounds, and `k` not yet present. */
  ghost predicate Fits<V>(n: Node<V>, k: int, lo: Option<int>, hi: Option<int>, h: int)
  {
    WF(n) && HasHeight(n, h) && Ordered(n, lo, hi) && Sized(n, true)
    && Above(lo, k) && Below(hi, k) && !HasKey(Entries(n), k)
  }

  /**
   * What insertion gives back for a subtree: the same shape, height and
   * bounds, the entries with the new one added, and at most one key over
   * capacity at the top, none once the climb has settled.
   */
  ghost predicate Grew<V>(n: Node<V>, r: Carry<V>, k: int, v: V, lo: Option<int>, hi: Option<int>, h: int)
  {
    WF(r.node) && HasHeight(r.node, h) && Ordered(r.node, lo, hi)
    && Entries(r.node) == InsertEntry(Entries(n), k, v)
    && 1 <= |r.node.keys| <= MaxKeys + 1 && (r.Settled? ==> |r.node.keys| <= MaxKeys)
    && forall j :: 0 <= j < |r.node.children| ==> Sized(r.node.children[j], false)
  }

  /** A subtree within bounds below the root is within the root's looser bounds. */
  lemma SizedAsRoot<V>(n: Node<V>)
    requires Sized(n, false)
    ensures Sized(n, true)
  {
  }

  /** A key of an internal node is among its entries. */
  lemma KeyInEntries<V>(ks: seq<int>, vs: seq<V>, cs: seq<Node<V>>, j: int)
    requires |vs| == |ks| && |cs| == |ks| + 1 && 0 <= j < |ks|
    ensures HasKey(Entries(Node(ks, vs, cs)), ks[j])
  {
    Around(ks, vs, cs, j);
    var e := Entry(ks[j], vs[j]);
    assert Sep(ks, vs, j) == [e];
    assert e in Entries(Node(ks, vs, cs));
  }

  /** Where insertion goes down an internal node: `k` is not one of its keys, and the child at the search position fits `k`. */
  lemma DescendFits<V>(ks: seq<int>, vs: seq<V>, cs: seq<Node<V>>, k: int, lo: Option<int>, hi: Option<int>, h: int)
    requires Fits(Node(ks, vs, cs), k, lo, hi, h) && |cs| > 0
    ensures var i := BinarySearch.Search(ks, k);
      k !in ks && i < |cs| && Fits(cs[i], k, BPlusTree.LoOf(ks, lo, i), BPlusTree.HiOf(ks, hi, i), h - 1)
  {
    var i := BinarySearch.Search(ks, k);
    if k in ks {
      var j :| 0 <= j < |ks| && ks[j] == k;
      KeyInEntries(ks, vs, cs, j);
      assert false;
    }
    Around(ks, vs, cs, i);
    SizedAsRoot(cs[i]);
  }

  /** Inserting into child `i` of an ordered node inserts into the node's entries at that child, all before it being smaller and all after it larger. */
  lemma ChildInsert<V>(ks: seq<int>, vs: seq<V>, cs: seq<Node<V>>, k: int, v: V)
    requires Frame(ks, vs, cs) && k !in ks
    ensures var i, ps := BinarySearch.Search(ks, k), Parts(ks, vs, cs);
      i < |cs|
      && InsertEntry(Entries(Node(ks, vs, cs)), k, v)
        == Flatten(ps[..i]) + InsertEntry(Entries(cs[i]), k, v) + (Sep(ks, vs, i) + Flatten(ps[i + 1..]))
  {
    var i, ps := BinarySearch.Search(ks, k), Parts(ks, vs, cs);
    Around(ks, vs, cs, i);
    PrefixBelow(ks, ps, i, k);
    SuffixAbove(ks, ps, i, k);
    InsertEntryMiddle(Flatten(ps[..i]), Entries(cs[i]), Sep(ks, vs, i) + Flatten(ps[i + 1..]), k, v);
  }

  /** Insertion into a leaf: the entry goes in, the keys stay increasing and within the bounds. */
  lemma LeafGrew<V>(n: Node<V>, k: int, v: V, lo: Option<int>, hi: Option<int>, h: int)
    requires Fits(n, k, lo, hi, h) && |n.children| == 0
    ensures Grew(n, Pending(InsertLeafNode(n, k, v)), k, v, lo, hi, h)
  {
    var r := InsertLeafNode(n, k, v);
    InsertEntryContents(Zip(n.keys, n.values), k, v);
    EntriesWithin(n, lo, hi);
    forall j | 0 <= j < |r.keys| ensures Above(lo, r.keys[j]) && Below(hi, r.keys[j]) {
      assert Zip(r.keys, r.values)[j] in InsertEntry(Zip(n.keys, n.values), k, v);
    }
  }

  /** A node within capacity whose children are within bounds is within bounds itself. */
  lemma SizedFromParts<V>(m: Node<V>)
    requires 1 <= |m.keys| <= MaxKeys && forall j :: 0 <= j < |m.children| ==> Sized(m.children[j], false)
    ensures Sized(m, false)
  {
  }

  /** Replacing child `i` by a node of the same height and bounds keeps the node well-formed, as high, ordered and its children within bounds. */
  lemma ReplaceShape<V>(ks: seq<int>, vs: seq<V>, cs: seq<Node<V>>, lo: Option<int>, hi: Option<int>, h: int, i: int, m: Node<V>)
    requires WF(Node(ks, vs, cs)) && HasHeight(Node(ks, vs, cs), h) && Ordered(Node(ks, vs, cs), lo, hi) && Sized(Node(ks, vs, cs), true)
    requires 0 <= i < |cs| && WF(m) && HasHeight(m, h - 1) && Ordered(m, BPlusTree.LoOf(ks, lo, i), BPlusTree.HiOf(ks, hi, i)) && Sized(m, false)
    ensures var n := Node(ks, vs, cs[i := m]);
      WF(n) && HasHeight(n, h) && Ordered(n, lo, hi) && forall j :: 0 <= j < |n.children| ==> Sized(n.children[j], false)
  {
  }

  /** Inserting into the child at the search position inserts into the node. */
  lemma ReplaceInserts<V>(ks: seq<int>, vs: seq<V>, cs: seq<Node<V>>, k: int, v: V, lo: Option<int>, hi: Option<int>, h: int, m: Node<V>)
    requires Fits(Node(ks, vs, cs), k, lo, hi, h) && |vs| == |ks| >= 1 && |cs| == |ks| + 1
    requires Entries(m) == InsertEntry(Entries(cs[BinarySearch.Search(ks, k)]), k, v)
    ensures Entries(Node(ks, vs, cs[BinarySearch.Search(ks, k) := m])) == InsertEntry(Entries(Node(ks, vs, cs)), k, v)
  {
    var i := BinarySearch.Search(ks, k);
    DescendFits(ks, vs, cs, k, lo, hi, h);
    NodeFrame(ks, vs, cs, lo, hi);
    ChildInsert(ks, vs, cs, k, v);
    ReplaceEntries(ks, vs, cs, i, m);
  }

  /** Inserting into the child at the search position and splitting it there inserts into the node. */
  lemma SplitInserts<V>(ks: seq<int>, vs: seq<V>, cs: seq<Node<V>>, k: int, v: V, lo: Option<int>, hi: Option<int>, h: int, m: Node<V>)
    requires Fits(Node(ks, vs, cs), k, lo, hi, h) && |vs| == |ks| >= 1 && |cs| == |ks| + 1
    requires Shaped(m) && |m.keys| >= 1 && Entries(m) == InsertEntry(Entries(cs[BinarySearch.Search(ks, k)]), k, v)
    ensures Entries(Spliced(ks, vs, cs, BinarySearch.Search(ks, k), SplitNode(m))) == InsertEntry(Entries(Node(ks, vs, cs)), k, v)
  {
    var i := BinarySearch.Search(ks, k);
    DescendFits(ks, vs, cs, k, lo, hi, h);
    NodeFrame(ks, vs, cs, lo, hi);
    ChildInsert(ks, vs, cs, k, v);
    SplitEntries(m);
    SplicedEntries(ks, vs, cs, i, SplitNode(m));
  }

  /** Lifting a child that needs no split: the parent takes it in place and settles. */
  lemma LiftReplace<V>(ks: seq<int>, vs: seq<V>, cs: seq<Node<V>>, k: int, v: V, lo: Option<int>, hi: Option<int>, h: int, sub: Carry<V>)
    requires Fits(Node(ks, vs, cs), k, lo, hi, h) && |vs| == |ks| >= 1 && |cs| == |ks| + 1
    requires var i := BinarySearch.Search(ks, k);
      i < |cs| && Grew(cs[i], sub, k, v, BPlusTree.LoOf(ks, lo, i), BPlusTree.HiOf(ks, hi, i), h - 1)
    requires sub.Settled? || !Overflows(sub.node)
    ensures var i := BinarySearch.Search(ks, k);
      Grew(Node(ks, vs, cs), Settled(Node(ks, vs, cs[i := sub.node])), k, v, lo, hi, h)
  {
    var i, m := BinarySearch.Search(ks, k), sub.node;
    ReplaceInserts(ks, vs, cs, k, v, lo, hi, h, m);
    SizedFromParts(m);
    ReplaceShape(ks, vs, cs, lo, hi, h, i, m);
  }

  /** A key strictly between the bounds of child `i` has its search position at `i`. */
  lemma SearchBetween(ks: seq<int>, lo: Option<int>, hi: Option<int>, i: int, x: int)
    requires BinarySearch.StrictlySorted(ks) && 0 <= i <= |ks|
    requires Above(BPlusTree.LoOf(ks, lo, i), x) && Below(BPlusTree.HiOf(ks, hi, i), x)
    ensures BinarySearch.Search(ks, x) == i
  {
    BinarySearch.SearchFindsInsertionPoint(ks, x, i);
  }

  /** The parent `insert_child_node` builds around a split child `i` is the spliced node: the pivot lands at position `i`. */
  lemma SplitLands<V>(ks: seq<int>, vs: seq<V>, cs: seq<Node<V>>, lo: Option<int>, hi: Option<int>, i: int, m: Node<V>)
    requires BinarySearch.StrictlySorted(ks) && |vs| == |ks| >= 1 && |cs| == |ks| + 1 && 0 <= i < |cs|
    requires WF(m) && |m.keys| >= 1 && Ordered(m, BPlusTree.LoOf(ks, lo, i), BPlusTree.HiOf(ks, hi, i))
    ensures var s := SplitNode(m);
      InsertChildNode(Node(ks, vs, cs[i := m]), s.pivotKey, s.pivotVal, s.left, s.right) == Spliced(ks, vs, cs, i, s)
  {
    var s := SplitNode(m);
    SplitOrdered(m, BPlusTree.LoOf(ks, lo, i), BPlusTree.HiOf(ks, hi, i));
    SearchBetween(ks, lo, hi, i, s.pivotKey);
    assert cs[i := m][..i] == cs[..i] && cs[i := m][i + 1..] == cs[i + 1..];
  }

  /** Splitting child `i`, one key over capacity, into the parent keeps the parent well-formed, as high and ordered, and its children within bounds. */
  lemma SplitUp<V>(ks: seq<int>, vs: seq<V>, cs: seq<Node<V>>, lo: Option<int>, hi: Option<int>, h: int, i: int, m: Node<V>)
    requires WF(Node(ks, vs, cs)) && HasHeight(Node(ks, vs, cs), h) && Ordered(Node(ks, vs, cs), lo, hi) && Sized(Node(ks, vs, cs), true)
    requires |vs| == |ks| && |cs| == |ks| + 1 && 0 <= i < |cs|
    requires WF(m) && HasHeight(m, h - 1) && Ordered(m, BPlusTree.LoOf(ks, lo, i), BPlusTree.HiOf(ks, hi, i))
    requires |m.keys| == MaxKeys + 1 && forall j :: 0 <= j < |m.children| ==> Sized(m.children[j], false)
    ensures var n := Spliced(ks, vs, cs, i, SplitNode(m));
      WF(n) && HasHeight(n, h) && Ordered(n, lo, hi) && forall j :: 0 <= j < |n.children| ==> Sized(n.children[j], false)
  {
    var s := SplitNode(m);
    SplitOrdered(m, BPlusTree.LoOf(ks, lo, i), BPlusTree.HiOf(ks, hi, i));
    SplitShape(m, h - 1);
    SplitSized(m);
    SplicedShape(ks, vs, cs, h, i, s);
    SplicedOrdered(ks, vs, cs, lo, hi, i, s);
  }

  /** Lifting a child one key over capacity: it splits, and the parent takes the pivot and both halves, possibly overflowing in turn. */
  lemma LiftSplit<V>(ks: seq<int>, vs: seq<V>, cs: seq<Node<V>>, k: int, v: V, lo: Option<int>, hi: Option<int>, h: int, sub: Carry<V>)
    requires Fits(Node(ks, vs, cs), k, lo, hi, h) && |vs| == |ks| >= 1 && |cs| == |ks| + 1
    requires var i := BinarySearch.Search(ks, k);
      i < |cs| && Grew(cs[i], sub, k, v, BPlusTree.LoOf(ks, lo, i), BPlusTree.HiOf(ks, hi, i), h - 1)
    requires sub.Pending? && Overflows(sub.node)
    ensures var i, m := BinarySearch.Search(ks, k), sub.node;
      var s := SplitNode(m);
      Grew(Node(ks, vs, cs), Pending(InsertChildNode(Node(ks, vs, cs[i := m]), s.pivotKey, s.pivotVal, s.left, s.right)), k, v, lo, hi, h)
  {
    var i, m := BinarySearch.Search(ks, k), sub.node;
    SplitLands(ks, vs, cs, lo, hi, i, m);
    SplitInserts(ks, vs, cs, k, v, lo, hi, h, m);
    SplitUp(ks, vs, cs, lo, hi, h, i, m);
  }

  /** The recursive insertion of a fresh key keeps every part of the invariant below the top and adds exactly the new entry. */
  lemma {:induction false} InsertRecCorrect<V>(n: Node<V>, k: int, v: V, lo: Option<int>, hi: Option<int>, h: int)
    requires Fits(n, k, lo, hi, h)
    ensures Grew(n, InsertRec(n, k, v), k, v, lo, hi, h)
    decreases n
  {
    match n
    case Node(ks, vs, cs) =>
      if |ks| == 0 || |cs| == 0 {
        LeafGrew(n, k, v, lo, hi, h);
      } else {
        var i := BinarySearch.Search(ks, k);
        DescendFits(ks, vs, cs, k, lo, hi, h);
        InsertRecCorrect(cs[i], k, v, BPlusTree.LoOf(ks, lo, i), BPlusTree.HiOf(ks, hi, i), h - 1);
        var sub := InsertRec(cs[i], k, v);
        if sub.Settled? || !Overflows(sub.node) {
          LiftReplace(ks, vs, cs, k, v, lo, hi, h, sub);
        } else {
          LiftSplit(ks, vs, cs, k, v, lo, hi, h, sub);
        }
      }
  }

  /** The entries of a new root over a split are the split node's. */
  lemma NewRootEntries<V>(m: Node<V>)
    requires Shaped(m) && |m.keys| >= 1
    ensures Entries(NewRoot(SplitNode(m))) == Entries(m)
  {
    var s := SplitNode(m);
    var x, y := Entries(s.left) + [Entry(s.pivotKey, s.pivotVal)], Entries(s.right);
    assert Parts([s.pivotKey], [s.pivotVal], [s.left, s.right]) == [x, y + []];
    EntriesInternal([s.pivotKey], [s.pivotVal], [s.left, s.right]);
    FlattenPair(x, y + []);
    SplitEntries(m);
  }

  /** A root with one key over two subtrees of equal height, each within its side of the key, meets the invariant one level higher. */
  lemma TwoChildRoot<V>(pk: int, pv: V, l: Node<V>, r: Node<V>, h: int)
    requires WF(l) && WF(r) && HasHeight(l, h) && HasHeight(r, h)
    requires Ordered(l, None, Some(pk)) && Ordered(r, Some(pk), None) && Sized(l, false) && Sized(r, false)
    ensures Inv(Node([pk], [pv], [l, r]), h + 1)
  {
    var n := Node([pk], [pv], [l, r]);
    assert BPlusTree.LoOf([pk], None, 1) == Some(pk) && BPlusTree.HiOf([pk], None, 0) == Some(pk);
    assert HasHeight(l, h) ==> h >= 1;
  }

  /** A new root over the halves of a node one key over capacity meets the invariant one level higher. */
  lemma NewRootInv<V>(m: Node<V>, h: int)
    requires WF(m) && HasHeight(m, h) && Ordered(m, None, None)
    requires |m.keys| == MaxKeys + 1 && forall j :: 0 <= j < |m.children| ==> Sized(m.children[j], false)
    ensures Inv(NewRoot(SplitNode(m)), h + 1)
  {
    var s := SplitNode(m);
    assert WF(s.left) && WF(s.right) && HasHeight(s.left, h) && HasHeight(s.right, h) by {
      SplitShape(m, h);
    }
    assert Sized(s.left, false) && Sized(s.right, false) by {
      SplitSized(m);
    }
    assert Ordered(s.left, None, Some(s.pivotKey)) && Ordered(s.right, Some(s.pivotKey), None) by {
      SplitOrdered(m, None, None);
    }
    TwoChildRoot(s.pivotKey, s.pivotVal, s.left, s.right, h);
  }

  /** The root step: a settled or small enough root is the tree; a root one key over capacity gives a new root, one level higher. */
  lemma FinishCorrect<V>(n: Node<V>, c: Carry<V>, k: int, v: V, h: int)
    requires Grew(n, c, k, v, None, None, h)
    ensures var g := Finish(c);
      Inv(g.root, if g.grew then h + 1 else h) && Entries(g.root) == InsertEntry(Entries(n), k, v)
  {
    if c.Pending? && Overflows(c.node) {
      NewRootEntries(c.node);
      NewRootInv(c.node, h);
    } else {
      SizedFromParts(c.node);
      SizedAsRoot(c.node);
    }
  }

  // ---------------------------------------------------------------- the whole insertion

  /**
   * btree.ts `insert` of a key not in the tree: the result meets the
   * invariant at the old height or one level higher (`FinishCorrect` says
   * which: higher exactly when the root split), and its entries are the old
   * ones with the new entry added in key order.
   */
  lemma InsertCorrect<V>(root: Node<V>, k: int, v: V, h: int)
    requires Inv(root, h) && !HasKey(Entries(root), k)
    ensures var r := Insert(root, k, v);
      (Inv(r, h) || Inv(r, h + 1)) && Entries(r) == InsertEntry(Entries(root), k, v)
  {
    InsertIsInsertRec(root, k, v);
    InsertRecCorrect(root, k, v, None, None, h);
    FinishCorrect(root, InsertRec(root, k, v), k, v, h);
  }

  /** After inserting a key not in the tree, searching finds the new value under the new key and what it found before under every other key. */
  lemma InsertThenSearch<V>(root: Node<V>, k: int, v: V, h: int, k': int)
    requires Inv(root, h) && FoundValue(SearchNode(root, k)) == None
    ensures var r := Insert(root, k, v);
      (Inv(r, h) || Inv(r, h + 1))
      && FoundValue(SearchNode(r, k')) == if k' == k then Some(v) else FoundValue(SearchNode(root, k'))
  {
    SearchIsLookup(root, k, None, None);
    InsertCorrect(root, k, v, h);
    var r := Insert(root, k, v);
    SearchIsLookup(r, k', None, None);
    SearchIsLookup(root, k', None, None);
    LookupInsert(Entries(root), k, v, k');
  }

  // ---------------------------------------------------------------- building a tree

  /** The number of levels, read down the first children. */
  function Height<V>(n: Node<V>): int
    decreases n
  {
    if |n.children| == 0 then 1 else 1 + Height(n.children[0])
  }

  /** A tree with all leaves `h` levels down is `h` levels high. */
  lemma {:induction false} HeightOf<V>(n: Node<V>, h: int)
    requires HasHeight(n, h)
    ensures Height(n) == h
    decreases n
  {
    if |n.children| > 0 {
      HeightOf(n.children[0], h - 1);
    }
  }

  /** The invariant at the tree's own height. */
  predicate Valid<V>(n: Node<V>)
  {
    Inv(n, Height(n))
  }

  /** No two entries share a key. */
  predicate DistinctKeys<V>(ps: seq<Entry<V>>)
  {
    forall i, j :: 0 <= i < j < |ps| ==> ps[i].key != ps[j].key
  }

  /** One step of building a tree: inserting a fresh entry into a tree mapping keys as `pre` does gives a tree mapping them as `pre + [e]`. */
  lemma InsertAllStep<V>(t: Node<V>, pre: seq<Entry<V>>, e: Entry<V>)
    requires Valid(t) && !HasKey(pre, e.key)
    requires forall k :: Lookup(Entries(t), k) == Lookup(pre, k)
    ensures Valid(Insert(t, e.key, e.value))
    ensures forall k :: Lookup(Entries(Insert(t, e.key, e.value)), k) == Lookup(pre + [e], k)
  {
    var h := Height(t);
    assert Lookup(Entries(t), e.key) == None;
    InsertCorrect(t, e.key, e.value, h);
    var r := Insert(t, e.key, e.value);
    if Inv(r, h) {
      HeightOf(r, h);
    } else {
      HeightOf(r, h + 1);
    }
    forall k ensures Lookup(Entries(r), k) == Lookup(pre + [e], k) {
      LookupInsert(Entries(t), e.key, e.value, k);
      LookupAppend(pre, [e], k);
    }
  }

  /**
   * The tree the tests of btree.ts build: the entries inserted one after the
   * other into an empty root. It meets the invariant and maps every key as
   * the entries do.
   */
  function InsertAll<V>(ps: seq<Entry<V>>): (r: Node<V>)
    requires DistinctKeys(ps)
    ensures Valid(r)
    ensures forall k :: Lookup(Entries(r), k) == Lookup(ps, k)
    decreases |ps|
  {
    if |ps| == 0 then EmptyNode()
    else
      var pre, e := ps[..|ps| - 1], ps[|ps| - 1];
      assert ps == pre + [e];
      assert !HasKey(pre, e.key) by {
        forall x | x in pre ensures x.key != e.key {
          var i :| 0 <= i < |pre| && pre[i] == x;
          assert ps[i] == x;
        }
      }
      var t := InsertAll(pre);
      InsertAllStep(t, pre, e);
      Insert(t, e.key, e.value)
  }

  /** With distinct keys, an entry's key looks up its value. */
  lemma {:induction false} LookupDistinct<V>(ps: seq<Entry<V>>, j: int)
    requires DistinctKeys(ps) && 0 <= j < |ps|
    ensures Lookup(ps, ps[j].key) == Some(ps[j].value)
  {
    if j > 0 {
      assert ps[1..][j - 1] == ps[j];
      LookupDistinct(ps[1..], j - 1);
    }
  }

  /** In the tree built from distinct entries, searching any key finds its value and searching any other key finds nothing. */
  lemma InsertAllSearch<V>(ps: seq<Entry<V>>, k: int)
    requires DistinctKeys(ps)
    ensures FoundValue(SearchNode(InsertAll(ps), k)) == Lookup(ps, k)
    ensures forall j :: 0 <= j < |ps| && ps[j].key == k ==> FoundValue(SearchNode(InsertAll(ps), k)) == Some(ps[j].value)
    ensures (forall j :: 0 <= j < |ps| ==> ps[j].key != k) ==> FoundValue(SearchNode(InsertAll(ps), k)) == None
  {
    var r := InsertAll(ps);
    SearchIsLookup(r, k, None, None);
    forall j | 0 <= j < |ps| && ps[j].key == k ensures Lookup(ps, k) == Some(ps[j].value) {
      LookupDistinct(ps, j);
    }
  }
}
