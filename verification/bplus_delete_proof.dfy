/**
 * Correctness of deletion: `DeleteKey` on a tree meeting the invariant always
 * succeeds, keeps the invariant and removes exactly the key's entry. The
 * proof runs over the recursive form `DeleteRec`, one level at a time; at each
 * level it shows that a steal and a merge each keep the entries, the order
 * and the bounds.
 */
module BPlusDeleteProof {
  import opened Wrappers
  import opened Seqs
  import BinarySearch
  import opened OrderedMap
  import opened BPlusTree
  import opened BPlusDelete
  import BPlusInsertProof

  /**
   * `Sized`, except that the node itself may be one key under its minimum,
   * and an internal root may have no key left: the state of a node that has
   * just lost a key.
   */
  predicate Lean<V>(cfg: Config, n: Node<V>, isRoot: bool)
  {
    match n
    case Leaf(ks, _) => |ks| <= cfg.maxLeaf && (isRoot || |ks| >= cfg.minLeaf - 1)
    case Internal(ks, cs) =>
      |ks| <= cfg.maxInner && (isRoot || |ks| >= cfg.minInner - 1)
      && forall i :: 0 <= i < |cs| ==> Sized(cfg, cs[i], false)
  }

  lemma SizedLean<V>(cfg: Config, n: Node<V>, isRoot: bool)
    requires Sized(cfg, n, isRoot)
    ensures Lean(cfg, n, isRoot)
  {
  }

  /** A node below the root meeting its bounds also meets the root's. */
  lemma SizedRoot<V>(cfg: Config, n: Node<V>)
    requires ValidConfig(cfg) && Sized(cfg, n, false)
    ensures Sized(cfg, n, true)
  {
    ConfigFacts(cfg);
  }

  /** Leaves are exactly the nodes of height 1. */
  lemma HeightKind<V>(n: Node<V>, h: int)
    requires HasHeight(n, h)
    ensures n.Leaf? <==> h == 1
  {
  }

  /**
   * Two siblings of height `h` ordered around the separator `sep`, which lies
   * strictly inside the bounds `(lo, hi)` the pair shares.
   */
  ghost predicate Pair<V>(l: Node<V>, sep: int, r: Node<V>, lo: Option<int>, hi: Option<int>, h: int)
  {
    WF(l) && WF(r) && l.Leaf? == r.Leaf? && HasHeight(l, h) && HasHeight(r, h)
    && Ordered(l, lo, Some(sep)) && Ordered(r, Some(sep), hi) && Above(lo, sep) && Below(hi, sep)
  }

  // ---------------------------------------------------------------- rotations

  /** Moving the left leaf's last pair across keeps the pair ordered and the entries in place. */
  lemma TakeLastLeaf<V>(lk: seq<int>, lv: seq<V>, sep: int, ck: seq<int>, cv: seq<V>, lo: Option<int>, hi: Option<int>)
    requires Pair(Leaf(lk, lv), sep, Leaf(ck, cv), lo, hi, 1) && |lk| >= 2
    ensures var t := TakeLast(Leaf(lk, lv), sep, Leaf(ck, cv));
      Pair(t.left, t.sep, t.right, lo, hi, 1)
      && Entries(t.left) + Entries(t.right) == Entries(Leaf(lk, lv)) + Entries(Leaf(ck, cv))
  {
    TakeLastLeafOrdered(lk, lv, sep, ck, cv, lo, hi);
    var m := |lk| - 1;
    assert lk == lk[..m] + [lk[m]] && lv == lv[..m] + [lv[m]];
    ZipAppend(lk[..m], [lk[m]], lv[..m], [lv[m]]);
    ZipAppend([lk[m]], ck, [lv[m]], cv);
  }

  lemma TakeLastLeafOrdered<V>(lk: seq<int>, lv: seq<V>, sep: int, ck: seq<int>, cv: seq<V>, lo: Option<int>, hi: Option<int>)
    requires Pair(Leaf(lk, lv), sep, Leaf(ck, cv), lo, hi, 1) && |lk| >= 2
    ensures var t := TakeLast(Leaf(lk, lv), sep, Leaf(ck, cv));
      Pair(t.left, t.sep, t.right, lo, hi, 1)
  {
    var m := |lk| - 1;
    var t := TakeLast(Leaf(lk, lv), sep, Leaf(ck, cv));
    BPlusInsertProof.LeafLowerOrdered(lk, lv, lo, Some(sep), m);
    assert lk[m - 1] < lk[m] <= sep;
    var rk := [lk[m]] + ck;
    assert forall j :: 0 <= j < |rk| ==> rk[j] == if j == 0 then lk[m] else ck[j - 1];
    assert Ordered(t.right, Some(lk[m - 1]), hi);
  }

  /** Moving the left internal node's last child across keeps the pair ordered and the entries in place. */
  lemma TakeLastInner<V>(lk: seq<int>, lc: seq<Node<V>>, sep: int, ck: seq<int>, cc: seq<Node<V>>, lo: Option<int>, hi: Option<int>, h: int)
    requires Pair(Internal(lk, lc), sep, Internal(ck, cc), lo, hi, h) && |lk| >= 2
    ensures var t := TakeLast(Internal(lk, lc), sep, Internal(ck, cc));
      Pair(t.left, t.sep, t.right, lo, hi, h)
      && Entries(t.left) + Entries(t.right) == Entries(Internal(lk, lc)) + Entries(Internal(ck, cc))
  {
    var m := |lk| - 1;
    var t := TakeLast(Internal(lk, lc), sep, Internal(ck, cc));
    TakeLastInnerOrdered(lk, lc, sep, ck, cc, lo, hi, h);
    TakeLastInnerEntries(lk, lc, sep, ck, cc);
  }

  lemma TakeLastInnerOrdered<V>(lk: seq<int>, lc: seq<Node<V>>, sep: int, ck: seq<int>, cc: seq<Node<V>>, lo: Option<int>, hi: Option<int>, h: int)
    requires Pair(Internal(lk, lc), sep, Internal(ck, cc), lo, hi, h) && |lk| >= 2
    ensures var t := TakeLast(Internal(lk, lc), sep, Internal(ck, cc));
      Pair(t.left, t.sep, t.right, lo, hi, h)
  {
    var m := |lk| - 1;
    var t := TakeLast(Internal(lk, lc), sep, Internal(ck, cc));
    BPlusInsertProof.SliceOrdered(lk, lc, lo, Some(sep), 0, m);
    BPlusInsertProof.SliceEnds(lk, m);
    BPlusInsertProof.SliceEnds(lc, m + 1);
    var rk, rc := [sep] + ck, [lc[m + 1]] + cc;
    assert forall j :: 0 <= j < |rk| ==> rk[j] == if j == 0 then sep else ck[j - 1];
    assert forall j :: 0 <= j < |rc| ==> rc[j] == if j == 0 then lc[m + 1] else cc[j - 1];
    assert BinarySearch.StrictlySorted(rk);
    forall j | 0 <= j < |rc| ensures Ordered(rc[j], LoOf(rk, Some(lk[m]), j), HiOf(rk, hi, j)) {
      if j > 0 {
        assert LoOf(rk, Some(lk[m]), j) == LoOf(ck, Some(sep), j - 1);
        assert HiOf(rk, hi, j) == HiOf(ck, hi, j - 1);
      }
    }
    assert Ordered(t.right, Some(lk[m]), hi);
    HeightKind(lc[m + 1], h - 1);
    HeightKind(cc[0], h - 1);
    assert WF(t.right);
  }

  lemma TakeLastInnerEntries<V>(lk: seq<int>, lc: seq<Node<V>>, sep: int, ck: seq<int>, cc: seq<Node<V>>)
    requires |lc| == |lk| + 1 && |cc| == |ck| + 1 && |lk| >= 2
    ensures var t := TakeLast(Internal(lk, lc), sep, Internal(ck, cc));
      Entries(t.left) + Entries(t.right) == Entries(Internal(lk, lc)) + Entries(Internal(ck, cc))
  {
    var m := |lk| - 1;
    assert lc == lc[..m + 1] + [lc[m + 1]];
    EntriesSnoc(lk, lk[..m], lc[..m + 1], lc[m + 1]);
    EntriesCons([sep] + ck, ck, lc[m + 1], cc);
  }

  /** An internal node's entries with one more child at the end. */
  lemma EntriesSnoc<V>(ks: seq<int>, ks': seq<int>, cs: seq<Node<V>>, c: Node<V>)
    ensures Entries(Internal(ks, cs + [c])) == Entries(Internal(ks', cs)) + Entries(c)
  {
    EntriesInternal(ks, cs + [c]);
    EntriesInternal(ks', cs);
    PartsAppend(cs, [c]);
    FlattenAppend(Parts(cs), Parts([c]));
    assert Parts([c]) == [Entries(c)];
    FlattenSingle(Entries(c));
  }

  /** An internal node's entries with one more child at the front. */
  lemma EntriesCons<V>(ks: seq<int>, ks': seq<int>, c: Node<V>, cs: seq<Node<V>>)
    ensures Entries(Internal(ks, [c] + cs)) == Entries(c) + Entries(Internal(ks', cs))
  {
    EntriesInternal(ks, [c] + cs);
    EntriesInternal(ks', cs);
    PartsAppend([c], cs);
    FlattenAppend(Parts([c]), Parts(cs));
    assert Parts([c]) == [Entries(c)];
    FlattenSingle(Entries(c));
  }

  /** Moving the right leaf's first pair across keeps the pair ordered and the entries in place. */
  lemma TakeFirstLeaf<V>(ck: seq<int>, cv: seq<V>, sep: int, rk: seq<int>, rv: seq<V>, lo: Option<int>, hi: Option<int>)
    requires Pair(Leaf(ck, cv), sep, Leaf(rk, rv), lo, hi, 1) && |rk| >= 2
    ensures var t := TakeFirst(Leaf(ck, cv), sep, Leaf(rk, rv));
      Pair(t.left, t.sep, t.right, lo, hi, 1)
      && Entries(t.left) + Entries(t.right) == Entries(Leaf(ck, cv)) + Entries(Leaf(rk, rv))
  {
    TakeFirstLeafOrdered(ck, cv, sep, rk, rv, lo, hi);
    TakeFirstLeafEntries(ck, cv, rk, rv);
  }

  lemma TakeFirstLeafEntries<V>(ck: seq<int>, cv: seq<V>, rk: seq<int>, rv: seq<V>)
    requires |ck| == |cv| && |rk| == |rv| && |rk| >= 1
    ensures Zip(ck + [rk[0]], cv + [rv[0]]) + Zip(rk[1..], rv[1..]) == Zip(ck, cv) + Zip(rk, rv)
  {
    assert rk == [rk[0]] + rk[1..] && rv == [rv[0]] + rv[1..];
    ZipAppend([rk[0]], rk[1..], [rv[0]], rv[1..]);
    ZipAppend(ck, [rk[0]], cv, [rv[0]]);
  }

  lemma TakeFirstLeafOrdered<V>(ck: seq<int>, cv: seq<V>, sep: int, rk: seq<int>, rv: seq<V>, lo: Option<int>, hi: Option<int>)
    requires Pair(Leaf(ck, cv), sep, Leaf(rk, rv), lo, hi, 1) && |rk| >= 2
    ensures var t := TakeFirst(Leaf(ck, cv), sep, Leaf(rk, rv));
      Pair(t.left, t.sep, t.right, lo, hi, 1)
  {
    var t := TakeFirst(Leaf(ck, cv), sep, Leaf(rk, rv));
    var lk := ck + [rk[0]];
    assert forall j :: 0 <= j < |lk| ==> lk[j] == if j < |ck| then ck[j] else rk[0];
    assert Ordered(t.left, lo, Some(rk[0]));
    BPlusInsertProof.LeafUpperOrdered(rk, rv, Some(sep), hi, 1);
    assert rk[0] < rk[1];
  }

  /** Moving the right internal node's first child across keeps the pair ordered and the entries in place. */
  lemma TakeFirstInner<V>(ck: seq<int>, cc: seq<Node<V>>, sep: int, rk: seq<int>, rc: seq<Node<V>>, lo: Option<int>, hi: Option<int>, h: int)
    requires Pair(Internal(ck, cc), sep, Internal(rk, rc), lo, hi, h) && |rk| >= 2
    ensures var t := TakeFirst(Internal(ck, cc), sep, Internal(rk, rc));
      Pair(t.left, t.sep, t.right, lo, hi, h)
      && Entries(t.left) + Entries(t.right) == Entries(Internal(ck, cc)) + Entries(Internal(rk, rc))
  {
    TakeFirstInnerOrdered(ck, cc, sep, rk, rc, lo, hi, h);
    TakeFirstInnerEntries(ck, cc, sep, rk, rc);
  }

  lemma TakeFirstInnerOrdered<V>(ck: seq<int>, cc: seq<Node<V>>, sep: int, rk: seq<int>, rc: seq<Node<V>>, lo: Option<int>, hi: Option<int>, h: int)
    requires Pair(Internal(ck, cc), sep, Internal(rk, rc), lo, hi, h) && |rk| >= 1
    ensures var t := TakeFirst(Internal(ck, cc), sep, Internal(rk, rc));
      Pair(t.left, t.sep, t.right, lo, hi, h)
  {
    var t := TakeFirst(Internal(ck, cc), sep, Internal(rk, rc));
    BPlusInsertProof.SliceOrdered(rk, rc, Some(sep), hi, 1, |rk|);
    BPlusInsertProof.SliceEnds(rk[1..], |rk| - 1);
    assert rk[1..|rk|] == rk[1..] && rc[1..|rk| + 1] == rc[1..];
    var lk, lc := ck + [sep], cc + [rc[0]];
    assert forall j :: 0 <= j < |lk| ==> lk[j] == if j < |ck| then ck[j] else sep;
    assert forall j :: 0 <= j < |lc| ==> lc[j] == if j < |cc| then cc[j] else rc[0];
    assert BinarySearch.StrictlySorted(lk);
    forall j | 0 <= j < |lc| ensures Ordered(lc[j], LoOf(lk, lo, j), HiOf(lk, Some(rk[0]), j)) {
      if j < |cc| {
        assert LoOf(lk, lo, j) == LoOf(ck, lo, j);
        assert HiOf(lk, Some(rk[0]), j) == HiOf(ck, Some(sep), j);
      }
    }
    assert Ordered(t.left, lo, Some(rk[0]));
    HeightKind(rc[0], h - 1);
    HeightKind(cc[0], h - 1);
    assert WF(t.left);
  }

  lemma TakeFirstInnerEntries<V>(ck: seq<int>, cc: seq<Node<V>>, sep: int, rk: seq<int>, rc: seq<Node<V>>)
    requires |rc| == |rk| + 1 && |cc| == |ck| + 1 && |rk| >= 1
    ensures var t := TakeFirst(Internal(ck, cc), sep, Internal(rk, rc));
      Entries(t.left) + Entries(t.right) == Entries(Internal(ck, cc)) + Entries(Internal(rk, rc))
  {
    assert rc == [rc[0]] + rc[1..];
    EntriesSnoc(ck + [sep], ck, cc, rc[0]);
    EntriesCons(rk, rk[1..], rc[0], rc[1..]);
  }

  /** A steal from the left, for either kind of sibling. */
  lemma TakeLastCorrect<V>(l: Node<V>, sep: int, c: Node<V>, lo: Option<int>, hi: Option<int>, h: int)
    requires Pair(l, sep, c, lo, hi, h) && |l.keys| >= 2
    ensures var t := TakeLast(l, sep, c);
      Pair(t.left, t.sep, t.right, lo, hi, h) && Entries(t.left) + Entries(t.right) == Entries(l) + Entries(c)
  {
    HeightKind(l, h);
    if l.Leaf? {
      TakeLastLeaf(l.keys, l.values, sep, c.keys, c.values, lo, hi);
    } else {
      TakeLastInner(l.keys, l.children, sep, c.keys, c.children, lo, hi, h);
    }
  }

  /** A steal from the right, for either kind of sibling. */
  lemma TakeFirstCorrect<V>(c: Node<V>, sep: int, r: Node<V>, lo: Option<int>, hi: Option<int>, h: int)
    requires Pair(c, sep, r, lo, hi, h) && |r.keys| >= 2
    ensures var t := TakeFirst(c, sep, r);
      Pair(t.left, t.sep, t.right, lo, hi, h) && Entries(t.left) + Entries(t.right) == Entries(c) + Entries(r)
  {
    HeightKind(c, h);
    if c.Leaf? {
      TakeFirstLeaf(c.keys, c.values, sep, r.keys, r.values, lo, hi);
    } else {
      TakeFirstInner(c.keys, c.children, sep, r.keys, r.children, lo, hi, h);
    }
  }

  // ---------------------------------------------------------------- joins

  /** Two ordered leaves joined end to end. */
  lemma JoinLeaf<V>(ak: seq<int>, av: seq<V>, sep: int, bk: seq<int>, bv: seq<V>, lo: Option<int>, hi: Option<int>)
    requires Pair(Leaf(ak, av), sep, Leaf(bk, bv), lo, hi, 1)
    ensures var m := Join(Leaf(ak, av), sep, Leaf(bk, bv));
      WF(m) && HasHeight(m, 1) && Ordered(m, lo, hi) && Entries(m) == Entries(Leaf(ak, av)) + Entries(Leaf(bk, bv))
  {
    var ks := ak + bk;
    assert forall j :: 0 <= j < |ks| ==> ks[j] == if j < |ak| then ak[j] else bk[j - |ak|];
    ZipAppend(ak, bk, av, bv);
  }

  /** Two ordered internal nodes joined around their separator. */
  lemma JoinInner<V>(ak: seq<int>, ac: seq<Node<V>>, sep: int, bk: seq<int>, bc: seq<Node<V>>, lo: Option<int>, hi: Option<int>, h: int)
    requires Pair(Internal(ak, ac), sep, Internal(bk, bc), lo, hi, h)
    ensures var m := Join(Internal(ak, ac), sep, Internal(bk, bc));
      WF(m) && HasHeight(m, h) && Ordered(m, lo, hi) && Entries(m) == Entries(Internal(ak, ac)) + Entries(Internal(bk, bc))
  {
    JoinInnerOrdered(ak, ac, sep, bk, bc, lo, hi, h);
    EntriesInternal(ak, ac);
    EntriesInternal(bk, bc);
    EntriesInternal(ak + [sep] + bk, ac + bc);
    PartsAppend(ac, bc);
    FlattenAppend(Parts(ac), Parts(bc));
  }

  lemma JoinInnerOrdered<V>(ak: seq<int>, ac: seq<Node<V>>, sep: int, bk: seq<int>, bc: seq<Node<V>>, lo: Option<int>, hi: Option<int>, h: int)
    requires Pair(Internal(ak, ac), sep, Internal(bk, bc), lo, hi, h)
    ensures var m := Join(Internal(ak, ac), sep, Internal(bk, bc));
      WF(m) && HasHeight(m, h) && Ordered(m, lo, hi)
  {
    var ks, cs := ak + [sep] + bk, ac + bc;
    var n := |ak| + 1;
    assert forall j :: 0 <= j < |ks| ==> ks[j] == if j < |ak| then ak[j] else if j == |ak| then sep else bk[j - n];
    assert forall j :: 0 <= j < |cs| ==> cs[j] == if j < |ac| then ac[j] else bc[j - n];
    assert BinarySearch.StrictlySorted(ks);
    forall j | 0 <= j < |cs| ensures Ordered(cs[j], LoOf(ks, lo, j), HiOf(ks, hi, j)) {
      if j < |ac| {
        assert LoOf(ks, lo, j) == LoOf(ak, lo, j);
        assert HiOf(ks, hi, j) == HiOf(ak, Some(sep), j);
      } else {
        assert LoOf(ks, lo, j) == LoOf(bk, Some(sep), j - n);
        assert HiOf(ks, hi, j) == HiOf(bk, hi, j - n);
      }
    }
    HeightKind(ac[0], h - 1);
    HeightKind(bc[0], h - 1);
  }

  /** A merge, for either kind of sibling. */
  lemma JoinCorrect<V>(a: Node<V>, sep: int, b: Node<V>, lo: Option<int>, hi: Option<int>, h: int)
    requires Pair(a, sep, b, lo, hi, h)
    ensures var m := Join(a, sep, b);
      WF(m) && HasHeight(m, h) && Ordered(m, lo, hi) && Entries(m) == Entries(a) + Entries(b)
  {
    HeightKind(a, h);
    if a.Leaf? {
      JoinLeaf(a.keys, a.values, sep, b.keys, b.values, lo, hi);
    } else {
      JoinInner(a.keys, a.children, sep, b.keys, b.children, lo, hi, h);
    }
  }

  // ---------------------------------------------------------------- back into the parent

  /** Neighbouring children of an ordered node form a pair around the separator between them. */
  lemma PairOf<V>(ks: seq<int>, cs: seq<Node<V>>, lo: Option<int>, hi: Option<int>, h: int, j: int)
    requires WF(Internal(ks, cs)) && HasHeight(Internal(ks, cs), h) && Ordered(Internal(ks, cs), lo, hi)
    requires 0 <= j && j + 1 < |cs|
    ensures Pair(cs[j], ks[j], cs[j + 1], LoOf(ks, lo, j), HiOf(ks, hi, j + 1), h - 1)
  {
    assert HiOf(ks, hi, j) == Some(ks[j]) && LoOf(ks, lo, j + 1) == Some(ks[j]);
    assert Ordered(cs[j], LoOf(ks, lo, j), HiOf(ks, hi, j));
    assert Ordered(cs[j + 1], LoOf(ks, lo, j + 1), HiOf(ks, hi, j + 1));
  }

  /** Putting a rotated pair back keeps the parent well formed, of its height and ordered. */
  lemma RotateOrdered<V>(ks: seq<int>, cs: seq<Node<V>>, lo: Option<int>, hi: Option<int>, h: int, j: int, t: Rotation<V>)
    requires WF(Internal(ks, cs)) && HasHeight(Internal(ks, cs), h) && Ordered(Internal(ks, cs), lo, hi)
    requires 0 <= j && j + 1 < |cs|
    requires Pair(t.left, t.sep, t.right, LoOf(ks, lo, j), HiOf(ks, hi, j + 1), h - 1) && t.left.Leaf? == cs[j].Leaf?
    ensures Family(Internal(ks, cs))
    ensures var p := Rotate(ks, cs, j, t); WF(p) && HasHeight(p, h) && Ordered(p, lo, hi)
  {
    WFFamily(Internal(ks, cs));
    var ks' := ks[j := t.sep];
    var cs' := cs[j := t.left][j + 1 := t.right];
    RotateKeys(ks, lo, hi, j, t.sep);
    forall x | 0 <= x < |cs'| ensures Ordered(cs'[x], LoOf(ks', lo, x), HiOf(ks', hi, x)) {
      if x != j && x != j + 1 {
        assert LoOf(ks', lo, x) == LoOf(ks, lo, x) && HiOf(ks', hi, x) == HiOf(ks, hi, x);
      }
    }
    assert forall x :: 0 <= x < |cs'| ==> cs'[x].Leaf? == cs[x].Leaf?;
  }

  /** A separator replaced by one strictly between its neighbours keeps the keys increasing and inside the bounds. */
  lemma RotateKeys(ks: seq<int>, lo: Option<int>, hi: Option<int>, j: int, s: int)
    requires BinarySearch.StrictlySorted(ks) && 0 <= j < |ks|
    requires forall x :: 0 <= x < |ks| ==> Above(lo, ks[x]) && Below(hi, ks[x])
    requires Above(LoOf(ks, lo, j), s) && Below(HiOf(ks, hi, j + 1), s)
    ensures var ks' := ks[j := s];
      BinarySearch.StrictlySorted(ks') && forall x :: 0 <= x < |ks'| ==> Above(lo, ks'[x]) && Below(hi, ks'[x])
  {
    var ks' := ks[j := s];
    forall a, b | 0 <= a < b < |ks'| ensures ks'[a] < ks'[b] {
      if a == j {
        assert ks[j + 1] <= ks[b];
      } else if b == j {
        assert ks[a] <= ks[j - 1];
      }
    }
  }

  /** Putting a rotated pair back keeps the parent's entries. */
  lemma RotateEntries<V>(ks: seq<int>, cs: seq<Node<V>>, j: int, t: Rotation<V>)
    requires Family(Internal(ks, cs)) && 0 <= j && j + 1 < |cs|
    requires Shaped(t.left) && Shaped(t.right) && t.left.Leaf? == cs[j].Leaf? && t.right.Leaf? == cs[j].Leaf?
    requires Entries(t.left) + Entries(t.right) == Entries(cs[j]) + Entries(cs[j + 1])
    ensures Entries(Rotate(ks, cs, j, t)) == Entries(Internal(ks, cs))
  {
    assert Rotate(ks, cs, j, t) == Internal(ks[j := t.sep], cs[j := t.left][j + 1 := t.right]);
    ReplacePairEntries(ks, ks[j := t.sep], cs, j, t.left, t.right);
  }

  lemma ReplacePairEntries<V>(ks: seq<int>, ks': seq<int>, cs: seq<Node<V>>, j: int, a: Node<V>, b: Node<V>)
    requires 0 <= j && j + 1 < |cs| && Entries(a) + Entries(b) == Entries(cs[j]) + Entries(cs[j + 1])
    ensures Entries(Internal(ks', cs[j := a][j + 1 := b])) == Entries(Internal(ks, cs))
  {
    var cs' := cs[j := a][j + 1 := b];
    var ss := Parts(cs);
    EntriesInternal(ks, cs);
    EntriesInternal(ks', cs');
    PartsUpdate(cs, j, a);
    PartsUpdate(cs[j := a], j + 1, b);
    UpdatePair(ss, j, Entries(a), Entries(b));
    FlattenReplacePair(ss, j, Entries(a), Entries(b));
  }

  /** Merging two neighbouring children keeps the parent well formed, of its height, ordered, and its entries. */
  lemma MergeAtCorrect<V>(ks: seq<int>, cs: seq<Node<V>>, lo: Option<int>, hi: Option<int>, h: int, j: int)
    requires WF(Internal(ks, cs)) && HasHeight(Internal(ks, cs), h) && Ordered(Internal(ks, cs), lo, hi)
    requires 0 <= j && j + 1 < |cs|
    ensures Family(Internal(ks, cs))
    ensures var p := MergeAt(ks, cs, j);
      WF(p) && HasHeight(p, h) && Ordered(p, lo, hi) && Entries(p) == Entries(Internal(ks, cs))
  {
    WFFamily(Internal(ks, cs));
    PairOf(ks, cs, lo, hi, h, j);
    var m := Join(cs[j], ks[j], cs[j + 1]);
    JoinCorrect(cs[j], ks[j], cs[j + 1], LoOf(ks, lo, j), HiOf(ks, hi, j + 1), h - 1);
    MergeOrdered(ks, cs, lo, hi, h, j, m);
    MergeEntries(ks, cs, j, m);
  }

  lemma MergeOrdered<V>(ks: seq<int>, cs: seq<Node<V>>, lo: Option<int>, hi: Option<int>, h: int, j: int, m: Node<V>)
    requires WF(Internal(ks, cs)) && HasHeight(Internal(ks, cs), h) && Ordered(Internal(ks, cs), lo, hi)
    requires 0 <= j && j + 1 < |cs|
    requires WF(m) && HasHeight(m, h - 1) && m.Leaf? == cs[j].Leaf? && Ordered(m, LoOf(ks, lo, j), HiOf(ks, hi, j + 1))
    ensures var p := Internal(ks[..j] + ks[j + 1..], cs[..j] + [m] + cs[j + 2..]);
      WF(p) && HasHeight(p, h) && Ordered(p, lo, hi)
  {
    MergeShape(ks, cs, h, j, m);
    MergeChildrenOrdered(ks, cs, lo, hi, j, m);
  }

  lemma MergeShape<V>(ks: seq<int>, cs: seq<Node<V>>, h: int, j: int, m: Node<V>)
    requires WF(Internal(ks, cs)) && HasHeight(Internal(ks, cs), h) && 0 <= j && j + 1 < |cs|
    requires WF(m) && HasHeight(m, h - 1) && m.Leaf? == cs[j].Leaf?
    ensures var p := Internal(ks[..j] + ks[j + 1..], cs[..j] + [m] + cs[j + 2..]);
      WF(p) && HasHeight(p, h)
  {
    var cs' := cs[..j] + [m] + cs[j + 2..];
    assert forall x :: 0 <= x < |cs'| ==> cs'[x] == if x < j then cs[x] else if x == j then m else cs[x + 1];
    assert cs'[0].Leaf? == cs[0].Leaf?;
  }

  lemma MergeChildrenOrdered<V>(ks: seq<int>, cs: seq<Node<V>>, lo: Option<int>, hi: Option<int>, j: int, m: Node<V>)
    requires Ordered(Internal(ks, cs), lo, hi) && |cs| == |ks| + 1 && 0 <= j && j + 1 < |cs|
    requires Ordered(m, LoOf(ks, lo, j), HiOf(ks, hi, j + 1))
    ensures Ordered(Internal(ks[..j] + ks[j + 1..], cs[..j] + [m] + cs[j + 2..]), lo, hi)
  {
    var ks' := ks[..j] + ks[j + 1..];
    var cs' := cs[..j] + [m] + cs[j + 2..];
    assert forall x :: 0 <= x < |cs'| ==> cs'[x] == if x < j then cs[x] else if x == j then m else cs[x + 1];
    MergeKeys(ks, lo, hi, j);
    forall x | 0 <= x < |cs'| ensures Ordered(cs'[x], LoOf(ks', lo, x), HiOf(ks', hi, x)) {
      MergeBound(ks, lo, hi, j, x);
    }
  }

  /** Dropping a separator keeps the keys increasing and inside the bounds. */
  lemma MergeKeys(ks: seq<int>, lo: Option<int>, hi: Option<int>, j: int)
    requires BinarySearch.StrictlySorted(ks) && 0 <= j < |ks|
    requires forall x :: 0 <= x < |ks| ==> Above(lo, ks[x]) && Below(hi, ks[x])
    ensures var ks' := ks[..j] + ks[j + 1..];
      BinarySearch.StrictlySorted(ks') && forall x :: 0 <= x < |ks'| ==> Above(lo, ks'[x]) && Below(hi, ks'[x])
  {
    var ks' := ks[..j] + ks[j + 1..];
    assert forall x :: 0 <= x < |ks'| ==> ks'[x] == if x < j then ks[x] else ks[x + 1];
  }

  /** With separator `j` dropped, child `x` of the merged node has the bounds of the child it came from. */
  lemma MergeBound(ks: seq<int>, lo: Option<int>, hi: Option<int>, j: int, x: int)
    requires 0 <= j < |ks| && 0 <= x < |ks|
    ensures var ks' := ks[..j] + ks[j + 1..];
      LoOf(ks', lo, x) == (if x <= j then LoOf(ks, lo, x) else LoOf(ks, lo, x + 1))
      && HiOf(ks', hi, x) == (if x < j then HiOf(ks, hi, x) else HiOf(ks, hi, x + 1))
  {
    var ks' := ks[..j] + ks[j + 1..];
    assert forall y :: 0 <= y < |ks'| ==> ks'[y] == if y < j then ks[y] else ks[y + 1];
  }

  lemma MergeEntries<V>(ks: seq<int>, cs: seq<Node<V>>, j: int, m: Node<V>)
    requires |cs| == |ks| + 1 && 0 <= j && j + 1 < |cs| && Entries(m) == Entries(cs[j]) + Entries(cs[j + 1])
    ensures Entries(Internal(ks[..j] + ks[j + 1..], cs[..j] + [m] + cs[j + 2..])) == Entries(Internal(ks, cs))
  {
    var ss := Parts(cs);
    EntriesInternal(ks, cs);
    EntriesInternal(ks[..j] + ks[j + 1..], cs[..j] + [m] + cs[j + 2..]);
    PartsAppend(cs[..j] + [m], cs[j + 2..]);
    PartsAppend(cs[..j], [m]);
    PartsSlice(cs, 0, j);
    PartsSlice(cs, j + 2, |cs|);
    BPlusInsertProof.SliceEnds(cs, j);
    BPlusInsertProof.SliceEnds(cs, j + 2);
    BPlusInsertProof.SliceEnds(ss, j);
    BPlusInsertProof.SliceEnds(ss, j + 2);
    assert Parts([m]) == [Entries(m)];
    FlattenJoinPair(ss, j, Entries(m));
  }

  // ---------------------------------------------------------------- sizes

  /** A node at its minimum again, or above it, meets its bounds. */
  lemma LeanBalanced<V>(cfg: Config, n: Node<V>)
    requires Lean(cfg, n, false) && IsNodeBalanced(cfg, n)
    ensures Sized(cfg, n, false)
  {
  }

  /** After a steal from the left the lender keeps its minimum and the borrower reaches its own. */
  lemma TakeLastSized<V>(cfg: Config, l: Node<V>, sep: int, c: Node<V>)
    requires ValidConfig(cfg) && Shaped(l) && Shaped(c) && l.Leaf? == c.Leaf?
    requires Sized(cfg, l, false) && CanLend(cfg, l) && Lean(cfg, c, false) && !IsNodeBalanced(cfg, c)
    ensures |l.keys| >= 2
    ensures var t := TakeLast(l, sep, c); Sized(cfg, t.left, false) && Sized(cfg, t.right, false)
  {
    ConfigFacts(cfg);
    if l.Internal? {
      var m := |l.keys| - 1;
      var t := TakeLast(l, sep, c);
      assert forall x :: 0 <= x < |t.left.children| ==> t.left.children[x] == l.children[x];
      assert forall x :: 0 <= x < |t.right.children| ==>
        t.right.children[x] == if x == 0 then l.children[m + 1] else c.children[x - 1];
    }
  }

  /** After a steal from the right the lender keeps its minimum and the borrower reaches its own. */
  lemma TakeFirstSized<V>(cfg: Config, c: Node<V>, sep: int, r: Node<V>)
    requires ValidConfig(cfg) && Shaped(c) && Shaped(r) && c.Leaf? == r.Leaf?
    requires Sized(cfg, r, false) && CanLend(cfg, r) && Lean(cfg, c, false) && !IsNodeBalanced(cfg, c)
    ensures |r.keys| >= 2
    ensures var t := TakeFirst(c, sep, r); Sized(cfg, t.left, false) && Sized(cfg, t.right, false)
  {
    ConfigFacts(cfg);
    if c.Internal? {
      var t := TakeFirst(c, sep, r);
      assert forall x :: 0 <= x < |t.left.children| ==>
        t.left.children[x] == if x < |c.children| then c.children[x] else r.children[0];
      assert forall x :: 0 <= x < |t.right.children| ==> t.right.children[x] == r.children[x + 1];
    }
  }

  /** A child one under its minimum joined with a sibling at its minimum fits in one node. */
  lemma JoinSized<V>(cfg: Config, a: Node<V>, sep: int, b: Node<V>)
    requires ValidConfig(cfg) && Shaped(a) && Shaped(b) && a.Leaf? == b.Leaf?
    requires Lean(cfg, a, false) && Lean(cfg, b, false)
    requires |a.keys| + |b.keys| == 2 * MinOf(cfg, a) - 1
    ensures Sized(cfg, Join(a, sep, b), false)
  {
    ConfigFacts(cfg);
    if a.Internal? {
      var m := Join(a, sep, b);
      assert forall x :: 0 <= x < |m.children| ==>
        m.children[x] == if x < |a.children| then a.children[x] else b.children[x - |a.children|];
    }
  }

  /** A rotation whose halves meet their bounds leaves the parent meeting its own. */
  lemma RotateSized<V>(cfg: Config, ks: seq<int>, cs: seq<Node<V>>, j: int, t: Rotation<V>, isRoot: bool)
    requires Family(Internal(ks, cs)) && 0 <= j && j + 1 < |cs|
    requires Shaped(t.left) && Shaped(t.right) && t.left.Leaf? == cs[j].Leaf? && t.right.Leaf? == cs[j].Leaf?
    requires |ks| <= cfg.maxInner && (if isRoot then |ks| >= 1 else |ks| >= cfg.minInner)
    requires forall x :: 0 <= x < |cs| && x != j && x != j + 1 ==> Sized(cfg, cs[x], false)
    requires Sized(cfg, t.left, false) && Sized(cfg, t.right, false)
    ensures Sized(cfg, Rotate(ks, cs, j, t), isRoot)
  {
    assert Rotate(ks, cs, j, t) == Internal(ks[j := t.sep], cs[j := t.left][j + 1 := t.right]);
  }

  /** A merge whose joined node meets its bounds leaves the parent one key lighter. */
  lemma MergeLean<V>(cfg: Config, ks: seq<int>, cs: seq<Node<V>>, j: int, m: Node<V>, isRoot: bool)
    requires |cs| == |ks| + 1 && 0 <= j && j + 1 < |cs|
    requires |ks| <= cfg.maxInner && (if isRoot then |ks| >= 1 else |ks| >= cfg.minInner)
    requires forall x :: 0 <= x < |cs| && x != j && x != j + 1 ==> Sized(cfg, cs[x], false)
    requires Sized(cfg, m, false)
    ensures Lean(cfg, Internal(ks[..j] + ks[j + 1..], cs[..j] + [m] + cs[j + 2..]), isRoot)
  {
    var cs' := cs[..j] + [m] + cs[j + 2..];
    assert forall x :: 0 <= x < |cs'| ==> cs'[x] == if x < j then cs[x] else if x == j then m else cs[x + 1];
  }

  // ---------------------------------------------------------------- one parent

  /**
   * A parent whose child `i` has just lost a key: the invariant at its level,
   * except that child `i` may be one key under its minimum.
   */
  ghost predicate Dented<V>(cfg: Config, p: Node<V>, i: int, lo: Option<int>, hi: Option<int>, h: int, isRoot: bool)
  {
    ValidConfig(cfg) && WF(p) && p.Internal? && HasHeight(p, h) && Ordered(p, lo, hi) && 0 <= i < |p.children|
    && |p.keys| <= cfg.maxInner && (if isRoot then |p.keys| >= 1 else |p.keys| >= cfg.minInner)
    && Lean(cfg, p.children[i], false)
    && forall j :: 0 <= j < |p.children| && j != i ==> Sized(cfg, p.children[j], false)
  }

  /**
   * What repairing a dented parent gives: the same entries, order and height;
   * bounds met again once balancing stops, and otherwise the parent itself is
   * at most one key short.
   */
  ghost predicate Repaired<V>(cfg: Config, p: Node<V>, r: Result<Carry<V>>, lo: Option<int>, hi: Option<int>, h: int, isRoot: bool)
  {
    r.Ok? && WF(r.value.node) && r.value.node.Internal? && HasHeight(r.value.node, h) && Ordered(r.value.node, lo, hi)
    && Entries(r.value.node) == Entries(p) && Lean(cfg, r.value.node, isRoot)
    && (r.value.Settled? ==> Sized(cfg, r.value.node, isRoot))
  }

  /** On an ordered node the separator check of `balance_node` changes nothing. */
  lemma BalanceNodeOrdered<V>(ks: seq<int>, cs: seq<Node<V>>, lo: Option<int>, hi: Option<int>, i: int)
    requires Ordered(Internal(ks, cs), lo, hi) && |cs| == |ks| + 1 && 0 <= i < |cs|
    ensures BalanceNode(ks, cs, i) == ks
  {
    var c := cs[i];
    assert Ordered(c, LoOf(ks, lo, i), HiOf(ks, hi, i));
    if |c.keys| > 0 {
      var last := |c.keys| - 1;
      assert Above(LoOf(ks, lo, i), c.keys[0]) && AtMost(HiOf(ks, hi, i), c.keys[last]) by {
        if c.Leaf? {
        } else {
          assert Below(HiOf(ks, hi, i), c.keys[last]);
        }
      }
    }
  }

  /** A steal from the left settles the parent. */
  lemma StealLeftCorrect<V>(cfg: Config, p: Node<V>, i: int, lo: Option<int>, hi: Option<int>, h: int, isRoot: bool)
    requires Dented(cfg, p, i, lo, hi, h, isRoot) && 0 < i
    requires !IsNodeBalanced(cfg, p.children[i]) && CanLend(cfg, p.children[i - 1])
    ensures Family(p) && |p.children[i - 1].keys| >= 2
    ensures var p2 := StealFromLeft(p.keys, p.children, i);
      WF(p2) && HasHeight(p2, h) && Ordered(p2, lo, hi) && Sized(cfg, p2, isRoot) && Entries(p2) == Entries(p)
  {
    StealLeftSized(cfg, p, i, lo, hi, h, isRoot);
    StealLeftShape(p, i, lo, hi, h);
  }

  lemma StealLeftSized<V>(cfg: Config, p: Node<V>, i: int, lo: Option<int>, hi: Option<int>, h: int, isRoot: bool)
    requires Dented(cfg, p, i, lo, hi, h, isRoot) && 0 < i
    requires !IsNodeBalanced(cfg, p.children[i]) && CanLend(cfg, p.children[i - 1])
    ensures Family(p) && |p.children[i - 1].keys| >= 2
    ensures Sized(cfg, StealFromLeft(p.keys, p.children, i), isRoot)
  {
    var ks, cs := p.keys, p.children;
    WFFamily(p);
    var t := TakeLast(cs[i - 1], ks[i - 1], cs[i]);
    TakeLastSized(cfg, cs[i - 1], ks[i - 1], cs[i]);
    RotateSized(cfg, ks, cs, i - 1, t, isRoot);
  }

  lemma StealLeftShape<V>(p: Node<V>, i: int, lo: Option<int>, hi: Option<int>, h: int)
    requires WF(p) && p.Internal? && HasHeight(p, h) && Ordered(p, lo, hi)
    requires 0 < i < |p.children| && |p.children[i - 1].keys| >= 2
    ensures Family(p)
    ensures var p2 := StealFromLeft(p.keys, p.children, i);
      WF(p2) && HasHeight(p2, h) && Ordered(p2, lo, hi) && Entries(p2) == Entries(p)
  {
    var ks, cs := p.keys, p.children;
    WFFamily(p);
    PairOf(ks, cs, lo, hi, h, i - 1);
    var t := TakeLast(cs[i - 1], ks[i - 1], cs[i]);
    TakeLastCorrect(cs[i - 1], ks[i - 1], cs[i], LoOf(ks, lo, i - 1), HiOf(ks, hi, i), h - 1);
    RotateOrdered(ks, cs, lo, hi, h, i - 1, t);
    RotateEntries(ks, cs, i - 1, t);
  }

  /** A steal from the right settles the parent. */
  lemma StealRightCorrect<V>(cfg: Config, p: Node<V>, i: int, lo: Option<int>, hi: Option<int>, h: int, isRoot: bool)
    requires Dented(cfg, p, i, lo, hi, h, isRoot) && i + 1 < |p.children|
    requires !IsNodeBalanced(cfg, p.children[i]) && CanLend(cfg, p.children[i + 1])
    ensures Family(p) && |p.children[i + 1].keys| >= 2
    ensures var p2 := StealFromRight(p.keys, p.children, i);
      WF(p2) && HasHeight(p2, h) && Ordered(p2, lo, hi) && Sized(cfg, p2, isRoot) && Entries(p2) == Entries(p)
  {
    StealRightSized(cfg, p, i, lo, hi, h, isRoot);
    StealRightShape(p, i, lo, hi, h);
  }

  lemma StealRightSized<V>(cfg: Config, p: Node<V>, i: int, lo: Option<int>, hi: Option<int>, h: int, isRoot: bool)
    requires Dented(cfg, p, i, lo, hi, h, isRoot) && i + 1 < |p.children|
    requires !IsNodeBalanced(cfg, p.children[i]) && CanLend(cfg, p.children[i + 1])
    ensures Family(p) && |p.children[i + 1].keys| >= 2
    ensures Sized(cfg, StealFromRight(p.keys, p.children, i), isRoot)
  {
    var ks, cs := p.keys, p.children;
    WFFamily(p);
    var t := TakeFirst(cs[i], ks[i], cs[i + 1]);
    TakeFirstSized(cfg, cs[i], ks[i], cs[i + 1]);
    RotateSized(cfg, ks, cs, i, t, isRoot);
  }

  lemma StealRightShape<V>(p: Node<V>, i: int, lo: Option<int>, hi: Option<int>, h: int)
    requires WF(p) && p.Internal? && HasHeight(p, h) && Ordered(p, lo, hi)
    requires 0 <= i && i + 1 < |p.children| && |p.children[i + 1].keys| >= 2
    ensures Family(p)
    ensures var p2 := StealFromRight(p.keys, p.children, i);
      WF(p2) && HasHeight(p2, h) && Ordered(p2, lo, hi) && Entries(p2) == Entries(p)
  {
    var ks, cs := p.keys, p.children;
    WFFamily(p);
    PairOf(ks, cs, lo, hi, h, i);
    var t := TakeFirst(cs[i], ks[i], cs[i + 1]);
    TakeFirstCorrect(cs[i], ks[i], cs[i + 1], LoOf(ks, lo, i), HiOf(ks, hi, i + 1), h - 1);
    RotateOrdered(ks, cs, lo, hi, h, i, t);
    RotateEntries(ks, cs, i, t);
  }

  /** A merge with a sibling that cannot lend leaves the parent at most one key short. */
  lemma MergeCorrect<V>(cfg: Config, p: Node<V>, i: int, j: int, lo: Option<int>, hi: Option<int>, h: int, isRoot: bool)
    requires Dented(cfg, p, i, lo, hi, h, isRoot) && !IsNodeBalanced(cfg, p.children[i])
    requires (j == i - 1 && 0 < i && !CanLend(cfg, p.children[i - 1]))
          || (j == i && i + 1 < |p.children| && !CanLend(cfg, p.children[i + 1]))
    ensures Family(p)
    ensures var p2 := MergeAt(p.keys, p.children, j);
      WF(p2) && HasHeight(p2, h) && Ordered(p2, lo, hi) && Lean(cfg, p2, isRoot) && Entries(p2) == Entries(p)
  {
    var ks, cs := p.keys, p.children;
    MergeAtCorrect(ks, cs, lo, hi, h, j);
    MergeSizes(cfg, p, i, j, lo, hi, h, isRoot);
    JoinSized(cfg, cs[j], ks[j], cs[j + 1]);
    MergeLean(cfg, ks, cs, j, Join(cs[j], ks[j], cs[j + 1]), isRoot);
  }

  /** The two nodes a merge joins hold one key less than two minima between them. */
  lemma MergeSizes<V>(cfg: Config, p: Node<V>, i: int, j: int, lo: Option<int>, hi: Option<int>, h: int, isRoot: bool)
    requires Dented(cfg, p, i, lo, hi, h, isRoot) && !IsNodeBalanced(cfg, p.children[i])
    requires (j == i - 1 && 0 < i && !CanLend(cfg, p.children[i - 1]))
          || (j == i && i + 1 < |p.children| && !CanLend(cfg, p.children[i + 1]))
    ensures var a, b := p.children[j], p.children[j + 1];
      Shaped(a) && Shaped(b) && a.Leaf? == b.Leaf? && Lean(cfg, a, false) && Lean(cfg, b, false)
      && |a.keys| + |b.keys| == 2 * MinOf(cfg, a) - 1
  {
    var cs := p.children;
    WFFamily(p);
    assert cs[j].Leaf? == cs[i].Leaf? && cs[j + 1].Leaf? == cs[i].Leaf?;
    var s := if j == i then j + 1 else j;
    assert |cs[i].keys| == MinOf(cfg, cs[i]) - 1;
    SizedLean(cfg, cs[s], false);
    assert |cs[s].keys| == MinOf(cfg, cs[i]);
  }

  /** The repair of a dented parent: steal, merge or nothing, each with its guarantee. */
  lemma RepairChildCorrect<V>(cfg: Config, p: Node<V>, i: int, lo: Option<int>, hi: Option<int>, h: int, isRoot: bool)
    requires Dented(cfg, p, i, lo, hi, h, isRoot)
    ensures Family(p) && Repaired(cfg, p, RepairChild(cfg, p, i), lo, hi, h, isRoot)
  {
    var cs := p.children;
    WFFamily(p);
    if IsNodeBalanced(cfg, cs[i]) {
      RepairBalanced(cfg, p, i, lo, hi, h, isRoot);
    } else if i > 0 && CanLend(cfg, cs[i - 1]) {
      RepairStealLeft(cfg, p, i, lo, hi, h, isRoot);
    } else if i + 1 < |cs| && CanLend(cfg, cs[i + 1]) {
      RepairStealRight(cfg, p, i, lo, hi, h, isRoot);
    } else {
      RepairMerge(cfg, p, i, lo, hi, h, isRoot);
    }
  }

  lemma RepairBalanced<V>(cfg: Config, p: Node<V>, i: int, lo: Option<int>, hi: Option<int>, h: int, isRoot: bool)
    requires Dented(cfg, p, i, lo, hi, h, isRoot) && IsNodeBalanced(cfg, p.children[i])
    ensures Family(p) && Repaired(cfg, p, RepairChild(cfg, p, i), lo, hi, h, isRoot)
  {
    var ks, cs := p.keys, p.children;
    WFFamily(p);
    BalanceNodeOrdered(ks, cs, lo, hi, i);
    assert Internal(BalanceNode(ks, cs, i), cs) == p;
    LeanBalanced(cfg, cs[i]);
    assert RepairChild(cfg, p, i) == Ok(Pending(p));
  }

  lemma RepairStealLeft<V>(cfg: Config, p: Node<V>, i: int, lo: Option<int>, hi: Option<int>, h: int, isRoot: bool)
    requires Dented(cfg, p, i, lo, hi, h, isRoot) && !IsNodeBalanced(cfg, p.children[i])
    requires i > 0 && CanLend(cfg, p.children[i - 1])
    ensures Family(p) && Repaired(cfg, p, RepairChild(cfg, p, i), lo, hi, h, isRoot)
  {
    var ks, cs := p.keys, p.children;
    WFFamily(p);
    BalanceNodeOrdered(ks, cs, lo, hi, i);
    assert Internal(BalanceNode(ks, cs, i), cs) == p;
    StealLeftCorrect(cfg, p, i, lo, hi, h, isRoot);
    assert RepairChild(cfg, p, i) == Ok(Settled(StealFromLeft(ks, cs, i)));
    SizedLean(cfg, StealFromLeft(ks, cs, i), isRoot);
  }

  lemma RepairStealRight<V>(cfg: Config, p: Node<V>, i: int, lo: Option<int>, hi: Option<int>, h: int, isRoot: bool)
    requires Dented(cfg, p, i, lo, hi, h, isRoot) && !IsNodeBalanced(cfg, p.children[i])
    requires !(i > 0 && CanLend(cfg, p.children[i - 1])) && i + 1 < |p.children| && CanLend(cfg, p.children[i + 1])
    ensures Family(p) && Repaired(cfg, p, RepairChild(cfg, p, i), lo, hi, h, isRoot)
  {
    var ks, cs := p.keys, p.children;
    WFFamily(p);
    BalanceNodeOrdered(ks, cs, lo, hi, i);
    assert Internal(BalanceNode(ks, cs, i), cs) == p;
    StealRightCorrect(cfg, p, i, lo, hi, h, isRoot);
    assert RepairChild(cfg, p, i) == Ok(Settled(StealFromRight(ks, cs, i)));
    SizedLean(cfg, StealFromRight(ks, cs, i), isRoot);
  }

  lemma RepairMerge<V>(cfg: Config, p: Node<V>, i: int, lo: Option<int>, hi: Option<int>, h: int, isRoot: bool)
    requires Dented(cfg, p, i, lo, hi, h, isRoot) && !IsNodeBalanced(cfg, p.children[i])
    requires !(i > 0 && CanLend(cfg, p.children[i - 1])) && !(i + 1 < |p.children| && CanLend(cfg, p.children[i + 1]))
    ensures Family(p) && Repaired(cfg, p, RepairChild(cfg, p, i), lo, hi, h, isRoot)
  {
    var ks, cs := p.keys, p.children;
    WFFamily(p);
    BalanceNodeOrdered(ks, cs, lo, hi, i);
    assert Internal(BalanceNode(ks, cs, i), cs) == p;
    var j := if i > 0 then i - 1 else i;
    MergeCorrect(cfg, p, i, j, lo, hi, h, isRoot);
    assert RepairChild(cfg, p, i) == Ok(Pending(MergeAt(ks, cs, j)));
  }

  // ---------------------------------------------------------------- the recursive deletion

  /** A subtree deletion descends into: the invariant at its level, with `k` inside its bounds. */
  ghost predicate DFit<V>(cfg: Config, n: Node<V>, k: int, lo: Option<int>, hi: Option<int>, h: int, isRoot: bool)
  {
    ValidConfig(cfg) && WF(n) && HasHeight(n, h) && Ordered(n, lo, hi) && Sized(cfg, n, isRoot)
    && Above(lo, k) && AtMost(hi, k)
  }

  /**
   * What deleting `k` below a fitting subtree gives: a node of the same kind,
   * height and bounds holding the old entries less `k`'s, at most one key
   * short of its minimum, and within its bounds once balancing has stopped.
   */
  ghost predicate Shrank<V>(cfg: Config, n: Node<V>, r: Result<Carry<V>>, k: int, lo: Option<int>, hi: Option<int>, h: int, isRoot: bool)
  {
    r.Ok? && WF(r.value.node) && r.value.node.Leaf? == n.Leaf? && HasHeight(r.value.node, h)
    && Ordered(r.value.node, lo, hi) && Entries(r.value.node) == RemoveKey(Entries(n), k)
    && Lean(cfg, r.value.node, isRoot) && (r.value.Settled? ==> Sized(cfg, r.value.node, isRoot))
  }

  lemma {:induction false} DeleteRecCorrect<V>(cfg: Config, n: Node<V>, k: int, lo: Option<int>, hi: Option<int>, h: int, isRoot: bool)
    requires DFit(cfg, n, k, lo, hi, h, isRoot)
    ensures Shrank(cfg, n, DeleteRec(cfg, n, k), k, lo, hi, h, isRoot)
    decreases n
  {
    match n
    case Leaf(ks, vs) =>
      LeafShrank(cfg, ks, vs, k, lo, hi, isRoot);
    case Internal(ks, cs) =>
      var i := BinarySearch.Search(ks, k);
      ChildBounds(ks, cs, lo, hi, k);
      DeleteRecCorrect(cfg, cs[i], k, LoOf(ks, lo, i), HiOf(ks, hi, i), h - 1, false);
      var carry := DeleteRec(cfg, cs[i], k).value;
      WFFamily(n);
      assert DeleteRec(cfg, n, k) == Repair(cfg, Crumb(ks, cs, i), carry);
      RepairCorrect(cfg, ks, cs, k, lo, hi, h, isRoot, carry);
  }

  /** Every entry of a leaf has its key among the leaf's keys. */
  lemma ZipHasKey<V>(ks: seq<int>, vs: seq<V>, k: int)
    requires |ks| == |vs|
    ensures HasKey(Zip(ks, vs), k) ==> k in ks
  {
    if HasKey(Zip(ks, vs), k) {
      var e :| e in Zip(ks, vs) && e.key == k;
      var j :| 0 <= j < |ks| && Zip(ks, vs)[j] == e;
    }
  }

  /** The leaf's own step. */
  lemma LeafShrank<V>(cfg: Config, ks: seq<int>, vs: seq<V>, k: int, lo: Option<int>, hi: Option<int>, isRoot: bool)
    requires DFit(cfg, Leaf(ks, vs), k, lo, hi, 1, isRoot)
    ensures Shrank(cfg, Leaf(ks, vs), LeafStep(Leaf(ks, vs), k), k, lo, hi, 1, isRoot)
  {
    DeleteFromLeafNodeSpec(ks, vs, k);
    assert BinarySearch.Sorted(ks);
    if DeleteFromLeafNode(ks, vs, k).None? {
      ZipHasKey(ks, vs, k);
    } else {
      var i := BinarySearch.Search(ks, k);
      LeafCutOrdered(ks, vs, i, lo, hi);
    }
  }

  /** Cutting a pair out of an ordered leaf keeps it within its bounds. */
  lemma LeafCutOrdered<V>(ks: seq<int>, vs: seq<V>, i: int, lo: Option<int>, hi: Option<int>)
    requires |ks| == |vs| && Ordered(Leaf(ks, vs), lo, hi) && 0 <= i < |ks|
    ensures Ordered(Leaf(ks[..i] + ks[i + 1..], vs[..i] + vs[i + 1..]), lo, hi)
  {
    var ks' := ks[..i] + ks[i + 1..];
    assert forall a :: 0 <= a < |ks'| ==> ks'[a] == if a < i then ks[a] else ks[a + 1];
    CutSorted(ks, i);
  }

  /** A child at most one key short puts its parent in the state the repair starts from. */
  lemma PendingDented<V>(cfg: Config, ks: seq<int>, cs: seq<Node<V>>, lo: Option<int>, hi: Option<int>, h: int, isRoot: bool, i: int, n: Node<V>)
    requires ValidConfig(cfg) && WF(Internal(ks, cs)) && HasHeight(Internal(ks, cs), h) && Ordered(Internal(ks, cs), lo, hi)
    requires Sized(cfg, Internal(ks, cs), isRoot) && 0 <= i < |cs|
    requires WF(n) && n.Leaf? == cs[i].Leaf? && HasHeight(n, h - 1)
    requires Ordered(n, LoOf(ks, lo, i), HiOf(ks, hi, i)) && Lean(cfg, n, false)
    ensures Dented(cfg, Internal(ks, cs[i := n]), i, lo, hi, h, isRoot)
  {
    ReplaceOrdered(ks, cs, lo, hi, h, i, n);
    var cs' := cs[i := n];
    assert forall j :: 0 <= j < |cs'| && j != i ==> cs'[j] == cs[j];
  }

  /** A child replaced by a well-formed node of its kind, height and bounds keeps the parent's shape and order. */
  lemma ReplaceOrdered<V>(ks: seq<int>, cs: seq<Node<V>>, lo: Option<int>, hi: Option<int>, h: int, i: int, n: Node<V>)
    requires WF(Internal(ks, cs)) && HasHeight(Internal(ks, cs), h) && Ordered(Internal(ks, cs), lo, hi) && 0 <= i < |cs|
    requires WF(n) && n.Leaf? == cs[i].Leaf? && HasHeight(n, h - 1) && Ordered(n, LoOf(ks, lo, i), HiOf(ks, hi, i))
    ensures var p := Internal(ks, cs[i := n]);
      WF(p) && HasHeight(p, h) && Ordered(p, lo, hi)
  {
    var cs' := cs[i := n];
    assert forall j :: 0 <= j < |cs'| ==> cs'[j].Leaf? == cs[j].Leaf?;
  }

  /** The parent's entries once child `i`, the only one that can hold `k`, has lost `k`. */
  lemma MiddleRemove<V>(ks: seq<int>, cs: seq<Node<V>>, lo: Option<int>, hi: Option<int>, i: int, k: int, n: Node<V>)
    requires WF(Internal(ks, cs)) && Ordered(Internal(ks, cs), lo, hi) && 0 <= i < |cs|
    requires Above(LoOf(ks, lo, i), k) && AtMost(HiOf(ks, hi, i), k)
    requires Entries(n) == RemoveKey(Entries(cs[i]), k)
    ensures Entries(Internal(ks, cs[i := n])) == RemoveKey(Entries(Internal(ks, cs)), k)
  {
    OnlyChild(ks, cs, lo, hi, i, k);
    BPlusInsertProof.ReplaceEntries(ks, cs, i, n);
    RemoveKeyMiddle(Flatten(Parts(cs)[..i]), Entries(cs[i]), Flatten(Parts(cs)[i + 1..]), k);
  }

  /** One level of the climb: the parent takes the child back and, if needed, repairs it. */
  lemma RepairCorrect<V>(cfg: Config, ks: seq<int>, cs: seq<Node<V>>, k: int, lo: Option<int>, hi: Option<int>, h: int, isRoot: bool,
                         carry: Carry<V>)
    requires DFit(cfg, Internal(ks, cs), k, lo, hi, h, isRoot)
    requires var i := BinarySearch.Search(ks, k);
      0 <= i < |cs| && Shrank(cfg, cs[i], Ok(carry), k, LoOf(ks, lo, i), HiOf(ks, hi, i), h - 1, false)
    ensures Family(Internal(ks, cs))
    ensures Shrank(cfg, Internal(ks, cs), Repair(cfg, Crumb(ks, cs, BinarySearch.Search(ks, k)), carry), k, lo, hi, h, isRoot)
  {
    var i := BinarySearch.Search(ks, k);
    WFFamily(Internal(ks, cs));
    ChildBounds(ks, cs, lo, hi, k);
    var n := carry.node;
    MiddleRemove(ks, cs, lo, hi, i, k, n);
    var p := Internal(ks, cs[i := n]);
    assert Rebuild(Crumb(ks, cs, i), n) == p;
    if carry.Settled? {
      BPlusInsertProof.ReplaceShape(cfg, ks, cs, lo, hi, h, isRoot, i, n);
      SizedLean(cfg, p, isRoot);
    } else {
      PendingDented(cfg, ks, cs, lo, hi, h, isRoot, i, n);
      RepairChildCorrect(cfg, p, i, lo, hi, h, isRoot);
    }
  }

  // ---------------------------------------------------------------- the root and the tree

  /** A root at most one key short that still has a key, or is a leaf, meets the root's bounds. */
  lemma LeanRoot<V>(cfg: Config, n: Node<V>)
    requires Lean(cfg, n, true) && (n.Internal? ==> |n.keys| >= 1)
    ensures Sized(cfg, n, true)
  {
  }

  /** The root step: a root a merge left without keys gives way to its only child, one level lower. */
  lemma FinishDeleteCorrect<V>(cfg: Config, n: Node<V>, carry: Carry<V>, k: int, h: int)
    requires ValidConfig(cfg) && Shrank(cfg, n, Ok(carry), k, None, None, h, true)
    ensures var s := FinishDelete(carry);
      Inv(BTree(s.root, cfg, if s.shrank then h - 1 else h)) && Entries(s.root) == RemoveKey(Entries(n), k)
  {
    var m := carry.node;
    if carry.Pending? && m.Internal? && |m.keys| == 0 {
      var c := m.children[0];
      assert Ordered(c, LoOf(m.keys, None, 0), HiOf(m.keys, None, 0));
      SizedRoot(cfg, c);
      EntriesInternal(m.keys, m.children);
      assert m.children == [c];
      assert Parts([c]) == [Entries(c)];
      FlattenSingle(Entries(c));
    } else if carry.Pending? {
      LeanRoot(cfg, m);
    }
  }

  lemma OutcomeOk<V>(t: BTree<V>, s: Shrunk<V>, ret: Option<bool>)
    ensures Outcome(t, Ok(s), ret) == Ok(Deleted(BTree(s.root, t.cfg, if s.shrank then t.height - 1 else t.height), ret))
  {
  }
}
