/**
 * The top-level deletion theorems: `DeleteKey` on a tree meeting the
 * invariant succeeds, keeps the invariant and removes exactly the key's
 * entry; search afterwards misses the key and finds every other key; and
 * deleting every key brings the tree back to its initial empty root.
 */
module BPlusDeleteSpec {
  import opened Wrappers
  import opened Seqs
  import opened OrderedMap
  import opened BPlusTree
  import opened BPlusDelete
  import opened BPlusDeleteProof

  /**
   * Deleting from a tree that keeps the invariant succeeds and keeps it; the
   * entries lose exactly `k`'s, and `false` comes back exactly when `k` was
   * not there.
   */
  lemma DeleteCorrect<V>(t: BTree<V>, k: int)
    requires Inv(t)
    ensures DeleteKey(t, k).Ok?
    ensures var d := DeleteKey(t, k).value;
      Inv(d.tree) && d.tree.cfg == t.cfg
      && Entries(d.tree.root) == RemoveKey(Entries(t.root), k)
      && d.ret == if HasKey(Entries(t.root), k) then None else Some(false)
  {
    var s := RootDeleteCorrect(t.cfg, t.root, t.height, k);
    DeleteFromRec(t, k, s);
  }

  /** What the recursive deletion from a root meeting the invariant gives, with the root step. */
  lemma RootDeleteCorrect<V>(cfg: Config, n: Node<V>, h: int, k: int) returns (s: Shrunk<V>)
    requires Inv(BTree(n, cfg, h))
    ensures ValidConfig(cfg) && WF(n) && Search(n, k) == Lookup(Entries(n), k)
    ensures FinishResult(DeleteRec(cfg, n, k)) == Ok(s)
    ensures Inv(BTree(s.root, cfg, if s.shrank then h - 1 else h))
    ensures Entries(s.root) == RemoveKey(Entries(n), k)
  {
    assert DFit(cfg, n, k, None, None, h, true);
    DeleteRecCorrect(cfg, n, k, None, None, h, true);
    var carry := DeleteRec(cfg, n, k).value;
    FinishDeleteCorrect(cfg, n, carry, k, h);
    s := FinishDelete(carry);
    SearchIsLookup(n, k, None, None);
  }

  /** `DeleteCorrect` from what the recursive deletion gives. */
  lemma DeleteFromRec<V>(t: BTree<V>, k: int, s: Shrunk<V>)
    requires ValidConfig(t.cfg) && WF(t.root) && Search(t.root, k) == Lookup(Entries(t.root), k)
    requires FinishResult(DeleteRec(t.cfg, t.root, k)) == Ok(s)
    requires Inv(BTree(s.root, t.cfg, if s.shrank then t.height - 1 else t.height))
    requires Entries(s.root) == RemoveKey(Entries(t.root), k)
    ensures DeleteKey(t, k).Ok?
    ensures var d := DeleteKey(t, k).value;
      Inv(d.tree) && d.tree.cfg == t.cfg
      && Entries(d.tree.root) == RemoveKey(Entries(t.root), k)
      && d.ret == if HasKey(Entries(t.root), k) then None else Some(false)
  {
    DeleteKeyIsDeleteRec(t, k);
    OutcomeOk(t, s, if Search(t.root, k).Some? then None else Some(false));
  }

  /** After deleting `k`, search misses `k` and finds every other key as before. */
  lemma DeleteThenSearch<V>(t: BTree<V>, k: int, k': int)
    requires Inv(t)
    ensures DeleteKey(t, k).Ok? && Inv(DeleteKey(t, k).value.tree)
    ensures Search(DeleteKey(t, k).value.tree.root, k') == if k' == k then None else Search(t.root, k')
  {
    DeleteCorrect(t, k);
    EntriesOrdered(t.root, None, None);
    SearchTree(DeleteKey(t, k).value.tree, k');
    SearchTree(t, k');
    LookupRemove(Entries(t.root), k, k');
  }

  /** A subtree below the root holds at least one entry. */
  lemma {:induction false} NonEmpty<V>(cfg: Config, n: Node<V>)
    requires ValidConfig(cfg) && WF(n) && Sized(cfg, n, false)
    ensures |Entries(n)| > 0
    decreases n
  {
    ConfigFacts(cfg);
    match n
    case Leaf(ks, vs) =>
    case Internal(ks, cs) =>
      NonEmpty(cfg, cs[0]);
      EntriesInternal(ks, cs);
      FlattenFront(Parts(cs));
  }

  /** The only tree that keeps the invariant without entries is the initial one. */
  lemma EmptyTree<V>(t: BTree<V>)
    requires Inv(t) && Entries(t.root) == []
    ensures t.root == Leaf([], []) && t.height == 1
  {
    if t.root.Internal? {
      NonEmpty(t.cfg, t.root.children[0]);
      EntriesInternal(t.root.keys, t.root.children);
      FlattenFront(Parts(t.root.children));
      assert false;
    }
  }

  /** Deleting the keys of `ks` one after the other, as the tests do. */
  function DeleteAll<V>(t: BTree<V>, ks: seq<int>): (r: BTree<V>)
    requires Inv(t)
    ensures Inv(r) && r.cfg == t.cfg
    ensures forall e :: e in Entries(r.root) ==> e in Entries(t.root) && e.key !in ks
    ensures forall e :: e in Entries(t.root) && e.key !in ks ==> e in Entries(r.root)
    decreases |ks|
  {
    if |ks| == 0 then t
    else
      DeleteCorrect(t, ks[0]);
      RemoveKeyGone(t, ks[0]);
      var t' := DeleteKey(t, ks[0]).value.tree;
      var r := DeleteAll(t', ks[1..]);
      assert forall x :: x in ks ==> x == ks[0] || x in ks[1..];
      forall e | e in Entries(t.root) && e.key !in ks ensures e in Entries(t'.root) {
        RemoveKeyKeeps(Entries(t.root), ks[0], e);
      }
      r
  }

  /** Deleting `k` leaves no entry with that key. */
  lemma RemoveKeyGone<V>(t: BTree<V>, k: int)
    requires Inv(t)
    ensures !HasKey(RemoveKey(Entries(t.root), k), k)
  {
    EntriesOrdered(t.root, None, None);
    LookupRemove(Entries(t.root), k, k);
  }

  /** Deleting every key the tree holds brings it back to a lone empty leaf of height 1. */
  lemma DeleteAllEmpties<V>(t: BTree<V>, ks: seq<int>)
    requires Inv(t) && forall e :: e in Entries(t.root) ==> e.key in ks
    ensures DeleteAll(t, ks).root == Leaf([], []) && DeleteAll(t, ks).height == 1
  {
    var es := Entries(DeleteAll(t, ks).root);
    if |es| > 0 {
      FirstIn(es);
      assert false;
    }
    EmptyTree(DeleteAll(t, ks));
  }

  lemma FirstIn<T>(s: seq<T>)
    requires |s| > 0
    ensures s[0] in s
  {
  }
}
