/**
 * The abstract view of a tree: the sequence of its leaf entries in key order,
 * with reference definitions of lookup, insertion and removal on it.
 */
module OrderedMap {
  import opened Wrappers
  import opened Seqs

  /** One key with its value. */
  datatype Entry<V> = Entry(key: int, value: V)

  /** Pairs keys with values position by position, up to the shorter of the two. */
  function Zip<V>(keys: seq<int>, values: seq<V>): (r: seq<Entry<V>>)
    ensures |r| == if |keys| < |values| then |keys| else |values|
    ensures forall i :: 0 <= i < |r| ==> r[i] == Entry(keys[i], values[i])
  {
    var n := if |keys| < |values| then |keys| else |values|;
    seq(n, i requires 0 <= i < n => Entry(keys[i], values[i]))
  }

  /** Zipping distributes over concatenation when the left halves are parallel. */
  lemma ZipAppend<V>(k1: seq<int>, k2: seq<int>, v1: seq<V>, v2: seq<V>)
    requires |k1| == |v1| && |k2| == |v2|
    ensures Zip(k1 + k2, v1 + v2) == Zip(k1, v1) + Zip(k2, v2)
  {
  }

  /** Keys appear in increasing order, so no key appears twice. */
  predicate Ascending<V>(es: seq<Entry<V>>)
  {
    forall i, j :: 0 <= i < j < |es| ==> es[i].key < es[j].key
  }

  ghost predicate HasKey<V>(es: seq<Entry<V>>, k: int)
  {
    exists e :: e in es && e.key == k
  }

  /** A lower bound that may be absent (no bound). */
  predicate Above(lo: Option<int>, k: int)
  {
    lo.None? || lo.value < k
  }

  /** An upper bound that may be absent, inclusive. */
  predicate AtMost(hi: Option<int>, k: int)
  {
    hi.None? || k <= hi.value
  }

  /** An upper bound that may be absent, exclusive. */
  predicate Below(hi: Option<int>, k: int)
  {
    hi.None? || k < hi.value
  }

  /** Every key lies in the half-open range `(lo, hi]`. */
  ghost predicate KeysWithin<V>(es: seq<Entry<V>>, lo: Option<int>, hi: Option<int>)
  {
    forall e :: e in es ==> Above(lo, e.key) && AtMost(hi, e.key)
  }

  /** The value of the first entry with key `k`. */
  function Lookup<V>(es: seq<Entry<V>>, k: int): (r: Option<V>)
    ensures r.None? <==> !HasKey(es, k)
    ensures r.Some? ==> Entry(k, r.value) in es
  {
    if |es| == 0 then None
    else if es[0].key == k then Some(es[0].value)
    else
      var r := Lookup(es[1..], k);
      InCons(es);
      r
  }

  /** `es` with `Entry(k, v)` placed before the first key not below `k`. */
  function InsertEntry<V>(es: seq<Entry<V>>, k: int, v: V): (r: seq<Entry<V>>)
    ensures |r| == |es| + 1
  {
    if |es| == 0 || k <= es[0].key then [Entry(k, v)] + es
    else [es[0]] + InsertEntry(es[1..], k, v)
  }

  /** Insertion adds exactly the new entry. */
  lemma {:induction false} InsertEntryContents<V>(es: seq<Entry<V>>, k: int, v: V)
    ensures multiset(InsertEntry(es, k, v)) == multiset(es) + multiset{Entry(k, v)}
    ensures forall e :: e in InsertEntry(es, k, v) <==> e == Entry(k, v) || e in es
  {
    if |es| > 0 && k > es[0].key {
      InsertEntryContents(es[1..], k, v);
      assert es == [es[0]] + es[1..];
    }
  }

  /** `es` without its first entry with key `k`. */
  function RemoveKey<V>(es: seq<Entry<V>>, k: int): (r: seq<Entry<V>>)
    ensures !HasKey(es, k) ==> r == es
    ensures HasKey(es, k) ==> |r| == |es| - 1
    ensures forall e :: e in r ==> e in es
  {
    if |es| == 0 then []
    else if es[0].key == k then
      assert es == [es[0]] + es[1..];
      es[1..]
    else
      assert es == [es[0]] + es[1..];
      InCons(es);
      [es[0]] + RemoveKey(es[1..], k)
  }

  /** Removal keeps every entry with another key. */
  lemma {:induction false} RemoveKeyKeeps<V>(es: seq<Entry<V>>, k: int, e: Entry<V>)
    requires e in es && e.key != k
    ensures e in RemoveKey(es, k)
  {
    assert es == [es[0]] + es[1..];
    if e != es[0] && es[0].key != k {
      RemoveKeyKeeps(es[1..], k, e);
    }
  }

  /** Removal takes out exactly the entry the lookup sees. */
  lemma {:induction false} RemoveKeyContents<V>(es: seq<Entry<V>>, k: int)
    requires HasKey(es, k)
    ensures multiset(RemoveKey(es, k)) + multiset{Entry(k, Lookup(es, k).value)} == multiset(es)
  {
    InCons(es);
    assert es == [es[0]] + es[1..];
    if es[0].key != k {
      RemoveKeyContents(es[1..], k);
    }
  }

  lemma InCons<V>(es: seq<Entry<V>>)
    requires |es| > 0
    ensures forall e :: e in es <==> e == es[0] || e in es[1..]
  {
    assert es == [es[0]] + es[1..];
  }

  lemma {:induction false} LookupAppend<V>(a: seq<Entry<V>>, b: seq<Entry<V>>, k: int)
    ensures Lookup(a + b, k) == if HasKey(a, k) then Lookup(a, k) else Lookup(b, k)
  {
    if |a| > 0 {
      assert (a + b)[1..] == a[1..] + b;
      assert forall e :: e in a <==> e == a[0] || e in a[1..];
      LookupAppend(a[1..], b, k);
    } else {
      assert a + b == b;
    }
  }

  /** In an ascending sequence, the lookup of a stored key returns the value stored with it. */
  lemma {:induction false} LookupAt<V>(es: seq<Entry<V>>, i: int)
    requires Ascending(es) && 0 <= i < |es|
    ensures Lookup(es, es[i].key) == Some(es[i].value)
  {
    if i > 0 {
      assert es[0].key < es[i].key;
      assert es[1..][i - 1] == es[i];
      LookupAt(es[1..], i - 1);
    }
  }

  /** Inserting `k` changes the lookup of `k` and of nothing else. */
  lemma {:induction false} LookupInsert<V>(es: seq<Entry<V>>, k: int, v: V, k': int)
    ensures Lookup(InsertEntry(es, k, v), k') == if k' == k then Some(v) else Lookup(es, k')
  {
    if |es| == 0 || k <= es[0].key {
      assert (InsertEntry(es, k, v))[1..] == es;
    } else {
      assert InsertEntry(es, k, v)[1..] == InsertEntry(es[1..], k, v);
      LookupInsert(es[1..], k, v, k');
    }
  }

  /** Insertion of an absent key keeps the keys ascending. */
  lemma {:induction false} InsertEntryAscending<V>(es: seq<Entry<V>>, k: int, v: V)
    requires Ascending(es) && !HasKey(es, k)
    ensures Ascending(InsertEntry(es, k, v))
  {
    if |es| == 0 || k <= es[0].key {
      if |es| > 0 {
        assert es[0] in es;
      }
      forall e | e in es ensures k < e.key {
        var j :| 0 <= j < |es| && es[j] == e;
        assert es[0].key <= es[j].key;
      }
      AscendingCons(Entry(k, v), es);
    } else {
      InCons(es);
      InsertEntryAscending(es[1..], k, v);
      var r := InsertEntry(es[1..], k, v);
      InsertEntryContents(es[1..], k, v);
      forall e | e in r ensures es[0].key < e.key {
        if e != Entry(k, v) {
          assert e in multiset(r);
          assert e in multiset(es[1..]);
          var j :| 0 <= j < |es[1..]| && es[1..][j] == e;
          assert es[j + 1] == e;
        }
      }
      AscendingCons(es[0], r);
    }
  }

  /** When everything left of the cut is smaller than `k`, insertion happens right of it. */
  lemma {:induction false} InsertEntryAppendLeft<V>(a: seq<Entry<V>>, b: seq<Entry<V>>, k: int, v: V)
    requires forall e :: e in a ==> e.key < k
    ensures InsertEntry(a + b, k, v) == a + InsertEntry(b, k, v)
  {
    if |a| == 0 {
      assert a + b == b;
    } else {
      assert a[0] in a;
      assert (a + b)[0] == a[0] && (a + b)[1..] == a[1..] + b;
      assert forall e :: e in a[1..] ==> e in a;
      InsertEntryAppendLeft(a[1..], b, k, v);
    }
  }

  /** When everything right of the cut is at least `k`, insertion happens left of it. */
  lemma {:induction false} InsertEntryAppendRight<V>(a: seq<Entry<V>>, b: seq<Entry<V>>, k: int, v: V)
    requires forall e :: e in b ==> k <= e.key
    ensures InsertEntry(a + b, k, v) == InsertEntry(a, k, v) + b
  {
    if |a| == 0 {
      assert a + b == b;
      if |b| > 0 {
        assert b[0] in b;
      }
    } else {
      assert (a + b)[0] == a[0] && (a + b)[1..] == a[1..] + b;
      if k <= a[0].key {
        assert InsertEntry(a + b, k, v) == [Entry(k, v)] + (a + b);
      } else {
        InsertEntryAppendRight(a[1..], b, k, v);
        assert InsertEntry(a + b, k, v) == [a[0]] + (InsertEntry(a[1..], k, v) + b);
      }
    }
  }

  /** Insertion into the middle of a three-way cut. */
  lemma InsertEntryMiddle<V>(a: seq<Entry<V>>, m: seq<Entry<V>>, b: seq<Entry<V>>, k: int, v: V)
    requires forall e :: e in a ==> e.key < k
    requires forall e :: e in b ==> k < e.key
    ensures InsertEntry(a + m + b, k, v) == a + InsertEntry(m, k, v) + b
  {
    InsertEntryAppendRight(a + m, b, k, v);
    InsertEntryAppendLeft(a, m, k, v);
  }

  lemma {:induction false} RemoveKeyAppend<V>(a: seq<Entry<V>>, b: seq<Entry<V>>, k: int)
    ensures RemoveKey(a + b, k) == if HasKey(a, k) then RemoveKey(a, k) + b else a + RemoveKey(b, k)
  {
    if |a| == 0 {
      assert a + b == b;
    } else {
      assert (a + b)[0] == a[0] && (a + b)[1..] == a[1..] + b;
      InCons(a);
      if a[0].key != k {
        assert HasKey(a, k) == HasKey(a[1..], k);
        RemoveKeyAppend(a[1..], b, k);
        assert RemoveKey(a + b, k) == [a[0]] + RemoveKey(a[1..] + b, k);
        if HasKey(a, k) {
          assert RemoveKey(a, k) == [a[0]] + RemoveKey(a[1..], k);
        } else {
          assert [a[0]] + (a[1..] + RemoveKey(b, k)) == a + RemoveKey(b, k);
        }
      } else {
        assert a[0] in a;
      }
    }
  }

  /** Removal from the middle of a three-way cut. */
  lemma RemoveKeyMiddle<V>(a: seq<Entry<V>>, m: seq<Entry<V>>, b: seq<Entry<V>>, k: int)
    requires !HasKey(a, k) && !HasKey(b, k)
    ensures RemoveKey(a + m + b, k) == a + RemoveKey(m, k) + b
  {
    RemoveKeyAppend(a + m, b, k);
    RemoveKeyAppend(a, m, k);
  }

  /** In an ascending sequence, removing `k` removes every trace of it and nothing else. */
  lemma {:induction false} LookupRemove<V>(es: seq<Entry<V>>, k: int, k': int)
    requires Ascending(es)
    ensures Lookup(RemoveKey(es, k), k') == if k' == k then None else Lookup(es, k')
  {
    if |es| > 0 {
      if es[0].key == k {
        if k' == k {
          forall e | e in es[1..] ensures e.key != k {
            var j :| 0 <= j < |es[1..]| && es[1..][j] == e;
            assert es[j + 1] == e;
          }
        }
      } else {
        assert RemoveKey(es, k)[1..] == RemoveKey(es[1..], k);
        LookupRemove(es[1..], k, k');
      }
    }
  }

  /** Removal keeps the keys ascending. */
  lemma {:induction false} RemoveKeyAscending<V>(es: seq<Entry<V>>, k: int)
    requires Ascending(es)
    ensures Ascending(RemoveKey(es, k))
  {
    if |es| > 0 && es[0].key != k {
      RemoveKeyAscending(es[1..], k);
      var r := RemoveKey(es[1..], k);
      forall e | e in r ensures es[0].key < e.key {
        var j :| 0 <= j < |es[1..]| && es[1..][j] == e;
        assert es[j + 1] == e;
      }
      AscendingCons(es[0], r);
    }
  }

  lemma AscendingCons<V>(x: Entry<V>, r: seq<Entry<V>>)
    requires Ascending(r) && forall e :: e in r ==> x.key < e.key
    ensures Ascending([x] + r)
  {
    forall i, j | 0 <= i < j < |[x] + r| ensures ([x] + r)[i].key < ([x] + r)[j].key {
      if i == 0 {
        assert r[j - 1] in r;
      }
    }
  }

  /** A range that contains `(lo, hi]`. */
  predicate Contains(lo': Option<int>, hi': Option<int>, lo: Option<int>, hi: Option<int>)
  {
    (lo'.None? || (lo.Some? && lo'.value <= lo.value))
    && (hi'.None? || (hi.Some? && hi.value <= hi'.value))
  }

  lemma KeysWithinWiden<V>(es: seq<Entry<V>>, lo: Option<int>, hi: Option<int>, lo': Option<int>, hi': Option<int>)
    requires KeysWithin(es, lo, hi) && Contains(lo', hi', lo, hi)
    ensures KeysWithin(es, lo', hi')
  {
  }

  lemma KeysWithinAppend<V>(a: seq<Entry<V>>, b: seq<Entry<V>>, lo: Option<int>, hi: Option<int>)
    requires KeysWithin(a, lo, hi) && KeysWithin(b, lo, hi)
    ensures KeysWithin(a + b, lo, hi)
  {
  }

  /** A bound every part keeps is kept by their concatenation. */
  lemma FlattenWithin<V>(ss: seq<seq<Entry<V>>>, lo: Option<int>, hi: Option<int>)
    requires forall i :: 0 <= i < |ss| ==> KeysWithin(ss[i], lo, hi)
    ensures KeysWithin(Flatten(ss), lo, hi)
  {
    forall e | e in Flatten(ss) ensures Above(lo, e.key) && AtMost(hi, e.key) {
      FlattenIn(ss, e);
    }
  }

  /** Keys at most `b` cannot include a key above `b`. */
  lemma MissingBelow<V>(es: seq<Entry<V>>, lo: Option<int>, b: Option<int>, k: int)
    requires b.Some? && KeysWithin(es, lo, b) && Above(b, k)
    ensures !HasKey(es, k)
  {
    forall e | e in es ensures e.key != k {
    }
  }

  /** Keys above `b` cannot include a key at most `b`. */
  lemma MissingAbove<V>(es: seq<Entry<V>>, b: Option<int>, hi: Option<int>, k: int)
    requires b.Some? && KeysWithin(es, b, hi) && AtMost(b, k)
    ensures !HasKey(es, k)
  {
    forall e | e in es ensures e.key != k {
    }
  }

  /** Two ascending runs, the first entirely below the second, make one ascending run. */
  lemma AscendingAppend<V>(a: seq<Entry<V>>, b: seq<Entry<V>>, lo: Option<int>, mid: Option<int>, hi: Option<int>)
    requires Ascending(a) && Ascending(b)
    requires mid.Some? && KeysWithin(a, lo, mid) && KeysWithin(b, mid, hi)
    ensures Ascending(a + b)
  {
    forall i, j | 0 <= i < j < |a + b| ensures (a + b)[i].key < (a + b)[j].key {
      if i < |a| && |a| <= j {
        assert a[i] in a && b[j - |a|] in b;
      }
    }
  }
}
